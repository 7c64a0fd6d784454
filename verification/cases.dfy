/** `process_single_case` and the mask-name universe of `check_volume_info`. */
module CaseProcessing {
  import opened Wrappers
  import opened Strings
  import opened Sorting
  import opened Geometry
  import opened Emptiness

  /** File names considered at all. */
  const NiftiSuffix: string := ".nii.gz"

  predicate IsNifti(name: string)
  {
    EndsWith(name, NiftiSuffix)
  }

  /** An image volume as the loader presents it: its shape and its affine. */
  datatype Image = Image(shape: seq<nat>, affine: Affine)

  /** A mask volume as the loader presents it: its voxels and its affine. */
  datatype MaskScan = MaskScan(volume: Volume, affine: Affine)

  /** One entry of a case's mask folder, with what loading it would give. */
  datatype DirEntry = DirEntry(name: string, scan: MaskScan)

  /** The mask root: its sub-folders in `os.walk` order, and the listing of each. */
  datatype MaskRoot = MaskRoot(order: seq<string>, folders: map<string, seq<DirEntry>>) {
    predicate Valid()
    {
      && (forall d :: d in order ==> d in folders)
      && (forall d :: d in folders ==> forall e :: e in folders[d] ==> e.scan.volume.Valid())
    }
  }

  /** One row of the 'Volume Comparison' sheet. */
  datatype ConsistencyRecord = ConsistencyRecord(caseId: string, maskName: string, dimensionsMatch: bool, originMatch: bool)

  /** One row of the 'Mask Presence' sheet: presence (0 or 1) per mask name. */
  datatype MaskInfo = MaskInfo(caseId: string, presence: map<string, int>)

  /** One row of the 'Image Info' sheet (origin and spacing are not modelled). */
  datatype VolumeInfo = VolumeInfo(caseId: string, dimensions: seq<nat>)

  /** The `.nii.gz` entries of a listing, in listing order. */
  function Niftis(es: seq<DirEntry>): (r: seq<DirEntry>)
    ensures |r| <= |es|
    ensures forall e :: e in r <==> e in es && IsNifti(e.name)
  {
    if |es| == 0 then []
    else Niftis(es[..|es| - 1]) + (if IsNifti(es[|es| - 1].name) then [es[|es| - 1]] else [])
  }

  /** The comparison of one mask against its image: the shapes must be equal and the transforms
      close, so a mask sharing the image's transform always passes the origin check. */
  function Compare(caseId: string, image: Image, e: DirEntry): (r: ConsistencyRecord)
    ensures r.caseId == caseId && r.maskName == Stem(e.name)
    ensures r.dimensionsMatch <==> image.shape == e.scan.volume.Shape()
    ensures r.originMatch == AllClose(image.affine, e.scan.affine)
    ensures e.scan.affine == image.affine ==> r.originMatch
  {
    AllCloseReflexive(image.affine);
    ConsistencyRecord(caseId, Stem(e.name), image.shape == e.scan.volume.Shape(), AllClose(image.affine, e.scan.affine))
  }

  /** The consistency records a listing should give: one per `.nii.gz` entry, in order. */
  ghost function ExpectedRecords(caseId: string, image: Image, es: seq<DirEntry>): seq<ConsistencyRecord>
  {
    var ns := Niftis(es);
    seq(|ns|, k requires 0 <= k < |ns| => Compare(caseId, image, ns[k]))
  }

  /** Stems of the `.nii.gz` entries that hold a non-zero voxel. */
  ghost function NonEmptyStems(es: seq<DirEntry>): set<string>
    requires forall e :: e in es ==> e.scan.volume.Valid()
  {
    set e | e in es && IsNifti(e.name) && !AllZero(e.scan.volume) :: Stem(e.name)
  }

  /** The listing of a case's mask folder; a missing folder lists nothing. */
  function CaseFolder(root: MaskRoot, caseId: string): seq<DirEntry>
  {
    if caseId in root.folders then root.folders[caseId] else []
  }

  lemma NonEmptyStemsSnoc(es: seq<DirEntry>, e: DirEntry)
    requires forall d :: d in es + [e] ==> d.scan.volume.Valid()
    ensures NonEmptyStems(es + [e]) ==
      NonEmptyStems(es) + (if IsNifti(e.name) && !AllZero(e.scan.volume) then {Stem(e.name)} else {})
  {
    assert forall d :: d in es + [e] <==> d in es || d == e;
  }

  lemma ExpectedRecordsSnoc(caseId: string, image: Image, es: seq<DirEntry>, e: DirEntry)
    ensures ExpectedRecords(caseId, image, es + [e]) ==
      ExpectedRecords(caseId, image, es) + (if IsNifti(e.name) then [Compare(caseId, image, e)] else [])
  {
    assert (es + [e])[..|es + [e]| - 1] == es;
  }

  /** A presence map that holds every known mask name and every stem in `stems`, reading 1
      exactly for the stems. */
  ghost predicate PresenceMatches(presence: map<string, int>, maskNames: seq<string>, stems: set<string>)
  {
    && presence.Keys == (set m | m in maskNames) + stems
    && forall m :: m in presence ==> presence[m] == (if m in stems then 1 else 0)
  }

  lemma MarkPresent(presence: map<string, int>, maskNames: seq<string>, stems: set<string>, s: string)
    requires PresenceMatches(presence, maskNames, stems)
    ensures PresenceMatches(presence[s := 1], maskNames, stems + {s})
  {
  }

  /** One entry of the listing extends the records and the presence map as `ExpectedRecords`
      and `NonEmptyStems` say. */
  lemma ProcessStep(caseId: string, image: Image, es: seq<DirEntry>, i: nat, maskNames: seq<string>,
                    records: seq<ConsistencyRecord>, presence: map<string, int>)
    requires i < |es| && forall d :: d in es ==> d.scan.volume.Valid()
    requires records == ExpectedRecords(caseId, image, es[..i])
    requires PresenceMatches(presence, maskNames, NonEmptyStems(es[..i]))
    ensures var e := es[i];
            && ExpectedRecords(caseId, image, es[..i + 1])
               == records + (if IsNifti(e.name) then [Compare(caseId, image, e)] else [])
            && PresenceMatches(if IsNifti(e.name) && !AllZero(e.scan.volume) then presence[Stem(e.name) := 1] else presence,
                               maskNames, NonEmptyStems(es[..i + 1]))
  {
    var e := es[i];
    assert es[..i + 1] == es[..i] + [e];
    NonEmptyStemsSnoc(es[..i], e);
    ExpectedRecordsSnoc(caseId, image, es[..i], e);
    if IsNifti(e.name) && !AllZero(e.scan.volume) {
      MarkPresent(presence, maskNames, NonEmptyStems(es[..i]), Stem(e.name));
    } else {
      assert NonEmptyStems(es[..i + 1]) == NonEmptyStems(es[..i]);
    }
  }

  /** The body of the folder loop for entry `i`: a `.nii.gz` entry adds its record and, when it
      holds signal, marks its stem present; any other entry changes nothing. */
  method ScanEntry(caseId: string, image: Image, es: seq<DirEntry>, i: nat, maskNames: seq<string>,
                   records: seq<ConsistencyRecord>, presence: map<string, int>)
    returns (records': seq<ConsistencyRecord>, presence': map<string, int>)
    requires i < |es| && forall d :: d in es ==> d.scan.volume.Valid()
    requires records == ExpectedRecords(caseId, image, es[..i])
    requires PresenceMatches(presence, maskNames, NonEmptyStems(es[..i]))
    ensures records' == ExpectedRecords(caseId, image, es[..i + 1])
    ensures PresenceMatches(presence', maskNames, NonEmptyStems(es[..i + 1]))
  {
    var e := es[i];
    ProcessStep(caseId, image, es, i, maskNames, records, presence);
    records', presence' := records, presence;
    if IsNifti(e.name) {
      var empty, _ := IsMaskEmpty(e.scan.volume);
      if !empty {
        presence' := presence[Stem(e.name) := 1];
      }
      records' := records + [Compare(caseId, image, e)];
    }
  }

  /** One case: its id is the image file's stem; every known mask name starts absent; each
      `.nii.gz` file in the case's mask folder gives one consistency record and, when it holds
      signal, marks its stem present (a stem outside `maskNames` is added to the map). */
  method ProcessCase(imgFile: string, image: Image, root: MaskRoot, maskNames: seq<string>)
    returns (records: seq<ConsistencyRecord>, info: MaskInfo, volumeInfo: VolumeInfo)
    requires root.Valid()
    ensures info.caseId == volumeInfo.caseId == Stem(imgFile)
    ensures volumeInfo.dimensions == image.shape
    ensures records == ExpectedRecords(Stem(imgFile), image, CaseFolder(root, Stem(imgFile)))
    ensures PresenceMatches(info.presence, maskNames, NonEmptyStems(CaseFolder(root, Stem(imgFile))))
  {
    var caseId := Stem(imgFile);
    volumeInfo := VolumeInfo(caseId, image.shape);
    var presence := map m | m in maskNames :: 0;
    records := [];
    var es := CaseFolder(root, caseId);
    assert forall d :: d in es ==> d.scan.volume.Valid();
    var i := 0;
    while i < |es|
      invariant i <= |es|
      invariant records == ExpectedRecords(caseId, image, es[..i])
      invariant PresenceMatches(presence, maskNames, NonEmptyStems(es[..i]))
    {
      records, presence := ScanEntry(caseId, image, es, i, maskNames, records, presence);
      i := i + 1;
    }
    assert es[..i] == es;
    info := MaskInfo(caseId, presence);
  }

  /** With no mask folder the case has no records and every known mask is absent. */
  lemma MissingFolderIsAllAbsent(root: MaskRoot, caseId: string, image: Image)
    requires root.Valid() && caseId !in root.folders
    ensures ExpectedRecords(caseId, image, CaseFolder(root, caseId)) == []
    ensures NonEmptyStems(CaseFolder(root, caseId)) == {}
  {
  }

  /** Each record names its case and one `.nii.gz` file of the folder, in listing order,
      and its dimension check is exact shape equality. */
  lemma RecordsDescribeFiles(caseId: string, image: Image, es: seq<DirEntry>)
    ensures |ExpectedRecords(caseId, image, es)| == |Niftis(es)|
    ensures forall k :: 0 <= k < |Niftis(es)| ==>
      && ExpectedRecords(caseId, image, es)[k].caseId == caseId
      && ExpectedRecords(caseId, image, es)[k].maskName == Stem(Niftis(es)[k].name)
      && (ExpectedRecords(caseId, image, es)[k].dimensionsMatch <==> image.shape == Niftis(es)[k].scan.volume.Shape())
      && ExpectedRecords(caseId, image, es)[k].originMatch == AllClose(image.affine, Niftis(es)[k].scan.affine)
  {
  }

  /** A mask name is present exactly when some `.nii.gz` file with that stem holds signal. */
  lemma PresentIffSomeFileHasSignal(es: seq<DirEntry>, m: string)
    requires forall e :: e in es ==> e.scan.volume.Valid()
    ensures m in NonEmptyStems(es) <==>
      exists e :: e in es && IsNifti(e.name) && Stem(e.name) == m && !AllZero(e.scan.volume)
  {
  }

  /** The stems of the `.nii.gz` entries of a listing. */
  function NiftiStems(es: seq<DirEntry>): (r: seq<string>)
    ensures |r| == |Niftis(es)|
    ensures forall k :: 0 <= k < |r| ==> r[k] == Stem(Niftis(es)[k].name)
  {
    var ns := Niftis(es);
    seq(|ns|, k requires 0 <= k < |ns| => Stem(ns[k].name))
  }

  /** `mask_names`: the sorted stems of the `.nii.gz` files in the first sub-folder of the mask root;
      a root without sub-folders raises (it asks for the first of no sub-folders). */
  function MaskNames(root: MaskRoot): (r: Result<seq<string>>)
    requires root.Valid()
    ensures |root.order| == 0 <==> r.Err?
    ensures r.Ok? ==> Sorted(r.value)
    ensures r.Ok? ==> multiset(r.value) == multiset(NiftiStems(root.folders[root.order[0]]))
  {
    if |root.order| == 0 then Err(NoCaseFolder)
    else Ok(SortStrings(NiftiStems(root.folders[root.order[0]])))
  }

  /** Any sorted arrangement of the first folder's stems is the mask-name list. */
  lemma MaskNamesIsTheSortedArrangement(root: MaskRoot, names: seq<string>)
    requires root.Valid() && |root.order| > 0
    requires Sorted(names) && multiset(names) == multiset(NiftiStems(root.folders[root.order[0]]))
    ensures MaskNames(root) == Ok(names)
  {
    SortedUnique(MaskNames(root).value, names);
  }
}
