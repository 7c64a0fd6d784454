/** `check_volume_info`: the whole run, from folder listings and the reference table to the report. */
module Checker {
  import opened Wrappers
  import opened Strings
  import opened Cells
  import opened Schema
  import opened CaseProcessing
  import opened Reconciliation
  import opened Patching

  /** One entry of the image directory, with what loading it would give. */
  datatype ImageFile = ImageFile(name: string, image: Image)

  /** The four sheets of the analysis workbook and the patched reference sheet. */
  datatype Report = Report(
    consistency: seq<ConsistencyRecord>,
    presence: seq<MaskInfo>,
    volumes: seq<VolumeInfo>,
    comparison: seq<Entry>,
    patched: Patched)

  /** The `.nii.gz` files of the image directory, in listing order. */
  function ImageNiftis(files: seq<ImageFile>): (r: seq<ImageFile>)
    ensures forall f :: f in r <==> f in files && IsNifti(f.name)
  {
    if |files| == 0 then []
    else ImageNiftis(files[..|files| - 1]) + (if IsNifti(files[|files| - 1].name) then [files[|files| - 1]] else [])
  }

  /** The consistency records of the given image files, case after case. */
  ghost function AllRecords(files: seq<ImageFile>, root: MaskRoot): seq<ConsistencyRecord>
  {
    if |files| == 0 then []
    else
      var f := files[|files| - 1];
      AllRecords(files[..|files| - 1], root) + ExpectedRecords(Stem(f.name), f.image, CaseFolder(root, Stem(f.name)))
  }

  lemma AllRecordsSnoc(files: seq<ImageFile>, f: ImageFile, root: MaskRoot)
    ensures AllRecords(files + [f], root)
         == AllRecords(files, root) + ExpectedRecords(Stem(f.name), f.image, CaseFolder(root, Stem(f.name)))
  {
    assert (files + [f])[..|files + [f]| - 1] == files;
  }

  /** The presence record of one case, as `ProcessCase` promises it. */
  ghost predicate PresenceOf(info: MaskInfo, f: ImageFile, root: MaskRoot, maskNames: seq<string>)
    requires root.Valid()
  {
    var es := CaseFolder(root, Stem(f.name));
    && info.caseId == Stem(f.name)
    && PresenceMatches(info.presence, maskNames, NonEmptyStems(es))
  }

  /** One step of the fan-out: case `i` appends its records, its presence and its image record. */
  method ProcessNext(files: seq<ImageFile>, i: nat, root: MaskRoot, names: seq<string>,
                     consistency: seq<ConsistencyRecord>, presence: seq<MaskInfo>, volumes: seq<VolumeInfo>)
    returns (consistency': seq<ConsistencyRecord>, presence': seq<MaskInfo>, volumes': seq<VolumeInfo>)
    requires root.Valid() && i < |files|
    requires |presence| == |volumes| == i
    requires consistency == AllRecords(files[..i], root)
    requires forall k :: 0 <= k < i ==> PresenceOf(presence[k], files[k], root, names)
    requires forall k :: 0 <= k < i ==> volumes[k] == VolumeInfo(Stem(files[k].name), files[k].image.shape)
    ensures |presence'| == |volumes'| == i + 1
    ensures consistency' == AllRecords(files[..i + 1], root)
    ensures forall k :: 0 <= k < i + 1 ==> PresenceOf(presence'[k], files[k], root, names)
    ensures forall k :: 0 <= k < i + 1 ==> volumes'[k] == VolumeInfo(Stem(files[k].name), files[k].image.shape)
  {
    var records, info, volume := ProcessCase(files[i].name, files[i].image, root, names);
    assert files[..i + 1] == files[..i] + [files[i]];
    AllRecordsSnoc(files[..i], files[i], root);
    forall k | 0 <= k < i + 1 ensures PresenceOf((presence + [info])[k], files[k], root, names) {
      if k < i { assert (presence + [info])[k] == presence[k]; }
    }
    forall k | 0 <= k < i + 1
      ensures (volumes + [volume])[k] == VolumeInfo(Stem(files[k].name), files[k].image.shape)
    {
      if k < i { assert (volumes + [volume])[k] == volumes[k]; }
    }
    consistency', presence', volumes' := consistency + records, presence + [info], volumes + [volume];
  }

  /** The fan-out over the cases: one `ProcessCase` per file, results appended in order. */
  method ProcessAll(files: seq<ImageFile>, root: MaskRoot, names: seq<string>)
    returns (consistency: seq<ConsistencyRecord>, presence: seq<MaskInfo>, volumes: seq<VolumeInfo>)
    requires root.Valid()
    ensures |presence| == |volumes| == |files|
    ensures consistency == AllRecords(files, root)
    ensures forall i :: 0 <= i < |files| ==> PresenceOf(presence[i], files[i], root, names)
    ensures forall i :: 0 <= i < |files| ==> volumes[i] == VolumeInfo(Stem(files[i].name), files[i].image.shape)
  {
    consistency, presence, volumes := [], [], [];
    var i := 0;
    while i < |files|
      invariant i <= |files|
      invariant |presence| == |volumes| == i
      invariant consistency == AllRecords(files[..i], root)
      invariant forall k :: 0 <= k < i ==> PresenceOf(presence[k], files[k], root, names)
      invariant forall k :: 0 <= k < i ==> volumes[k] == VolumeInfo(Stem(files[k].name), files[k].image.shape)
    {
      consistency, presence, volumes := ProcessNext(files, i, root, names, consistency, presence, volumes);
      i := i + 1;
    }
    assert files[..i] == files;
  }

  lemma PresenceCovers(presence: seq<MaskInfo>, files: seq<ImageFile>, root: MaskRoot, names: seq<string>)
    requires root.Valid() && |presence| == |files|
    requires forall i :: 0 <= i < |files| ==> PresenceOf(presence[i], files[i], root, names)
    ensures Covers(presence, names)
  {
    forall k | 0 <= k < |presence| ensures HasAll(presence[k].presence, names) {
      assert PresenceOf(presence[k], files[k], root, names);
    }
  }

  /** The run. The worker pool finishes the cases in some order: `completed` is the list of
      `.nii.gz` image files in that order, any arrangement of the listing. It fails when the mask root
      has no sub-folder, when the reference has no case-id column or no case was processed, and when
      the sheet has data rows but no case-id header; otherwise, in completion order, every case has
      its consistency records, one presence record and one image record, the comparison has one block
      of entries per case, and the patched sheet is the patch of those records. */
  method CheckVolumeInfo(images: seq<ImageFile>, completed: seq<ImageFile>, root: MaskRoot, frame: Frame, sheet: Sheet,
                         frameText: Cell -> string, sheetText: Cell -> string) returns (r: Result<Report>)
    requires multiset(completed) == multiset(ImageNiftis(images))
    requires root.Valid() && frame.WellFormed() && sheet.WellFormed()
    ensures |root.order| == 0 ==> r == Err(NoCaseFolder)
    ensures |root.order| > 0 ==> (r.Err? <==>
      || FrameCaseIdColumn(frame.columns).None?
      || |ImageNiftis(images)| == 0
      || (|sheet.rows| > 0 && SheetSchemaOf(sheet.header, MaskNames(root).value).caseIdColumn.None?))
    ensures r.Ok? ==>
      var names := MaskNames(root).value;
      && |r.value.presence| == |r.value.volumes| == |completed|
      && r.value.consistency == AllRecords(completed, root)
      && (forall i :: 0 <= i < |completed| ==> PresenceOf(r.value.presence[i], completed[i], root, names))
      && (forall i :: 0 <= i < |completed| ==> r.value.volumes[i] == VolumeInfo(Stem(completed[i].name), completed[i].image.shape))
      && Covers(r.value.presence, names)
      && (forall f :: f in ImageNiftis(images) ==> Stem(f.name) in CaseIds(r.value.presence))
      && |r.value.comparison| == |completed| * |names|
      && Reconcile(frame, r.value.presence, names, frameText) == Ok(r.value.comparison)
      && Patch(sheet, r.value.presence, names, sheetText) == Ok(r.value.patched)
  {
    var namesOrError := MaskNames(root);
    if namesOrError.Err? {
      return Err(namesOrError.error);
    }
    var names := namesOrError.value;
    assert |completed| == |ImageNiftis(images)| by {
      assert |multiset(completed)| == |multiset(ImageNiftis(images))|;
    }
    var consistency, presence, volumes := ProcessAll(completed, root, names);
    PresenceCovers(presence, completed, root, names);
    forall f | f in ImageNiftis(images) ensures Stem(f.name) in CaseIds(presence) {
      assert f in multiset(completed);
      var i :| 0 <= i < |completed| && completed[i] == f;
      assert CaseIds(presence)[i] == presence[i].caseId;
    }
    var comparison := Reconcile(frame, presence, names, frameText);
    if comparison.Err? {
      return Err(comparison.error);
    }
    var patched := Patch(sheet, presence, names, sheetText);
    if patched.Err? {
      return Err(patched.error);
    }
    r := Ok(Report(consistency, presence, volumes, comparison.value, patched.value));
  }
}
