# AI mask checker — a Dafny model

`AI_data_checker.py` checks a set of segmentation masks against their images and against a
hand-kept reference workbook. It works in four steps:

1. For every image, each `.nii.gz` mask in the case's folder is scanned for signal in slabs of ten
   planes. The checker compares the mask's shape with the image's and compares the two spatial
   transforms with `np.allclose`.
2. It builds one presence record per case: mask name → 0 or 1.
3. It reconciles that presence with the reference table `data.xlsx`. This gives one comparison
   entry per case and mask name: found, "Column Not Found" or "Case Not Found", and whether the
   value matches.
4. It writes the computed presence into a copy of the reference sheet and fills every changed cell
   yellow.

This project models the decision logic of those steps as pure Dafny functions and methods and
proves what each step computes.

| module | file | models |
|---|---|---|
| `Wrappers` | `wrappers.dfy` | `Option`, `Result` and the two exceptions the run can raise |
| `Strings` | `strings.dfy` | `lower()`, `in` on strings, `endswith`, `split('.')[0]` |
| `Sorting` | `sorting.dfy` | Python's string order and `list.sort()` |
| `Geometry` | `geometry.dfy` | `np.allclose` with numpy's default tolerances |
| `Emptiness` | `emptiness.dfy` | `is_mask_empty` |
| `Cells` | `cells.dfy` | spreadsheet cells and the yes/no token readings |
| `Schema` | `schema.dfy` | locating the case-id and mask columns by header text |
| `CaseProcessing` | `cases.dfy` | `process_single_case` and the mask-name list |
| `Reconciliation` | `reconcile.dfy` | the comparison loop of `check_volume_info` |
| `Patching` | `patch.dfy` | `update_excel_with_mask_presence` |
| `Scenarios` | `scenarios.dfy` | a concrete sheet on which two mask names share a column |
| `Checker` | `checker.dfy` | `check_volume_info` as a whole |

Everything the program reads from disk is an input:
- directory listings;
- the loaded volumes and affines;
- the reference table as pandas reads it;
- the worksheet as openpyxl reads it.

Python's `str()` of a reference cell is a parameter `cellText`. Its result depends on pandas' and
openpyxl's cell types (`123`, `123.0`, `nan`, `None`), which are not modelled.

## Behaviour of the code worth knowing

- **The case-id fallback is fatal.** With no case-id column, the program warns and falls back to
  the column name `case_id` (`AI_data_checker.py:166-168`). But a column of that name would itself
  have matched the header scan, so the fallback column never exists. `reference_data['case_id']`
  then raises `KeyError` at line 171. `Schema.DefaultIsCaseIdHeader` proves the premise, and
  `Reconciliation.Reconcile` returns `Err(MissingKey("case_id"))` in that case.
- **No images is fatal.** With no `.nii.gz` image, the presence frame has no columns, so line 172
  raises `KeyError: 'case_id'`.
- **A worksheet without a case-id header is fatal** as soon as it has a data row (line 92).
- **The origin check is relative.** The transform is compared with numpy's default tolerances,
  `|a - b| <= 1e-8 + 1e-5 * |b|`. At a 200 mm coordinate the tolerance is about 0.002 mm, so a
  0.001 mm shift still counts as a match (`Geometry.MicrometreShiftAtLargeOriginMatches`) and a
  1 mm shift does not (`Geometry.MillimetreShiftAtLargeOriginMismatches`). The tolerance grows
  with the mask's entries only, so the check is not symmetric (`Geometry.AllCloseNotSymmetric`).
- **Two header scans.**
  - The reconciliation uses pandas' columns and stops at the first match (`break`).
  - The patcher uses openpyxl's header row, looks only at non-empty text cells and keeps the last
    match (no `break`).
  - A header that contains two mask names (`tumour_core` contains `tumour`) therefore serves both
    names in the patcher.
- **Patching is not idempotent when two mask names share a column.** If those names carry
  different presence values, the second write overwrites the first. The cell is flagged even when
  it ends holding its original value, and a second run flags it again
  (`Scenarios.SharedColumnDefeatsIdempotence`). `Patching.LastWriteWins` states that the later
  mask name decides the cell. `Patching.PatchIdempotent` proves idempotence when no two mask names
  and no mask name and the case-id column share a column.
- **Two readings of a cell.** The reconciliation keeps any text that is not a yes/no token, and
  keeps an empty cell as NaN. The patcher reads both as `None` and overwrites them.
  `Cells.ReadingsAgree` states how the two readings relate.

## Model

| member | source | states |
|---|---|---|
| `Emptiness.IsMaskEmpty` | AI_data_checker.py:19-26 | The mask is reported empty exactly when every voxel is zero. An empty mask reads every slab. A non-empty one stops at the first slab holding signal, and no earlier slab held any. |
| `Emptiness.SlabsPartition` | AI_data_checker.py:21-23 | The slabs `range(0, depth, 10)` with `min(i + 10, depth)` cut the planes into consecutive runs of at most ten. Plane `z` lies in slab `z / 10` only. |
| `Emptiness.AllZeroIffNoSlabSignal` | AI_data_checker.py:22-26 | A volume is all zero if and only if none of its slabs holds signal. |
| `Emptiness.LastPlaneSignalFound` | AI_data_checker.py:23 | Signal in the last plane is found, even when the last slab is shallower than ten planes. |
| `Strings.Stem` | AI_data_checker.py:32 | `split('.')[0]` is a dot-free prefix of the name, ending at the name's end or at its first dot. |
| `Strings.StemUnique` | AI_data_checker.py:53 | No other prefix has those three properties, so they define the stem. |
| `Strings.StemOfDotted` | AI_data_checker.py:52-53 | The stem of a dot-free name followed by a suffix such as `.nii.gz` is the name itself. |
| `Strings.ContainsIffOccurs` | AI_data_checker.py:80 | Python's `sub in s` holds exactly when `sub` occurs at some position of `s`. |
| `Strings.LowerIdempotent` | AI_data_checker.py:84 | Lower-casing twice is lower-casing once. |
| `Sorting.SortStrings` | AI_data_checker.py:130 | `sort()` returns a sorted permutation of the names under Python's string order. |
| `Sorting.SortedUnique` | AI_data_checker.py:130 | Two sorted arrangements of the same names are equal. |
| `Sorting.BelowTransitive` | AI_data_checker.py:130 | Python's string order is transitive. |
| `Sorting.BelowAntisymmetric` | AI_data_checker.py:130 | Python's string order is antisymmetric. |
| `Sorting.BelowTotal` | AI_data_checker.py:130 | Any two strings are comparable in Python's string order. |
| `Geometry.AllCloseReflexive` | AI_data_checker.py:63 | A transform always matches itself. |
| `Geometry.WithinAbsTolMatches` | AI_data_checker.py:63 | Entries within the absolute tolerance always match. |
| `Geometry.OutsideToleranceMismatches` | AI_data_checker.py:63 | One entry further from the mask's entry than `atol` plus `rtol` times that entry's magnitude makes the origin check fail. |
| `Geometry.MicrometreShiftAtLargeOriginMatches` | AI_data_checker.py:63 | Entries 0.001 apart at magnitude 200 still match, although 0.001 exceeds the absolute tolerance. |
| `Geometry.MillimetreShiftAtLargeOriginMismatches` | AI_data_checker.py:63 | Entries 1 apart at magnitude 200 do not match. |
| `Geometry.AllCloseNotSymmetric` | AI_data_checker.py:63 | Swapping the image and mask transforms can change the verdict. |
| `CaseProcessing.Niftis` | AI_data_checker.py:52 | The result holds exactly the listing's entries whose name ends in `.nii.gz`, and is no longer than the listing. |
| `CaseProcessing.Compare` | AI_data_checker.py:59-64 | A consistency record names the case and the file's stem. Its dimension check holds exactly when the shapes are equal. Its origin check is the closeness test with the image's transform first, so the mask's entries set the tolerance, and a mask with the image's own transform passes it. |
| `CaseProcessing.ScanEntry` | AI_data_checker.py:51-64 | After entry `i`, the records are those of the first `i + 1` entries, and the presence map reads 1 exactly for the non-empty stems among them. So a `.nii.gz` file appends its record and marks its stem when it holds signal, and any other entry changes nothing. |
| `CaseProcessing.ProcessCase` | AI_data_checker.py:28-66 | There is one consistency record per `.nii.gz` mask file, in listing order. The presence keys are the mask names plus the stems of the non-empty `.nii.gz` files. A name reads 1 exactly when some file with that stem holds signal. The image record carries the case's stem and shape. |
| `CaseProcessing.MissingFolderIsAllAbsent` | AI_data_checker.py:44-50 | A case without a mask folder has no consistency records and every mask name reads 0. |
| `CaseProcessing.RecordsDescribeFiles` | AI_data_checker.py:59-64 | Record `k` names the case and the stem of the `k`-th mask file. Its dimension check is exact shape equality, and its origin check is the closeness test of the image's transform against that file's. |
| `CaseProcessing.PresentIffSomeFileHasSignal` | AI_data_checker.py:52-57 | A stem reads present exactly when some `.nii.gz` file with that stem is not all zero. |
| `CaseProcessing.MaskNames` | AI_data_checker.py:127-130 | The mask-name list fails exactly when the mask root has no sub-folder. Otherwise it is the sorted list of the stems of the first sub-folder's `.nii.gz` files. |
| `CaseProcessing.MaskNamesIsTheSortedArrangement` | AI_data_checker.py:127-130 | Any sorted arrangement of those stems is the mask-name list. |
| `Cells.TokenValue` | AI_data_checker.py:196-200 | A text reads 1 if and only if its lower case is o/y/yes/1. It reads 0 if and only if its lower case is x/n/no/0. Otherwise it reads nothing. |
| `Cells.ReconcileValue` | AI_data_checker.py:193-200 | The reconciliation's reading: a token text becomes 0 or 1, and a number, an empty cell or any other text is kept as it is. |
| `Cells.PatchValue` | AI_data_checker.py:103-111 | The patcher's reading: a number reads as itself, a text as its token value (0, 1 or `None`), and an empty cell as `None`. |
| `Cells.TokensDisjoint` | AI_data_checker.py:197-200 | No spelling reads both present and absent. |
| `Cells.TokenValueIgnoresCase` | AI_data_checker.py:108-111 | Reading a token ignores case. |
| `Cells.ReadingsAgree` | AI_data_checker.py:103-111 | The reconciliation reads a number exactly where the patcher reads a value, and then they read the same value. |
| `Cells.ReconcileValueIdempotent` | AI_data_checker.py:196-200 | Normalising a reference value twice changes nothing. |
| `Cells.TokenExamples` | AI_data_checker.py:104-111 | "Yes" and 1 both read 1; "x" and 0 both read 0. "maybe" reads `None` in the patcher and is kept as it is in the reconciliation. |
| `Schema.FirstIndex` | AI_data_checker.py:161-164 | The scan with `break` returns the first header that qualifies, and none before it qualifies. |
| `Schema.LastIndex` | AI_data_checker.py:78-85 | The scan without `break` keeps the last qualifying header. |
| `Schema.FirstIsLastWhenUnique` | AI_data_checker.py:78-85 | With one qualifying header, both scans agree. |
| `Schema.DefaultIsCaseIdHeader` | AI_data_checker.py:166-168 | The fallback name `case_id` itself passes the case-id test, so a column of that name would already have been found. |
| `Schema.ScanHeaderKeepsLast` | AI_data_checker.py:78-85 | The patcher's header loop records, for the case id and for each mask name, the last non-empty text header that matches it. |
| `Schema.SheetSchemaOf` | AI_data_checker.py:74-85 | Every recorded column lies within the header row. |
| `Reconciliation.Reconcile` | AI_data_checker.py:171-218 | The comparison fails with `KeyError: 'case_id'` exactly when the reference has no case-id column or there is no presence record. Otherwise it has one entry per record and mask name. |
| `Reconciliation.ReconcileEntry` | AI_data_checker.py:177-218 | Entry `k * n + j` of the comparison is record `k`'s entry for mask name `j`, so entries come in record order and mask-name order. |
| `Reconciliation.MaskEntry` | AI_data_checker.py:186-208 | An entry names its case and mask and carries the presence. It reads "Case Not Found" without a reference row and "Column Not Found" without a matching column, and it matches exactly when the reference value is that presence as a number. |
| `Reconciliation.CaseEntryFacts` | AI_data_checker.py:177-218 | An entry carries the first record's presence for its case. It reads "Case Not Found" without a reference row, and "Column Not Found" without a column (an empty name counts as none). Otherwise it reads the normalised reference value and matches exactly when that value is the same number. |
| `Reconciliation.MissingCaseGivesCaseNotFound` | AI_data_checker.py:209-218 | A case absent from the reference reads "Case Not Found" and never matches. |
| `Reconciliation.MissingColumnGivesColumnNotFound` | AI_data_checker.py:186-194 | A mask name that no column header contains reads "Column Not Found" and never matches. |
| `Reconciliation.ExtraStemsIgnored` | AI_data_checker.py:184-205 | Presence of stems outside the mask-name list never affects the comparison. |
| `Patching.Targets` | AI_data_checker.py:96-100 | Every write for a row comes from a mask name that has a column and carries the case's presence for it, and every such mask name has its write. |
| `Patching.TargetsSnoc` | AI_data_checker.py:96-100 | The writes come one per mask name that has a column, in mask-name order: a further mask name appends its write, if it has a column, after the earlier ones. |
| `Patching.PatchRowSnoc` | AI_data_checker.py:96-116 | The writes apply in order: patching with one more write is patching with the earlier ones and then applying the last to the resulting row, adding its column to the flagged set when the cell's reading differed. |
| `Patching.LastWriteWins` | AI_data_checker.py:96-116 | Whatever the earlier writes did, and whatever writes to other columns follow, a cell ends reading as the value of the last write to its column. |
| `Patching.Write` | AI_data_checker.py:114-116 | After one write the cell reads as the presence value. Its column is flagged exactly when the cell read differently before, and every other cell is unchanged. |
| `Patching.PatchRow` | AI_data_checker.py:96-116 | The row keeps its width. Unflagged cells are unchanged, and a flagged cell now holds a number in some target's column. |
| `Patching.PatchRowExact` | AI_data_checker.py:102-116 | With consistent writes, each target cell ends as the presence value, or as it was when it already read as that value. It is flagged exactly when its reading differed. |
| `Patching.SatisfiedRowUnchanged` | AI_data_checker.py:114-116 | A row whose targets all already read as their values is left alone and nothing is flagged. |
| `Patching.PatchRowIdempotent` | AI_data_checker.py:96-116 | With consistent writes, patching a row again changes and flags nothing. |
| `Patching.PatchDataRow` | AI_data_checker.py:91-116 | A flagged cell is in a mask column of a row whose case has a presence record. Every other cell is unchanged. |
| `Patching.Patch` | AI_data_checker.py:68-116 | The patch fails with `KeyError: 'case_id'` exactly when the sheet has data rows but no case-id header. Otherwise the sheet keeps its shape, only flagged cells change, and each flagged cell holds a number in a mask column of a found case. |
| `Patching.TargetsConsistent` | AI_data_checker.py:83-100 | When mask names have distinct columns, no two writes to one column disagree. |
| `Patching.PatchCellExact` | AI_data_checker.py:91-116 | In a separated sheet, a found case's cell under mask `m` ends as its presence, or as it was when it already read as that presence. It is flagged exactly when its reading differed. A row whose case is not found is unchanged. |
| `Patching.PatchIdempotent` | AI_data_checker.py:68-116 | In a separated sheet, patching the patched sheet again changes nothing and flags nothing. |
| `Scenarios.ExampleSchema` | AI_data_checker.py:78-85 | In header `caseid, tumour_core`, both `tumour` and `tumour_core` map to column 1. |
| `Scenarios.SharedColumnThenOther` | AI_data_checker.py:96-116 | With writes 1 then 0 to a shared column followed by a write to another column, the shared cell ends reading 0. |
| `Scenarios.SharedColumnDefeatsIdempotence` | AI_data_checker.py:96-116 | When `tumour` reads 1 and `tumour_core` reads 0, a cell holding 0 is written 1 then 0 again. It is flagged even though it ends unchanged. |
| `Checker.ImageNiftis` | AI_data_checker.py:133 | The image files are exactly the directory's files whose name ends in `.nii.gz`. |
| `Checker.ProcessNext` | AI_data_checker.py:145-149 | One finished case appends its records, one presence record and one image record, keeping every earlier case's results in place. |
| `Checker.ProcessAll` | AI_data_checker.py:141-149 | Each finished case appends its consistency records, one presence record and one image record, in the order the cases finish. |
| `Checker.CheckVolumeInfo` | AI_data_checker.py:122-223 | The run fails without a mask sub-folder, without a case-id column or images, or on a sheet with data rows but no case-id header, and in no other case. Otherwise, for any order in which the pool completes the cases, the report's sheets are the per-case records in that order, every image's case has a presence record, and the comparison and the patched sheet are computed from those records. |

## Left out

- Reading NIfTI files, listing directories, and loading and saving workbooks. Their results are
  inputs: `MaskRoot`, `DirEntry`, `Image`, `Frame`, `Sheet`. Saving `data_updated.xlsx` and
  `volume_analysis_results.xlsx` becomes the returned `Report`.
- The thread pool, the `tqdm` progress bar, timing and every `print`. The pool's completion order
  is an input: any arrangement of the image files.
  - The division by `len(img_files)` at line 240 happens after all results are written and only
    affects a printed average.
- The `origin` and `spacing` strings of the image record (lines 40-41): these are floating-point
  formatting. The image record keeps the case id and the shape.
- `Geometry.AllCloseReflexive`: entries are exact reals. NaN, infinities and floating-point
  rounding are not modelled. `np.allclose` on a transform holding NaN is false even against
  itself, so the reflexivity does not hold there.
- `lower()` is modelled for ASCII letters only; Unicode case mapping is not modelled.
- Cells are integers, text or empty. Float and boolean cells are not modelled (`int(3.7)`
  truncation at line 106, `True == 1`).
- A mask named `case_id` is not modelled. In the source it would overwrite the case id in the
  presence record (line 46). The patcher keeps the case-id column and the mask columns in the
  one dict `col_indices` (lines 81, 85 and 97), so such a mask would take over the case-id entry
  and have its presence written into the case-id column. The model keeps the two apart:
  `SheetSchema` holds the case-id column and the mask columns in separate fields.
- pandas' column-name handling is not modelled: renaming duplicate headers, numeric header
  names, `Unnamed: n`. Columns are strings as given.
- Masks are three-dimensional. Higher-dimensional masks and the lazy `dataobj` proxy are not
  modelled.
- Transforms of different shapes, on which `np.allclose` would broadcast or raise, are reported
  as a mismatch.
- The yellow fill is the set of flagged cells; colours and styles are not modelled.
