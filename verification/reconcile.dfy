/** The comparison loop of `check_volume_info`: computed presence against the reference table. */
module Reconciliation {
  import opened Wrappers
  import opened Cells
  import opened Schema
  import opened CaseProcessing

  /** The reference table as pandas reads it: column names and rows of cells. */
  datatype Frame = Frame(columns: seq<string>, rows: seq<seq<Cell>>) {
    predicate WellFormed()
    {
      forall i :: 0 <= i < |rows| ==> |rows[i]| == |columns|
    }
  }

  /** What the reference says about one mask of one case. */
  datatype RefValue = Found(value: Cell) | ColumnNotFound | CaseNotFound

  /** One row of the 'Mask Presence Comparison' sheet. */
  datatype Entry = Entry(caseId: string, maskName: string, inFolder: int, inReference: RefValue, matches: bool)

  /** Every presence record carries a value for every known mask name. */
  predicate Covers(infos: seq<MaskInfo>, maskNames: seq<string>)
  {
    forall i :: 0 <= i < |infos| ==> HasAll(infos[i].presence, maskNames)
  }

  predicate HasAll(presence: map<string, int>, maskNames: seq<string>)
  {
    forall m :: m in maskNames ==> m in presence
  }

  function CaseIds(infos: seq<MaskInfo>): (r: seq<string>)
    ensures |r| == |infos| && forall i :: 0 <= i < |infos| ==> r[i] == infos[i].caseId
  {
    seq(|infos|, i requires 0 <= i < |infos| => infos[i].caseId)
  }

  /** The position of the first presence record with this case id. */
  function FirstRecord(infos: seq<MaskInfo>, caseId: string): Option<nat>
  {
    FirstIndex(CaseIds(infos), (id: string) => id == caseId)
  }

  /** The first reference row whose case-id cell, turned into text, equals the case id. */
  function FirstReferenceRow(frame: Frame, caseCol: nat, caseId: string, cellText: Cell -> string): Option<nat>
  {
    FirstIndex(frame.rows, (row: seq<Cell>) => caseCol < |row| && cellText(row[caseCol]) == caseId)
  }

  /** The value pandas gives for column `j` of a row; the case-id column was turned into strings. */
  function FrameValue(row: seq<Cell>, j: nat, caseCol: nat, cellText: Cell -> string): Cell
    requires j < |row| && caseCol < |row|
  {
    if j == caseCol then Text(cellText(row[j])) else row[j]
  }

  /** The entry for mask `m` of a case whose presence is `p` and whose reference row is `refRow`. */
  function MaskEntry(frame: Frame, caseCol: nat, refRow: Option<nat>, caseId: string, m: string, p: int,
                     cellText: Cell -> string): (e: Entry)
    requires frame.WellFormed() && caseCol < |frame.columns|
    requires refRow.Some? ==> refRow.value < |frame.rows|
    ensures e.caseId == caseId && e.maskName == m && e.inFolder == p
    ensures refRow.None? ==> e.inReference == CaseNotFound
    ensures refRow.Some? && FrameMaskColumn(frame.columns, m).None? ==> e.inReference == ColumnNotFound
    ensures e.matches <==> e.inReference == Found(Num(p))
  {
    match refRow
    case None => Entry(caseId, m, p, CaseNotFound, false)
    case Some(r) =>
      var col := FrameMaskColumn(frame.columns, m);
      // `if mask_col:` also rejects a column whose name is the empty string
      if col.None? || frame.columns[col.value] == "" then Entry(caseId, m, p, ColumnNotFound, false)
      else
        var v := ReconcileValue(FrameValue(frame.rows[r], col.value, caseCol, cellText));
        Entry(caseId, m, p, Found(v), v == Num(p))
  }

  /** The entries for the record at position `k`, one per mask name, in mask-name order. */
  function CaseEntries(frame: Frame, caseCol: nat, infos: seq<MaskInfo>, k: nat, maskNames: seq<string>,
                       cellText: Cell -> string): (r: seq<Entry>)
    requires frame.WellFormed() && caseCol < |frame.columns|
    requires Covers(infos, maskNames) && k < |infos|
    ensures |r| == |maskNames|
  {
    var caseId := infos[k].caseId;
    var first := FirstRecord(infos, caseId);
    assert first.Some? && first.value <= k by {
      assert CaseIds(infos)[k] == caseId;
    }
    var presence := infos[first.value].presence;
    var refRow := FirstReferenceRow(frame, caseCol, caseId, cellText);
    seq(|maskNames|, j requires 0 <= j < |maskNames| =>
      MaskEntry(frame, caseCol, refRow, caseId, maskNames[j], presence[maskNames[j]], cellText))
  }

  /** One block of entries per presence record, in record order. */
  function Blocks(frame: Frame, caseCol: nat, infos: seq<MaskInfo>, maskNames: seq<string>, cellText: Cell -> string): (r: seq<seq<Entry>>)
    requires frame.WellFormed() && caseCol < |frame.columns| && Covers(infos, maskNames)
    ensures |r| == |infos|
    ensures forall k :: 0 <= k < |infos| ==> r[k] == CaseEntries(frame, caseCol, infos, k, maskNames, cellText)
  {
    seq(|infos|, k requires 0 <= k < |infos| => CaseEntries(frame, caseCol, infos, k, maskNames, cellText))
  }

  /** The blocks of a sequence of blocks, one after the other. */
  function Concat<T>(blocks: seq<seq<T>>): seq<T>
  {
    if |blocks| == 0 then [] else blocks[0] + Concat(blocks[1..])
  }

  lemma MulShift(q: nat, m: nat)
    requires q > 0
    ensures q * m == m + (q - 1) * m
  {
  }

  lemma {:induction false} ConcatLength<T>(blocks: seq<seq<T>>, m: nat)
    requires forall i :: 0 <= i < |blocks| ==> |blocks[i]| == m
    ensures |Concat(blocks)| == |blocks| * m
  {
    if |blocks| > 0 {
      ConcatLength(blocks[1..], m);
      MulShift(|blocks|, m);
    }
  }

  /** Concatenating blocks of equal length `m` puts element `j` of block `k` at `k * m + j`. */
  lemma {:induction false} ConcatUniform<T>(blocks: seq<seq<T>>, m: nat, k: nat, j: nat)
    requires forall i :: 0 <= i < |blocks| ==> |blocks[i]| == m
    requires k < |blocks| && j < m
    ensures k * m + j < |Concat(blocks)| && Concat(blocks)[k * m + j] == blocks[k][j]
  {
    ConcatLength(blocks, m);
    if k > 0 {
      ConcatUniform(blocks[1..], m, k - 1, j);
      MulShift(k, m);
    }
  }

  /** The whole comparison. Without a case-id column the fallback name `case_id` cannot exist
      (see `DefaultIsCaseIdHeader`), and with no presence records the presence frame has no
      `case_id` column: both raise `KeyError: 'case_id'`. */
  function Reconcile(frame: Frame, infos: seq<MaskInfo>, maskNames: seq<string>, cellText: Cell -> string): (r: Result<seq<Entry>>)
    requires frame.WellFormed() && Covers(infos, maskNames)
    ensures r.Err? <==> FrameCaseIdColumn(frame.columns).None? || |infos| == 0
    ensures r.Err? && FrameCaseIdColumn(frame.columns).None? ==> r.error == MissingKey(DefaultCaseIdColumn)
    ensures r.Err? && FrameCaseIdColumn(frame.columns).Some? ==> r.error == MissingKey(CaseIdKey)
    ensures r.Ok? ==> |r.value| == |infos| * |maskNames|
  {
    match FrameCaseIdColumn(frame.columns)
    case None => Err(MissingKey(DefaultCaseIdColumn))
    case Some(caseCol) =>
      if |infos| == 0 then Err(MissingKey(CaseIdKey))
      else
        ConcatLength(Blocks(frame, caseCol, infos, maskNames, cellText), |maskNames|);
        Ok(Concat(Blocks(frame, caseCol, infos, maskNames, cellText)))
  }

  /** Entry `j` of record `k`'s block is about that record and mask name `j`: it carries the case's
      presence (from its first record) and reports the case missing from the reference, the column
      missing, or the normalised reference value, matching only a numeric equal value. */
  lemma CaseEntryFacts(frame: Frame, caseCol: nat, infos: seq<MaskInfo>, k: nat, maskNames: seq<string>,
                       cellText: Cell -> string, j: nat)
    requires frame.WellFormed() && caseCol < |frame.columns|
    requires Covers(infos, maskNames) && k < |infos| && j < |maskNames|
    ensures var e := CaseEntries(frame, caseCol, infos, k, maskNames, cellText)[j];
            var first := FirstRecord(infos, infos[k].caseId);
            var refRow := FirstReferenceRow(frame, caseCol, infos[k].caseId, cellText);
            var col := FrameMaskColumn(frame.columns, maskNames[j]);
            && first.Some? && first.value < |infos|
            && e.caseId == infos[k].caseId
            && e.maskName == maskNames[j]
            && e.inFolder == infos[first.value].presence[maskNames[j]]
            && (refRow.None? ==> e.inReference == CaseNotFound && !e.matches)
            && (refRow.Some? && (col.None? || frame.columns[col.value] == "") ==> e.inReference == ColumnNotFound && !e.matches)
            && (refRow.Some? && col.Some? && frame.columns[col.value] != "" ==>
                 && e.inReference == Found(ReconcileValue(FrameValue(frame.rows[refRow.value], col.value, caseCol, cellText)))
                 && (e.matches <==> e.inReference.value == Num(e.inFolder)))
  {
    assert CaseIds(infos)[k] == infos[k].caseId;
  }

  /** Entry `k * |maskNames| + j` of the comparison is entry `j` of record `k`'s block
      (see `CaseEntryFacts`); so the comparison has one entry per record and mask name, in order. */
  lemma ReconcileEntry(frame: Frame, infos: seq<MaskInfo>, maskNames: seq<string>, cellText: Cell -> string, k: nat, j: nat)
    requires frame.WellFormed() && Covers(infos, maskNames)
    requires Reconcile(frame, infos, maskNames, cellText).Ok?
    requires k < |infos| && j < |maskNames|
    ensures FrameCaseIdColumn(frame.columns).Some? && FrameCaseIdColumn(frame.columns).value < |frame.columns|
    ensures k * |maskNames| + j < |Reconcile(frame, infos, maskNames, cellText).value|
    ensures Reconcile(frame, infos, maskNames, cellText).value[k * |maskNames| + j]
         == CaseEntries(frame, FrameCaseIdColumn(frame.columns).value, infos, k, maskNames, cellText)[j]
  {
    var caseCol := FrameCaseIdColumn(frame.columns).value;
    ConcatUniform(Blocks(frame, caseCol, infos, maskNames, cellText), |maskNames|, k, j);
  }

  /** A case with no reference row reads `CaseNotFound`, never matching, under every mask name. */
  lemma MissingCaseGivesCaseNotFound(frame: Frame, infos: seq<MaskInfo>, maskNames: seq<string>, cellText: Cell -> string, k: nat, j: nat)
    requires frame.WellFormed() && Covers(infos, maskNames)
    requires Reconcile(frame, infos, maskNames, cellText).Ok?
    requires k < |infos| && j < |maskNames|
    requires FirstReferenceRow(frame, FrameCaseIdColumn(frame.columns).value, infos[k].caseId, cellText).None?
    ensures k * |maskNames| + j < |Reconcile(frame, infos, maskNames, cellText).value|
    ensures Reconcile(frame, infos, maskNames, cellText).value[k * |maskNames| + j].inReference == CaseNotFound
    ensures !Reconcile(frame, infos, maskNames, cellText).value[k * |maskNames| + j].matches
  {
    ReconcileEntry(frame, infos, maskNames, cellText, k, j);
    CaseEntryFacts(frame, FrameCaseIdColumn(frame.columns).value, infos, k, maskNames, cellText, j);
  }

  /** A mask name that no column header contains reads `ColumnNotFound`, never matching, for every
      case that has a reference row. */
  lemma MissingColumnGivesColumnNotFound(frame: Frame, infos: seq<MaskInfo>, maskNames: seq<string>, cellText: Cell -> string, k: nat, j: nat)
    requires frame.WellFormed() && Covers(infos, maskNames)
    requires Reconcile(frame, infos, maskNames, cellText).Ok?
    requires k < |infos| && j < |maskNames|
    requires FirstReferenceRow(frame, FrameCaseIdColumn(frame.columns).value, infos[k].caseId, cellText).Some?
    requires forall h :: h in frame.columns ==> !IsMaskHeader(maskNames[j], h)
    ensures k * |maskNames| + j < |Reconcile(frame, infos, maskNames, cellText).value|
    ensures Reconcile(frame, infos, maskNames, cellText).value[k * |maskNames| + j].inReference == ColumnNotFound
    ensures !Reconcile(frame, infos, maskNames, cellText).value[k * |maskNames| + j].matches
  {
    ReconcileEntry(frame, infos, maskNames, cellText, k, j);
    CaseEntryFacts(frame, FrameCaseIdColumn(frame.columns).value, infos, k, maskNames, cellText, j);
  }

  /** Only the presence of the known mask names is read: records that differ only in other
      stems (a mask file outside the first case's set) give the same comparison. */
  lemma ExtraStemsIgnored(frame: Frame, infos1: seq<MaskInfo>, infos2: seq<MaskInfo>, maskNames: seq<string>, cellText: Cell -> string)
    requires frame.WellFormed() && Covers(infos1, maskNames) && Covers(infos2, maskNames)
    requires CaseIds(infos1) == CaseIds(infos2)
    requires forall i, m :: 0 <= i < |infos1| && m in maskNames ==>
      m in infos1[i].presence && m in infos2[i].presence && infos1[i].presence[m] == infos2[i].presence[m]
    ensures Reconcile(frame, infos1, maskNames, cellText) == Reconcile(frame, infos2, maskNames, cellText)
  {
    assert |infos1| == |CaseIds(infos1)| == |infos2|;
    match FrameCaseIdColumn(frame.columns)
    case None =>
    case Some(caseCol) =>
      if |infos1| > 0 {
        var b1 := Blocks(frame, caseCol, infos1, maskNames, cellText);
        var b2 := Blocks(frame, caseCol, infos2, maskNames, cellText);
        forall k | 0 <= k < |infos1| ensures b1[k] == b2[k] {
          assert infos1[k].caseId == CaseIds(infos1)[k] == CaseIds(infos2)[k] == infos2[k].caseId;
          var first := FirstRecord(infos1, infos1[k].caseId);
          assert first == FirstRecord(infos2, infos2[k].caseId);
          forall j | 0 <= j < |maskNames|
            ensures b1[k][j] == b2[k][j]
          {
            CaseEntryFacts(frame, caseCol, infos1, k, maskNames, cellText, j);
            CaseEntryFacts(frame, caseCol, infos2, k, maskNames, cellText, j);
            assert maskNames[j] in maskNames;
          }
        }
        assert b1 == b2;
      }
  }
}
