/** Locating the case-id column and the mask columns of the reference table by header text. */
module Schema {
  import opened Wrappers
  import opened Strings
  import opened Cells

  /** Position of the first element satisfying `p`. */
  function FirstIndex<T>(xs: seq<T>, p: T -> bool): (r: Option<nat>)
    ensures r.Some? ==> r.value < |xs| && p(xs[r.value])
    ensures r.Some? ==> forall k :: 0 <= k < r.value ==> !p(xs[k])
    ensures r.None? ==> forall k :: 0 <= k < |xs| ==> !p(xs[k])
  {
    if |xs| == 0 then None
    else if p(xs[0]) then Some(0)
    else match FirstIndex(xs[1..], p)
      case None => None
      case Some(i) => Some(i + 1)
  }

  /** Position of the last element satisfying `p`. */
  function LastIndex<T>(xs: seq<T>, p: T -> bool): (r: Option<nat>)
    ensures r.Some? ==> r.value < |xs| && p(xs[r.value])
    ensures r.Some? ==> forall k :: r.value < k < |xs| ==> !p(xs[k])
    ensures r.None? ==> forall k :: 0 <= k < |xs| ==> !p(xs[k])
  {
    if |xs| == 0 then None
    else if p(xs[|xs| - 1]) then Some(|xs| - 1)
    else LastIndex(xs[..|xs| - 1], p)
  }

  /** When exactly one element qualifies, the first and the last match are the same. */
  lemma FirstIsLastWhenUnique<T>(xs: seq<T>, p: T -> bool, i: nat)
    requires i < |xs| && p(xs[i])
    requires forall k :: 0 <= k < |xs| && k != i ==> !p(xs[k])
    ensures FirstIndex(xs, p) == LastIndex(xs, p) == Some(i)
  {
  }

  /** A header names the case-id column: its lower-cased text contains both "case" and "id". */
  predicate IsCaseIdHeader(h: string)
  {
    Contains(Lower(h), "case") && Contains(Lower(h), "id")
  }

  /** A header names the column of mask `m`: its lower-cased text contains `m` lower-cased. */
  predicate IsMaskHeader(m: string, h: string)
  {
    Contains(Lower(h), Lower(m))
  }

  /** The default name used when no header looks like a case id. */
  const DefaultCaseIdColumn: string := "case_id"

  /** The key under which the presence records and the patcher's column table hold the case id;
      looking it up where it is absent raises `KeyError: 'case_id'`. */
  const CaseIdKey: string := "case_id"

  /** The default name itself would have been recognised by the scan, so a column carrying it
      cannot exist once the scan has failed: the fallback lookup always misses. */
  lemma DefaultIsCaseIdHeader()
    ensures IsCaseIdHeader(DefaultCaseIdColumn)
  {
    assert Lower("case_id") == "case_id";
    assert "case_id"[..4] == "case";
    assert "case_id"[5..][..2] == "id";
  }

  // The pandas columns scanned by the reconciliation: first match wins.

  /** Reconciliation's case-id column (`break` at the first match). */
  function FrameCaseIdColumn(columns: seq<string>): Option<nat>
  {
    FirstIndex(columns, IsCaseIdHeader)
  }

  /** Reconciliation's column for mask `m` (`break` at the first match). */
  function FrameMaskColumn(columns: seq<string>, m: string): Option<nat>
  {
    FirstIndex(columns, h => IsMaskHeader(m, h))
  }

  // The worksheet header row scanned by the patcher: every match overwrites, so the last wins.

  /** A header cell is looked at only when it is a non-empty text. */
  predicate SheetCaseIdHeader(c: Cell)
  {
    c.Text? && c.s != "" && IsCaseIdHeader(c.s)
  }

  predicate SheetMaskHeader(m: string, c: Cell)
  {
    c.Text? && c.s != "" && IsMaskHeader(m, c.s)
  }

  /** The column positions the patcher collects (`col_indices`), zero-based. */
  datatype SheetSchema = SheetSchema(caseIdColumn: Option<nat>, maskColumns: map<string, nat>)

  /** Records header `c` at position `j` into the schema, as one pass of the header loop. */
  function ScanCell(acc: SheetSchema, c: Cell, j: nat, maskNames: seq<string>): SheetSchema
  {
    if c.Text? && c.s != "" then
      var caseCol := if IsCaseIdHeader(c.s) then Some(j) else acc.caseIdColumn;
      var found := set m | m in maskNames && IsMaskHeader(m, c.s);
      SheetSchema(caseCol, map m | m in acc.maskColumns.Keys + found :: if m in found then j else acc.maskColumns[m])
    else acc
  }

  /** The header loop of the patcher over the first `n` header cells. */
  function ScanHeader(header: seq<Cell>, n: nat, maskNames: seq<string>): (r: SheetSchema)
    requires n <= |header|
    ensures r.caseIdColumn.Some? ==> r.caseIdColumn.value < n
    ensures forall m :: m in r.maskColumns ==> r.maskColumns[m] < n
  {
    if n == 0 then SheetSchema(None, map[])
    else ScanCell(ScanHeader(header, n - 1, maskNames), header[n - 1], n - 1, maskNames)
  }

  /** The schema of the whole header row. */
  function SheetSchemaOf(header: seq<Cell>, maskNames: seq<string>): (r: SheetSchema)
    ensures r.caseIdColumn.Some? ==> r.caseIdColumn.value < |header|
    ensures forall m :: m in r.maskColumns ==> r.maskColumns[m] < |header|
  {
    ScanHeader(header, |header|, maskNames)
  }

  /** The single pass keeps, for the case id and for every mask name, the last matching header. */
  lemma {:induction false} ScanHeaderKeepsLast(header: seq<Cell>, n: nat, maskNames: seq<string>)
    requires n <= |header|
    ensures ScanHeader(header, n, maskNames).caseIdColumn == LastIndex(header[..n], SheetCaseIdHeader)
    ensures forall m :: m in maskNames ==>
      (m in ScanHeader(header, n, maskNames).maskColumns <==> LastIndex(header[..n], c => SheetMaskHeader(m, c)).Some?)
    ensures forall m :: m in ScanHeader(header, n, maskNames).maskColumns ==>
      m in maskNames && Some(ScanHeader(header, n, maskNames).maskColumns[m]) == LastIndex(header[..n], c => SheetMaskHeader(m, c))
  {
    if n > 0 {
      ScanHeaderKeepsLast(header, n - 1, maskNames);
      assert header[..n][..n - 1] == header[..n - 1];
    }
  }
}
