/** Spreadsheet cells and the yes/no token normalisation applied to them. */
module Cells {
  import opened Wrappers
  import opened Strings

  /** One cell of the reference table: a number, a text, or an empty cell. */
  datatype Cell = Num(n: int) | Text(s: string) | Blank

  /** Spellings read as "present" (compared after lower-casing). */
  const YesTokens: seq<string> := ["o", "y", "yes", "1"]
  /** Spellings read as "absent" (compared after lower-casing). */
  const NoTokens: seq<string> := ["x", "n", "no", "0"]

  /** The value a text spells, if it is one of the tokens. */
  function TokenValue(s: string): (r: Option<int>)
    ensures r == Some(1) <==> Lower(s) in YesTokens
    ensures r == Some(0) <==> Lower(s) in NoTokens
    ensures r.None? <==> Lower(s) !in YesTokens && Lower(s) !in NoTokens
  {
    var t := Lower(s);
    if t in YesTokens then Some(1)
    else if t in NoTokens then Some(0)
    else None
  }

  /** No spelling is read both ways. */
  lemma TokensDisjoint(s: string)
    ensures !(Lower(s) in YesTokens && Lower(s) in NoTokens)
  {
    var t := Lower(s);
    if t in YesTokens {
      assert t == "o" || t == "y" || t == "yes" || t == "1";
    }
  }

  /** Reading a token ignores case. */
  lemma TokenValueIgnoresCase(s: string)
    ensures TokenValue(Lower(s)) == TokenValue(s)
  {
    LowerIdempotent(s);
  }

  /** The reconciliation's reading of a reference cell: a token becomes 0 or 1; any other
      text, a number and an empty cell (pandas' NaN) are kept as they are. */
  function ReconcileValue(c: Cell): (r: Cell)
    ensures c.Text? && TokenValue(c.s).Some? ==> r == Num(TokenValue(c.s).value)
    ensures c.Text? && TokenValue(c.s).None? ==> r == c
    ensures !c.Text? ==> r == c
  {
    match c
    case Text(s) => (match TokenValue(s) case Some(v) => Num(v) case None => c)
    case _ => c
  }

  /** The patcher's reading of a cell: a number is itself, a token is 0 or 1, and an empty cell
      or any other text is `None`. */
  function PatchValue(c: Cell): (r: Option<int>)
    ensures c.Num? ==> r == Some(c.n)
    ensures c.Text? ==> r == TokenValue(c.s)
    ensures c.Blank? ==> r.None?
  {
    match c
    case Num(n) => Some(n)
    case Text(s) => TokenValue(s)
    case Blank => None
  }

  /** Reading a reconciled value again changes nothing. */
  lemma ReconcileValueIdempotent(c: Cell)
    ensures ReconcileValue(ReconcileValue(c)) == ReconcileValue(c)
  {
  }

  /** The two readings agree on every cell that reconciliation reads as a number, and the
      patcher reads as `None` exactly the cells reconciliation leaves non-numeric. */
  lemma ReadingsAgree(c: Cell)
    ensures ReconcileValue(c).Num? <==> PatchValue(c).Some?
    ensures ReconcileValue(c).Num? ==> PatchValue(c) == Some(ReconcileValue(c).n)
  {
  }

  /** "Yes" and 1 both read as 1; "x" and 0 both read as 0, under either reading. */
  lemma TokenExamples()
    ensures ReconcileValue(Text("Yes")) == ReconcileValue(Num(1)) == Num(1)
    ensures ReconcileValue(Text("x")) == ReconcileValue(Num(0)) == Num(0)
    ensures PatchValue(Text("Yes")) == PatchValue(Num(1)) == Some(1)
    ensures PatchValue(Text("x")) == PatchValue(Num(0)) == Some(0)
    ensures PatchValue(Text("maybe")) == None && ReconcileValue(Text("maybe")) == Text("maybe")
  {
    assert Lower("Yes") == "yes";
    assert Lower("x") == "x";
    assert Lower("maybe") == "maybe";
  }
}
