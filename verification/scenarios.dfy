/** Concrete sheets that exhibit the patcher's behaviour when two mask names share a column. */
module Scenarios {
  import opened Wrappers
  import opened Strings
  import opened Cells
  import opened Schema
  import opened CaseProcessing
  import opened Reconciliation
  import opened Patching

  lemma CaseIdHeaderExample()
    ensures IsCaseIdHeader("caseid")
  {
    assert Lower("caseid") == "caseid";
  }

  lemma NotCaseIdHeaderExample()
    ensures !IsCaseIdHeader("tumour_core")
  {
    assert Lower("tumour_core") == "tumour_core";
    ContainsOnlyIfChars("tumour_core", "case", 'a');
    assert 'a' in "case";
  }

  lemma NoMaskInCaseHeaderExample()
    ensures !IsMaskHeader("tumour", "caseid") && !IsMaskHeader("tumour_core", "caseid")
  {
    assert Lower("caseid") == "caseid";
    assert Lower("tumour_core") == "tumour_core";
    assert Lower("tumour") == "tumour";
    ContainsOnlyIfChars("caseid", "tumour", 't');
    assert 't' in "tumour";
  }

  lemma SharedMaskHeaderExample()
    ensures IsMaskHeader("tumour", "tumour_core") && IsMaskHeader("tumour_core", "tumour_core")
  {
    assert Lower("tumour_core") == "tumour_core";
    assert Lower("tumour") == "tumour";
  }

  /** The header "caseid" is recorded as the case-id column and as no mask column. */
  lemma ExampleFirstCell()
    ensures ScanCell(SheetSchema(None, map[]), Text("caseid"), 0, ["tumour", "tumour_core"]) == SheetSchema(Some(0), map[])
  {
    CaseIdHeaderExample(); NoMaskInCaseHeaderExample();
    var names := ["tumour", "tumour_core"];
    assert (set m | m in names && IsMaskHeader(m, "caseid")) == {};
  }

  /** The header "tumour_core" is recorded for both mask names. */
  lemma ExampleSecondCell()
    ensures ScanCell(SheetSchema(Some(0), map[]), Text("tumour_core"), 1, ["tumour", "tumour_core"])
         == SheetSchema(Some(0), map["tumour" := 1, "tumour_core" := 1])
  {
    NotCaseIdHeaderExample(); SharedMaskHeaderExample();
    var names := ["tumour", "tumour_core"];
    assert (set m | m in names && IsMaskHeader(m, "tumour_core")) == {"tumour", "tumour_core"};
  }

  /** The header "tumour_core" is the last (and only) match for both "tumour" and "tumour_core". */
  lemma ExampleSchema()
    ensures SheetSchemaOf([Text("caseid"), Text("tumour_core")], ["tumour", "tumour_core"])
         == SheetSchema(Some(0), map["tumour" := 1, "tumour_core" := 1])
  {
    var header := [Text("caseid"), Text("tumour_core")];
    var names := ["tumour", "tumour_core"];
    ExampleFirstCell();
    ExampleSecondCell();
    assert ScanHeader(header, 0, names) == SheetSchema(None, map[]);
    assert ScanHeader(header, 1, names) == SheetSchema(Some(0), map[]);
    assert ScanHeader(header, 2, names) == SheetSchema(Some(0), map["tumour" := 1, "tumour_core" := 1]);
  }

  lemma ExampleTargets()
    ensures Targets(map["tumour" := 1, "tumour_core" := 1], ["tumour", "tumour_core"], map["tumour" := 1, "tumour_core" := 0])
         == [Target(1, 1), Target(1, 0)]
  {
    var names := ["tumour", "tumour_core"];
    assert names[1..] == ["tumour_core"];
    assert names[1..][1..] == [];
  }

  lemma ExampleRow()
    ensures PatchRow([Text("A"), Num(0)], [Target(1, 1), Target(1, 0)]) == ([Text("A"), Num(0)], {1})
  {
    var ts := [Target(1, 1), Target(1, 0)];
    var row := [Text("A"), Num(0)];
    var mid := row[1 := Num(1)];
    assert ts[1..] == [Target(1, 0)];
    assert ts[1..][1..] == [];
    assert PatchValue(mid[1]) == Some(1);
    assert mid[1 := Num(0)] == row;
    assert PatchRow(row, ts[1..][1..]) == (row, {});
    var second := PatchRow(mid, ts[1..]);
    assert second.0 == row && second.1 == {1};
    var first := PatchRow(row, ts);
    assert first.0 == row && first.1 == {1};
  }

  /** Masks `tumour`, `tumour_core` and `vessel`, the first two sharing column 1: the shared cell
      ends at the second write's 0 although `vessel`'s write comes after it. */
  lemma SharedColumnThenOther(row: seq<Cell>)
    requires |row| == 3
    ensures PatchValue(PatchRow(row, [Target(1, 1), Target(1, 0), Target(2, 1)]).0[1]) == Some(0)
  {
    assert [Target(1, 1), Target(1, 0), Target(2, 1)] == [Target(1, 1)] + [Target(1, 0)] + [Target(2, 1)];
    LastWriteWins(row, [Target(1, 1)], Target(1, 0), [Target(2, 1)]);
  }

  /** The text of a cell, as far as the example needs it. */
  function ExampleText(c: Cell): string
  {
    if c.Text? then c.s else ""
  }

  lemma ExampleDataRow()
    ensures PatchDataRow([Text("A"), Num(0)], [Text("caseid"), Text("tumour_core")], 0,
                         [MaskInfo("A", map["tumour" := 1, "tumour_core" := 0])], ["tumour", "tumour_core"], ExampleText)
         == ([Text("A"), Num(0)], {1})
  {
    var infos := [MaskInfo("A", map["tumour" := 1, "tumour_core" := 0])];
    ExampleSchema();
    ExampleTargets();
    ExampleRow();
    assert CaseIds(infos) == ["A"];
    assert FirstRecord(infos, "A") == Some(0);
  }

  lemma ExamplePatchRows(sheet: Sheet, infos: seq<MaskInfo>, names: seq<string>)
    requires sheet == Sheet([Text("caseid"), Text("tumour_core")], [[Text("A"), Num(0)]])
    requires infos == [MaskInfo("A", map["tumour" := 1, "tumour_core" := 0])]
    requires names == ["tumour", "tumour_core"]
    ensures sheet.WellFormed() && Covers(infos, names)
    ensures PatchRows(sheet, 0, infos, names, ExampleText) == Patched(sheet.rows, {(0, 1)})
  {
    ExampleDataRow();
    PatchRowsSingle(sheet, 0, infos, names, ExampleText);
    FlaggedColumnOne({1});
  }

  lemma FlaggedColumnOne(cols: set<nat>)
    requires cols == {1}
    ensures (set j | j in cols :: (0, j)) == {(0, 1)}
  {
    assert (0, 1) in set j | j in cols :: (0, j);
  }

  /** Both mask names write column 1 with different presence values: the first write sets 1, the
      second sets 0 again, and the cell is flagged. The output equals the input, so patching the
      output flags the same cell again: without `Separated` the patch is not idempotent. */
  lemma SharedColumnDefeatsIdempotence()
    ensures var sheet := Sheet([Text("caseid"), Text("tumour_core")], [[Text("A"), Num(0)]]);
            var infos := [MaskInfo("A", map["tumour" := 1, "tumour_core" := 0])];
            var out := Patch(sheet, infos, ["tumour", "tumour_core"], ExampleText);
            out.Ok? && out.value.rows == sheet.rows && out.value.flagged == {(0, 1)}
  {
    ExampleSchema();
    ExamplePatchRows(Sheet([Text("caseid"), Text("tumour_core")], [[Text("A"), Num(0)]]),
                     [MaskInfo("A", map["tumour" := 1, "tumour_core" := 0])], ["tumour", "tumour_core"]);
  }
}
