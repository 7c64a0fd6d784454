/** `update_excel_with_mask_presence`: writing computed presence into a copy of the reference sheet. */
module Patching {
  import opened Wrappers
  import opened Cells
  import opened Schema
  import opened CaseProcessing
  import opened Reconciliation

  /** The worksheet: its header row and the data rows below it, all of the sheet's width. */
  datatype Sheet = Sheet(header: seq<Cell>, rows: seq<seq<Cell>>) {
    predicate WellFormed()
    {
      forall i :: 0 <= i < |rows| ==> |rows[i]| == |header|
    }
  }

  /** The patched data rows, and the cells filled yellow as (data row, column), both zero-based:
      cell (i, j) is sheet cell (row i + 2, column j + 1). */
  datatype Patched = Patched(rows: seq<seq<Cell>>, flagged: set<(nat, nat)>)

  /** One write the patcher may make in a row: presence `value` into column `column`. */
  datatype Target = Target(column: nat, value: int)

  /** The targets of a row, one per mask name that has a column, in mask-name order. */
  function Targets(columns: map<string, nat>, maskNames: seq<string>, presence: map<string, int>): (r: seq<Target>)
    requires HasAll(presence, maskNames)
    ensures forall t :: t in r ==> exists m :: m in maskNames && m in columns && t == Target(columns[m], presence[m])
    ensures forall m :: m in maskNames && m in columns ==> Target(columns[m], presence[m]) in r
  {
    if |maskNames| == 0 then []
    else
      var m := maskNames[0];
      var rest := Targets(columns, maskNames[1..], presence);
      assert forall n :: n in maskNames <==> n == m || n in maskNames[1..];
      if m in columns then [Target(columns[m], presence[m])] + rest else rest
  }

  lemma ConcatAssoc<T>(a: seq<T>, b: seq<T>, c: seq<T>)
    ensures a + (b + c) == (a + b) + c
  {
  }

  /** Appending a mask name appends its write, if it has a column, after all earlier ones: the
      writes come one per mask name with a column, in mask-name order. */
  lemma {:induction false} TargetsSnoc(columns: map<string, nat>, maskNames: seq<string>, m: string, presence: map<string, int>)
    requires HasAll(presence, maskNames + [m])
    ensures HasAll(presence, maskNames)
    ensures Targets(columns, maskNames + [m], presence)
         == Targets(columns, maskNames, presence) + (if m in columns then [Target(columns[m], presence[m])] else [])
    decreases |maskNames|
  {
    assert forall n :: n in maskNames ==> n in maskNames + [m];
    if |maskNames| > 0 {
      assert (maskNames + [m])[0] == maskNames[0];
      assert (maskNames + [m])[1..] == maskNames[1..] + [m];
      assert forall n :: n in maskNames[1..] + [m] ==> n in maskNames + [m];
      TargetsSnoc(columns, maskNames[1..], m, presence);
      var m0 := maskNames[0];
      var head := if m0 in columns then [Target(columns[m0], presence[m0])] else [];
      var last := if m in columns then [Target(columns[m], presence[m])] else [];
      assert Targets(columns, maskNames, presence) == head + Targets(columns, maskNames[1..], presence);
      assert Targets(columns, maskNames + [m], presence) == head + (Targets(columns, maskNames[1..], presence) + last);
      ConcatAssoc(head, Targets(columns, maskNames[1..], presence), last);
    } else {
      assert maskNames + [m] == [m];
    }
  }

  predicate InRow(ts: seq<Target>, width: nat)
  {
    forall t :: t in ts ==> t.column < width
  }

  /** Two writes to the same column write the same value. */
  predicate Consistent(ts: seq<Target>)
  {
    forall a, b :: a in ts && b in ts && a.column == b.column ==> a.value == b.value
  }

  /** One write: a cell whose reading differs from `t.value` is overwritten with it and flagged. */
  function Write(row: seq<Cell>, t: Target): (r: (seq<Cell>, set<nat>))
    requires t.column < |row|
    ensures |r.0| == |row|
    ensures PatchValue(r.0[t.column]) == Some(t.value)
    ensures r.1 == (if PatchValue(row[t.column]) != Some(t.value) then {t.column} else {})
    ensures forall j :: 0 <= j < |row| && j != t.column ==> r.0[j] == row[j]
  {
    if PatchValue(row[t.column]) != Some(t.value) then (row[t.column := Num(t.value)], {t.column}) else (row, {})
  }

  /** The mask loop for one row: a cell whose reading differs from the presence is overwritten
      with the presence and flagged; the flagged columns are returned beside the row. */
  function PatchRow(row: seq<Cell>, ts: seq<Target>): (r: (seq<Cell>, set<nat>))
    requires InRow(ts, |row|)
    ensures |r.0| == |row|
    ensures forall j :: 0 <= j < |row| && j !in r.1 ==> r.0[j] == row[j]
    ensures forall j :: j in r.1 ==> j < |row| && r.0[j].Num? && exists t :: t in ts && t.column == j
    decreases |ts|
  {
    if |ts| == 0 then (row, {})
    else
      var step := Write(row, ts[0]);
      var rest := PatchRow(step.0, ts[1..]);
      (rest.0, step.1 + rest.1)
  }

  /** The writes apply in order: patching with one more target is patching with the earlier
      ones and then applying the last to the result. */
  lemma {:induction false} PatchRowSnoc(row: seq<Cell>, ts: seq<Target>, t: Target)
    requires InRow(ts + [t], |row|)
    ensures InRow(ts, |row|) && t.column < |row|
    ensures PatchRow(row, ts + [t])
         == (Write(PatchRow(row, ts).0, t).0, PatchRow(row, ts).1 + Write(PatchRow(row, ts).0, t).1)
    decreases |ts|
  {
    assert t in ts + [t];
    assert forall u :: u in ts ==> u in ts + [t];
    if |ts| > 0 {
      var step := Write(row, ts[0]);
      assert (ts + [t])[0] == ts[0];
      assert (ts + [t])[1..] == ts[1..] + [t];
      assert forall u :: u in ts[1..] + [t] ==> u in ts + [t];
      PatchRowSnoc(step.0, ts[1..], t);
      var inner := PatchRow(step.0, ts[1..]);
      var w := Write(inner.0, t);
      assert PatchRow(row, ts) == (inner.0, step.1 + inner.1);
      assert PatchRow(row, ts + [t]) == (w.0, step.1 + (inner.1 + w.1));
      assert step.1 + (inner.1 + w.1) == (step.1 + inner.1) + w.1;
    } else {
      assert ts + [t] == [t];
      assert [t][1..] == [];
      var w := Write(row, t);
      assert PatchRow(w.0, []) == (w.0, {});
      assert PatchRow(row, [t]) == (w.0, w.1 + {});
      assert w.1 + {} == {} + w.1;
    }
  }

  /** Whatever came before, a cell ends reading as the value of the last write to its column,
      whatever writes to other columns follow: where two mask names share a column, the later
      one decides. */
  lemma {:induction false} LastWriteWins(row: seq<Cell>, ts: seq<Target>, t: Target, later: seq<Target>)
    requires InRow(ts + [t] + later, |row|)
    requires forall u :: u in later ==> u.column != t.column
    ensures PatchValue(PatchRow(row, ts + [t] + later).0[t.column]) == Some(t.value)
    decreases |later|
  {
    if |later| == 0 {
      assert ts + [t] + later == ts + [t];
      PatchRowSnoc(row, ts, t);
    } else {
      var init := later[..|later| - 1];
      var u := later[|later| - 1];
      assert later == init + [u];
      assert ts + [t] + later == (ts + [t] + init) + [u];
      assert forall v :: v in ts + [t] + init ==> v in ts + [t] + later;
      assert forall v :: v in init ==> v in later;
      assert u in later;
      LastWriteWins(row, ts, t, init);
      PatchRowSnoc(row, ts + [t] + init, u);
    }
  }

  /** When every target already reads as its value, the row is left alone. */
  lemma {:induction false} SatisfiedRowUnchanged(row: seq<Cell>, ts: seq<Target>)
    requires InRow(ts, |row|)
    requires forall t :: t in ts ==> PatchValue(row[t.column]) == Some(t.value)
    ensures PatchRow(row, ts) == (row, {})
    decreases |ts|
  {
    if |ts| > 0 {
      assert ts[0] in ts;
      assert PatchValue(row[ts[0].column]) == Some(ts[0].value);
      SatisfiedRowUnchanged(row, ts[1..]);
      var rest := PatchRow(row, ts[1..]);
      assert rest.0 == row && rest.1 == {};
      assert PatchRow(row, ts).0 == row;
      assert PatchRow(row, ts).1 == {};
    }
  }

  /** With consistent targets each target cell ends as the presence, or as it was when it
      already read as the presence; it is flagged exactly when its reading differed. */
  lemma {:induction false} PatchRowExact(row: seq<Cell>, ts: seq<Target>)
    requires InRow(ts, |row|) && Consistent(ts)
    ensures forall t :: t in ts ==>
      && PatchRow(row, ts).0[t.column] == (if PatchValue(row[t.column]) == Some(t.value) then row[t.column] else Num(t.value))
      && (t.column in PatchRow(row, ts).1 <==> PatchValue(row[t.column]) != Some(t.value))
    decreases |ts|
  {
    if |ts| > 0 {
      var t0 := ts[0];
      var step := Write(row, t0);
      assert Consistent(ts[1..]);
      PatchRowExact(step.0, ts[1..]);
      forall t | t in ts
        ensures PatchRow(row, ts).0[t.column] == (if PatchValue(row[t.column]) == Some(t.value) then row[t.column] else Num(t.value))
        ensures t.column in PatchRow(row, ts).1 <==> PatchValue(row[t.column]) != Some(t.value)
      {
        if t.column == t0.column {
          assert t.value == t0.value;
          // the first write settles the cell; every later write to it agrees, so none applies
          var rest := ts[1..];
          forall u | u in rest && u.column == t0.column ensures PatchValue(step.0[u.column]) == Some(u.value) {
            assert u in ts;
          }
          forall u | u in rest ensures PatchValue(step.0[u.column]) == Some(u.value) || u.column != t0.column { }
          if t in rest {
            assert PatchRow(step.0, rest).0[t.column] == step.0[t.column];
          } else {
            // a later write to this column would equal `t0` itself, which is not among them
            assert t == t0;
            assert t0.column !in PatchRow(step.0, rest).1;
          }
        } else {
          assert t in ts[1..];
        }
      }
    }
  }

  /** Patching a row twice with consistent targets: the second pass changes and flags nothing. */
  lemma PatchRowIdempotent(row: seq<Cell>, ts: seq<Target>)
    requires InRow(ts, |row|) && Consistent(ts)
    ensures PatchRow(PatchRow(row, ts).0, ts) == (PatchRow(row, ts).0, {})
  {
    var r := PatchRow(row, ts);
    PatchRowExact(row, ts);
    forall t | t in ts ensures PatchValue(r.0[t.column]) == Some(t.value) { }
    SatisfiedRowUnchanged(r.0, ts);
  }

  /** Column `j` is the patcher's column for some mask name. */
  predicate IsMaskColumn(schema: SheetSchema, maskNames: seq<string>, j: nat)
  {
    exists m :: m in maskNames && m in schema.maskColumns && schema.maskColumns[m] == j
  }

  /** The patcher's handling of data row `row`: a row whose case id has no presence record is
      left alone; otherwise the mask loop runs with that case's first record. */
  function PatchDataRow(row: seq<Cell>, header: seq<Cell>, caseCol: nat, infos: seq<MaskInfo>,
                        maskNames: seq<string>, cellText: Cell -> string): (r: (seq<Cell>, set<nat>))
    requires |row| == |header| && caseCol < |header| && Covers(infos, maskNames)
    ensures |r.0| == |row|
    ensures forall j :: 0 <= j < |row| && j !in r.1 ==> r.0[j] == row[j]
    ensures forall j :: j in r.1 ==> j < |row| && r.0[j].Num?
    ensures forall j :: j in r.1 ==> FirstRecord(infos, cellText(row[caseCol])).Some?
    ensures forall j :: j in r.1 ==> IsMaskColumn(SheetSchemaOf(header, maskNames), maskNames, j)
  {
    match FirstRecord(infos, cellText(row[caseCol]))
    case None => (row, {})
    case Some(k) => PatchRow(row, Targets(SheetSchemaOf(header, maskNames).maskColumns, maskNames, infos[k].presence))
  }

  /** The (row, column) pairs of per-row column sets. */
  function Positions(columns: seq<set<nat>>): (r: set<(nat, nat)>)
    ensures forall i, j :: (i, j) in r <==> 0 <= i < |columns| && j in columns[i]
  {
    set i, j | 0 <= i < |columns| && j in columns[i] :: (i, j)
  }

  /** Every data row handled on its own; flagged columns become (row, column) pairs. */
  function PatchRows(sheet: Sheet, caseCol: nat, infos: seq<MaskInfo>, maskNames: seq<string>,
                     cellText: Cell -> string): (r: Patched)
    requires sheet.WellFormed() && caseCol < |sheet.header| && Covers(infos, maskNames)
    ensures |r.rows| == |sheet.rows|
    ensures forall i :: 0 <= i < |sheet.rows| ==>
      r.rows[i] == PatchDataRow(sheet.rows[i], sheet.header, caseCol, infos, maskNames, cellText).0
    ensures forall i, j :: (i, j) in r.flagged <==>
      0 <= i < |sheet.rows| && j in PatchDataRow(sheet.rows[i], sheet.header, caseCol, infos, maskNames, cellText).1
  {
    var results := seq(|sheet.rows|, i requires 0 <= i < |sheet.rows| =>
      PatchDataRow(sheet.rows[i], sheet.header, caseCol, infos, maskNames, cellText));
    Patched(seq(|sheet.rows|, i requires 0 <= i < |sheet.rows| => results[i].0),
            Positions(seq(|sheet.rows|, i requires 0 <= i < |sheet.rows| => results[i].1)))
  }

  /** A sheet with one data row is patched as that row. */
  lemma PatchRowsSingle(sheet: Sheet, caseCol: nat, infos: seq<MaskInfo>, maskNames: seq<string>, cellText: Cell -> string)
    requires sheet.WellFormed() && caseCol < |sheet.header| && Covers(infos, maskNames) && |sheet.rows| == 1
    ensures var d := PatchDataRow(sheet.rows[0], sheet.header, caseCol, infos, maskNames, cellText);
            PatchRows(sheet, caseCol, infos, maskNames, cellText) == Patched([d.0], set j | j in d.1 :: (0, j))
  {
    var d := PatchDataRow(sheet.rows[0], sheet.header, caseCol, infos, maskNames, cellText);
    var out := PatchRows(sheet, caseCol, infos, maskNames, cellText);
    assert out.rows == [d.0];
    forall c | c in out.flagged ensures c in set j | j in d.1 :: (0, j) {
      assert (c.0, c.1) in out.flagged;
    }
  }

  /** The patched rows and the flagged cells. A sheet without a case-id header raises
      `KeyError: 'case_id'` as soon as it has a data row to look at. */
  function Patch(sheet: Sheet, infos: seq<MaskInfo>, maskNames: seq<string>, cellText: Cell -> string): (r: Result<Patched>)
    requires sheet.WellFormed() && Covers(infos, maskNames)
    ensures r.Err? <==> |sheet.rows| > 0 && SheetSchemaOf(sheet.header, maskNames).caseIdColumn.None?
    ensures r.Err? ==> r.error == MissingKey(CaseIdKey)
    ensures r.Ok? ==> |r.value.rows| == |sheet.rows|
    ensures r.Ok? ==> forall i :: 0 <= i < |sheet.rows| ==> |r.value.rows[i]| == |sheet.rows[i]|
    ensures r.Ok? ==> forall i, j :: 0 <= i < |sheet.rows| && 0 <= j < |sheet.rows[i]| && (i, j) !in r.value.flagged ==>
      r.value.rows[i][j] == sheet.rows[i][j]
    ensures r.Ok? ==> forall c :: c in r.value.flagged ==> c.0 < |sheet.rows| && c.1 < |sheet.rows[c.0]| && r.value.rows[c.0][c.1].Num?
    ensures r.Ok? ==> forall c :: c in r.value.flagged ==> IsMaskColumn(SheetSchemaOf(sheet.header, maskNames), maskNames, c.1)
    ensures r.Ok? ==> forall c :: c in r.value.flagged ==>
      && SheetSchemaOf(sheet.header, maskNames).caseIdColumn.Some?
      && FirstRecord(infos, cellText(sheet.rows[c.0][SheetSchemaOf(sheet.header, maskNames).caseIdColumn.value])).Some?
  {
    var schema := SheetSchemaOf(sheet.header, maskNames);
    if |sheet.rows| == 0 then Ok(Patched([], {}))
    else match schema.caseIdColumn
      case None => Err(MissingKey(CaseIdKey))
      case Some(caseCol) =>
        Ok(PatchRows(sheet, caseCol, infos, maskNames, cellText))
  }

  /** The header gives distinct mask names distinct columns, none of them the case-id column. */
  predicate Separated(schema: SheetSchema, maskNames: seq<string>)
  {
    && (forall m1, m2 ::
          (m1 in maskNames && m2 in maskNames && m1 in schema.maskColumns && m2 in schema.maskColumns
           && schema.maskColumns[m1] == schema.maskColumns[m2]) ==> m1 == m2)
    && (schema.caseIdColumn.Some? ==> forall m :: m in schema.maskColumns ==> schema.maskColumns[m] != schema.caseIdColumn.value)
  }

  lemma TargetsConsistent(schema: SheetSchema, maskNames: seq<string>, presence: map<string, int>)
    requires HasAll(presence, maskNames) && Separated(schema, maskNames)
    ensures Consistent(Targets(schema.maskColumns, maskNames, presence))
  {
  }

  /** In a separated sheet, the cell of a found case under mask `m`'s column ends as that case's
      presence, or as it was when it already read as the presence, and is flagged exactly when its
      reading differed. */
  lemma PatchCellExact(sheet: Sheet, infos: seq<MaskInfo>, maskNames: seq<string>, cellText: Cell -> string, i: nat, m: string)
    requires sheet.WellFormed() && Covers(infos, maskNames)
    requires Patch(sheet, infos, maskNames, cellText).Ok?
    requires Separated(SheetSchemaOf(sheet.header, maskNames), maskNames)
    requires i < |sheet.rows| && m in maskNames && m in SheetSchemaOf(sheet.header, maskNames).maskColumns
    ensures var schema := SheetSchemaOf(sheet.header, maskNames);
            var out := Patch(sheet, infos, maskNames, cellText).value;
            var c := schema.maskColumns[m];
            var row := sheet.rows[i];
            var k := FirstRecord(infos, cellText(row[schema.caseIdColumn.value]));
            && c < |row| && schema.caseIdColumn.Some?
            && (k.Some? ==>
                 && out.rows[i][c] == (if PatchValue(row[c]) == Some(infos[k.value].presence[m]) then row[c] else Num(infos[k.value].presence[m]))
                 && ((i, c) in out.flagged <==> PatchValue(row[c]) != Some(infos[k.value].presence[m])))
            && (k.None? ==> out.rows[i] == row && (i, c) !in out.flagged)
  {
    var schema := SheetSchemaOf(sheet.header, maskNames);
    var row := sheet.rows[i];
    var caseCol := schema.caseIdColumn.value;
    match FirstRecord(infos, cellText(row[caseCol]))
    case None =>
    case Some(k) =>
      var ts := Targets(schema.maskColumns, maskNames, infos[k].presence);
      TargetsConsistent(schema, maskNames, infos[k].presence);
      PatchRowExact(row, ts);
      assert Target(schema.maskColumns[m], infos[k].presence[m]) in ts;
  }

  /** A second patch of the patched sheet changes and flags nothing, provided the header gives
      distinct mask names distinct columns apart from the case-id column. */
  lemma PatchIdempotent(sheet: Sheet, infos: seq<MaskInfo>, maskNames: seq<string>, cellText: Cell -> string)
    requires sheet.WellFormed() && Covers(infos, maskNames)
    requires Patch(sheet, infos, maskNames, cellText).Ok?
    requires Separated(SheetSchemaOf(sheet.header, maskNames), maskNames)
    ensures var out := Patch(sheet, infos, maskNames, cellText).value;
            Sheet(sheet.header, out.rows).WellFormed() &&
            Patch(Sheet(sheet.header, out.rows), infos, maskNames, cellText) == Ok(Patched(out.rows, {}))
  {
    var out := Patch(sheet, infos, maskNames, cellText).value;
    var again := Sheet(sheet.header, out.rows);
    var schema := SheetSchemaOf(sheet.header, maskNames);
    if |sheet.rows| > 0 {
      var caseCol := schema.caseIdColumn.value;
      forall i | 0 <= i < |sheet.rows|
        ensures PatchDataRow(out.rows[i], sheet.header, caseCol, infos, maskNames, cellText) == (out.rows[i], {})
      {
        var row := sheet.rows[i];
        var first := PatchDataRow(row, sheet.header, caseCol, infos, maskNames, cellText);
        assert out.rows[i] == first.0;
        assert caseCol !in first.1;
        assert out.rows[i][caseCol] == row[caseCol];
        match FirstRecord(infos, cellText(row[caseCol]))
        case None =>
        case Some(k) =>
          var ts := Targets(schema.maskColumns, maskNames, infos[k].presence);
          TargetsConsistent(schema, maskNames, infos[k].presence);
          PatchRowIdempotent(row, ts);
      }
      var p2 := Patch(again, infos, maskNames, cellText).value;
      assert forall i :: 0 <= i < |sheet.rows| ==>
        p2.rows[i] == PatchDataRow(out.rows[i], sheet.header, caseCol, infos, maskNames, cellText).0;
      assert p2.rows == out.rows;
      assert p2.flagged == {};
    }
  }
}
