/** Writing changes into a sheet's copy and reading the copy back: what the new cells are
    shown to come to, through the evaluator with its memory. Here the evaluator, the column
    additions and the compiled formulas meet: a survey's preview shows, row by row, what the
    calculation computes.
 */
module Readback {
  import Columns
  import opened Options
  import opened Formulas
  import opened Meaning
  import opened References
  import opened Grids
  import opened Worksheets
  import opened RemainingLife
  import opened Compile
  import opened Survey

  const BLOCKED := Text("#BLOCKED!")

  /** The cells that came out blocked. */
  method BlockedAmong(cells: seq<Cell>, values: seq<Result<Value>>) returns (blocked: seq<Cell>)
    requires |values| == |cells|
    ensures forall c :: c in blocked <==> exists k :: 0 <= k < |cells| && cells[k] == c && values[k] == Ok(BLOCKED)
  {
    blocked := [];
    for i := 0 to |cells|
      invariant forall c :: c in blocked <==> exists k :: 0 <= k < i && cells[k] == c && values[k] == Ok(BLOCKED)
    {
      if values[i] == Ok(BLOCKED) { blocked := blocked + [cells[i]]; }
    }
  }

  /** `_apply`: the changes written, the copy evaluated for the cells shown, and then once
      more for each cell written, to refuse the copy if one is blocked.
   */
  method ApplyAndReadBack(ws: Worksheet, changes: seq<Change>, shown: seq<Cell>, maths: Maths)
    returns (out: Worksheet, written: seq<Cell>, values: seq<Result<Value>>, blocked: seq<Cell>)
    ensures out == AfterAll(ws, changes, LastRow(ws)) && written == WrittenByAll(ws, changes, LastRow(ws))
    ensures |values| == |shown|
    ensures forall i :: 0 <= i < |shown| && Settles(AsSheet(out, maths), shown[i]) ==>
      values[i] == Means(AsSheet(out, maths), shown[i])
    ensures forall c :: c in blocked ==> c in written
    ensures forall c :: c in written && Settles(AsSheet(out, maths), c) ==>
      (c in blocked <==> Means(AsSheet(out, maths), c) == Ok(BLOCKED))
  {
    hide AfterAll, WrittenByAll, LastRow, AsSheet, Settles;
    out, written := Apply(ws, changes);
    var grid := new Grid(AsSheet(out, maths));
    values := grid.Query(shown);
    var again := grid.Query(written);
    blocked := BlockedAmong(written, again);
  }

  /** What a cell of a survey's new columns should show, for a row whose calculation is l:
      its rate, its life, and its next measurement exactly when the request's own maximum
      changes nothing for the row.
   */
  ghost predicate Expected(
    ws: Worksheet, intervals: map<nat, real>, wide: Option<real>, c: Cell, l: Life, r: Result<Value>)
  {
    && (c.letters == Columns.Letters(ws.width + 1) ==> r == Ok(Shown(l.rate, "")))
    && (c.letters == Columns.Letters(ws.width + 2) ==> r == Ok(Shown(l.life, NOT_LIMITED)))
    && (c == NextCell(ws, intervals, c.row) ==>
          (r == Ok(Shown(l.next, "")) <==> NextCarried(l.reading, wide, IntervalAt(intervals, c.row))))
  }

  /** A value read back that is the cell's meaning, where it has one, is the one expected. */
  lemma ReadAsCalculated(
    ws: Worksheet, hs: seq<Heading>, intervals: map<nat, real>, bottom: nat, maths: Maths,
    c: Cell, x: Reading, wide: Option<real>, v: Result<Value>)
    requires Shows(hs, ws.width) && FindLayout(hs).Some? && Rightmost(hs) == ws.width
    requires forall k :: k in intervals ==> 2 <= k <= bottom && intervals[k] > 0.0
    requires 2 <= c.row <= LastRow(ws) && Survey.Holds(ws, maths, FindLayout(hs).value, c.row, x) && x.years >= 0.0
    requires wide.None? || wide.value >= 0.0
    requires var s := Written(ws, hs, intervals, bottom, maths); Settles(s, c) ==> v == Means(s, c)
    ensures Expected(ws, intervals, wide, c, Assess(x, IntervalFor(wide, IntervalAt(intervals, c.row))), v)
  {
    assert Assess(x, IntervalFor(wide, IntervalAt(intervals, c.row))).reading == x;
    hide Columns.Letters, Columns.Number, Written, LastRow, Rightmost, FindLayout, Shown, Settles, MeansTo, Assess,
      NextCarried, Survey.Holds, Expected, IntervalFor;
    var s, l := Written(ws, hs, intervals, bottom, maths), Assess(x, IntervalFor(wide, IntervalAt(intervals, c.row)));
    SurveyMeans(ws, hs, intervals, bottom, maths, c.row, x, wide);
    AsExpected(s, ws, intervals, wide, c, l, v);
  }

  lemma AsExpected(
    s: Sheet, ws: Worksheet, intervals: map<nat, real>, wide: Option<real>, c: Cell, l: Life, v: Result<Value>)
    requires MeansTo(s, Cell(Columns.Letters(ws.width + 1), c.row), Shown(l.rate, ""))
    requires MeansTo(s, Cell(Columns.Letters(ws.width + 2), c.row), Shown(l.life, NOT_LIMITED))
    requires Settles(s, NextCell(ws, intervals, c.row))
    requires Means(s, NextCell(ws, intervals, c.row)) == Ok(Shown(l.next, "")) <==>
             NextCarried(l.reading, wide, IntervalAt(intervals, c.row))
    requires Settles(s, c) ==> v == Means(s, c)
    ensures Expected(ws, intervals, wide, c, l, v)
  {
    hide Columns.Letters, NextCarried, Settles, Shown;
    assert c == Cell(c.letters, c.row);
  }

  /** A request about a survey: the calculation of its rows, and the preview of its columns,
      whatever cells it shows and in whatever order. Every rate and life shown for a row with
      its readings is the calculation's; a next inspection is, exactly when the request's own
      maximum changes nothing for the row. The cells written are the data cells of the new
      columns, all of them.
   */
  method PreviewSurvey(
    ws: Worksheet, hs: seq<Heading>, intervals: map<nat, real>, bottom: nat, shown: seq<Cell>, maths: Maths,
    readings: seq<(nat, Reading)>, stated: Option<real>, default_: real, sop: real)
    returns (results: seq<Life>, written: seq<Cell>, values: seq<Result<Value>>, blocked: seq<Cell>)
    requires Shows(hs, ws.width) && FindLayout(hs).Some? && Rightmost(hs) == ws.width
    requires forall k :: k in intervals ==> 2 <= k <= bottom && intervals[k] > 0.0
    requires stated.None? || stated.value >= 0.0
    ensures |results| == |readings| && |values| == |shown|
    ensures forall k :: 0 <= k < |readings| ==>
      results[k] ==
        Assess(readings[k].1, IntervalFor(WideInterval(stated, default_, sop), IntervalAt(intervals, readings[k].0)))
    ensures forall i, k :: 0 <= i < |shown| && 0 <= k < |readings| && shown[i].row == readings[k].0
                           && RowRead(ws, hs, maths, readings[k]) ==>
      Expected(ws, intervals, WideInterval(stated, default_, sop), shown[i], results[k], values[i])
    ensures forall c :: c in written <==> IsNew(ws, if intervals == map[] then 3 else 4, c) && 2 <= c.row <= LastRow(ws)
  {
    ghost var wide := WideInterval(stated, default_, sop);
    assert wide.None? || wide.value >= 0.0;
    hide Columns.Letters, Columns.Number, Columns.IsLetters, AfterAll, WrittenByAll, LastRow, Rightmost, FindLayout,
      SurveyChanges, AsSheet, Written, Settles, Expected, IsNew, Survey.Holds, Assess, IntervalFor, WideInterval;
    var owned := seq(|readings|, k requires 0 <= k < |readings| =>
      (readings[k].1, IntervalAt(intervals, readings[k].0)));
    results := CalculateRemainingLife(owned, stated, default_, sop);
    ChangesPlanned(ws, hs, intervals, bottom, maths);
    var changes := SurveyChanges(hs, intervals, bottom).value;
    var out;
    out, written, values, blocked := ApplyAndReadBack(ws, changes, shown, maths);
    forall i, k | 0 <= i < |shown| && 0 <= k < |readings| && shown[i].row == readings[k].0
                  && RowRead(ws, hs, maths, readings[k])
      ensures Expected(ws, intervals, wide, shown[i], results[k], values[i])
    {
      ReadAsCalculated(ws, hs, intervals, bottom, maths, shown[i], readings[k].1, wide, values[i]);
    }
    forall c ensures c in written <==> IsNew(ws, |changes|, c) && 2 <= c.row <= LastRow(ws) {
      WrittenExactly(ws, changes, LastRow(ws), c);
    }
  }

  lemma ChangesPlanned(ws: Worksheet, hs: seq<Heading>, intervals: map<nat, real>, bottom: nat, maths: Maths)
    requires FindLayout(hs).Some?
    ensures SurveyChanges(hs, intervals, bottom).Some?
    ensures var changes := SurveyChanges(hs, intervals, bottom).value;
      && |changes| == (if intervals == map[] then 3 else 4)
      && (forall i :: 0 <= i < |changes| ==> changes[i].NewColumn?)
      && Written(ws, hs, intervals, bottom, maths) == AsSheet(AfterAll(ws, changes, LastRow(ws)), maths)
  {
  }

  /** A row of readings the calculation was given as the sheet has them. */
  ghost predicate RowRead(ws: Worksheet, hs: seq<Heading>, maths: Maths, row: (nat, Reading))
    requires FindLayout(hs).Some?
  {
    2 <= row.0 <= LastRow(ws) && Survey.Holds(ws, maths, FindLayout(hs).value, row.0, row.1) && row.1.years >= 0.0
  }
}
