/** The exported workbook's "Remaining life" sheet: the calculation's rows as inputs, and
    the rate, the life and the next measurement as formulas over them.
 */
module LifeSheet {
  import Columns
  import opened Options
  import opened Formulas
  import opened Meaning
  import opened RemainingLife
  import opened Compile

  /** A row of the calculation as the report carries it: the interval only when it is not
      the request's own.
   */
  datatype CalcRow = CalcRow(reading: Reading, interval: Option<Option<real>>)

  function Reported(l: Life, wide: Option<real>): CalcRow {
    CalcRow(l.reading, if l.interval != wide then Some(l.interval) else None)
  }

  function IntervalOf(row: CalcRow, maximum: Option<real>): Option<real> {
    match row.interval case Some(own) => own case None => maximum
  }

  const NORMAL := "the code's normal interval"
  const HEADER := [
    "Location", "Previous thickness (mm)", "Current thickness (mm)", "Required thickness (mm)",
    "Interval (years)", "Maximum interval (years)", "Corrosion rate (mm/year)",
    "Remaining life (years)", "Next measurement within (years)"]

  function Decimal(n: nat): string {
    if n < 10 then [('0' as int + n) as char] else Decimal(n / 10) + Decimal(n % 10)
  }

  function Headings(): seq<Content> {
    seq(|HEADER|, c requires 0 <= c < |HEADER| => Plain(Text(HEADER[c])))
  }

  /** A row's cells, left to right: six inputs, then the three formulas. */
  function RowContents(row: CalcRow, maximum: Option<real>, r: nat): seq<Content>
    requires r >= 1
  {
    var x := row.reading;
    [Plain(Text(if x.location == "" then "Location " + Decimal(r - 1) else x.location)),
     Plain(Num(x.previous)), Plain(Num(x.current)), Plain(Num(x.required)), Plain(Num(x.years)),
     Rule(IntervalOf(row, maximum)),
     Formulaic(Parsed(RateFormula("B", "C", "E", r))),
     Formulaic(Parsed(LifeFormula("C", "D", "G", r))),
     Formulaic(Parsed(NextFormula("H", "F", NORMAL, r)))]
  }

  predicate Holds(cells: map<Cell, Content>, letters: string, r: nat, content: Content) {
    Cell(letters, r) in cells && cells[Cell(letters, r)] == content
  }

  ghost predicate Spread(cells: map<Cell, Content>, contents: seq<Content>, count: nat, r: nat)
    requires count <= |contents|
  {
    forall c :: 1 <= c <= count ==> Holds(cells, Columns.Letters(c), r, contents[c - 1])
  }

  ghost predicate RowWritten(cells: map<Cell, Content>, row: CalcRow, maximum: Option<real>, r: nat)
    requires r >= 1
  {
    Spread(cells, RowContents(row, maximum, r), 9, r)
  }

  lemma SpreadMore(cells: map<Cell, Content>, contents: seq<Content>, count: nat, r: nat)
    requires count < |contents| && Spread(cells, contents, count, r)
    ensures Spread(cells[Cell(Columns.Letters(count + 1), r) := contents[count]], contents, count + 1, r)
  {
    forall c | 1 <= c <= count + 1
      ensures Holds(
        cells[Cell(Columns.Letters(count + 1), r) := contents[count]], Columns.Letters(c), r, contents[c - 1])
    {
      if Columns.Letters(c) == Columns.Letters(count + 1) { Columns.LettersInjective(c, count + 1); }
      else { assert Holds(cells, Columns.Letters(c), r, contents[c - 1]); }
    }
  }

  /** One row, cell by cell; every other row is left alone. */
  method WriteRow(cells: map<Cell, Content>, contents: seq<Content>, r: nat) returns (out: map<Cell, Content>)
    ensures Spread(out, contents, |contents|, r)
    ensures forall d: Cell :: d.row != r && d in cells ==> d in out && out[d] == cells[d]
  {
    out := cells;
    for c := 0 to |contents|
      invariant Spread(out, contents, c, r)
      invariant forall d: Cell :: d.row != r && d in cells ==> d in out && out[d] == cells[d]
    {
      var letters := Columns.ColumnLetters(c + 1);
      SpreadMore(out, contents, c, r);
      out := out[Cell(letters, r) := contents[c]];
    }
  }

  ghost predicate RowsWritten(cells: map<Cell, Content>, rows: seq<CalcRow>, maximum: Option<real>) {
    forall i :: 0 <= i < |rows| ==> RowWritten(cells, rows[i], maximum, i + 2)
  }

  lemma RowsKept(cells: map<Cell, Content>, out: map<Cell, Content>, rows: seq<CalcRow>, maximum: Option<real>, w: nat)
    requires RowsWritten(cells, rows, maximum) && |rows| + 2 <= w
    requires forall d: Cell :: d.row != w && d in cells ==> d in out && out[d] == cells[d]
    ensures RowsWritten(out, rows, maximum)
  {
    forall i | 0 <= i < |rows| ensures RowWritten(out, rows[i], maximum, i + 2) {
      assert RowWritten(cells, rows[i], maximum, i + 2);
    }
  }

  /** `_remaining_life_sheet`'s loop over the rows of the calculation, from row 2. */
  method RemainingLifeSheet(rows: seq<CalcRow>, maximum: Option<real>, note: string) returns (cells: map<Cell, Content>)
    ensures RowsWritten(cells, rows, maximum)
    ensures Spread(cells, Headings(), 9, 1) && Holds(cells, "A", |rows| + 3, Plain(Text(note)))
  {
    cells := WriteRow(map[], Headings(), 1);
    for i := 0 to |rows|
      invariant RowsWritten(cells, rows[..i], maximum)
      invariant Spread(cells, Headings(), 9, 1)
    {
      ghost var before := cells;
      cells := WriteRow(cells, RowContents(rows[i], maximum, i + 2), i + 2);
      RowsKept(before, cells, rows[..i], maximum, i + 2);
      OneMore(cells, rows[..i], rows[i], maximum);
      assert rows[..i] + [rows[i]] == rows[..i + 1];
    }
    assert rows[..|rows|] == rows;
    RowsKept(cells, cells[Cell("A", |rows| + 3) := Plain(Text(note))], rows, maximum, |rows| + 3);
    cells := cells[Cell("A", |rows| + 3) := Plain(Text(note))];
  }

  lemma OneMore(cells: map<Cell, Content>, rows: seq<CalcRow>, row: CalcRow, maximum: Option<real>)
    requires RowsWritten(cells, rows, maximum) && RowWritten(cells, row, maximum, |rows| + 2)
    ensures RowsWritten(cells, rows + [row], maximum)
  {
    forall i | 0 <= i <= |rows| ensures RowWritten(cells, (rows + [row])[i], maximum, i + 2) {
      if i < |rows| { assert RowWritten(cells, rows[i], maximum, i + 2); }
    }
  }

  lemma SheetLetters()
    ensures Columns.Letters(2) == "B" && Columns.Letters(3) == "C" && Columns.Letters(4) == "D"
    ensures Columns.Letters(5) == "E" && Columns.Letters(6) == "F" && Columns.Letters(7) == "G"
    ensures Columns.Letters(8) == "H" && Columns.Letters(9) == "I"
  {
    assert Columns.Letters(0) == "";
  }

  /** Every location's row, evaluated, is the location as it was calculated - with the
      interval it was calculated with, although the report leaves most of them out.
   */
  lemma SheetMeans(
    l: Life, wide: Option<real>, cells: map<Cell, Content>, saved: map<Cell, Value>, maths: Maths, r: nat)
    requires l == Assess(l.reading, l.interval)
    requires l.reading.years >= 0.0 && (l.interval.None? || l.interval.value > 0.0)
    requires r >= 1 && RowWritten(cells, Reported(l, wide), wide, r)
    ensures var s := Sheet(cells, saved, maths);
      && MeansTo(s, Cell("G", r), Shown(l.rate, ""))
      && MeansTo(s, Cell("H", r), Shown(l.life, NOT_LIMITED))
      && MeansTo(s, Cell("I", r), Shown(l.next, NORMAL))
  {
    var s, at, row := Sheet(cells, saved, maths), Layout("B", "C", "D", "E", "G", "H"), Reported(l, wide);
    SheetLetters();
    RowMeans(s, at, "F", "I", NORMAL, r, l.reading, l.interval, 0);
  }

  /** What the row of a location comes to is what was calculated for it. */
  ghost predicate RowAgrees(s: Sheet, l: Life, r: nat) {
    && MeansTo(s, Cell("G", r), Shown(l.rate, ""))
    && MeansTo(s, Cell("H", r), Shown(l.life, NOT_LIMITED))
    && MeansTo(s, Cell("I", r), Shown(l.next, NORMAL))
  }

  /** From readings to workbook: the calculation, its report and the sheet built from the
      report. Whatever values the workbook has saved, every location's formulas come to what
      the calculation found, with whichever interval it chose for that location.
   */
  method ExportCalculation(
    rows: seq<(Reading, Option<real>)>, stated: Option<real>, default_: real, sop: real, note: string)
    returns (results: seq<Life>, cells: map<Cell, Content>)
    ensures |results| == |rows|
    ensures forall i :: 0 <= i < |rows| ==>
      results[i] == Assess(rows[i].0, IntervalFor(WideInterval(stated, default_, sop), rows[i].1))
    ensures forall i, saved, maths :: 0 <= i < |rows| && rows[i].0.years >= 0.0
                                      && (results[i].interval.None? || results[i].interval.value > 0.0) ==>
      RowAgrees(Sheet(cells, saved, maths), results[i], i + 2)
  {
    results := CalculateRemainingLife(rows, stated, default_, sop);
    var wide := WideInterval(stated, default_, sop);
    var reported := seq(|results|, i requires 0 <= i < |results| => Reported(results[i], wide));
    cells := RemainingLifeSheet(reported, wide, note);
    hide RowWritten, MeansTo, Headings, Spread;
    forall i, saved, maths | 0 <= i < |rows| && rows[i].0.years >= 0.0
                             && (results[i].interval.None? || results[i].interval.value > 0.0)
      ensures RowAgrees(Sheet(cells, saved, maths), results[i], i + 2)
    {
      assert RowWritten(cells, reported[i], wide, i + 2);
      SheetMeans(results[i], wide, cells, saved, maths, i + 2);
    }
  }
}
