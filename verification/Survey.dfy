/** Where a survey's compiled formulas go: new columns beside its own, which are chosen from
    its headings. The written sheet means what the calculation computed, exactly when the
    last headed column shown is the sheet's last column.
 */
module Survey {
  import Columns
  import opened Options
  import opened Formulas
  import opened Meaning
  import opened References
  import opened Worksheets
  import opened RemainingLife
  import opened Compile

  datatype Quantity = Previous | Current | Required | Years

  /** A column shown with a heading, and the quantities its words name. */
  datatype Heading = Heading(letters: string, names: set<Quantity>)

  /** The first heading naming a quantity that no earlier quantity took. */
  function Pick(hs: seq<Heading>, q: Quantity, taken: set<string>): Option<string> {
    if hs == [] then None
    else if hs[0].letters !in taken && q in hs[0].names then Some(hs[0].letters)
    else Pick(hs[1..], q, taken)
  }

  ghost predicate FirstNaming(hs: seq<Heading>, q: Quantity, taken: set<string>, i: nat) {
    && i < |hs| && hs[i].letters !in taken && q in hs[i].names
    && forall k :: 0 <= k < i ==> hs[k].letters in taken || q !in hs[k].names
  }

  lemma {:induction false} Picked(hs: seq<Heading>, q: Quantity, taken: set<string>) returns (i: nat)
    requires Pick(hs, q, taken).Some?
    ensures FirstNaming(hs, q, taken, i) && Pick(hs, q, taken) == Some(hs[i].letters)
  {
    if hs[0].letters !in taken && q in hs[0].names {
      i := 0;
    } else {
      i := Picked(hs[1..], q, taken);
      i := i + 1;
    }
  }

  function Rightmost(hs: seq<Heading>): (n: nat)
    ensures forall h :: h in hs ==> Columns.Number(h.letters) <= n
  {
    if hs == [] then 0 else Max(Column(Cell(hs[0].letters, 1)), Rightmost(hs[1..]))
  }

  /** The survey's own columns, and where the rate and the life are expected to land. */
  function FindLayout(hs: seq<Heading>): Option<Layout> {
    var p := Pick(hs, Previous, {});
    if p.None? then None else
    var c := Pick(hs, Current, {p.value});
    if c.None? then None else
    var q := Pick(hs, Required, {p.value, c.value});
    if q.None? then None else
    var y := Pick(hs, Years, {p.value, c.value, q.value});
    if y.None? then None else
    Some(Layout(p.value, c.value, q.value, y.value,
                Columns.Letters(Rightmost(hs) + 1), Columns.Letters(Rightmost(hs) + 2)))
  }

  function IntervalAt(intervals: map<nat, real>, row: nat): Option<real> {
    if row in intervals then Some(intervals[row]) else None
  }

  /** The SOP interval of each row from 2 down to the last survey row; "" where none. */
  function IntervalColumn(intervals: map<nat, real>, bottom: nat): seq<Content> {
    seq(if bottom >= 2 then bottom - 1 else 0, i requires 0 <= i =>
      if i + 2 in intervals then Plain(Num(intervals[i + 2])) else Plain(Text("")))
  }

  /** `_survey_changes`, once the columns are known. */
  function Changes(at: Layout, rule: string, intervals: map<nat, real>, bottom: nat): seq<Change> {
    [NewColumn("Corrosion rate (mm/yr)",
      Template((r: nat) => Parsed(RateFormula(at.previous, at.current, at.years, r)))),
     NewColumn("Remaining life (yr)", Template((r: nat) => Parsed(LifeFormula(at.current, at.required, at.rate, r))))]
    + if intervals == map[] then
        [NewColumn("Next inspection (yr)", Template((r: nat) => Parsed(UncappedFormula(at.life, r))))]
      else
        [NewColumn("SOP interval (yr)", Values(IntervalColumn(intervals, bottom))),
         NewColumn("Next inspection (yr)", Template((r: nat) => Parsed(NextFormula(at.life, rule, "", r))))]
  }

  function SurveyChanges(hs: seq<Heading>, intervals: map<nat, real>, bottom: nat): Option<seq<Change>> {
    match FindLayout(hs)
    case None => None
    case Some(at) => Some(Changes(at, Columns.Letters(Rightmost(hs) + 3), intervals, bottom))
  }

  /** The headings are of columns of the sheet. */
  ghost predicate Shows(hs: seq<Heading>, width: nat) {
    forall h :: h in hs ==> Columns.IsLetters(h.letters) && 1 <= Columns.Number(h.letters) <= width
  }

  /** A cell that comes to a number - written there, or by a formula - and rests on nothing
      right of the sheet, where the new columns go.
   */
  ghost predicate Reads(ws: Worksheet, maths: Maths, c: Cell, v: real) {
    && MeansTo(AsSheet(ws, maths), c, Num(v))
    && forall d :: Reaches(AsSheet(ws, maths), c, d) ==> Column(d) <= ws.width
  }

  /** A row of the survey with its four readings, before anything is added. */
  ghost predicate Holds(ws: Worksheet, maths: Maths, at: Layout, r: nat, x: Reading) {
    && Reads(ws, maths, Cell(at.previous, r), x.previous)
    && Reads(ws, maths, Cell(at.current, r), x.current)
    && Reads(ws, maths, Cell(at.required, r), x.required)
    && Reads(ws, maths, Cell(at.years, r), x.years)
  }

  lemma PlainReads(ws: Worksheet, maths: Maths, c: Cell, v: real)
    requires ws.Get(c) == Plain(Num(v)) && Column(c) <= ws.width
    ensures Reads(ws, maths, c, v)
  {
    var s := AsSheet(ws, maths);
    MeansAt(s, c, 0);
    forall d | Reaches(s, c, d) ensures d == c {
      var p :| Path(s, p) && p[0] == c && p[|p| - 1] == d;
      FirstStep(s, p);
    }
  }

  /** A reading is the same in the written sheet, from some depth on. */
  lemma ReadKept(ws: Worksheet, changes: seq<Change>, maths: Maths, c: Cell, v: real) returns (n: nat)
    requires forall i :: 0 <= i < |changes| ==> changes[i].NewColumn?
    requires Reads(ws, maths, c, v)
    ensures forall m: nat :: n <= m ==>
      CellValue(AsSheet(AfterAll(ws, changes, LastRow(ws)), maths), c, m) == Ok(Num(v))
  {
    var s := AsSheet(ws, maths);
    n :| !CellValue(s, c, n).Unsettled?;
    MeansAt(s, c, n);
    forall m: nat | n <= m ensures CellValue(AsSheet(AfterAll(ws, changes, LastRow(ws)), maths), c, m) == Ok(Num(v)) {
      CellDeeper(s, c, n, m);
      ValuesKept(ws, changes, maths, c, m);
    }
  }

  lemma LayoutShown(hs: seq<Heading>, width: nat)
    requires Shows(hs, width) && FindLayout(hs).Some?
    ensures var at := FindLayout(hs).value;
      forall l :: l in {at.previous, at.current, at.required, at.years} ==>
      Columns.IsLetters(l) && 1 <= Columns.Number(l) <= Rightmost(hs)
    ensures Rightmost(hs) <= width
    ensures var at := FindLayout(hs).value;
      && at.previous !in {at.current, at.required, at.years} && at.current !in {at.required, at.years}
      && at.required != at.years
  {
    var at := FindLayout(hs).value;
    var i := Picked(hs, Previous, {});
    i := Picked(hs, Current, {at.previous});
    i := Picked(hs, Required, {at.previous, at.current});
    i := Picked(hs, Years, {at.previous, at.current, at.required});
    RightmostWithin(hs, width);
  }

  lemma {:induction false} RightmostWithin(hs: seq<Heading>, width: nat)
    requires Shows(hs, width)
    ensures Rightmost(hs) <= width
  {
    if hs != [] {
      assert hs[0] in hs;
      RightmostWithin(hs[1..], width);
    }
  }

  function Written(ws: Worksheet, hs: seq<Heading>, intervals: map<nat, real>, bottom: nat, maths: Maths): Sheet
    requires FindLayout(hs).Some?
  {
    AsSheet(AfterAll(ws, SurveyChanges(hs, intervals, bottom).value, LastRow(ws)), maths)
  }

  /** Where an added column's cell ends up. */
  lemma AddedCell(ws: Worksheet, changes: seq<Change>, maths: Maths, k: nat, r: nat)
    requires forall i :: 0 <= i < |changes| ==> changes[i].NewColumn?
    requires k < |changes| && 1 <= r <= LastRow(ws)
    ensures At(AsSheet(AfterAll(ws, changes, LastRow(ws)), maths), Cell(Columns.Letters(ws.width + 1 + k), r)) ==
      Entry(changes[k].header, changes[k].fill, r)
  {
    hide Columns.Letters, Columns.Number, AfterAll, LastRow;
    Columns.NumberOfLetters(ws.width + 1 + k);
    ColumnsLand(ws, changes, LastRow(ws), Cell(Columns.Letters(ws.width + 1 + k), r));
  }

  /** An existing column's cell stays. */
  lemma OwnCell(ws: Worksheet, changes: seq<Change>, maths: Maths, letters: string, r: nat)
    requires forall i :: 0 <= i < |changes| ==> changes[i].NewColumn?
    requires Columns.Number(letters) <= ws.width
    ensures At(AsSheet(AfterAll(ws, changes, LastRow(ws)), maths), Cell(letters, r)) == ws.Get(Cell(letters, r))
  {
    hide Columns.Letters, Columns.Number, AfterAll, LastRow;
    ColumnsLand(ws, changes, LastRow(ws), Cell(letters, r));
  }

  /** The four readings in the written sheet, at one depth. */
  lemma ReadingsKept(ws: Worksheet, changes: seq<Change>, maths: Maths, at: Layout, r: nat, x: Reading) returns (d: nat)
    requires forall i :: 0 <= i < |changes| ==> changes[i].NewColumn?
    requires Holds(ws, maths, at, r, x)
    ensures var s := AsSheet(AfterAll(ws, changes, LastRow(ws)), maths);
      && CellValue(s, Cell(at.previous, r), d) == Ok(Num(x.previous))
      && CellValue(s, Cell(at.current, r), d) == Ok(Num(x.current))
      && CellValue(s, Cell(at.required, r), d) == Ok(Num(x.required))
      && CellValue(s, Cell(at.years, r), d) == Ok(Num(x.years))
  {
    hide AfterAll, LastRow, AsSheet, Reads, CellValue;
    var p := ReadKept(ws, changes, maths, Cell(at.previous, r), x.previous);
    var c := ReadKept(ws, changes, maths, Cell(at.current, r), x.current);
    var q := ReadKept(ws, changes, maths, Cell(at.required, r), x.required);
    var y := ReadKept(ws, changes, maths, Cell(at.years, r), x.years);
    d := p + c + q + y;
  }

  lemma SurveyLaid(
    ws: Worksheet, hs: seq<Heading>, intervals: map<nat, real>, bottom: nat, maths: Maths, r: nat, x: Reading)
    returns (d: nat)
    requires Shows(hs, ws.width) && FindLayout(hs).Some? && Rightmost(hs) == ws.width
    requires 2 <= r <= LastRow(ws) && Holds(ws, maths, FindLayout(hs).value, r, x)
    ensures Laid(Written(ws, hs, intervals, bottom, maths), FindLayout(hs).value, r, x, d)
  {
    hide Columns.Letters, Columns.Number, AfterAll, LastRow, Pick, Rightmost, Holds, CellValue;
    var at, changes := FindLayout(hs).value, SurveyChanges(hs, intervals, bottom).value;
    assert at.rate == Columns.Letters(ws.width + 1) && at.life == Columns.Letters(ws.width + 2);
    AddedCell(ws, changes, maths, 0, r);
    AddedCell(ws, changes, maths, 1, r);
    d := ReadingsKept(ws, changes, maths, at, r, x);
  }

  /** The added columns, evaluated, are the rate, the life and the next measurement under the
      row's own interval, for every data row with its readings.
   */
  lemma OwnIntervalMeans(
    ws: Worksheet, hs: seq<Heading>, intervals: map<nat, real>, bottom: nat, maths: Maths, r: nat, x: Reading)
    requires Shows(hs, ws.width) && FindLayout(hs).Some? && Rightmost(hs) == ws.width
    requires 2 <= r <= LastRow(ws) && Holds(ws, maths, FindLayout(hs).value, r, x) && x.years >= 0.0
    requires forall k :: k in intervals ==> 2 <= k <= bottom && intervals[k] > 0.0
    ensures var s, l := Written(ws, hs, intervals, bottom, maths), Assess(x, IntervalAt(intervals, r));
      && MeansTo(s, Cell(Columns.Letters(ws.width + 1), r), Shown(l.rate, ""))
      && MeansTo(s, Cell(Columns.Letters(ws.width + 2), r), Shown(l.life, NOT_LIMITED))
      && MeansTo(s, NextCell(ws, intervals, r), Shown(l.next, ""))
  {
    hide Columns.Letters, Written, Laid, Pick, Rightmost, NextFormula, UncappedFormula, Assess, Shown;
    var at, s, cap := FindLayout(hs).value, Written(ws, hs, intervals, bottom, maths), IntervalAt(intervals, r);
    var d := SurveyLaid(ws, hs, intervals, bottom, maths, r, x);
    NextPlaced(ws, hs, intervals, bottom, maths, r);
    if intervals == map[] {
      UncappedRowMeans(s, at, Columns.Letters(ws.width + 3), r, x, d);
    } else {
      RowMeans(s, at, Columns.Letters(ws.width + 3), Columns.Letters(ws.width + 4), "", r, x, cap, d);
    }
  }

  /** Where a row's next inspection is written. */
  function NextCell(ws: Worksheet, intervals: map<nat, real>, r: nat): Cell {
    Cell(Columns.Letters(ws.width + if intervals == map[] then 3 else 4), r)
  }

  function HalfLife(x: Reading): real
    requires x.years > 0.0 && x.previous > x.current
  {
    assert (x.previous - x.current) / x.years > 0.0;
    (x.current - x.required) / ((x.previous - x.current) / x.years) / 2.0
  }

  /** The maximum interval of the whole request, which the columns do not carry, changes
      nothing here: there is none, the row's own is no longer, the wall is spent, or half the
      life comes first anyway. An interval of 0 counts as none once it is chosen.
   */
  predicate NextCarried(x: Reading, wide: Option<real>, own: Option<real>) {
    || wide.None? || (own.Some? && own.value <= wide.value) || x.current <= x.required
    || (x.years > 0.0 && x.previous > x.current &&
        if wide.value != 0.0 then HalfLife(x) <= wide.value else own.None? || HalfLife(x) <= own.value)
  }

  /** The next measurement under the row's own interval is the one the calculation gives
      under the request's as well, exactly when the latter changes nothing. The calculation's
      reader takes unsigned numbers, so no interval or time is negative.
   */
  lemma NextCarriedExactly(x: Reading, wide: Option<real>, own: Option<real>)
    requires x.years >= 0.0 && (own.None? || own.value > 0.0) && (wide.None? || wide.value >= 0.0)
    ensures Assess(x, own).next == Assess(x, IntervalFor(wide, own)).next <==> NextCarried(x, wide, own)
  {
    if x.current > x.required && x.years > 0.0 { RateSign(x); }
  }

  /** A request that states half a year gets its next measurement within half a year in the
      answer, and a year in the workbook.
   */
  lemma WideIntervalMissed()
    ensures var x := Reading("", 12.0, 11.0, 9.0, 1.0);
      && Assess(x, IntervalFor(WideInterval(Some(0.5), 0.0, 0.0), None)).next == Some(0.5)
      && Assess(x, None).next == Some(1.0)
      && !NextCarried(x, Some(0.5), None)
  {
    assert HalfLife(Reading("", 12.0, 11.0, 9.0, 1.0)) == 1.0;
  }

  /** The added columns against the whole calculation: for every data row with its readings
      they show its rate and its life, and its next measurement exactly when the request's
      own maximum changes nothing for the row. The last heading shown is the last column.
   */
  lemma SurveyMeans(
    ws: Worksheet, hs: seq<Heading>, intervals: map<nat, real>, bottom: nat, maths: Maths, r: nat, x: Reading,
    wide: Option<real>)
    requires Shows(hs, ws.width) && FindLayout(hs).Some? && Rightmost(hs) == ws.width
    requires 2 <= r <= LastRow(ws) && Holds(ws, maths, FindLayout(hs).value, r, x) && x.years >= 0.0
    requires forall k :: k in intervals ==> 2 <= k <= bottom && intervals[k] > 0.0
    requires wide.None? || wide.value >= 0.0
    ensures var s := Written(ws, hs, intervals, bottom, maths);
      var l := Assess(x, IntervalFor(wide, IntervalAt(intervals, r)));
      && MeansTo(s, Cell(Columns.Letters(ws.width + 1), r), Shown(l.rate, ""))
      && MeansTo(s, Cell(Columns.Letters(ws.width + 2), r), Shown(l.life, NOT_LIMITED))
      && Settles(s, NextCell(ws, intervals, r))
      && (Means(s, NextCell(ws, intervals, r)) == Ok(Shown(l.next, "")) <==>
          NextCarried(x, wide, IntervalAt(intervals, r)))
  {
    OwnIntervalMeans(ws, hs, intervals, bottom, maths, r, x);
    hide Written, LastRow, Rightmost, FindLayout, Holds, Columns.Letters;
    NextCarriedExactly(x, wide, IntervalAt(intervals, r));
  }

  lemma StillEmpty(ws: Worksheet, changes: seq<Change>, maths: Maths, k: nat, r: nat)
    requires ws.Valid() && (forall i :: 0 <= i < |changes| ==> changes[i].NewColumn?) && r > LastRow(ws) && k >= 1
    ensures At(AsSheet(AfterAll(ws, changes, LastRow(ws)), maths), Cell(Columns.Letters(ws.width + k), r)) ==
      Plain(Blank)
  {
    hide Columns.Letters, Columns.Number, AfterAll, LastRow;
    Columns.NumberOfLetters(ws.width + k);
    ColumnsLand(ws, changes, LastRow(ws), Cell(Columns.Letters(ws.width + k), r));
  }

  /** Below the last entry of column A the new columns stay empty, although the calculation
      assesses every row of readings: such a row gets no formulas.
   */
  lemma NoFormulasBelow(
    ws: Worksheet, hs: seq<Heading>, intervals: map<nat, real>, bottom: nat, maths: Maths, k: nat, r: nat)
    requires ws.Valid() && FindLayout(hs).Some? && r > LastRow(ws) && k >= 1
    ensures MeansTo(Written(ws, hs, intervals, bottom, maths), Cell(Columns.Letters(ws.width + k), r), Blank)
  {
    var changes, c := SurveyChanges(hs, intervals, bottom).value, Cell(Columns.Letters(ws.width + k), r);
    assert forall i :: 0 <= i < |changes| ==> changes[i].NewColumn?;
    hide Columns.Letters, AfterAll, LastRow, FindLayout;
    StillEmpty(ws, changes, maths, k, r);
    MeansAt(Written(ws, hs, intervals, bottom, maths), c, 0);
  }

  /** What the third and fourth changes write in a data row. */
  lemma NextEntries(at: Layout, rule: string, intervals: map<nat, real>, bottom: nat, r: nat)
    requires r >= 2 && forall k :: k in intervals ==> 2 <= k <= bottom
    ensures var changes := Changes(at, rule, intervals, bottom);
      if intervals == map[] then
        |changes| == 3 && Entry(changes[2].header, changes[2].fill, r) == Formulaic(Parsed(UncappedFormula(at.life, r)))
      else
        && |changes| == 4 && Entry(changes[2].header, changes[2].fill, r) == Rule(IntervalAt(intervals, r))
        && Entry(changes[3].header, changes[3].fill, r) == Formulaic(Parsed(NextFormula(at.life, rule, "", r)))
  {
  }

  lemma NextPlaced(ws: Worksheet, hs: seq<Heading>, intervals: map<nat, real>, bottom: nat, maths: Maths, r: nat)
    requires FindLayout(hs).Some? && Rightmost(hs) == ws.width && 2 <= r <= LastRow(ws)
    requires forall k :: k in intervals ==> 2 <= k <= bottom
    ensures var s, life, third := Written(ws, hs, intervals, bottom, maths),
      FindLayout(hs).value.life, Columns.Letters(ws.width + 3);
      if intervals == map[] then At(s, Cell(third, r)) == Formulaic(Parsed(UncappedFormula(life, r)))
      else
        && At(s, Cell(third, r)) == Rule(IntervalAt(intervals, r))
        && At(s, Cell(Columns.Letters(ws.width + 4), r)) == Formulaic(Parsed(NextFormula(life, third, "", r)))
  {
    hide Columns.Letters, AfterAll, LastRow, Pick, Rightmost, NextFormula, UncappedFormula, Entry;
    var at, third := FindLayout(hs).value, Columns.Letters(ws.width + 3);
    var changes := Changes(at, third, intervals, bottom);
    NextEntries(at, third, intervals, bottom, r);
    assert forall i :: 0 <= i < |changes| ==> changes[i].NewColumn?;
    AddedCell(ws, changes, maths, 2, r);
    if intervals != map[] { AddedCell(ws, changes, maths, 3, r); }
  }

  /** And only then: with a column beyond the last heading shown - unheaded, or past the
      columns read_sheet renders - the life formula reads that column for the rate, and
      some survey with these headings is given a life that is not its own.
   */
  lemma MisplacedColumns(hs: seq<Heading>, width: nat, intervals: map<nat, real>, bottom: nat, maths: Maths)
    returns (ws: Worksheet, x: Reading)
    requires Shows(hs, width) && FindLayout(hs).Some? && Rightmost(hs) < width
    ensures ws.Valid() && ws.width == width && LastRow(ws) == 2
    ensures Holds(ws, maths, FindLayout(hs).value, 2, x) && x.years > 0.0
    ensures forall interval :: !MeansTo(Written(ws, hs, intervals, bottom, maths), Cell(Columns.Letters(width + 2), 2),
                                        Shown(Assess(x, interval).life, NOT_LIMITED))
  {
    LayoutApart(hs, width);
    ws, x := DecoyWrong(FindLayout(hs).value, width, Columns.Letters(Rightmost(hs) + 3), intervals, bottom, maths);
  }

  /** One location whose rate is 1.0, with 4.0 in the column taken for the rate. */
  function Decoy(at: Layout, width: nat): Worksheet {
    Worksheet(
      map[Cell("A", 2) := Plain(Text("TML-1"))]
        [Cell(at.previous, 2) := Plain(Num(12.0))][Cell(at.current, 2) := Plain(Num(11.0))]
        [Cell(at.required, 2) := Plain(Num(9.0))][Cell(at.years, 2) := Plain(Num(1.0))]
        [Cell(at.rate, 2) := Plain(Num(4.0))],
      width, 2)
  }

  ghost predicate Apart(at: Layout, width: nat) {
    && at.previous !in {at.current, at.required, at.years, at.rate} && at.current !in {at.required, at.years, at.rate}
    && at.required !in {at.years, at.rate} && at.years != at.rate
    && Within(at.previous, width) && Within(at.current, width) && Within(at.required, width)
    && Within(at.years, width) && Within(at.rate, width)
  }

  predicate Within(letters: string, width: nat) {
    Columns.IsLetters(letters) && 1 <= Columns.Number(letters) <= width
  }

  lemma DecoyHolds(at: Layout, width: nat, maths: Maths)
    requires Apart(at, width)
    ensures var ws := Decoy(at, width);
      && ws.Valid() && LastRow(ws) == 2 && Holds(ws, maths, at, 2, Reading("", 12.0, 11.0, 9.0, 1.0))
      && ws.Get(Cell(at.current, 2)) == Plain(Num(11.0)) && ws.Get(Cell(at.required, 2)) == Plain(Num(9.0))
      && ws.Get(Cell(at.rate, 2)) == Plain(Num(4.0))
  {
    var ws := Decoy(at, width);
    DecoyValid(at, width);
    hide Columns.Number, Columns.IsLetters, Reads, MeansTo;
    PlainReads(ws, maths, Cell(at.previous, 2), 12.0);
    PlainReads(ws, maths, Cell(at.current, 2), 11.0);
    PlainReads(ws, maths, Cell(at.required, 2), 9.0);
    PlainReads(ws, maths, Cell(at.years, 2), 1.0);
    assert !Empty(ws.Get(Cell("A", 2)));
  }

  lemma DecoyValid(at: Layout, width: nat)
    requires Apart(at, width)
    ensures Decoy(at, width).Valid()
  {
    assert Within("A", width) by { assert "A"[..0] == ""; }
    hide Columns.Number, Columns.IsLetters;
    var letters := {"A", at.previous, at.current, at.required, at.years, at.rate};
    assert forall c :: c in Decoy(at, width).cells ==> c.letters in letters;
    assert forall l :: l in letters ==> Within(l, width);
  }

  lemma LayoutApart(hs: seq<Heading>, width: nat)
    requires Shows(hs, width) && FindLayout(hs).Some? && Rightmost(hs) < width
    ensures Apart(FindLayout(hs).value, width)
  {
    hide Columns.Letters, Columns.Number, Pick, Rightmost;
    LayoutShown(hs, width);
    Columns.NumberOfLetters(Rightmost(hs) + 1);
    var at := FindLayout(hs).value;
    assert at.rate == Columns.Letters(Rightmost(hs) + 1);
    assert at.rate !in {at.previous, at.current, at.required, at.years};
  }

  lemma DecoyPlaced(ws: Worksheet, at: Layout, rule: string, intervals: map<nat, real>, bottom: nat, maths: Maths)
    requires Apart(at, ws.width) && LastRow(ws) == 2
    ensures var s := AsSheet(AfterAll(ws, Changes(at, rule, intervals, bottom), 2), maths);
      && At(s, Cell(Columns.Letters(ws.width + 2), 2)) ==
          Formulaic(Parsed(LifeFormula(at.current, at.required, at.rate, 2)))
      && forall l :: l in {at.current, at.required, at.rate} ==> At(s, Cell(l, 2)) == ws.Get(Cell(l, 2))
  {
    hide Columns.Letters, Columns.Number, Columns.IsLetters, AfterAll, LastRow;
    var changes := Changes(at, rule, intervals, bottom);
    OwnCell(ws, changes, maths, at.current, 2);
    OwnCell(ws, changes, maths, at.required, 2);
    OwnCell(ws, changes, maths, at.rate, 2);
    AddedCell(ws, changes, maths, 1, 2);
  }

  lemma DecoyWrong(at: Layout, width: nat, rule: string, intervals: map<nat, real>, bottom: nat, maths: Maths)
    returns (ws: Worksheet, x: Reading)
    requires Apart(at, width)
    ensures ws.Valid() && ws.width == width && LastRow(ws) == 2 && Holds(ws, maths, at, 2, x) && x.years > 0.0
    ensures forall interval :: !MeansTo(AsSheet(AfterAll(ws, Changes(at, rule, intervals, bottom), LastRow(ws)), maths),
                                        Cell(Columns.Letters(width + 2), 2),
                                        Shown(Assess(x, interval).life, NOT_LIMITED))
  {
    hide Columns.Letters, AfterAll, LifeFormula, MeansTo, Changes, LastRow;
    ws, x := Decoy(at, width), Reading("", 12.0, 11.0, 9.0, 1.0);
    DecoyHolds(at, width, maths);
    DecoyPlaced(ws, at, rule, intervals, bottom, maths);
    var s := AsSheet(AfterAll(ws, Changes(at, rule, intervals, bottom), 2), maths);
    WrongLife(s, at, Cell(Columns.Letters(width + 2), 2), x);
  }

  /** The life formula over a column that holds 4.0 instead of the rate. */
  lemma WrongLife(s: Sheet, at: Layout, c: Cell, x: Reading)
    requires x == Reading("", 12.0, 11.0, 9.0, 1.0)
    requires At(s, Cell(at.current, 2)) == Plain(Num(11.0)) && At(s, Cell(at.required, 2)) == Plain(Num(9.0))
    requires At(s, Cell(at.rate, 2)) == Plain(Num(4.0))
    requires At(s, c) == Formulaic(Parsed(LifeFormula(at.current, at.required, at.rate, 2)))
    ensures forall interval :: !MeansTo(s, c, Shown(Assess(x, interval).life, NOT_LIMITED))
  {
    hide Invoke, Calculate, Order, Same, CellValues;
    var e := LifeFormula(at.current, at.required, at.rate, 2);
    assert ExprValue(s, At_(at.current, 2), 1) == Ok(Num(11.0));
    assert ExprValue(s, At_(at.required, 2), 1) == Ok(Num(9.0));
    assert ExprValue(s, At_(at.rate, 2), 1) == Ok(Num(4.0));
    LossBranch(s, at, 2, x, Num(4.0), 1);
    assert ExprValue(s, e.args[0], 1) == Ok(Bool(false));
    assert FormulaValue(s, Parsed(e), 1) == ExprValue(s, e, 1);
    assert CellValue(s, c, 2) == Ok(Num(0.5));
    MeansAt(s, c, 2);
  }
}
