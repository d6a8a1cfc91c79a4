/** Scanning a calibration register's text for its tables. The scanner walks with two
    indices, one over tables and one over a table's rows; what it reports is settled line
    by line, by a simple rule for which table a line is in.
 */
module Register {
  import opened Options

  /** A line of text: blank, or with what the scanner asks of it - whether it starts with a
      bar, whether it is a separator, which of its cells could be a tag, and, read as a
      heading, the instrument column of a table that also has a date column.
   */
  datatype Line = Blank | Written(bar: bool, separator: bool, tags: seq<bool>, heading: Option<nat>)

  datatype Skip = NotARegister(line: nat) | TooShort(line: nat) | NoTag(line: nat)

  /** Instruments are named by the line they were read from. */
  datatype Report = Report(instruments: seq<nat>, skipped: seq<Skip>, fromTable: bool)

  predicate IsBar(lines: seq<Line>, i: nat) { i < |lines| && lines[i].Written? && lines[i].bar }
  predicate IsSeparator(lines: seq<Line>, i: nat) { i < |lines| && lines[i].Written? && lines[i].separator }

  /** A heading line: barred, above a separator, and not itself the separator of a register. */
  predicate Heads(lines: seq<Line>, i: nat)
    decreases i, 0
  {
    IsBar(lines, i) && IsSeparator(lines, i + 1) && !(i > 0 && Opens(lines, i - 1))
  }

  /** The heading of a table accepted as a register. */
  predicate Opens(lines: seq<Line>, i: nat)
    decreases i, 1
  {
    Heads(lines, i) && lines[i].heading.Some?
  }

  /** Not where a table ends: blank, or a barred line that is not the next heading. */
  predicate Continues(lines: seq<Line>, p: nat)
    requires p < |lines|
  {
    lines[p].Blank? || (lines[p].bar && !IsSeparator(lines, p + 1))
  }

  /** The heading of the register a line belongs to: its body runs from the second line
      below the heading for as long as the lines continue it.
   */
  function TableOf(lines: seq<Line>, p: nat): Option<nat>
    requires p < |lines|
  {
    if !Continues(lines, p) then None
    else if p >= 2 && Opens(lines, p - 2) then Some(p - 2)
    else if p > 0 then TableOf(lines, p - 1) else None
  }

  predicate IsRow(lines: seq<Line>, p: nat) {
    p < |lines| && lines[p].Written? && TableOf(lines, p).Some?
  }

  lemma {:induction false} TableIsHeading(lines: seq<Line>, p: nat)
    requires p < |lines| && TableOf(lines, p).Some?
    ensures TableOf(lines, p).value + 2 <= p && Opens(lines, TableOf(lines, p).value)
  {
    if !(p >= 2 && Opens(lines, p - 2)) { TableIsHeading(lines, p - 1); }
  }

  function ColumnOf(lines: seq<Line>, p: nat): nat
    requires IsRow(lines, p)
  {
    var h := TableOf(lines, p).value;
    if h < |lines| && lines[h].Written? && lines[h].heading.Some? then lines[h].heading.value else 0
  }

  /** A row of a register with a tag in its instrument column. */
  predicate IsInstrument(lines: seq<Line>, p: nat) {
    IsRow(lines, p) && ColumnOf(lines, p) < |lines[p].tags| && lines[p].tags[ColumnOf(lines, p)]
  }

  function LineSkips(lines: seq<Line>, p: nat): (notes: seq<Skip>)
    requires p < |lines|
    ensures |notes| <= 1 && forall s :: s in notes ==> s.line == p
  {
    if IsRow(lines, p) then
      if |lines[p].tags| <= ColumnOf(lines, p) then [TooShort(p)]
      else if !lines[p].tags[ColumnOf(lines, p)] then [NoTag(p)] else []
    else if Heads(lines, p) && !Opens(lines, p) then [NotARegister(p)]
    else []
  }

  /** What the lines before n come to, one line at a time. */
  function Instruments(lines: seq<Line>, n: nat): seq<nat>
    requires n <= |lines|
  {
    if n == 0 then [] else Instruments(lines, n - 1) + if IsInstrument(lines, n - 1) then [n - 1] else []
  }

  function Skips(lines: seq<Line>, n: nat): seq<Skip>
    requires n <= |lines|
  {
    if n == 0 then [] else Skips(lines, n - 1) + LineSkips(lines, n - 1)
  }

  ghost predicate AnyHeads(lines: seq<Line>, n: nat) {
    exists i: nat :: i < n && Heads(lines, i)
  }

  ghost predicate Sofar(lines: seq<Line>, n: nat, r: Report)
    requires n <= |lines|
  {
    && r.instruments == Instruments(lines, n) && r.skipped == Skips(lines, n)
    && (r.fromTable <==> AnyHeads(lines, n))
  }

  /** Between tables: no register reaches this line, and none opens just above it. */
  ghost predicate Outside(lines: seq<Line>, i: nat) {
    i <= |lines| && (i < |lines| ==> TableOf(lines, i).None?) && !(i > 0 && Opens(lines, i - 1))
  }

  /** All lines from below the heading up to p are in the table. */
  ghost predicate Inside(lines: seq<Line>, h: nat, p: nat) {
    h + 2 <= p <= |lines| && Opens(lines, h) && forall q :: h + 2 <= q < p ==> TableOf(lines, q) == Some(h)
  }

  lemma NotOpening(lines: seq<Line>, h: nat, p: nat)
    requires Inside(lines, h, p) && p > h + 1
    ensures forall q :: h < q < p ==> !Heads(lines, q)
  {
    forall q | h < q < p ensures !Heads(lines, q) {
      if q >= h + 2 { assert TableOf(lines, q).Some?; }
    }
  }

  lemma InsideNext(lines: seq<Line>, h: nat, p: nat)
    requires Inside(lines, h, p) && p < |lines| && Continues(lines, p)
    ensures TableOf(lines, p) == Some(h) && Inside(lines, h, p + 1) && !Heads(lines, p)
  {
    NotOpening(lines, h, p);
    if p > h + 2 { assert !Heads(lines, p - 2) && TableOf(lines, p - 1) == Some(h); }
  }

  lemma InsideEnds(lines: seq<Line>, h: nat, p: nat)
    requires Inside(lines, h, p) && (p < |lines| ==> !Continues(lines, p))
    ensures Outside(lines, p)
  {
    NotOpening(lines, h, p);
  }

  /** The inner loop: the rows under one heading, down to where the table ends. */
  method ScanRows(lines: seq<Line>, h: nat, before: Report) returns (position: nat, report: Report)
    requires h < |lines| && Outside(lines, h) && Opens(lines, h) && Sofar(lines, h, before)
    ensures h < position && Outside(lines, position) && Sofar(lines, position, report)
  {
    var column := lines[h].heading.value;
    report := before.(fromTable := true);
    position := h + 2;
    while position < |lines| && Continues(lines, position)
      invariant Inside(lines, h, position) && Sofar(lines, position, report)
    {
      InsideNext(lines, h, position);
      ghost var was := report;
      if lines[position].Written? {
        var tags := lines[position].tags;
        if |tags| <= column {
          report := report.(skipped := report.skipped + [TooShort(position)]);
        } else if !tags[column] {
          report := report.(skipped := report.skipped + [NoTag(position)]);
        } else {
          report := report.(instruments := report.instruments + [position]);
        }
      }
      assert report.fromTable;
      position := position + 1;
    }
    InsideEnds(lines, h, position);
  }

  /** `parse_table_report`. */
  method ScanRegister(lines: seq<Line>) returns (report: Report)
    ensures report.instruments == Instruments(lines, |lines|)
    ensures report.skipped == Skips(lines, |lines|)
    ensures report.fromTable <==> AnyHeads(lines, |lines|)
  {
    report := Report([], [], false);
    var index := 0;
    while index + 1 < |lines|
      invariant Outside(lines, index) && Sofar(lines, index, report)
      decreases |lines| - index
    {
      if !(IsBar(lines, index) && IsSeparator(lines, index + 1)) {
        index := index + 1;
      } else if lines[index].heading.None? {
        ghost var was := report;
        report := report.(fromTable := true, skipped := report.skipped + [NotARegister(index)]);
        index := index + 1;
      } else {
        index, report := ScanRows(lines, index, report);
      }
    }
    assert Sofar(lines, |lines|, report);
  }

  /** The instruments are the rows with a tag, each once, in order. */
  lemma {:induction false} InstrumentsExact(lines: seq<Line>, n: nat)
    requires n <= |lines|
    ensures forall p: nat :: p in Instruments(lines, n) <==> p < n && IsInstrument(lines, p)
    ensures forall i, j :: 0 <= i < j < |Instruments(lines, n)| ==> Instruments(lines, n)[i] < Instruments(lines, n)[j]
  {
    if n > 0 {
      InstrumentsExact(lines, n - 1);
      var before := Instruments(lines, n - 1);
      assert forall i :: 0 <= i < |before| ==> before[i] in before;
    }
  }

  /** The notes are the lines' own, each once, in order. */
  lemma {:induction false} SkipFrom(lines: seq<Line>, n: nat, s: Skip)
    requires n <= |lines|
    ensures s in Skips(lines, n) <==> s.line < n && s in LineSkips(lines, s.line)
  {
    if n > 0 { SkipFrom(lines, n - 1, s); }
  }

  lemma {:induction false} SkipsInOrder(lines: seq<Line>, n: nat)
    requires n <= |lines|
    ensures forall i, j :: 0 <= i < j < |Skips(lines, n)| ==> Skips(lines, n)[i].line < Skips(lines, n)[j].line
  {
    if n > 0 {
      SkipsInOrder(lines, n - 1);
      var before, more := Skips(lines, n - 1), LineSkips(lines, n - 1);
      forall i | 0 <= i < |before| ensures before[i].line < n - 1 { SkipFrom(lines, n - 1, before[i]); }
      assert Skips(lines, n) == before + more;
      assert |more| == 1 ==> more[0] in more;
    }
  }

  /** So every row of every register becomes exactly one instrument or exactly one note,
      and no other line becomes either, but a heading that opens no register: one note.
   */
  lemma EachRowOnce(lines: seq<Line>, p: nat)
    requires p < |lines|
    ensures var found, notes := p in Instruments(lines, |lines|), Skips(lines, |lines|);
      && (IsRow(lines, p) ==> (found <==> !(TooShort(p) in notes || NoTag(p) in notes)))
      && !(TooShort(p) in notes && NoTag(p) in notes)
      && (found || TooShort(p) in notes || NoTag(p) in notes ==> IsRow(lines, p))
      && (NotARegister(p) in notes <==> Heads(lines, p) && !Opens(lines, p))
  {
    InstrumentsExact(lines, |lines|);
    SkipFrom(lines, |lines|, TooShort(p));
    SkipFrom(lines, |lines|, NoTag(p));
    SkipFrom(lines, |lines|, NotARegister(p));
    if IsRow(lines, p) { assert Continues(lines, p); }
  }

  /** Nothing to note about a line: a row with its instrument, or a heading of a register. */
  predicate Settled(lines: seq<Line>, p: nat) {
    (IsRow(lines, p) ==> IsInstrument(lines, p)) && (Heads(lines, p) ==> Opens(lines, p))
  }

  lemma SettledLine(lines: seq<Line>, p: nat)
    requires p < |lines|
    ensures LineSkips(lines, p) == [] <==> Settled(lines, p)
  {
    if IsRow(lines, p) { assert Continues(lines, p); }
  }

  lemma {:induction false} SettledTo(lines: seq<Line>, n: nat)
    requires n <= |lines|
    ensures Skips(lines, n) == [] <==> forall p: nat :: p < n ==> Settled(lines, p)
  {
    hide Settled, LineSkips;
    if n > 0 {
      SettledTo(lines, n - 1);
      SettledLine(lines, n - 1);
    }
  }

  /** Nothing is noted exactly when every line of the text is settled. */
  lemma NoneSkipped(lines: seq<Line>)
    ensures Skips(lines, |lines|) == [] <==> forall p: nat :: Settled(lines, p)
  {
    SettledTo(lines, |lines|);
    forall p: nat | p >= |lines| ensures Settled(lines, p) {}
    hide Settled;
  }

  /** Instruments are rows, rows are lines of the text, and have a heading above them. */
  lemma RowsHaveHeadings(lines: seq<Line>, p: nat)
    ensures IsInstrument(lines, p) ==> IsRow(lines, p)
    ensures IsRow(lines, p) ==> p < |lines| && AnyHeads(lines, |lines|)
    ensures Heads(lines, p) ==> AnyHeads(lines, |lines|)
  {
    if IsRow(lines, p) {
      TableIsHeading(lines, p);
      assert Heads(lines, TableOf(lines, p).value);
    }
  }

  // ---- A line added at the end ------------------------------------------------

  /** A line that is no separator leaves every line before it what it was. */
  lemma {:induction false} HeadsAppended(lines: seq<Line>, line: Line, i: nat)
    requires i < |lines| && !(line.Written? && line.separator)
    ensures Heads(lines + [line], i) == Heads(lines, i) && Opens(lines + [line], i) == Opens(lines, i)
  {
    if i > 0 { HeadsAppended(lines, line, i - 1); }
  }

  lemma {:induction false} TableAppended(lines: seq<Line>, line: Line, p: nat)
    requires p < |lines| && !(line.Written? && line.separator)
    ensures TableOf(lines + [line], p) == TableOf(lines, p)
  {
    if p >= 2 { HeadsAppended(lines, line, p - 2); }
    if p > 0 { TableAppended(lines, line, p - 1); }
    hide Opens;
  }

  lemma LineAppended(lines: seq<Line>, line: Line, p: nat)
    requires p < |lines| && !(line.Written? && line.separator)
    ensures IsInstrument(lines + [line], p) == IsInstrument(lines, p)
    ensures LineSkips(lines + [line], p) == LineSkips(lines, p)
  {
    hide Heads, Opens, TableOf;
    TableAppended(lines, line, p);
    HeadsAppended(lines, line, p);
    assert IsRow(lines + [line], p) == IsRow(lines, p);
    if IsRow(lines, p) {
      assert TableOf(lines, p).value < |lines| by { TableIsHeading(lines, p); }
      assert ColumnOf(lines + [line], p) == ColumnOf(lines, p);
    }
  }

  lemma {:induction false} ListsAppended(lines: seq<Line>, line: Line, n: nat)
    requires n <= |lines| && !(line.Written? && line.separator)
    ensures Instruments(lines + [line], n) == Instruments(lines, n) && Skips(lines + [line], n) == Skips(lines, n)
  {
    hide IsInstrument, LineSkips;
    if n > 0 {
      ListsAppended(lines, line, n - 1);
      LineAppended(lines, line, n - 1);
    }
  }

  lemma AnyHeadsAppended(lines: seq<Line>, line: Line)
    requires !(line.Written? && line.separator)
    ensures AnyHeads(lines + [line], |lines| + 1) <==> AnyHeads(lines, |lines|)
  {
    forall i: nat | i < |lines| ensures Heads(lines + [line], i) == Heads(lines, i) { HeadsAppended(lines, line, i); }
    assert !Heads(lines + [line], |lines|);
    hide Heads, Opens;
  }
}
