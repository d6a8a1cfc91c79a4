/** The calibration check as a whole: a register's text scanned, every instrument found placed
    in time, and one disposition for all of them - or none, when no instrument was read.
 */
module CheckRegister {
  import opened Options
  import opened Dates
  import opened Calibration
  import opened Headings
  import opened ColumnMatch
  import R = Register

  /** An instrument the interval of which runs past the calendar raises; nothing is answered. */
  datatype Outcome = Raised | Answered(disposition: Option<Disposition>)

  /** What a text gives: its lines, the instrument each row reads as, and the one instrument of
      a text without a table.
   */
  datatype Text = Text(lines: seq<R.Line>, read: nat -> Instrument, prose: Option<Instrument>)

  ghost predicate Readable(t: Text) {
    (forall p :: t.read(p).Valid()) && (t.prose.Some? ==> t.prose.value.Valid())
  }

  function ReadAll(t: Text, lines: seq<nat>): (found: seq<Instrument>)
    ensures |found| == |lines| && forall k :: 0 <= k < |lines| ==> found[k] == t.read(lines[k])
  {
    seq(|lines|, k requires 0 <= k < |lines| => t.read(lines[k]))
  }

  /** Every instrument placed, or the first that raises. */
  method AssessEach(found: seq<Instrument>, when_: Date, settings: Settings) returns (rows: Option<seq<Row>>)
    requires Dates.Valid(when_) && forall i :: i in found ==> i.Valid()
    ensures rows.None? <==> exists i :: i in found && Overflows(i)
    ensures rows.Some? ==> rows.value == AssessAll(found, when_, settings)
  {
    var sofar: seq<Row> := [];
    for k := 0 to |found|
      invariant |sofar| == k && forall i :: 0 <= i < k ==> !Overflows(found[i])
      invariant forall i :: 0 <= i < k ==> sofar[i] == Assess(found[i], when_, settings)
    {
      var status := StatusOn(found[k], when_, settings);
      if status.None? { return None; }
      sofar := sofar + [Row(status.value, ToleranceOf(found[k]), found[k].unreadableDates)];
    }
    assert sofar == AssessAll(found, when_, settings);
    return Some(sofar);
  }

  /** Nothing against the instrument, on the day. */
  ghost predicate InOrder(i: Instrument, when_: Date, settings: Settings)
    requires i.Valid() && Dates.Valid(when_)
  {
    !Overflows(i) && Clear(Assess(i, when_, settings))
  }

  /** A text whose every table is a register, every row of them an instrument with nothing
      against it, and one at least.
   */
  ghost predicate AllRowsInOrder(t: Text, when_: Date, settings: Settings)
    requires Readable(t) && Dates.Valid(when_)
  {
    && (exists p: nat :: R.IsRow(t.lines, p))
    && (forall p: nat :: R.Settled(t.lines, p))
    && (forall p: nat :: R.IsInstrument(t.lines, p) ==> InOrder(t.read(p), when_, settings))
  }

  /** All rows in order, said of what the scan reports. */
  lemma RowsExactly(t: Text, when_: Date, settings: Settings)
    requires Readable(t) && Dates.Valid(when_)
    ensures var found := R.Instruments(t.lines, |t.lines|);
      AllRowsInOrder(t, when_, settings) <==>
      found != [] && R.Skips(t.lines, |t.lines|) == [] && forall p :: p in found ==> InOrder(t.read(p), when_, settings)
  {
    hide R.IsInstrument, R.IsRow, R.Heads, R.Opens, R.AnyHeads, R.Skips, R.Instruments, InOrder;
    var found := R.Instruments(t.lines, |t.lines|);
    R.InstrumentsExact(t.lines, |t.lines|);
    R.NoneSkipped(t.lines);
    forall p: nat ensures R.IsInstrument(t.lines, p) ==> R.IsRow(t.lines, p) && p < |t.lines| {
      R.RowsHaveHeadings(t.lines, p);
    }
    if AllRowsInOrder(t, when_, settings) {
      var p: nat :| R.IsRow(t.lines, p);
      assert R.Settled(t.lines, p);
      assert p in found;
    } else if found != [] {
      assert found[0] in found;
    }
  }

  /** Assessing raises nowhere and gives clear rows, exactly when every instrument is in order. */
  lemma ClearExactly(found: seq<Instrument>, when_: Date, settings: Settings)
    requires Dates.Valid(when_) && forall i :: i in found ==> i.Valid()
    ensures (forall i :: i in found ==> InOrder(i, when_, settings)) <==>
      (forall i :: i in found ==> !Overflows(i)) && forall r :: r in AssessAll(found, when_, settings) ==> Clear(r)
  {
    var rows := AssessAll(found, when_, settings);
    hide Overflows, Clear, Assess;
    forall i | i in found ensures Assess(i, when_, settings) in rows {
      var k :| 0 <= k < |found| && found[k] == i;
      assert rows[k] == Assess(i, when_, settings);
    }
    forall r | r in rows ensures exists i :: i in found && r == Assess(i, when_, settings) {
      var k :| 0 <= k < |rows| && rows[k] == r;
      assert found[k] in found;
    }
  }

  /** The instruments of a scan, and of the sentence where there is no table. */
  function Found(t: Text, report: R.Report): seq<Instrument> {
    if report.instruments == [] && !report.fromTable && t.prose.Some? then [t.prose.value]
    else ReadAll(t, report.instruments)
  }

  ghost predicate InProse(t: Text) {
    !R.AnyHeads(t.lines, |t.lines|) && t.prose.Some?
  }

  lemma FoundExactly(t: Text, report: R.Report, when_: Date, settings: Settings)
    requires Readable(t) && Dates.Valid(when_) && R.Sofar(t.lines, |t.lines|, report)
    ensures forall i :: i in Found(t, report) ==> i.Valid()
    ensures Found(t, report) == [] <==> (forall p: nat :: !R.IsInstrument(t.lines, p)) && !InProse(t)
    ensures Found(t, report) != [] && report.skipped == []
            && (forall i :: i in Found(t, report) ==> InOrder(i, when_, settings)) <==>
      AllRowsInOrder(t, when_, settings) || (InProse(t) && InOrder(t.prose.value, when_, settings))
  {
    var lines := t.lines;
    R.InstrumentsExact(lines, |lines|);
    RowsExactly(t, when_, settings);
    NoTable(t);
    FoundAmong(t, report);
    hide R.IsInstrument, R.IsRow, R.Skips, R.Instruments, R.AnyHeads, InOrder, AllRowsInOrder, ReadAll;
    if report.instruments != [] { assert report.instruments[0] in report.instruments; }
  }

  /** Without a heading there is no instrument, and nothing is noted. */
  lemma NoTable(t: Text)
    ensures !R.AnyHeads(t.lines, |t.lines|) ==>
      R.Instruments(t.lines, |t.lines|) == [] && R.Skips(t.lines, |t.lines|) == []
    ensures forall p: nat :: R.IsInstrument(t.lines, p) ==> p < |t.lines|
  {
    hide R.IsInstrument, R.IsRow, R.Heads, R.Opens, R.Skips, R.Instruments, R.AnyHeads;
    var found := R.Instruments(t.lines, |t.lines|);
    R.InstrumentsExact(t.lines, |t.lines|);
    R.NoneSkipped(t.lines);
    forall p: nat { R.RowsHaveHeadings(t.lines, p); }
    if found != [] { assert found[0] in found; }
  }

  lemma FoundAmong(t: Text, report: R.Report)
    ensures ReadAll(t, report.instruments) == [] <==> report.instruments == []
    ensures forall i :: i in ReadAll(t, report.instruments) ==> exists p :: p in report.instruments && i == t.read(p)
    ensures forall p :: p in report.instruments ==> t.read(p) in ReadAll(t, report.instruments)
  {
    var found := ReadAll(t, report.instruments);
    forall i | i in found ensures exists p :: p in report.instruments && i == t.read(p) {
      var k :| 0 <= k < |found| && found[k] == i;
      assert report.instruments[k] in report.instruments;
    }
    forall p | p in report.instruments ensures t.read(p) in found {
      var k :| 0 <= k < |report.instruments| && report.instruments[k] == p;
      assert found[k] == t.read(p);
    }
  }

  // ---- The whole check ---------------------------------------------------------

  /** The instruments of a text, by the line rule. */
  ghost function FoundIn(t: Text): seq<Instrument> {
    if R.Instruments(t.lines, |t.lines|) == [] && InProse(t) then [t.prose.value]
    else ReadAll(t, R.Instruments(t.lines, |t.lines|))
  }

  function SkippedIn(t: Text): nat {
    |R.Skips(t.lines, |t.lines|)|
  }

  ghost predicate AllValid(t: Text) {
    forall i :: i in FoundIn(t) ==> i.Valid()
  }

  /** What the check answers: nothing at all when an instrument raises. */
  ghost function OutcomeOf(t: Text, when_: Date, settings: Settings): Outcome
    requires AllValid(t) && Dates.Valid(when_)
  {
    if exists i :: i in FoundIn(t) && Overflows(i) then Raised
    else Answered(Answer(AssessAll(FoundIn(t), when_, settings), SkippedIn(t)))
  }

  lemma FoundValid(t: Text)
    requires Readable(t)
    ensures AllValid(t)
  {
    forall i | i in FoundIn(t) ensures i.Valid() {
      var k :| 0 <= k < |FoundIn(t)| && FoundIn(t)[k] == i;
      hide InProse, R.Instruments;
    }
  }

  /** `check_calibration`. */
  method CheckCalibration(t: Text, when_: Date, settings: Settings) returns (outcome: Outcome)
    requires Readable(t) && Dates.Valid(when_)
    ensures AllValid(t) && outcome == OutcomeOf(t, when_, settings)
  {
    FoundValid(t);
    hide R.IsInstrument, R.Instruments, R.Skips, Overflows, AssessAll, DispositionOf;
    var report := R.ScanRegister(t.lines);
    var found := Found(t, report);
    assert found == FoundIn(t);
    var rows := AssessEach(found, when_, settings);
    if rows.None? { return Raised; }
    return Answered(Answer(rows.value, |report.skipped|));
  }

  /** ALL CURRENT exactly when every heading opens a register, every row of every register
      became an instrument, there is one at least, and nothing is against any - or when a text
      without a table gives one instrument and nothing is against it. No disposition exactly
      when no instrument was read.
   */
  lemma AllCurrentMeans(t: Text, when_: Date, settings: Settings)
    requires Readable(t) && AllValid(t) && Dates.Valid(when_)
    ensures OutcomeOf(t, when_, settings) == Answered(Some(ALL_CURRENT)) <==>
      AllRowsInOrder(t, when_, settings) || (InProse(t) && InOrder(t.prose.value, when_, settings))
    ensures OutcomeOf(t, when_, settings) == Answered(None) <==>
      (forall p: nat :: !R.IsInstrument(t.lines, p)) && !InProse(t)
  {
    hide AllRowsInOrder, InOrder, R.IsInstrument, R.Instruments, R.Skips, Overflows, AssessAll, Clear, DispositionOf;
    var report := R.Report(
      R.Instruments(t.lines, |t.lines|), R.Skips(t.lines, |t.lines|), R.AnyHeads(t.lines, |t.lines|));
    FoundExactly(t, report, when_, settings);
    assert Found(t, report) == FoundIn(t);
    ClearExactly(FoundIn(t), when_, settings);
    AllCurrentExactly(AssessAll(FoundIn(t), when_, settings), SkippedIn(t));
  }

  /** Whatever the disposition, it is the worst of what was found: no instrument is worse, a
      skipped row makes it CHECK INCOMPLETE at least, and it is ALL CURRENT, that, or an
      instrument's own.
   */
  lemma DispositionMeans(t: Text, when_: Date, settings: Settings, d: Disposition)
    requires AllValid(t) && Dates.Valid(when_) && OutcomeOf(t, when_, settings) == Answered(Some(d))
    ensures forall i :: i in FoundIn(t) ==> RowSeverity(Assess(i, when_, settings)) <= Severity(d)
    ensures SkippedIn(t) > 0 ==> Severity(d) >= 2
    ensures Severity(d) == 0 || (Severity(d) == 2 && SkippedIn(t) > 0)
            || exists i :: i in FoundIn(t) && RowSeverity(Assess(i, when_, settings)) == Severity(d)
  {
    hide R.Instruments, R.Skips, InProse, Assess, RowSeverity, DispositionOf, SkippedIn;
    var found, rows := FoundIn(t), AssessAll(FoundIn(t), when_, settings);
    DispositionIsWorst(rows, SkippedIn(t));
    hide FoundIn;
    forall i | i in found ensures Assess(i, when_, settings) in rows {
      var k :| 0 <= k < |found| && found[k] == i;
      assert rows[k] == Assess(i, when_, settings);
    }
    forall r | r in rows ensures exists i :: i in found && r == Assess(i, when_, settings) {
      var k :| 0 <= k < |rows| && rows[k] == r;
      assert found[k] in found;
    }
  }

  /** A disposition at least as severe, where there was one; an exception is no better. */
  predicate NoBetter(before: Outcome, after: Outcome) {
    before.Answered? && before.disposition.Some? ==>
      || after.Raised?
      || (after.disposition.Some? && Severity(before.disposition.value) <= Severity(after.disposition.value))
  }

  /** A later assessment, from the last calibrations on, is never better. */
  lemma LaterNoBetter(t: Text, early: Date, late: Date, settings: Settings)
    requires AllValid(t) && Dates.Valid(early) && Dates.Valid(late) && NotAfter(early, late)
    requires forall i :: i in FoundIn(t) ==> i.lastCal.Some? ==> NotAfter(i.lastCal.value, early)
    ensures NoBetter(OutcomeOf(t, early, settings), OutcomeOf(t, late, settings))
  {
    hide R.Instruments, R.Skips, InProse, FoundIn, SkippedIn, Assess, DispositionOf;
    TimeNeverImproves(FoundIn(t), SkippedIn(t), early, late, settings);
  }

  /** Nor is a line more at the end of the register, be it a row, a note or nothing. */
  lemma LineMoreNoBetter(t: Text, line: R.Line, when_: Date, settings: Settings)
    requires !(line.Written? && line.separator) && Readable(t) && Dates.Valid(when_)
    ensures var u := t.(lines := t.lines + [line]);
      AllValid(t) && AllValid(u) && NoBetter(OutcomeOf(t, when_, settings), OutcomeOf(u, when_, settings))
  {
    var u := t.(lines := t.lines + [line]);
    FoundValid(t);
    FoundValid(u);
    MoreFound(t, line);
    hide R.Instruments, R.Skips, InProse, FoundIn, SkippedIn, Assess, DispositionOf, Overflows;
    var before, after := AssessAll(FoundIn(t), when_, settings), AssessAll(FoundIn(u), when_, settings);
    forall r | r in before ensures r in after {
      var k :| 0 <= k < |before| && before[k] == r;
      assert FoundIn(u)[k] == FoundIn(t)[k] && after[k] == r;
    }
    MoreNeverImproves(before, after, SkippedIn(t), SkippedIn(u));
  }

  /** The instruments found come first among those found with a line more. */
  lemma MoreFound(t: Text, line: R.Line)
    requires !(line.Written? && line.separator)
    ensures var u := t.(lines := t.lines + [line]);
      && SkippedIn(t) <= SkippedIn(u) && (FoundIn(t) != [] ==> FoundIn(t) <= FoundIn(u))
  {
    var u := t.(lines := t.lines + [line]);
    var n := |t.lines|;
    R.ListsAppended(t.lines, line, n);
    R.AnyHeadsAppended(t.lines, line);
    NoTable(t);
    NoTable(u);
    hide R.AnyHeads, R.IsInstrument, R.LineSkips;
    assert R.Instruments(u.lines, n + 1) ==
      R.Instruments(t.lines, n) + (if R.IsInstrument(u.lines, n) then [n] else []);
    assert R.Skips(u.lines, n + 1) == R.Skips(t.lines, n) + R.LineSkips(u.lines, n);
  }

  /** From a register's text to its disposition: headings matched, tables scanned, instruments
      placed.
   */
  method CheckText(
    raws: seq<RawLine>, vocab: seq<Vocabulary>, keys: Keys, read: nat -> Instrument, prose: Option<Instrument>,
    when_: Date, settings: Settings)
    returns (lines: seq<R.Line>, outcome: Outcome)
    requires (forall p :: read(p).Valid()) && (prose.Some? ==> prose.value.Valid()) && Dates.Valid(when_)
    ensures |lines| == |raws| && forall i :: 0 <= i < |raws| ==> ReadsAs(raws[i], lines[i], vocab, keys)
    ensures AllValid(Text(lines, read, prose)) && outcome == OutcomeOf(Text(lines, read, prose), when_, settings)
  {
    lines := ReadLines(raws, vocab, keys);
    outcome := CheckCalibration(Text(lines, read, prose), when_, settings);
  }
}
