/** Readings against a standard operating procedure's thresholds: each rule's verdict and
    disposition, and the equipment's overall disposition, the worst of them.
 */
module SopCheck {
  import opened Options

  datatype Verdict = PASS | REVIEW | FAIL | NO_DATA

  /** The four dispositions in order; a rule pack may name another, which counts for nothing. */
  datatype Disposition = FIT | CONDITIONS | NOT_FOR_START | REMOVE | Unlisted(name: string)

  datatype Outcome = Outcome(verdict: Verdict, disposition: Disposition)

  datatype Limit = Below(limit: real) | AtMost(limit: real) | Open
  datatype Band = Band(limit: Limit, outcome: Outcome)

  datatype Rule =
    | BandRule(bands: seq<Band>)
    | ClassRule(cases: map<string, Outcome>)
    | MarginRule(above: Outcome, atOrBelow: Outcome, thin: Option<real>)
    | PresenceRule(defect: Outcome, clear: Outcome)

  /** What the text was found to say for a rule. */
  datatype Observation =
    | Nothing
    | Readings(values: seq<real>)
    | Class(name: string)
    | Wall(measured: real, retirement: real)
    | Defect

  /** A rule's finding; `shortened` is the margin rule's extra action. */
  datatype Finding = Finding(verdict: Verdict, disposition: Disposition, shortened: bool)

  const NO_FINDING := Finding(NO_DATA, FIT, false)

  function Found(o: Outcome): Finding { Finding(o.verdict, o.disposition, false) }

  predicate InBand(value: real, b: Band) {
    match b.limit
    case Below(limit) => value < limit
    case AtMost(limit) => value <= limit
    case Open => true
  }

  function Largest(values: seq<real>): (m: real)
    requires values != []
    ensures m in values && forall v :: v in values ==> v <= m
  {
    if |values| == 1 then values[0]
    else
      var rest := Largest(values[1..]);
      assert forall v :: v in values <==> v == values[0] || v in values[1..];
      if rest < values[0] then values[0] else rest
  }

  /** The first band a value falls in. */
  ghost predicate FirstBand(bands: seq<Band>, value: real, i: nat) {
    i < |bands| && InBand(value, bands[i]) && forall k :: 0 <= k < i ==> !InBand(value, bands[k])
  }

  function BandOf(bands: seq<Band>, value: real): (r: Option<nat>)
    ensures r.Some? ==> FirstBand(bands, value, r.value)
    ensures r.None? ==> forall k :: 0 <= k < |bands| ==> !InBand(value, bands[k])
  {
    BandFrom(bands, value, 0)
  }

  function BandFrom(bands: seq<Band>, value: real, i: nat): (r: Option<nat>)
    requires i <= |bands| && forall k :: 0 <= k < i ==> !InBand(value, bands[k])
    ensures r.Some? ==> FirstBand(bands, value, r.value)
    ensures r.None? ==> forall k :: 0 <= k < |bands| ==> !InBand(value, bands[k])
    decreases |bands| - i
  {
    if i == |bands| then None else if InBand(value, bands[i]) then Some(i) else BandFrom(bands, value, i + 1)
  }

  /** `_assess_band`'s loop, returning at the first band that holds the worse end of the range. */
  method AssessBand(bands: seq<Band>, values: seq<real>) returns (f: Finding)
    requires values != []
    ensures f == Assess(BandRule(bands), Readings(values))
  {
    var value := Largest(values);
    for i := 0 to |bands|
      invariant forall k :: 0 <= k < i ==> !InBand(value, bands[k])
    {
      if InBand(value, bands[i]) { return Found(bands[i].outcome); }
    }
    return NO_FINDING;
  }

  /** `_assess`, by the kind of rule. */
  function Assess(rule: Rule, seen: Observation): Finding {
    match rule
    case BandRule(bands) =>
      if !seen.Readings? || seen.values == [] then NO_FINDING
      else (match BandOf(bands, Largest(seen.values)) case Some(i) => Found(bands[i].outcome) case None => NO_FINDING)
    case ClassRule(cases) =>
      if seen.Class? && seen.name in cases then Found(cases[seen.name]) else NO_FINDING
    case MarginRule(above, atOrBelow, thin) =>
      if !seen.Wall? then NO_FINDING
      else
        var margin := seen.measured - seen.retirement;
        var o := if margin > 0.0 then above else atOrBelow;
        Finding(o.verdict, o.disposition, thin.Some? && 0.0 < margin < thin.value)
    case PresenceRule(defect, clear) => Found(if seen.Defect? then defect else clear)
  }

  function Rank(d: Disposition): nat {
    match d case FIT => 0 case CONDITIONS => 1 case NOT_FOR_START => 2 case REMOVE => 3 case Unlisted(_) => 0
  }

  /** `_worst`: the highest of those listed, FIT when there is none. */
  function Worst(fs: seq<Finding>): Disposition {
    if fs == [] then FIT
    else
      var (d, rest) := (fs[0].disposition, Worst(fs[1..]));
      if !d.Unlisted? && Rank(d) >= Rank(rest) then d else rest
  }

  datatype Overall = Fitness(d: Disposition) | Incomplete

  /** `check_sop_thresholds`'s disposition. */
  function OverallOf(fs: seq<Finding>, blocking: bool): Overall {
    if blocking && (exists f :: f in fs && f.verdict == NO_DATA) && !(exists f :: f in fs && f.verdict == FAIL)
    then Incomplete else Fitness(Worst(fs))
  }

  lemma {:induction false} WorstIsWorst(fs: seq<Finding>)
    ensures !Worst(fs).Unlisted?
    ensures forall f :: f in fs ==> Rank(f.disposition) <= Rank(Worst(fs))
    ensures Rank(Worst(fs)) == 0 || exists f :: f in fs && Rank(f.disposition) == Rank(Worst(fs))
  {
    if fs != [] {
      WorstIsWorst(fs[1..]);
      assert forall f :: f in fs <==> f == fs[0] || f in fs[1..];
    }
  }

  /** An outcome whose verdict and disposition say the same: a pass, or something worse than fit. */
  predicate Aligned(verdict: Verdict, d: Disposition) {
    verdict == PASS <==> Rank(d) == 0
  }

  /** FIT FOR SERVICE exactly when every rule passed - and, when missing readings do not
      block, when every rule that had a reading passed.
   */
  lemma FitExactly(fs: seq<Finding>, blocking: bool)
    requires forall f :: f in fs && f != NO_FINDING ==> f.verdict != NO_DATA && Aligned(f.verdict, f.disposition)
    ensures OverallOf(fs, blocking) == Fitness(FIT) <==> forall f :: f in fs ==> Clears(f, blocking)
  {
    WorstIsWorst(fs);
    if OverallOf(fs, blocking) == Fitness(FIT) {
      forall f | f in fs ensures Clears(f, blocking) {
        assert Rank(f.disposition) == 0;
      }
    }
  }

  /** A finding that does not stand in the way: a pass, or no reading where that does not block. */
  predicate Clears(f: Finding, blocking: bool) {
    f.verdict == PASS || (!blocking && f.verdict == NO_DATA)
  }

  predicate AlignedOutcome(o: Outcome) {
    o.verdict != NO_DATA && Aligned(o.verdict, o.disposition)
  }

  ghost predicate AlignedRule(rule: Rule) {
    match rule
    case BandRule(bands) => forall i :: 0 <= i < |bands| ==> AlignedOutcome(bands[i].outcome)
    case ClassRule(cases) => forall k :: k in cases ==> AlignedOutcome(cases[k])
    case MarginRule(above, atOrBelow, _) => AlignedOutcome(above) && AlignedOutcome(atOrBelow)
    case PresenceRule(defect, clear) => AlignedOutcome(defect) && AlignedOutcome(clear)
  }

  /** For a rule pack whose outcomes are aligned, on any observations. */
  lemma PackFitExactly(rules: seq<Rule>, seen: seq<Observation>, blocking: bool)
    requires |rules| == |seen| && forall i :: 0 <= i < |rules| ==> AlignedRule(rules[i])
    ensures OverallOf(AssessAll(rules, seen), blocking) == Fitness(FIT) <==>
      forall i :: 0 <= i < |rules| ==> Clears(Assess(rules[i], seen[i]), blocking)
  {
    var fs := AssessAll(rules, seen);
    forall f | f in fs && f != NO_FINDING ensures f.verdict != NO_DATA && Aligned(f.verdict, f.disposition) {
      var i :| 0 <= i < |fs| && fs[i] == f;
      assert AlignedRule(rules[i]);
    }
    FitExactly(fs, blocking);
    if forall f :: f in fs ==> Clears(f, blocking) {
      forall i | 0 <= i < |rules| ensures Clears(Assess(rules[i], seen[i]), blocking) { assert fs[i] in fs; }
    }
  }

  /** And alignment is needed: one misaligned finding alone is called fit without passing,
      or passes without being called fit.
   */
  lemma AlignmentNeeded(f: Finding, blocking: bool)
    requires f.verdict != NO_DATA && !Aligned(f.verdict, f.disposition)
    ensures !(OverallOf([f], blocking) == Fitness(FIT) <==> f.verdict == PASS)
  {
    assert Worst([f]) == if f.disposition.Unlisted? then FIT else f.disposition;
  }

  // ---- Worse readings never improve the disposition -------------------------

  /** A rule whose worse outcomes come later in it. */
  ghost predicate Ordered(rule: Rule) {
    match rule
    case BandRule(bands) =>
      forall i, j :: 0 <= i < j < |bands| ==>
        Rank(bands[i].outcome.disposition) <= Rank(bands[j].outcome.disposition)
    case MarginRule(above, atOrBelow, _) => Rank(above.disposition) <= Rank(atOrBelow.disposition)
    case _ => true
  }

  /** The same observation, or a worse one: a higher reading or a range reaching higher, or a
      thinner wall.
   */
  predicate NoBetter(a: Observation, b: Observation) {
    || a == b
    || (a.Readings? && b.Readings? && a.values != [] && b.values != [] && Largest(a.values) <= Largest(b.values))
    || (a.Wall? && b.Wall? && b.measured <= a.measured && a.retirement == b.retirement)
  }

  /** Bands hold everything below what they hold, so a higher reading is never in an earlier one. */
  lemma RuleMonotone(rule: Rule, a: Observation, b: Observation)
    requires Ordered(rule) && NoBetter(a, b) && Assess(rule, b).verdict != NO_DATA
    ensures Rank(Assess(rule, a).disposition) <= Rank(Assess(rule, b).disposition)
  {
    if rule.BandRule? && a != b && a.Readings? {
      var i, j := BandOf(rule.bands, Largest(a.values)), BandOf(rule.bands, Largest(b.values));
      assert InBand(Largest(a.values), rule.bands[j.value]);
      assert i.Some? && i.value <= j.value;
    }
  }

  function AssessAll(rules: seq<Rule>, seen: seq<Observation>): seq<Finding>
    requires |rules| == |seen|
  {
    seq(|rules|, i requires 0 <= i < |rules| => Assess(rules[i], seen[i]))
  }

  lemma WorseNeverImproves(rules: seq<Rule>, a: seq<Observation>, b: seq<Observation>, blocking: bool)
    requires |rules| == |a| == |b|
    requires forall i :: 0 <= i < |rules| ==> Ordered(rules[i]) && NoBetter(a[i], b[i])
    requires forall i :: 0 <= i < |rules| ==>
      Assess(rules[i], a[i]).verdict != NO_DATA && Assess(rules[i], b[i]).verdict != NO_DATA
    ensures OverallOf(AssessAll(rules, a), blocking).Fitness? && OverallOf(AssessAll(rules, b), blocking).Fitness?
    ensures Rank(OverallOf(AssessAll(rules, a), blocking).d) <= Rank(OverallOf(AssessAll(rules, b), blocking).d)
  {
    var before, after := AssessAll(rules, a), AssessAll(rules, b);
    WorstIsWorst(before);
    WorstIsWorst(after);
    forall i | 0 <= i < |rules| ensures Rank(before[i].disposition) <= Rank(Worst(after)) {
      RuleMonotone(rules[i], a[i], b[i]);
      assert after[i] in after;
    }
  }

  // ---- Exactly which rule packs promise that, data or no data -----------------

  /** A limit that holds something the one before it does not. */
  predicate RoomAbove(before: Limit, limit: Limit) {
    match (before, limit)
    case (Open, _) => false
    case (_, Open) => true
    case (Below(m), AtMost(n)) => m <= n
    case _ => before.limit < limit.limit
  }

  /** A band that holds something above every band before it. */
  predicate Reached(bands: seq<Band>, i: nat) {
    i < |bands| && forall k :: 0 <= k < i ==> RoomAbove(bands[k].limit, bands[i].limit)
  }

  /** A reading below n and above every limit that is. */
  lemma {:induction false} Between(bands: seq<Band>, n: real) returns (v: real)
    ensures v < n
    ensures forall k :: 0 <= k < |bands| && RoomAbove(bands[k].limit, Below(n)) ==> !InBand(v, bands[k])
  {
    v := n - 1.0;
    if bands != [] {
      v := Between(bands[1..], n);
      if RoomAbove(bands[0].limit, Below(n)) && v <= bands[0].limit.limit { v := (bands[0].limit.limit + n) / 2.0; }
      forall k | 0 <= k < |bands| && RoomAbove(bands[k].limit, Below(n)) ensures !InBand(v, bands[k]) {
        if k > 0 { assert bands[k] == bands[1..][k - 1]; }
      }
    }
  }

  lemma ReadingOf(bands: seq<Band>, i: nat) returns (v: real)
    requires Reached(bands, i)
    ensures FirstBand(bands, v, i)
  {
    var front := bands[..i];
    assert forall k :: 0 <= k < i ==> front[k] == bands[k];
    match bands[i].limit
    case Open => v := Beyond(front, 0.0);
    case Below(n) => v := Between(front, n);
    case AtMost(n) => v := n;
  }

  /** A band is reached exactly when some reading is assessed by it. */
  lemma ReachedExactly(bands: seq<Band>, i: nat)
    ensures Reached(bands, i) <==> exists v: real :: FirstBand(bands, v, i)
  {
    if Reached(bands, i) { var v := ReadingOf(bands, i); }
  }

  function Higher(m: nat, n: nat): nat { if m < n then n else m }

  /** A disposition's rank where something else already keeps the overall one at a floor. */
  function RankOver(d: Disposition, floor: nat): nat { Higher(Rank(d), floor) }

  /** A rule that never lets a worse observation lower the rank above a floor: its reached
      bands in order, and either a band without a limit at the end of the scale or nothing
      above the floor to lose by running off it; a margin's two outcomes in order.
   */
  predicate SafeRule(rule: Rule, floor: nat) {
    match rule
    case BandRule(bands) =>
      && (forall i, j :: 0 <= i < j < |bands| && Reached(bands, i) && Reached(bands, j) ==>
            RankOver(bands[i].outcome.disposition, floor) <= RankOver(bands[j].outcome.disposition, floor))
      && ((exists i :: 0 <= i < |bands| && bands[i].limit.Open?)
          || forall i :: 0 <= i < |bands| && Reached(bands, i) ==> Rank(bands[i].outcome.disposition) <= floor)
    case MarginRule(above, atOrBelow, _) =>
      RankOver(above.disposition, floor) <= RankOver(atOrBelow.disposition, floor)
    case _ => true
  }

  ghost predicate NeverImproves(rule: Rule, floor: nat) {
    forall a, b :: NoBetter(a, b) ==>
      RankOver(Assess(rule, a).disposition, floor) <= RankOver(Assess(rule, b).disposition, floor)
  }

  /** One reading, and the band it is assessed by. */
  lemma Single(bands: seq<Band>, v: real)
    ensures Largest([v]) == v
    ensures forall i: nat :: FirstBand(bands, v, i) ==>
      Assess(BandRule(bands), Readings([v])) == Found(bands[i].outcome)
    ensures (forall k :: 0 <= k < |bands| ==> !InBand(v, bands[k])) ==>
      Assess(BandRule(bands), Readings([v])) == NO_FINDING
  {
    var r := BandOf(bands, v);
    forall i: nat | FirstBand(bands, v, i) ensures r == Some(i) {
      assert InBand(v, bands[i]);
    }
  }

  /** Off the end of the scale: a reading, as high as asked, that no closed band holds. */
  lemma {:induction false} Beyond(bands: seq<Band>, least: real) returns (v: real)
    requires forall i :: 0 <= i < |bands| ==> !bands[i].limit.Open?
    ensures v >= least && forall i :: 0 <= i < |bands| ==> !InBand(v, bands[i])
  {
    v := least;
    if bands != [] {
      v := Beyond(bands[1..], least);
      var limit := bands[0].limit.limit;
      if v <= limit { v := limit + 1.0; }
      forall i | 0 <= i < |bands| ensures !InBand(v, bands[i]) {
        if i > 0 { assert bands[i] == bands[1..][i - 1]; }
      }
    }
  }

  lemma SafeBands(bands: seq<Band>, floor: nat, a: Observation, b: Observation)
    requires SafeRule(BandRule(bands), floor) && NoBetter(a, b)
    ensures RankOver(Assess(BandRule(bands), a).disposition, floor) <=
      RankOver(Assess(BandRule(bands), b).disposition, floor)
  {
    if a != b && a.Readings? {
      var v, w := Largest(a.values), Largest(b.values);
      var i, j := BandOf(bands, v), BandOf(bands, w);
      if j.Some? {
        assert InBand(v, bands[j.value]);
        ReachedExactly(bands, i.value);
        ReachedExactly(bands, j.value);
      } else if i.Some? {
        ReachedExactly(bands, i.value);
      }
    }
  }

  lemma UnsafeBands(bands: seq<Band>, floor: nat) returns (a: Observation, b: Observation)
    requires !SafeRule(BandRule(bands), floor)
    ensures NoBetter(a, b)
    ensures RankOver(Assess(BandRule(bands), a).disposition, floor) >
      RankOver(Assess(BandRule(bands), b).disposition, floor)
  {
    var v, w: real;
    if i: nat, j: nat :|
      && i < j < |bands| && Reached(bands, i) && Reached(bands, j)
      && RankOver(bands[i].outcome.disposition, floor) > RankOver(bands[j].outcome.disposition, floor)
    {
      v := ReadingOf(bands, i);
      w := ReadingOf(bands, j);
      assert !InBand(w, bands[i]);
    } else {
      var i: nat :| i < |bands| && Reached(bands, i) && Rank(bands[i].outcome.disposition) > floor;
      v := ReadingOf(bands, i);
      w := Beyond(bands, v);
    }
    Single(bands, v);
    Single(bands, w);
    a, b := Readings([v]), Readings([w]);
  }

  /** A worse observation never lowers a rule's rank, if and only if the rule is safe. */
  lemma SafeExactly(rule: Rule, floor: nat)
    ensures NeverImproves(rule, floor) <==> SafeRule(rule, floor)
  {
    match rule
    case BandRule(bands) =>
      if SafeRule(rule, floor) {
        forall a, b | NoBetter(a, b)
          ensures RankOver(Assess(rule, a).disposition, floor) <= RankOver(Assess(rule, b).disposition, floor)
        {
          SafeBands(bands, floor, a, b);
        }
      } else {
        var a, b := UnsafeBands(bands, floor);
      }
    case MarginRule(above, atOrBelow, _) =>
      assert NoBetter(Wall(2.0, 1.0), Wall(0.0, 1.0));
      assert Assess(rule, Wall(2.0, 1.0)).disposition == above.disposition;
      assert Assess(rule, Wall(0.0, 1.0)).disposition == atOrBelow.disposition;
    case _ =>
  }

  /** The lowest rank a rule can be brought to. Only a presence rule always finds something. */
  function Floor(rule: Rule): nat {
    if !rule.PresenceRule? then 0
    else if Rank(rule.defect.disposition) < Rank(rule.clear.disposition) then Rank(rule.defect.disposition)
    else Rank(rule.clear.disposition)
  }

  function PackFloor(rules: seq<Rule>): nat {
    if rules == [] then 0 else Higher(Floor(rules[0]), PackFloor(rules[1..]))
  }

  /** The observation that brings a rule there. */
  function Quiet(rule: Rule): Observation {
    if rule.PresenceRule? && Rank(rule.defect.disposition) < Rank(rule.clear.disposition) then Defect else Nothing
  }

  lemma QuietAtFloor(rule: Rule, seen: Observation)
    ensures Rank(Assess(rule, Quiet(rule)).disposition) == Floor(rule) <= Rank(Assess(rule, seen).disposition)
  {
  }

  lemma {:induction false} FloorOfPack(rules: seq<Rule>)
    ensures forall i :: 0 <= i < |rules| ==> Floor(rules[i]) <= PackFloor(rules)
    ensures PackFloor(rules) == 0 || exists i :: 0 <= i < |rules| && Floor(rules[i]) == PackFloor(rules)
  {
    if rules != [] {
      FloorOfPack(rules[1..]);
      assert forall i :: 0 < i < |rules| ==> rules[i] == rules[1..][i - 1];
      if PackFloor(rules) == PackFloor(rules[1..]) && PackFloor(rules) > 0 {
        var k :| 0 <= k < |rules[1..]| && Floor(rules[1..][k]) == PackFloor(rules[1..]);
        assert Floor(rules[k + 1]) == PackFloor(rules);
      }
    }
  }

  /** The overall rank, when missing readings do not block, on either side of its findings. */
  lemma OverallRank(rules: seq<Rule>, seen: seq<Observation>)
    requires |rules| == |seen|
    ensures var overall := Rank(Worst(AssessAll(rules, seen)));
      && PackFloor(rules) <= overall
      && (forall i :: 0 <= i < |rules| ==> Rank(Assess(rules[i], seen[i]).disposition) <= overall)
      && (overall == 0 || exists i :: 0 <= i < |rules| && Rank(Assess(rules[i], seen[i]).disposition) == overall)
  {
    var fs := AssessAll(rules, seen);
    WorstIsWorst(fs);
    FloorOfPack(rules);
    forall i | 0 <= i < |rules|
      ensures Floor(rules[i]) <= Rank(Assess(rules[i], seen[i]).disposition) <= Rank(Worst(fs))
    {
      QuietAtFloor(rules[i], seen[i]);
      assert fs[i] in fs;
    }
  }

  /** Whatever is seen and however much worse it gets, data or no data. */
  ghost predicate PackNeverImproves(rules: seq<Rule>) {
    forall a: seq<Observation>, b: seq<Observation> ::
      |a| == |b| == |rules| && (forall i :: 0 <= i < |rules| ==> NoBetter(a[i], b[i])) ==>
      Rank(OverallOf(AssessAll(rules, a), false).d) <= Rank(OverallOf(AssessAll(rules, b), false).d)
  }

  lemma SafePack(rules: seq<Rule>, a: seq<Observation>, b: seq<Observation>)
    requires forall i :: 0 <= i < |rules| ==> SafeRule(rules[i], PackFloor(rules))
    requires |a| == |b| == |rules| && forall i :: 0 <= i < |rules| ==> NoBetter(a[i], b[i])
    ensures Rank(Worst(AssessAll(rules, a))) <= Rank(Worst(AssessAll(rules, b)))
  {
    OverallRank(rules, a);
    OverallRank(rules, b);
    hide Worst, AssessAll, SafeRule, Assess, NoBetter, Rank;
    forall i | 0 <= i < |rules|
      ensures Rank(Assess(rules[i], a[i]).disposition) <= Rank(Worst(AssessAll(rules, b)))
    {
      SafeExactly(rules[i], PackFloor(rules));
      assert NoBetter(a[i], b[i]);
    }
  }

  /** The other rules quiet, one that is not safe shows through. */
  lemma UnsafePack(rules: seq<Rule>, k: nat) returns (a: seq<Observation>, b: seq<Observation>)
    requires k < |rules| && !SafeRule(rules[k], PackFloor(rules))
    ensures |a| == |b| == |rules| && forall i :: 0 <= i < |rules| ==> NoBetter(a[i], b[i])
    ensures Rank(Worst(AssessAll(rules, a))) > Rank(Worst(AssessAll(rules, b)))
  {
    var floor := PackFloor(rules);
    SafeExactly(rules[k], floor);
    var x, y :| NoBetter(x, y)
      && RankOver(Assess(rules[k], x).disposition, floor) > RankOver(Assess(rules[k], y).disposition, floor);
    var quiet := seq(|rules|, i requires 0 <= i < |rules| => Quiet(rules[i]));
    a, b := quiet[k := x], quiet[k := y];
    FloorOfPack(rules);
    OverallRank(rules, a);
    OverallRank(rules, b);
    forall i | 0 <= i < |rules| && i != k ensures Rank(Assess(rules[i], b[i]).disposition) <= floor {
      QuietAtFloor(rules[i], b[i]);
    }
  }

  /** Raising readings and thinning walls never improves the overall disposition of a rule
      pack, if and only if each of its rules is safe above what the rest never go below.
   */
  lemma PackNeverImprovesExactly(rules: seq<Rule>)
    ensures PackNeverImproves(rules) <==> forall i :: 0 <= i < |rules| ==> SafeRule(rules[i], PackFloor(rules))
  {
    hide Worst, AssessAll, SafeRule, NoBetter, Rank;
    if forall i :: 0 <= i < |rules| ==> SafeRule(rules[i], PackFloor(rules)) {
      forall a: seq<Observation>, b: seq<Observation>
        | |a| == |b| == |rules| && forall i :: 0 <= i < |rules| ==> NoBetter(a[i], b[i])
        ensures Rank(OverallOf(AssessAll(rules, a), false).d) <= Rank(OverallOf(AssessAll(rules, b), false).d)
      {
        SafePack(rules, a, b);
      }
    } else {
      var k: nat :| k < |rules| && !SafeRule(rules[k], PackFloor(rules));
      var a, b := UnsafePack(rules, k);
      assert Rank(OverallOf(AssessAll(rules, a), false).d) > Rank(OverallOf(AssessAll(rules, b), false).d);
    }
  }

  const UP_TO_TWENTY :=
    BandRule([Band(Below(5.0), Outcome(PASS, FIT)), Band(AtMost(20.0), Outcome(REVIEW, CONDITIONS))])

  lemma UpToTwenty()
    ensures FirstBand(UP_TO_TWENTY.bands, 12.0, 1)
    ensures Assess(UP_TO_TWENTY, Readings([12.0])) == Finding(REVIEW, CONDITIONS, false)
    ensures Assess(UP_TO_TWENTY, Readings([24.0])) == NO_FINDING
  {
    Single(UP_TO_TWENTY.bands, 12.0);
    Single(UP_TO_TWENTY.bands, 24.0);
  }

  lemma NotSafe()
    ensures !PackNeverImproves([UP_TO_TWENTY])
  {
    hide PackNeverImproves;
    assert Reached(UP_TO_TWENTY.bands, 1);
    assert !SafeRule([UP_TO_TWENTY][0], PackFloor([UP_TO_TWENTY]));
    PackNeverImprovesExactly([UP_TO_TWENTY]);
  }

  /** Its bands in order but none without a limit, a rule is not safe: off the end of the last
      band there is no finding, and a reading twice as bad drops from the disposition
      altogether unless that blocks.
   */
  lemma OffTheScale()
    ensures Ordered(UP_TO_TWENTY) && !PackNeverImproves([UP_TO_TWENTY])
    ensures NoBetter(Readings([12.0]), Readings([24.0]))
    ensures OverallOf([Assess(UP_TO_TWENTY, Readings([12.0]))], false) == Fitness(CONDITIONS)
    ensures OverallOf([Assess(UP_TO_TWENTY, Readings([24.0]))], false) == Fitness(FIT)
    ensures OverallOf([Assess(UP_TO_TWENTY, Readings([24.0]))], true) == Incomplete
  {
    hide PackNeverImproves, SafeRule, Assess;
    UpToTwenty();
    NotSafe();
    assert NO_FINDING in [NO_FINDING];
    assert Worst([NO_FINDING]) == FIT && Worst([Finding(REVIEW, CONDITIONS, false)]) == CONDITIONS;
  }

  // ---- The built-in rule pack, SOP-MEC-014 ---------------------------------------

  const BUILT_IN: seq<Rule> := [
    BandRule([
      Band(Below(5.0), Outcome(PASS, FIT)),
      Band(AtMost(20.0), Outcome(REVIEW, CONDITIONS)),
      Band(Open, Outcome(FAIL, REMOVE))]),
    PresenceRule(Outcome(FAIL, REMOVE), Outcome(PASS, FIT)),
    ClassRule(map["A" := Outcome(PASS, FIT), "B" := Outcome(PASS, FIT),
      "C" := Outcome(REVIEW, CONDITIONS), "D" := Outcome(FAIL, REMOVE)]),
    MarginRule(Outcome(PASS, FIT), Outcome(FAIL, REMOVE), Some(2.0)),
    PresenceRule(Outcome(FAIL, NOT_FOR_START), Outcome(PASS, FIT))]

  /** The built-in rule pack keeps the promise on any observations at all: its one scale is open. */
  lemma BuiltInNeverImproves()
    ensures PackNeverImproves(BUILT_IN)
  {
    hide PackNeverImproves, SafeRule, PackFloor;
    forall i | 0 <= i < |BUILT_IN| ensures SafeRule(BUILT_IN[i], PackFloor(BUILT_IN)) {
      BuiltInSafe(i, PackFloor(BUILT_IN));
    }
    PackNeverImprovesExactly(BUILT_IN);
  }

  lemma BuiltInSafe(i: nat, floor: nat)
    requires i < |BUILT_IN|
    ensures SafeRule(BUILT_IN[i], floor)
  {
    hide Reached, PackFloor;
    if i == 0 { assert BUILT_IN[0].bands[2].limit.Open?; }
  }

  lemma SealPasses(values: seq<real>)
    requires values != []
    ensures Assess(BUILT_IN[0], Readings(values)).verdict == PASS <==> forall v :: v in values ==> v < 5.0
  {
    var bands, top := BUILT_IN[0].bands, Largest(values);
    var i := BandOf(bands, top);
    assert InBand(top, bands[0]) <==> top < 5.0;
    assert i.Some? by { assert InBand(top, bands[2]); }
  }

  /** What the built-in rule pack says of equipment, in the procedure's own terms. */
  lemma BuiltInFit(seen: seq<Observation>)
    requires |seen| == 5
    ensures OverallOf(AssessAll(BUILT_IN, seen), true) == Fitness(FIT) <==>
      && seen[0].Readings? && seen[0].values != [] && (forall v :: v in seen[0].values ==> v < 5.0)
      && !seen[1].Defect?
      && (seen[2] == Class("A") || seen[2] == Class("B"))
      && seen[3].Wall? && seen[3].measured > seen[3].retirement
      && !seen[4].Defect?
  {
    PackFitExactly(BUILT_IN, seen, true);
    if seen[0].Readings? && seen[0].values != [] { SealPasses(seen[0].values); }
    assert Assess(BUILT_IN[1], seen[1]).verdict == PASS <==> !seen[1].Defect?;
    assert Assess(BUILT_IN[2], seen[2]).verdict == PASS <==> seen[2] == Class("A") || seen[2] == Class("B");
    assert Assess(BUILT_IN[3], seen[3]).verdict == PASS <==> seen[3].Wall? && seen[3].measured > seen[3].retirement;
    assert Assess(BUILT_IN[4], seen[4]).verdict == PASS <==> !seen[4].Defect?;
  }
}
