/** The thickness method of piping inspection codes such as API 570: corrosion rate, remaining life and the
    next measurement for each location, and which interval caps each one.
 */
module RemainingLife {
  import opened Options
  import opened Formulas

  datatype Reading = Reading(location: string, previous: real, current: real, required: real, years: real)

  datatype Verdict = AtOrBelowRequired | NoMeasurableLoss | FitForService

  datatype Life = Life(
    reading: Reading, interval: Option<real>, rate: Option<real>,
    life: Option<real>, next: Option<real>, verdict: Verdict)

  /** `_remaining_life`: an interval of 0 counts as none given. */
  function Assess(x: Reading, interval: Option<real>): Life {
    var rate := if x.years == 0.0 then None else Some((x.previous - x.current) / x.years);
    if x.current <= x.required then Life(x, interval, rate, Some(0.0), Some(0.0), AtOrBelowRequired)
    else if rate.None? || rate.value <= 0.0 then Life(x, interval, rate, None, interval, NoMeasurableLoss)
    else
      var life := (x.current - x.required) / rate.value;
      var next := if interval.Some? && interval.value != 0.0 then Lesser(life / 2.0, interval.value) else life / 2.0;
      Life(x, interval, rate, Some(life), Some(next), FitForService)
  }

  function Lesser(a: real, b: real): real { if b < a then b else a }

  /** The maximum interval of the whole request: the one stated, or the default when none
      is, or a shorter one the plant's rules require.
   */
  function WideInterval(stated: Option<real>, default_: real, sop: real): Option<real> {
    var code := if stated.None? && default_ > 0.0 then Some(default_) else stated;
    if sop > 0.0 && (code.None? || sop < code.value) then Some(sop) else code
  }

  /** The interval of one location: its own when that is shorter. */
  function IntervalFor(wide: Option<real>, own: Option<real>): Option<real> {
    if own.Some? && own.value > 0.0 && (wide.None? || own.value < wide.value) then own else wide
  }

  /** `calculate_remaining_life`: each location with the interval chosen for it. */
  method CalculateRemainingLife(
    rows: seq<(Reading, Option<real>)>, stated: Option<real>, default_: real, sop: real)
    returns (results: seq<Life>)
    ensures |results| == |rows|
    ensures forall i :: 0 <= i < |rows| ==>
      results[i] == Assess(rows[i].0, IntervalFor(WideInterval(stated, default_, sop), rows[i].1))
  {
    var interval := stated;
    if interval.None? && default_ > 0.0 { interval := Some(default_); }
    if sop > 0.0 && (interval.None? || sop < interval.value) { interval := Some(sop); }
    results := [];
    for i := 0 to |rows|
      invariant |results| == i
      invariant forall k :: 0 <= k < i ==>
        results[k] == Assess(rows[k].0, IntervalFor(WideInterval(stated, default_, sop), rows[k].1))
    {
      var (x, own) := rows[i];
      if own.Some? && own.value > 0.0 && (interval.None? || own.value < interval.value) {
        results := results + [Assess(x, own)];
      } else {
        results := results + [Assess(x, interval)];
      }
    }
  }

  /** Absent read as unbounded. */
  predicate AtMost(a: Option<real>, b: Option<real>) {
    b.None? || (a.Some? && a.value <= b.value)
  }

  /** Never later than half the remaining life; the wall projected to that date is at
      least midway between what is there and what is required.
   */
  lemma HalfLifeKept(x: Reading, interval: Option<real>)
    requires Assess(x, interval).verdict == FitForService
    ensures var l := Assess(x, interval);
      && l.next.value <= l.life.value / 2.0
      && x.current - l.rate.value * l.next.value >= (x.current + x.required) / 2.0
  {
    var l := Assess(x, interval);
    var rate, life, next := l.rate.value, l.life.value, l.next.value;
    assert rate * life == x.current - x.required;
    assert rate * next <= rate * (life / 2.0);
    assert rate * (life / 2.0) == (rate * life) / 2.0;
  }

  /** An interval that applies to a location: the stated one or the default in its place,
      the plant rule's, its own. Only a positive one can be met.
   */
  predicate Applies(x: real, stated: Option<real>, default_: real, sop: real, own: Option<real>) {
    x > 0.0 && (stated == Some(x) || (stated.None? && x == default_) || x == sop || own == Some(x))
  }

  /** Whatever the readings, the next measurement keeps every interval that applies. */
  ghost predicate KeepsIntervals(stated: Option<real>, default_: real, sop: real, own: Option<real>) {
    forall r: Reading, x: real :: Applies(x, stated, default_, sop, own) ==>
      Assess(r, IntervalFor(WideInterval(stated, default_, sop), own)).next.Some? &&
      Assess(r, IntervalFor(WideInterval(stated, default_, sop), own)).next.value <= x
  }

  /** The one way an interval is lost: a stated maximum of 0 beside another interval. It
      is the shortest, so it is chosen, and then counts as none.
   */
  lemma IntervalsKeptExactly(stated: Option<real>, default_: real, sop: real, own: Option<real>)
    ensures KeepsIntervals(stated, default_, sop, own) <==>
      !(stated == Some(0.0) && (sop > 0.0 || (own.Some? && own.value > 0.0)))
  {
    if stated == Some(0.0) && (sop > 0.0 || (own.Some? && own.value > 0.0)) {
      var x := if sop > 0.0 then sop else own.value;
      var r := Reading("", 4.0 * x + 1.0, 4.0 * x, 0.0, 1.0);
      assert Applies(x, stated, default_, sop, own);
      assert Assess(r, IntervalFor(WideInterval(stated, default_, sop), own)).next == Some(2.0 * x);
    }
  }

  ghost predicate LifeGrows(years: real) {
    forall previous, required, c, d: real
      {:trigger Reading("", previous, c, required, years), Reading("", previous, d, required, years)} ::
      c <= d ==>
      AtMost(Assess(Reading("", previous, c, required, years), None).life,
             Assess(Reading("", previous, d, required, years), None).life)
  }

  ghost predicate NextGrows(years: real, interval: Option<real>) {
    forall previous, required, c, d: real
      {:trigger Reading("", previous, c, required, years), Reading("", previous, d, required, years)} ::
      c <= d ==>
      AtMost(Assess(Reading("", previous, c, required, years), interval).next,
             Assess(Reading("", previous, d, required, years), interval).next)
  }

  lemma LifeOrder(previous: real, required: real, years: real, c: real, d: real)
    requires years >= 0.0 && c <= d
    ensures AtMost(Assess(Reading("", previous, c, required, years), None).life,
                   Assess(Reading("", previous, d, required, years), None).life)
  {
    var a, b := Assess(Reading("", previous, c, required, years), None),
      Assess(Reading("", previous, d, required, years), None);
    if a.verdict == FitForService && b.verdict == FitForService {
      assert b.rate.value * years == previous - d;
      Quotients(previous - d, years, previous - c, years);
      Quotients(c - required, a.rate.value, d - required, b.rate.value);
    }
  }

  lemma Quotients(n: real, p: real, m: real, q: real)
    requires 0.0 < n <= m && 0.0 < q <= p
    ensures n / p <= m / q
  {
    assert n * q <= m * p;
    assert n / p == (n * q) / (p * q);
    assert m / q == (m * p) / (p * q);
  }

  /** Thicker never means shorter-lived, across all three verdicts - exactly when the
      time between readings is not negative.
   */
  lemma LifeGrowsExactly(years: real)
    ensures LifeGrows(years) <==> years >= 0.0
  {
    if years >= 0.0 {
      forall previous, required, c, d: real | c <= d
        ensures AtMost(Assess(Reading("", previous, c, required, years), None).life,
                       Assess(Reading("", previous, d, required, years), None).life)
      {
        LifeOrder(previous, required, years, c, d);
      }
    } else {
      var a, b := Assess(Reading("", 1.0, 1.0, 0.0, years), None), Assess(Reading("", 1.0, 2.0, 0.0, years), None);
      assert b.rate.value == -1.0 / years;
      assert a.life.None? && b.life.Some?;
    }
  }

  /** The next measurement, likewise, exactly when the interval is absent or positive -
      or 0 with no time between the readings, where no rate is ever found.
   */
  lemma NextGrowsExactly(years: real, interval: Option<real>)
    requires years >= 0.0
    ensures NextGrows(years, interval) <==>
      interval.None? || interval.value > 0.0 || (years == 0.0 && interval.value == 0.0)
  {
    if interval.None? || interval.value > 0.0 || (years == 0.0 && interval.value == 0.0) {
      forall previous, required, c, d: real | c <= d
        ensures AtMost(Assess(Reading("", previous, c, required, years), interval).next,
                       Assess(Reading("", previous, d, required, years), interval).next)
      {
        LifeOrder(previous, required, years, c, d);
        assert Assess(Reading("", previous, c, required, years), interval).life ==
          Assess(Reading("", previous, c, required, years), None).life;
        assert Assess(Reading("", previous, d, required, years), interval).life ==
          Assess(Reading("", previous, d, required, years), None).life;
      }
    } else if interval.value < 0.0 {
      assert Assess(Reading("", 2.0, 0.0, 1.0, years), interval).next == Some(0.0);
      assert Assess(Reading("", 2.0, 2.0, 1.0, years), interval).next == interval;
    } else {
      var a, b := Assess(Reading("", 3.0, 2.0, 1.0, years), interval),
        Assess(Reading("", 3.0, 3.0, 1.0, years), interval);
      assert a.rate.value == 1.0 / years;
      assert a.next.value > 0.0 && b.next == Some(0.0);
    }
  }

  /** The governing location: the first with the shortest life. */
  function Governing(results: seq<Life>): (g: nat)
    requires results != []
    ensures g < |results|
    ensures forall i :: 0 <= i < |results| ==> AtMost(results[g].life, results[i].life)
    ensures forall i :: 0 <= i < g ==> !AtMost(results[i].life, results[g].life)
  {
    if |results| == 1 then 0
    else
      var g := Governing(results[..|results| - 1]);
      if AtMost(results[g].life, results[|results| - 1].life) then g else |results| - 1
  }
}
