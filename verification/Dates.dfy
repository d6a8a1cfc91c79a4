/** Gregorian dates within the years 1 to 9999, and adding months and days to them: the
    month first, its day clamped to the month's length, then the days.
 */
module Dates {
  import opened Options

  datatype Date = Date(year: int, month: int, day: int)

  predicate Leap(y: int) {
    y % 4 == 0 && (y % 100 != 0 || y % 400 == 0)
  }

  function MonthDays(y: int, m: int): int {
    if m == 2 then (if Leap(y) then 29 else 28) else if m in {4, 6, 9, 11} then 30 else 31
  }

  predicate Valid(d: Date) {
    1 <= d.year <= 9999 && 1 <= d.month <= 12 && 1 <= d.day <= MonthDays(d.year, d.month)
  }

  /** On or before. */
  predicate NotAfter(a: Date, b: Date) {
    a.year < b.year || (a.year == b.year && (a.month < b.month || (a.month == b.month && a.day <= b.day)))
  }

  /** Days before a year begins, and before a month of it does. */
  function YearStart(y: int): int {
    365 * (y - 1) + (y - 1) / 4 - (y - 1) / 100 + (y - 1) / 400
  }

  function MonthStart(y: int, m: int): int
    requires 1 <= m <= 13
  {
    if m == 1 then 0 else MonthStart(y, m - 1) + MonthDays(y, m - 1)
  }

  /** The day's number, 1 January of year 1 being 1: what subtracting dates counts in. */
  function Ordinal(d: Date): int
    requires Valid(d)
  {
    YearStart(d.year) + MonthStart(d.year, d.month) + d.day
  }

  lemma MonthsInYear(y: int)
    ensures MonthStart(y, 13) == if Leap(y) then 366 else 365
  {
    assert MonthStart(y, 2) == 31;
    assert MonthStart(y, 4) == MonthStart(y, 2) + MonthDays(y, 2) + 31;
    assert MonthStart(y, 6) == MonthStart(y, 4) + 61;
    assert MonthStart(y, 8) == MonthStart(y, 6) + 61;
    assert MonthStart(y, 10) == MonthStart(y, 8) + 61;
    assert MonthStart(y, 12) == MonthStart(y, 10) + 61;
  }

  lemma LeapDay(n: int)
    ensures n / 4 - (n - 1) / 4 == if n % 4 == 0 then 1 else 0
    ensures n / 100 - (n - 1) / 100 == if n % 100 == 0 then 1 else 0
    ensures n / 400 - (n - 1) / 400 == if n % 400 == 0 then 1 else 0
    ensures n % 400 == 0 ==> n % 100 == 0
    ensures n % 100 == 0 ==> n % 4 == 0
  {
  }

  lemma YearLength(y: int)
    ensures YearStart(y + 1) == YearStart(y) + MonthStart(y, 13)
    ensures MonthStart(y, 13) == if Leap(y) then 366 else 365
  {
    MonthsInYear(y);
    LeapDay(y);
  }

  lemma {:induction false} MonthsGrow(y: int, m: int, n: int)
    requires 1 <= m <= n <= 13
    ensures MonthStart(y, m) <= MonthStart(y, n)
    decreases n - m
  {
    if m < n { MonthsGrow(y, m + 1, n); }
  }

  /** Calendar order is the order of the day numbers. */
  lemma OrderOfOrdinals(a: Date, b: Date)
    requires Valid(a) && Valid(b)
    ensures NotAfter(a, b) <==> Ordinal(a) <= Ordinal(b)
  {
    if a != b {
      if NotAfter(a, b) { StrictlyEarlier(a, b); } else { StrictlyEarlier(b, a); }
    }
  }

  lemma StrictlyEarlier(a: Date, b: Date)
    requires Valid(a) && Valid(b) && NotAfter(a, b) && a != b
    ensures Ordinal(a) < Ordinal(b)
  {
    if a.year < b.year {
      MonthsGrow(a.year, a.month + 1, 13);
      YearLength(a.year);
      MonthsGrow(b.year, 1, b.month);
    } else if a.month < b.month {
      MonthsGrow(a.year, a.month + 1, b.month);
    }
  }

  const LAST := Date(9999, 12, 31)

  /** The next day; none after the last date there is. */
  function Tomorrow(d: Date): (t: Option<Date>)
    requires Valid(d)
    ensures t.Some? ==> Valid(t.value)
  {
    if d == LAST then None
    else if d.day < MonthDays(d.year, d.month) then Some(d.(day := d.day + 1))
    else if d.month < 12 then Some(Date(d.year, d.month + 1, 1))
    else Some(Date(d.year + 1, 1, 1))
  }

  /** date + timedelta(days): that many tomorrows. */
  function PlusDays(d: Date, days: nat): (r: Option<Date>)
    requires Valid(d)
    ensures r.Some? ==> Valid(r.value)
    decreases days
  {
    if days == 0 then Some(d)
    else
      match Tomorrow(d)
      case None => None
      case Some(t) => PlusDays(t, days - 1)
  }

  /** Exactly that many days later, and none only past the last date. */
  lemma {:induction false} PlusDaysOrdinal(d: Date, days: nat)
    requires Valid(d)
    ensures PlusDays(d, days).Some? ==> Ordinal(PlusDays(d, days).value) == Ordinal(d) + days
    ensures PlusDays(d, days).None? <==> Ordinal(d) + days > Ordinal(LAST)
    decreases days
  {
    OrderOfOrdinals(d, LAST);
    if days > 0 && d != LAST {
      TomorrowOrdinal(d);
      hide Ordinal;
      PlusDaysOrdinal(Tomorrow(d).value, days - 1);
    }
  }

  lemma TomorrowOrdinal(d: Date)
    requires Valid(d) && d != LAST
    ensures Tomorrow(d).Some? && Ordinal(Tomorrow(d).value) == Ordinal(d) + 1
  {
    YearLength(d.year);
    hide YearStart;
    if d.day == MonthDays(d.year, d.month) && d.month == 12 {
      assert MonthStart(d.year, 13) == MonthStart(d.year, 12) + 31;
    }
  }

  /** The date's month moved on, its day kept or clamped to the month's last. */
  function PlusMonths(d: Date, months: nat): Date
    requires Valid(d)
  {
    var year := d.year + (d.month - 1 + months) / 12;
    var month := (d.month - 1 + months) % 12 + 1;
    Date(year, month, if d.day < MonthDays(year, month) then d.day else MonthDays(year, month))
  }

  /** `add_offset`; None where Python's date raises, past the year 9999. */
  function AddOffset(start: Date, months: nat, days: nat): (r: Option<Date>)
    requires Valid(start)
    ensures r.Some? ==> Valid(r.value)
  {
    var moved := PlusMonths(start, months);
    if moved.year > 9999 then None else PlusDays(moved, days)
  }

  function MonthIndex(d: Date): int { 12 * d.year + d.month - 1 }

  /** Later starts, more months and more days never give an earlier date - through
      clamped month ends and leap years alike - and one within range stays within it.
   */
  lemma OffsetsOrdered(a: Date, b: Date, m: nat, n: nat, d: nat, e: nat)
    requires Valid(a) && Valid(b) && NotAfter(a, b) && m <= n && d <= e
    requires AddOffset(b, n, e).Some?
    ensures AddOffset(a, m, d).Some? && NotAfter(AddOffset(a, m, d).value, AddOffset(b, n, e).value)
  {
    var p, q := PlusMonths(a, m), PlusMonths(b, n);
    PlusDaysOrdinal(p, d);
    PlusDaysOrdinal(q, e);
    OrderOfOrdinals(p, q);
    OrderOfOrdinals(AddOffset(a, m, d).value, AddOffset(b, n, e).value);
  }

  /** Within a month's range, an offset of months lands in exactly the month meant, on the
      same day or on the month's last; and it never lands before the start.
   */
  lemma OffsetLands(start: Date, months: nat, days: nat)
    requires Valid(start) && AddOffset(start, months, days).Some?
    ensures NotAfter(start, AddOffset(start, months, days).value)
    ensures days == 0 ==>
      var r := AddOffset(start, months, 0).value;
      && MonthIndex(r) == MonthIndex(start) + months
      && (r.day == start.day || (r.day == MonthDays(r.year, r.month) && r.day < start.day))
  {
    assert PlusMonths(start, 0) == start;
    OffsetsOrdered(start, start, 0, months, 0, days);
  }
}
