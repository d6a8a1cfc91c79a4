/** One instrument placed in time, its as-found error against its tolerance, and the
    register's overall disposition.
 */
module Calibration {
  import opened Options
  import opened Dates

  /** A quantity as the register gives it: blank, not readable, or a value in a unit. */
  datatype Quantity = Unstated | Unreadable | Stated(value: real, kind: string)

  datatype Instrument = Instrument(
    lastCal: Option<Date>, due: Option<Date>, interval: Option<(nat, nat)>,
    tolerance: Quantity, asFound: Quantity, unreadableDates: bool)
  {
    ghost predicate Valid() {
      (lastCal.Some? ==> Dates.Valid(lastCal.value)) && (due.Some? ==> Dates.Valid(due.value))
    }
  }

  datatype Settings = Settings(dueSoonDays: int, graceDays: int)

  datatype Status = VALID | DUE_SOON | PAST_DUE_GRACE | OVERDUE | NO_DATA | CAL_AFTER_READING
  datatype Tolerance = NOT_RECORDED | IN_TOLERANCE | OUT_OF_TOLERANCE | NO_TOLERANCE | NOT_COMPARABLE | UNREADABLE

  function Between(a: Date, b: Date): int
    requires Dates.Valid(a) && Dates.Valid(b)
  {
    Ordinal(b) - Ordinal(a)
  }

  function Abs(n: int): int { if n < 0 then -n else n }
  function AbsReal(x: real): real { if x < 0.0 then -x else x }

  /** The date the interval gives, if there is one to compute. */
  function Computed(i: Instrument): (r: Option<Date>)
    requires i.Valid()
    ensures r.Some? ==> Dates.Valid(r.value)
  {
    if i.lastCal.Some? && i.interval.Some?
    then AddOffset(i.lastCal.value, i.interval.value.0, i.interval.value.1)
    else None
  }

  /** The interval runs past the calendar: the computation raises. */
  predicate Overflows(i: Instrument)
    requires i.Valid()
  {
    i.lastCal.Some? && i.interval.Some? && Computed(i).None?
  }

  /** The due date used: when the stated and the computed one are more than a day apart,
      the earlier; else the stated one, or the computed one in its place.
   */
  function DueDate(i: Instrument): (r: Option<Date>)
    requires i.Valid()
    ensures r.Some? ==> Dates.Valid(r.value)
  {
    var computed := Computed(i);
    if i.due.Some? && computed.Some? && Abs(Between(computed.value, i.due.value)) > 1 then
      (if NotAfter(i.due.value, computed.value) then i.due else computed)
    else if i.due.Some? then i.due else computed
  }

  /** Never more than one day after either date it could have been. */
  lemma DueDefensible(i: Instrument)
    requires i.Valid() && DueDate(i).Some?
    ensures DueDate(i) == i.due || DueDate(i) == Computed(i)
    ensures i.due.Some? ==> Between(i.due.value, DueDate(i).value) <= 1
    ensures Computed(i).Some? ==> Between(Computed(i).value, DueDate(i).value) <= 1
  {
    if i.due.Some? && Computed(i).Some? { OrderOfOrdinals(i.due.value, Computed(i).value); }
  }

  function NonNegative(n: int): int { if n < 0 then 0 else n }

  /** `assess`'s reassignments of the status, in the order made; none where it raises. */
  method StatusOn(i: Instrument, when_: Date, settings: Settings) returns (r: Option<Status>)
    requires i.Valid() && Dates.Valid(when_)
    ensures r == if Overflows(i) then None else Some(StatusAt(i, when_, settings))
  {
    if Overflows(i) { return None; }
    var status := NO_DATA;
    var due := DueDate(i);
    if due.Some? {
      var days := Between(when_, due.value);
      var grace := NonNegative(settings.graceDays);
      if days < -grace { status := OVERDUE; }
      else if days < 0 { status := PAST_DUE_GRACE; }
      else if days <= NonNegative(settings.dueSoonDays) { status := DUE_SOON; }
      else { status := VALID; }
    }
    if i.lastCal.Some? {
      OrderOfOrdinals(i.lastCal.value, when_);
      if !NotAfter(i.lastCal.value, when_) { status := CAL_AFTER_READING; }
    }
    return Some(status);
  }

  /** The status by where the day falls: before the calibration, then counted from the due date. */
  function StatusAt(i: Instrument, when_: Date, settings: Settings): Status
    requires i.Valid() && Dates.Valid(when_)
  {
    if i.lastCal.Some? && Ordinal(when_) < Ordinal(i.lastCal.value) then CAL_AFTER_READING
    else if DueDate(i).None? then NO_DATA
    else
      var due := Ordinal(DueDate(i).value);
      if Ordinal(when_) < due - NonNegative(settings.dueSoonDays) then VALID
      else if Ordinal(when_) <= due then DUE_SOON
      else if Ordinal(when_) <= due + NonNegative(settings.graceDays) then PAST_DUE_GRACE
      else OVERDUE
  }

  function Progress(s: Status): nat {
    match s
    case VALID => 0 case DUE_SOON => 1 case PAST_DUE_GRACE => 2 case OVERDUE => 3
    case NO_DATA => 4 case CAL_AFTER_READING => 5
  }

  /** From the last calibration on, time only moves a status forward: VALID, DUE SOON, PAST
      DUE, OVERDUE. An instrument that cannot be placed stays so.
   */
  lemma StatusOnlyWorsens(i: Instrument, early: Date, late: Date, settings: Settings)
    requires i.Valid() && Dates.Valid(early) && Dates.Valid(late) && NotAfter(early, late)
    requires i.lastCal.Some? ==> NotAfter(i.lastCal.value, early)
    ensures Progress(StatusAt(i, early, settings)) <= Progress(StatusAt(i, late, settings)) <= 4
    ensures StatusAt(i, early, settings) == NO_DATA <==> StatusAt(i, late, settings) == NO_DATA
  {
    OrderOfOrdinals(early, late);
    if i.lastCal.Some? { OrderOfOrdinals(i.lastCal.value, early); }
  }

  /** The as-found result: text that could not be read on either side decides first. */
  function ToleranceOf(i: Instrument): Tolerance {
    if i.asFound.Unreadable? || i.tolerance.Unreadable? then UNREADABLE
    else if i.asFound.Unstated? then NOT_RECORDED
    else if i.tolerance.Unstated? then NO_TOLERANCE
    else if i.asFound.kind != i.tolerance.kind then NOT_COMPARABLE
    else if AbsReal(i.asFound.value) > AbsReal(i.tolerance.value) + 0.000000001 then OUT_OF_TOLERANCE
    else IN_TOLERANCE
  }

  datatype Row = Row(status: Status, tolerance: Tolerance, unreadableDates: bool)

  function Assess(i: Instrument, when_: Date, settings: Settings): Row
    requires i.Valid() && Dates.Valid(when_)
  {
    Row(StatusAt(i, when_, settings), ToleranceOf(i), i.unreadableDates)
  }

  // ---- The register's disposition ------------------------------------------

  datatype Disposition =
    ALL_CURRENT | CALIBRATION_DUE | CHECK_INCOMPLETE | OUT_OF_CALIBRATION | RESULTS_OUT_OF_TOLERANCE

  predicate Unproven(t: Tolerance) {
    t in {NO_TOLERANCE, NOT_COMPARABLE, UNREADABLE}
  }

  /** Not enough to judge the row by. */
  predicate Incomplete(r: Row) {
    r.status in {NO_DATA, CAL_AFTER_READING} || Unproven(r.tolerance) || r.unreadableDates
  }

  /** The precedence in `check_calibration`. */
  function DispositionOf(rows: seq<Row>, skipped: nat): Disposition {
    if exists r :: r in rows && r.tolerance == OUT_OF_TOLERANCE then RESULTS_OUT_OF_TOLERANCE
    else if exists r :: r in rows && r.status == OVERDUE then OUT_OF_CALIBRATION
    else if skipped > 0 || exists r :: r in rows && Incomplete(r)
    then CHECK_INCOMPLETE
    else if exists r :: r in rows && r.status in {DUE_SOON, PAST_DUE_GRACE} then CALIBRATION_DUE
    else ALL_CURRENT
  }

  function Severity(d: Disposition): nat {
    match d
    case ALL_CURRENT => 0 case CALIBRATION_DUE => 1 case CHECK_INCOMPLETE => 2
    case OUT_OF_CALIBRATION => 3 case RESULTS_OUT_OF_TOLERANCE => 4
  }

  /** How bad one row is, taken alone. */
  function RowSeverity(r: Row): nat {
    if r.tolerance == OUT_OF_TOLERANCE then 4
    else if r.status == OVERDUE then 3
    else if Incomplete(r) then 2
    else if r.status in {DUE_SOON, PAST_DUE_GRACE} then 1
    else 0
  }

  /** The disposition is the worst row's, or CHECK INCOMPLETE when a row was skipped and
      none is worse.
   */
  lemma DispositionIsWorst(rows: seq<Row>, skipped: nat)
    ensures var d := Severity(DispositionOf(rows, skipped));
      && (forall r :: r in rows ==> RowSeverity(r) <= d)
      && (skipped > 0 ==> d >= 2)
      && (d == 0 || (d == 2 && skipped > 0) || exists r :: r in rows && RowSeverity(r) == d)
  {
  }

  /** What is answered: with no instrument read there is no disposition, not an all-clear. */
  function Answer(rows: seq<Row>, skipped: nat): Option<Disposition> {
    if rows == [] then None else Some(DispositionOf(rows, skipped))
  }

  /** Nothing against the row: in date, its dates readable, in tolerance or not recorded. */
  predicate Clear(r: Row) {
    r.status == VALID && !r.unreadableDates && r.tolerance in {NOT_RECORDED, IN_TOLERANCE}
  }

  /** ALL CURRENT, exactly when something was read, nothing was skipped and nothing is against
      any row.
   */
  lemma AllCurrentExactly(rows: seq<Row>, skipped: nat)
    ensures Answer(rows, skipped) == Some(ALL_CURRENT) <==>
      rows != [] && skipped == 0 && forall r :: r in rows ==> Clear(r)
  {
    if DispositionOf(rows, skipped) == ALL_CURRENT {
      forall r | r in rows ensures Clear(r) {
        DispositionIsWorst(rows, skipped);
      }
    }
  }

  /** More rows, or more skipped, never improve it. */
  lemma MoreNeverImproves(rows: seq<Row>, more: seq<Row>, skipped: nat, skippedMore: nat)
    requires (forall r :: r in rows ==> r in more) && skipped <= skippedMore
    ensures Severity(DispositionOf(rows, skipped)) <= Severity(DispositionOf(more, skippedMore))
  {
    DispositionIsWorst(rows, skipped);
    DispositionIsWorst(more, skippedMore);
  }

  /** Nor does time, from the instruments' last calibrations on. */
  lemma TimeNeverImproves(instruments: seq<Instrument>, skipped: nat, early: Date, late: Date, settings: Settings)
    requires Dates.Valid(early) && Dates.Valid(late) && NotAfter(early, late)
    requires forall i :: i in instruments ==> i.Valid() && (i.lastCal.Some? ==> NotAfter(i.lastCal.value, early))
    ensures Severity(DispositionOf(AssessAll(instruments, early, settings), skipped)) <=
            Severity(DispositionOf(AssessAll(instruments, late, settings), skipped))
  {
    var before, after := AssessAll(instruments, early, settings), AssessAll(instruments, late, settings);
    forall k | 0 <= k < |instruments| ensures RowSeverity(before[k]) <= RowSeverity(after[k]) {
      StatusOnlyWorsens(instruments[k], early, late, settings);
    }
  }

  function AssessAll(instruments: seq<Instrument>, when_: Date, settings: Settings): (rows: seq<Row>)
    requires Dates.Valid(when_) && forall i :: i in instruments ==> i.Valid()
    ensures |rows| == |instruments|
  {
    seq(|instruments|, k requires 0 <= k < |instruments| => Assess(instruments[k], when_, settings))
  }
}
