/** The thickness method compiled into live formulas: the columns added to a survey and
    the workbook's "Remaining life" sheet. Evaluated, they give what the calculation
    gives - rate, life and next measurement, location by location.
 */
module Compile {
  import Columns
  import opened Options
  import opened Formulas
  import opened Meaning
  import opened Worksheets
  import opened RemainingLife

  // The formulas, row by row.

  function At_(letters: string, row: nat): Expr { Ref(Cell(letters, row)) }

  const ZERO := Lit(Num(0.0))
  const TWO := Lit(Num(2.0))
  const NOT_LIMITED := "not corrosion-limited"

  function RateFormula(previous: string, current: string, years: string, r: nat): Expr {
    If([Compare(Gt, At_(years, r), ZERO),
        Arith(Div, Arith(Sub, At_(previous, r), At_(current, r)), At_(years, r)),
        Lit(Text(""))])
  }

  function LifeFormula(current: string, required: string, rate: string, r: nat): Expr {
    If([Compare(LtE, At_(current, r), At_(required, r)),
        ZERO,
        If([Compare(LtE, Call(N, [At_(rate, r)]), ZERO),
            Lit(Text(NOT_LIMITED)),
            Arith(Div, Arith(Sub, At_(current, r), At_(required, r)), At_(rate, r))])])
  }

  function Half(life: string, r: nat): Expr { Arith(Div, At_(life, r), TWO) }

  function NextFormula(life: string, rule: string, otherwise: string, r: nat): Expr {
    If([Call(ISNUMBER, [At_(life, r)]),
        If([Call(ISNUMBER, [At_(rule, r)]), Call(MIN, [Half(life, r), At_(rule, r)]), Half(life, r)]),
        If([Call(ISNUMBER, [At_(rule, r)]), At_(rule, r), Lit(Text(otherwise))])])
  }

  function UncappedFormula(life: string, r: nat): Expr {
    If([Call(ISNUMBER, [At_(life, r)]), Half(life, r), Lit(Text(""))])
  }

  /** A value that may be absent, as a cell shows it. */
  function Shown(x: Option<real>, absent: string): Value {
    match x case Some(y) => Num(y) case None => Text(absent)
  }

  /** Which column holds what. */
  datatype Layout = Layout(previous: string, current: string, required: string,
    years: string, rate: string, life: string)

  /** A row with its rate and life formulas over four cells that come to its readings within
      some depth: constants at once, formulas further down.
   */
  ghost predicate Laid(s: Sheet, at: Layout, r: nat, x: Reading, d: nat) {
    && CellValue(s, Cell(at.previous, r), d) == Ok(Num(x.previous))
    && CellValue(s, Cell(at.current, r), d) == Ok(Num(x.current))
    && CellValue(s, Cell(at.required, r), d) == Ok(Num(x.required))
    && CellValue(s, Cell(at.years, r), d) == Ok(Num(x.years))
    && At(s, Cell(at.rate, r)) == Formulaic(Parsed(RateFormula(at.previous, at.current, at.years, r)))
    && At(s, Cell(at.life, r)) == Formulaic(Parsed(LifeFormula(at.current, at.required, at.rate, r)))
  }

  // What each formula means, whatever saved values the sheet carries.

  lemma OneArgument(s: Sheet, a: Expr, x: Value, n: nat)
    requires ExprValue(s, a, n) == Ok(x)
    ensures ExprValues(s, [a], n) == Ok([x])
  {
    assert [a][1..] == [];
    assert [x] + [] == [x];
  }

  function RateShown(x: Reading): Value {
    if x.years > 0.0 then Num((x.previous - x.current) / x.years) else Text("")
  }

  lemma RateMeans(s: Sheet, at: Layout, r: nat, x: Reading, d: nat)
    requires Laid(s, at, r, x, d)
    ensures CellValue(s, Cell(at.rate, r), d + 1) == Ok(RateShown(x))
  {
    hide Invoke, Order, Same, CellValues;
    var e := RateFormula(at.previous, at.current, at.years, r);
    assert ExprValue(s, At_(at.previous, r), d) == Ok(Num(x.previous));
    assert ExprValue(s, At_(at.current, r), d) == Ok(Num(x.current));
    assert ExprValue(s, At_(at.years, r), d) == Ok(Num(x.years));
    assert ExprValue(s, e.args[0], d) == Ok(Bool(x.years > 0.0));
    assert ExprValue(s, Arith(Sub, At_(at.previous, r), At_(at.current, r)), d) == Ok(Num(x.previous - x.current));
    assert x.years > 0.0 ==> ExprValue(s, e.args[1], d) == Ok(RateShown(x));
    assert ExprValue(s, e.args[2], d) == Ok(Text(""));
    assert FormulaValue(s, Parsed(e), d) == ExprValue(s, e, d);
  }

  /** The rate column is the calculation's rate, exactly when the years are not negative. */
  lemma RateAgreesExactly(s: Sheet, at: Layout, r: nat, x: Reading, interval: Option<real>, d: nat)
    requires Laid(s, at, r, x, d)
    ensures CellValue(s, Cell(at.rate, r), d + 1) == Ok(Shown(Assess(x, interval).rate, "")) <==> x.years >= 0.0
  {
    RateMeans(s, at, r, x, d);
  }

  function LifeShown(x: Reading): Value {
    if x.current <= x.required then Num(0.0)
    else if x.years <= 0.0 || (x.previous - x.current) / x.years <= 0.0 then Text(NOT_LIMITED)
    else Num((x.current - x.required) / ((x.previous - x.current) / x.years))
  }

  /** The life formula where the rate cell shows v. */
  lemma LossBranch(s: Sheet, at: Layout, r: nat, x: Reading, v: Value, n: nat)
    requires ExprValue(s, At_(at.current, r), n) == Ok(Num(x.current))
    requires ExprValue(s, At_(at.required, r), n) == Ok(Num(x.required))
    requires ExprValue(s, At_(at.rate, r), n) == Ok(v) && (v.Num? || v == Text(""))
    ensures ExprValue(s, LifeFormula(at.current, at.required, at.rate, r).args[2], n) ==
      Ok(if v.Num? && v.x > 0.0 then Num((x.current - x.required) / v.x) else Text(NOT_LIMITED))
  {
    hide Order, Same, CellValues, CellValue, Flat, OnlyNumbers, Numbers;
    var inner := LifeFormula(at.current, at.required, at.rate, r).args[2];
    var rate := if v.Num? then v.x else 0.0;
    OneArgument(s, At_(at.rate, r), v, n);
    assert ExprValue(s, Call(N, [At_(at.rate, r)]), n) == Ok(Num(rate));
    assert ExprValue(s, inner.args[0], n) == Ok(Bool(rate <= 0.0));
    assert ExprValue(s, Arith(Sub, At_(at.current, r), At_(at.required, r)), n) == Ok(Num(x.current - x.required));
    if rate > 0.0 {
      assert ExprValue(s, inner.args[2], n) == Ok(Num((x.current - x.required) / rate));
    }
  }

  lemma LifeMeans(s: Sheet, at: Layout, r: nat, x: Reading, d: nat)
    requires Laid(s, at, r, x, d)
    ensures CellValue(s, Cell(at.life, r), d + 2) == Ok(LifeShown(x))
  {
    RateMeans(s, at, r, x, d);
    CellDeeper(s, Cell(at.current, r), d, d + 1);
    CellDeeper(s, Cell(at.required, r), d, d + 1);
    LifeOver(s, at, r, x, d + 1);
  }

  /** The life formula's own value, over the readings and the rate at one depth. */
  lemma LifeOver(s: Sheet, at: Layout, r: nat, x: Reading, n: nat)
    requires CellValue(s, Cell(at.current, r), n) == Ok(Num(x.current))
    requires CellValue(s, Cell(at.required, r), n) == Ok(Num(x.required))
    requires CellValue(s, Cell(at.rate, r), n) == Ok(RateShown(x))
    requires At(s, Cell(at.life, r)) == Formulaic(Parsed(LifeFormula(at.current, at.required, at.rate, r)))
    ensures CellValue(s, Cell(at.life, r), n + 1) == Ok(LifeShown(x))
  {
    hide Invoke, Calculate, Order, Same, RateFormula, CellValues;
    var e := LifeFormula(at.current, at.required, at.rate, r);
    assert ExprValue(s, At_(at.current, r), n) == Ok(Num(x.current));
    assert ExprValue(s, At_(at.required, r), n) == Ok(Num(x.required));
    assert ExprValue(s, At_(at.rate, r), n) == Ok(RateShown(x));
    LossBranch(s, at, r, x, RateShown(x), n);
    assert ExprValue(s, e.args[0], n) == Ok(Bool(x.current <= x.required));
    assert ExprValue(s, e.args[1], n) == Ok(Num(0.0));
    assert FormulaValue(s, Parsed(e), n) == ExprValue(s, e, n);
  }

  /** The life column is the calculation's life, exactly when the years are not negative
      or no life would be computed from them.
   */
  lemma LifeAgreesExactly(s: Sheet, at: Layout, r: nat, x: Reading, interval: Option<real>, d: nat)
    requires Laid(s, at, r, x, d)
    ensures CellValue(s, Cell(at.life, r), d + 2) == Ok(Shown(Assess(x, interval).life, NOT_LIMITED)) <==>
      x.years >= 0.0 || x.current <= x.required || x.previous >= x.current
  {
    LifeMeans(s, at, r, x, d);
    if x.years < 0.0 {
      var rate := (x.previous - x.current) / x.years;
      assert rate * x.years == x.previous - x.current;
      assert rate <= 0.0 <==> x.previous >= x.current;
    }
  }

  function Capped(life: Value, rule: Option<real>, otherwise: string): Value {
    if life.Num? then (if rule.Some? then Num(Lesser(life.x / 2.0, rule.value)) else Num(life.x / 2.0))
    else Shown(rule, otherwise)
  }

  function Rule(rule: Option<real>): Content {
    match rule case Some(y) => Plain(Num(y)) case None => Plain(Blank)
  }

  /** A next-measurement cell capped by the rule cell beside it. */
  ghost predicate CappedCell(
    s: Sheet, life: string, rule: string, next: string, otherwise: string, r: nat, cap: Option<real>)
  {
    && At(s, Cell(rule, r)) == Rule(cap) && !IsError(Text(otherwise))
    && At(s, Cell(next, r)) == Formulaic(Parsed(NextFormula(life, rule, otherwise, r)))
  }

  lemma NextMeans(
    s: Sheet, life: string, rule: string, next: string, otherwise: string, r: nat, v: Value, cap: Option<real>, n: nat)
    requires CellValue(s, Cell(life, r), n) == Ok(v) && (v.Num? || v.Text?)
    requires CappedCell(s, life, rule, next, otherwise, r, cap)
    ensures CellValue(s, Cell(next, r), n + 1) == Ok(Capped(v, cap, otherwise))
  {
    hide Order, Same, CellValues, Flat, OnlyNumbers, Numbers;
    var e := NextFormula(life, rule, otherwise, r);
    var w := Rule(cap).v;
    assert ExprValue(s, At_(life, r), n) == Ok(v);
    assert ExprValue(s, At_(rule, r), n) == Ok(w);
    OneArgument(s, At_(life, r), v, n);
    OneArgument(s, At_(rule, r), w, n);
    assert ExprValue(s, e.args[0], n) == Ok(Bool(v.Num?));
    assert ExprValue(s, Call(ISNUMBER, [At_(rule, r)]), n) == Ok(Bool(cap.Some?));
    if v.Num? {
      var half := Num(v.x / 2.0);
      assert ExprValue(s, Half(life, r), n) == Ok(half);
      MinOfTwo(s, Half(life, r), At_(rule, r), half, w, n);
      assert ExprValue(s, e.args[1], n) == Ok(Capped(v, cap, otherwise));
    } else {
      assert ExprValue(s, e.args[2], n) == Ok(Capped(v, cap, otherwise));
    }
    assert FormulaValue(s, Parsed(e), n) == ExprValue(s, e, n);
  }

  lemma MinOfTwo(s: Sheet, a: Expr, b: Expr, x: Value, y: Value, n: nat)
    requires ExprValue(s, a, n) == Ok(x) && ExprValue(s, b, n) == Ok(y) && x.Num?
    ensures y.Num? ==> ExprValue(s, Call(MIN, [a, b]), n) == Ok(Num(Lesser(x.x, y.x)))
  {
    if y.Num? {
      assert [a, b][1..] == [b] && [x, y][1..] == [y];
      OneArgument(s, b, y, n);
      assert ExprValues(s, [a, b], n) == Ok([x] + [y]);
      assert Flat([y]) == [y];
      assert Flat([x, y]) == [x, y];
      assert OnlyNumbers([y]) == [y.x];
      assert OnlyNumbers([x, y]) == [x.x, y.x];
      assert Least([x.x, y.x]) == Lesser(x.x, y.x);
    }
  }

  /** The capped next-measurement cell is the calculation's, exactly when the interval is
      absent or positive, or one the readings never bring into play: negative with wall to
      spare, 0 at or below the required thickness or where there is no loss to go by.
   */
  lemma NextAgreesExactly(
    s: Sheet, at: Layout, rule: string, next: string, otherwise: string, r: nat, x: Reading, cap: Option<real>, d: nat)
    requires Laid(s, at, r, x, d) && x.years >= 0.0 && CappedCell(s, at.life, rule, next, otherwise, r, cap)
    ensures CellValue(s, Cell(next, r), d + 3) == Ok(Shown(Assess(x, cap).next, otherwise)) <==>
      if x.current <= x.required then cap.None? || cap.value >= 0.0
      else x.years == 0.0 || x.previous <= x.current || cap.None? || cap.value != 0.0
  {
    LifeMeans(s, at, r, x, d);
    NextMeans(s, at.life, rule, next, otherwise, r, LifeShown(x), cap, d + 2);
    hide CellValue, Laid, CappedCell;
    if x.current > x.required && x.years > 0.0 { RateSign(x); }
  }

  /** Wall loss and its life, where there is time to measure it over. */
  lemma RateSign(x: Reading)
    requires x.current > x.required && x.years > 0.0
    ensures (x.previous - x.current) / x.years <= 0.0 <==> x.previous <= x.current
    ensures x.previous > x.current ==> (x.current - x.required) / ((x.previous - x.current) / x.years) > 0.0
  {
    var rate := (x.previous - x.current) / x.years;
    assert rate * x.years == x.previous - x.current;
  }

  lemma UncappedMeans(s: Sheet, life: string, next: string, r: nat, v: Value, n: nat)
    requires CellValue(s, Cell(life, r), n) == Ok(v) && (v.Num? || v.Text?)
    requires At(s, Cell(next, r)) == Formulaic(Parsed(UncappedFormula(life, r)))
    ensures CellValue(s, Cell(next, r), n + 1) == Ok(Capped(v, None, ""))
  {
    hide Order, Same, CellValues, Flat, OnlyNumbers, Numbers;
    var e := UncappedFormula(life, r);
    assert ExprValue(s, At_(life, r), n) == Ok(v);
    OneArgument(s, At_(life, r), v, n);
    assert ExprValue(s, e.args[0], n) == Ok(Bool(v.Num?));
    if v.Num? { assert ExprValue(s, Half(life, r), n) == Ok(Num(v.x / 2.0)); }
    assert ExprValue(s, e.args[2], n) == Ok(Text(""));
    assert FormulaValue(s, Parsed(e), n) == ExprValue(s, e, n);
  }

  ghost predicate MeansTo(s: Sheet, c: Cell, v: Value) {
    Settles(s, c) && Means(s, c) == Ok(v)
  }

  /** A laid row with a capped next column, evaluated: the calculation's rate, life and
      next, whichever verdict it reaches.
   */
  lemma RowMeans(
    s: Sheet, at: Layout, rule: string, next: string, otherwise: string, r: nat, x: Reading, cap: Option<real>, d: nat)
    requires Laid(s, at, r, x, d) && x.years >= 0.0 && (cap.None? || cap.value > 0.0)
    requires CappedCell(s, at.life, rule, next, otherwise, r, cap)
    ensures MeansTo(s, Cell(at.rate, r), Shown(Assess(x, cap).rate, ""))
    ensures MeansTo(s, Cell(at.life, r), Shown(Assess(x, cap).life, NOT_LIMITED))
    ensures MeansTo(s, Cell(next, r), Shown(Assess(x, cap).next, otherwise))
  {
    RateAndLifeMean(s, at, r, x, cap, d);
    NextAgreesExactly(s, at, rule, next, otherwise, r, x, cap, d);
    MeansAt(s, Cell(next, r), d + 3);
  }

  lemma UncappedRowMeans(s: Sheet, at: Layout, next: string, r: nat, x: Reading, d: nat)
    requires Laid(s, at, r, x, d) && x.years >= 0.0
    requires At(s, Cell(next, r)) == Formulaic(Parsed(UncappedFormula(at.life, r)))
    ensures MeansTo(s, Cell(at.rate, r), Shown(Assess(x, None).rate, ""))
    ensures MeansTo(s, Cell(at.life, r), Shown(Assess(x, None).life, NOT_LIMITED))
    ensures MeansTo(s, Cell(next, r), Shown(Assess(x, None).next, ""))
  {
    RateAndLifeMean(s, at, r, x, None, d);
    LifeMeans(s, at, r, x, d);
    UncappedMeans(s, at.life, next, r, LifeShown(x), d + 2);
    MeansAt(s, Cell(next, r), d + 3);
  }

  lemma RateAndLifeMean(s: Sheet, at: Layout, r: nat, x: Reading, cap: Option<real>, d: nat)
    requires Laid(s, at, r, x, d) && x.years >= 0.0
    ensures MeansTo(s, Cell(at.rate, r), Shown(Assess(x, cap).rate, ""))
    ensures MeansTo(s, Cell(at.life, r), Shown(Assess(x, cap).life, NOT_LIMITED))
  {
    RateAgreesExactly(s, at, r, x, cap, d);
    MeansAt(s, Cell(at.rate, r), d + 1);
    LifeAgreesExactly(s, at, r, x, cap, d);
    MeansAt(s, Cell(at.life, r), d + 2);
  }
}
