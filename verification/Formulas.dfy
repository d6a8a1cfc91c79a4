/** Cell values and formulas as the evaluator sees them, and what each operator and
    worksheet function does to values. Numbers are reals. A formula is its syntax
    tree: splitting its text into one is not modelled.
 */
module Formulas {
  import opened Columns
  import opened Options

  datatype Cell = Cell(letters: string, row: nat)

  /** What Python holds: None, a number, True or False, a string, a list (a range's values). */
  datatype Value = Blank | Num(x: real) | Bool(b: bool) | Text(s: string) | Many(items: seq<Value>)

  /** How a computation ends. Raise is an exception `_evaluate` turns into its code;
      Crash one it lets through (an argument that is not there); Unsettled is only
      ever the memo-free meaning's, of a cell that needs more depth than given.
   */
  datatype Result<+T> = Ok(value: T) | Raise(code: string) | Crash | Unsettled {
    predicate IsFailure() { !Ok? }
    function PropagateFailure<U>(): Result<U>
      requires IsFailure()
    {
      match this
      case Raise(code) => Raise(code)
      case Crash => Crash
      case Unsettled => Unsettled
    }
    function Extract(): T
      requires !IsFailure()
    {
      value
    }
  }

  /** What the evaluator borrows from Python: float(), math.sqrt and round. */
  datatype Maths = Maths(read: string -> Option<real>, root: real -> real, round: (real, int) -> real)

  datatype ArithOp = Add | Sub | Mul | Div
  datatype CompareOp = Eq | NotEq | Lt | LtE | Gt | GtE
  datatype Function =
    | MIN | MAX | ABS | ROUND | N | ISNUMBER | SUM | AVERAGE | AND | OR | NOT | SQRT

  datatype Expr =
    | Lit(v: Value)
    | Sign(minus: bool, operand: Expr)
    | Arith(aop: ArithOp, left: Expr, right: Expr)
    | Compare(cop: CompareOp, left: Expr, right: Expr)
    | Ref(cell: Cell)
    | Area(from: Cell, to: Cell)
    | If(args: seq<Expr>)
    | Call(fn: Function, args: seq<Expr>)
    | UnknownName
    | Other

  datatype Formula = Blocked | Malformed | Parsed(e: Expr)

  predicate IsError(v: Value) {
    v.Text? && |v.s| > 0 && v.s[0] == '#'
  }

  predicate Numeric(v: Value) {
    v.Num? || v.Bool?
  }

  function AsReal(v: Value): real
    requires Numeric(v)
  {
    match v case Num(x) => x case Bool(b) => if b then 1.0 else 0.0
  }

  /** `_number`: a value where arithmetic wants a number. */
  function ToNumber(v: Value, maths: Maths): Result<real> {
    match v
    case Blank => Ok(0.0)
    case Num(x) => Ok(x)
    case Bool(b) => Ok(if b then 1.0 else 0.0)
    case Text(s) =>
      if s == "" then Ok(0.0)
      else if s[0] == '#' then Raise(s)
      else (match maths.read(s) case Some(x) => Ok(x) case None => Raise("#VALUE!"))
    case Many(_) => Raise("#VALUE!")
  }

  function Numbers(vs: seq<Value>, maths: Maths): (r: Result<seq<real>>)
    ensures !r.Unsettled?
  {
    if vs == [] then Ok([])
    else
      var x :- ToNumber(vs[0], maths);
      var rest :- Numbers(vs[1..], maths);
      Ok([x] + rest)
  }

  /** `_flat`: nested lists laid end to end. */
  function Flat(vs: seq<Value>): seq<Value> {
    if vs == [] then []
    else (if vs[0].Many? then Flat(vs[0].items) else [vs[0]]) + Flat(vs[1..])
  }

  function OnlyNumbers(vs: seq<Value>): seq<real> {
    if vs == [] then []
    else (if vs[0].Num? then [vs[0].x] else []) + OnlyNumbers(vs[1..])
  }

  function Sum(xs: seq<real>): real {
    if xs == [] then 0.0 else xs[0] + Sum(xs[1..])
  }

  function Least(xs: seq<real>): real
    requires xs != []
  {
    if |xs| == 1 then xs[0] else var m := Least(xs[1..]); if m < xs[0] then m else xs[0]
  }

  function Greatest(xs: seq<real>): real
    requires xs != []
  {
    if |xs| == 1 then xs[0] else var m := Greatest(xs[1..]); if m > xs[0] then m else xs[0]
  }

  /** int() of a real: toward zero. */
  function Truncate(x: real): int {
    if x >= 0.0 then x.Floor else -((-x).Floor)
  }

  function Calculate(op: ArithOp, a: real, b: real): Result<Value> {
    match op
    case Add => Ok(Num(a + b))
    case Sub => Ok(Num(a - b))
    case Mul => Ok(Num(a * b))
    case Div => if b == 0.0 then Raise("#DIV/0!") else Ok(Num(a / b))
  }

  /** Python's ==. */
  predicate Same(a: Value, b: Value)
    decreases a
  {
    match (a, b)
    case (Blank, Blank) => true
    case (Text(s), Text(t)) => s == t
    case (Many(x), Many(y)) => |x| == |y| && forall i :: 0 <= i < |x| ==> Same(x[i], y[i])
    case _ => Numeric(a) && Numeric(b) && AsReal(a) == AsReal(b)
  }

  predicate TextBelow(s: string, t: string) {
    t != "" && (s == "" || s[0] < t[0] || (s[0] == t[0] && TextBelow(s[1..], t[1..])))
  }

  predicate Ranks(op: CompareOp, below: bool, same: bool) {
    match op
    case Eq => same
    case NotEq => !same
    case Lt => below
    case LtE => below || same
    case Gt => !below && !same
    case GtE => !below
  }

  /** Python's <, <=, > and >=; None where it raises TypeError. */
  function Order(op: CompareOp, a: Value, b: Value): Option<bool>
    decreases a
  {
    match (a, b)
    case (Text(s), Text(t)) => Some(Ranks(op, TextBelow(s, t), s == t))
    case (Many(x), Many(y)) => OrderLists(op, x, y)
    case _ =>
      if Numeric(a) && Numeric(b)
      then Some(Ranks(op, AsReal(a) < AsReal(b), AsReal(a) == AsReal(b)))
      else None
  }

  function OrderLists(op: CompareOp, x: seq<Value>, y: seq<Value>): Option<bool>
    decreases x
  {
    if x == [] || y == [] then Some(Ranks(op, |x| < |y|, |x| == |y|))
    else if Same(x[0], y[0]) then OrderLists(op, x[1..], y[1..])
    else Order(op, x[0], y[0])
  }

  /** A comparison: as numbers when either side is one, else as Python compares them. */
  function Judge(op: CompareOp, a: Value, b: Value, maths: Maths): Result<Value> {
    if Numeric(a) || Numeric(b) then
      var x :- ToNumber(a, maths);
      var y :- ToNumber(b, maths);
      Ok(Bool(Ranks(op, x < y, x == y)))
    else if op.Eq? || op.NotEq? then Ok(Bool(Same(a, b) == op.Eq?))
    else
      match Order(op, a, b)
      case Some(holds) => Ok(Bool(holds))
      case None => Raise("#VALUE!")
  }

  /** Whether an IF's test takes the first branch. An error value is handled before. */
  function Truth(v: Value, maths: Maths): Result<bool> {
    var x :- ToNumber(v, maths);
    Ok(x != 0.0)
  }

  /** A worksheet function on its arguments' values. */
  function Invoke(fn: Function, args: seq<Value>, maths: Maths): (r: Result<Value>)
    ensures !r.Unsettled?
  {
    match fn
    case N => if args == [] then Crash else Ok(if args[0].Num? then args[0] else Num(0.0))
    case ISNUMBER => if args == [] then Crash else Ok(Bool(args[0].Num?))
    case AND => var xs :- Numbers(Flat(args), maths); Ok(Bool(0.0 !in xs))
    case OR => var xs :- Numbers(Flat(args), maths); Ok(Bool(exists i :: 0 <= i < |xs| && xs[i] != 0.0))
    case NOT => if args == [] then Crash else var x :- ToNumber(args[0], maths); Ok(Bool(x == 0.0))
    case ROUND =>
      if args == [] then Crash else
      var x :- ToNumber(args[0], maths);
      if |args| == 1 then Ok(Num(maths.round(x, 0)))
      else var d :- ToNumber(args[1], maths); Ok(Num(maths.round(x, Truncate(d))))
    case ABS => if args == [] then Crash else var x :- ToNumber(args[0], maths); Ok(Num(if x < 0.0 then -x else x))
    case SQRT =>
      if args == [] then Crash else
      var x :- ToNumber(args[0], maths);
      if x < 0.0 then Raise("#VALUE!") else Ok(Num(maths.root(x)))
    case SUM => Ok(Num(Sum(OnlyNumbers(Flat(args)))))
    case AVERAGE =>
      var xs := OnlyNumbers(Flat(args));
      Ok(if xs == [] then Text("#DIV/0!") else Num(Sum(xs) / (|xs| as real)))
    case MIN => var xs := OnlyNumbers(Flat(args)); Ok(Num(if xs == [] then 0.0 else Least(xs)))
    case MAX => var xs := OnlyNumbers(Flat(args)); Ok(Num(if xs == [] then 0.0 else Greatest(xs)))
  }

  function Column(c: Cell): nat {
    var n := Columns.Number(c.letters);
    if n < 0 then 0 else n
  }

  function Min(a: nat, b: nat): nat { if a < b then a else b }
  function Max(a: nat, b: nat): nat { if a < b then b else a }

  function RowCells(left: nat, right: nat, row: nat): seq<Cell>
    decreases right + 1 - left
  {
    if left > right then [] else [Cell(Letters(left), row)] + RowCells(left + 1, right, row)
  }

  function BlockCells(left: nat, right: nat, top: nat, bottom: nat): seq<Cell>
    decreases bottom + 1 - top
  {
    if top > bottom then [] else RowCells(left, right, top) + BlockCells(left, right, top + 1, bottom)
  }

  /** `_Grid.span`: the cells of a range, row by row, whichever corners name it. */
  function AreaCells(from: Cell, to: Cell): seq<Cell> {
    var (a, b) := (Column(from), Column(to));
    BlockCells(Min(a, b), Max(a, b), Min(from.row, to.row), Max(from.row, to.row))
  }

  // What the functions over ranges and the comparisons come to, said without their loops.

  lemma {:induction false} LeastAndGreatest(xs: seq<real>)
    requires xs != []
    ensures Least(xs) in xs && Greatest(xs) in xs
    ensures forall x :: x in xs ==> Least(xs) <= x <= Greatest(xs)
  {
    if |xs| > 1 {
      LeastAndGreatest(xs[1..]);
      assert forall x :: x in xs <==> x == xs[0] || x in xs[1..];
    }
  }

  lemma {:induction false} OnlyNumbersExactly(vs: seq<Value>, x: real)
    ensures x in OnlyNumbers(vs) <==> Num(x) in vs
  {
    if vs != [] { OnlyNumbersExactly(vs[1..], x); }
  }

  /** MIN and MAX are of the numbers found in their arguments, ranges laid flat: text, truth
      values and blanks count for nothing, and with no number there both are 0.
   */
  lemma MinMaxMean(args: seq<Value>, maths: Maths)
    ensures Invoke(MIN, args, maths).Ok? && Invoke(MAX, args, maths).Ok?
    ensures var (low, high, vs) := (Invoke(MIN, args, maths).value, Invoke(MAX, args, maths).value, Flat(args));
      if exists v :: v in vs && v.Num? then
        low in vs && high in vs && low.Num? && high.Num? && forall v :: v in vs && v.Num? ==> low.x <= v.x <= high.x
      else low == high == Num(0.0)
  {
    var vs := Flat(args);
    var xs := OnlyNumbers(vs);
    forall x: real ensures x in xs <==> Num(x) in vs { OnlyNumbersExactly(vs, x); }
    assert forall v :: v in vs && v.Num? ==> v.x in xs;
    if xs != [] {
      LeastAndGreatest(xs);
      assert Num(xs[0]) in vs by { assert xs[0] in xs; }
    }
  }

  lemma {:induction false} SumBounds(xs: seq<real>, low: real, high: real)
    requires forall x :: x in xs ==> low <= x <= high
    ensures low * (|xs| as real) <= Sum(xs) <= high * (|xs| as real)
  {
    if xs != [] {
      var rest := xs[1..];
      var n := |rest| as real;
      assert forall x :: x in rest ==> x in xs;
      SumBounds(rest, low, high);
      assert xs[0] in xs && |xs| as real == n + 1.0;
    }
  }

  /** AVERAGE is the SUM shared over the numbers counted, and lies between MIN and MAX. */
  lemma AverageMeans(args: seq<Value>, maths: Maths) returns (low: real, mean: real, high: real, sum: real)
    requires OnlyNumbers(Flat(args)) != []
    ensures Invoke(MIN, args, maths) == Ok(Num(low)) && Invoke(MAX, args, maths) == Ok(Num(high))
    ensures Invoke(AVERAGE, args, maths) == Ok(Num(mean)) && Invoke(SUM, args, maths) == Ok(Num(sum))
    ensures low <= mean <= high && mean * (|OnlyNumbers(Flat(args))| as real) == sum
  {
    hide Flat, OnlyNumbers, Least, Greatest, Sum;
    var xs := OnlyNumbers(Flat(args));
    low, high, sum, mean := Least(xs), Greatest(xs), Sum(xs), Sum(xs) / (|xs| as real);
    MeanBetween(xs);
  }

  lemma MeanBetween(xs: seq<real>)
    requires xs != []
    ensures Least(xs) <= Sum(xs) / (|xs| as real) <= Greatest(xs)
    ensures (Sum(xs) / (|xs| as real)) * (|xs| as real) == Sum(xs)
  {
    hide Least, Greatest, Sum;
    LeastAndGreatest(xs);
    SumBounds(xs, Least(xs), Greatest(xs));
    Shared(Sum(xs), |xs| as real, Least(xs), Greatest(xs));
  }

  lemma Shared(sum: real, n: real, low: real, high: real)
    requires n > 0.0 && low * n <= sum <= high * n
    ensures low <= sum / n <= high && (sum / n) * n == sum
  {
    assert (sum / n) * n == sum;
  }

  /** Texts are in one total order: one of below, the same and above. */
  lemma {:induction false} TextTrichotomy(s: string, t: string)
    ensures TextBelow(s, t) ==> s != t && !TextBelow(t, s)
    ensures s == t || TextBelow(s, t) || TextBelow(t, s)
  {
    if s != "" && t != "" && s[0] == t[0] {
      TextTrichotomy(s[1..], t[1..]);
      assert s == [s[0]] + s[1..] && t == [t[0]] + t[1..];
    }
  }

  lemma {:induction false} SameMirrors(a: Value, b: Value)
    ensures Same(a, b) == Same(b, a)
  {
    if a.Many? && b.Many? && |a.items| == |b.items| {
      forall i | 0 <= i < |a.items| ensures Same(a.items[i], b.items[i]) == Same(b.items[i], a.items[i]) {
        SameMirrors(a.items[i], b.items[i]);
      }
    }
  }

  function Mirrored(op: CompareOp): CompareOp {
    match op case Lt => Gt case LtE => GtE case Gt => Lt case GtE => LtE case _ => op
  }

  lemma {:induction false} OrderMirrors(op: CompareOp, a: Value, b: Value)
    requires !op.Eq? && !op.NotEq?
    ensures Order(op, a, b) == Order(Mirrored(op), b, a)
    decreases a
  {
    if a.Text? && b.Text? { TextTrichotomy(a.s, b.s); }
    if a.Many? && b.Many? { ListsMirror(op, a.items, b.items); }
  }

  lemma {:induction false} ListsMirror(op: CompareOp, x: seq<Value>, y: seq<Value>)
    requires !op.Eq? && !op.NotEq?
    ensures OrderLists(op, x, y) == OrderLists(Mirrored(op), y, x)
    decreases x
  {
    if x != [] && y != [] {
      SameMirrors(x[0], y[0]);
      if Same(x[0], y[0]) { ListsMirror(op, x[1..], y[1..]); } else { OrderMirrors(op, x[0], y[0]); }
    }
  }

  /** Whatever is compared - numbers, texts, ranges or one with another - a comparison turned
      round is its mirror image, with the same errors.
   */
  lemma JudgeMirrors(op: CompareOp, a: Value, b: Value, maths: Maths)
    ensures Judge(op, a, b, maths) == Judge(Mirrored(op), b, a, maths)
  {
    SameMirrors(a, b);
    if !op.Eq? && !op.NotEq? { OrderMirrors(op, a, b); }
  }

  /** In one of the columns from left to right. */
  ghost predicate Across(c: Cell, left: nat, right: nat) {
    exists n: nat :: left <= n <= right && c.letters == Letters(n)
  }

  lemma {:induction false} RowCellsExactly(left: nat, right: nat, row: nat, c: Cell)
    ensures c in RowCells(left, right, row) <==> c.row == row && Across(c, left, right)
    decreases right + 1 - left
  {
    if left <= right {
      RowCellsExactly(left + 1, right, row, c);
      assert Across(c, left, right) <==> c.letters == Letters(left) || Across(c, left + 1, right) by {
        if Across(c, left, right) { var n: nat :| left <= n <= right && c.letters == Letters(n); }
      }
    }
  }

  lemma {:induction false} BlockCellsExactly(left: nat, right: nat, top: nat, bottom: nat, c: Cell)
    ensures c in BlockCells(left, right, top, bottom) <==>
      top <= c.row <= bottom && Across(c, left, right)
    decreases bottom + 1 - top
  {
    if top <= bottom {
      RowCellsExactly(left, right, top, c);
      BlockCellsExactly(left, right, top + 1, bottom, c);
    }
  }

  /** A range is the rectangle between its corners, whichever two are named. */
  lemma AreaExactly(from: Cell, to: Cell, c: Cell)
    requires IsLetters(c.letters)
    ensures c in AreaCells(from, to) <==>
      && Min(from.row, to.row) <= c.row <= Max(from.row, to.row)
      && Min(Column(from), Column(to)) <= Column(c) <= Max(Column(from), Column(to))
  {
    var (a, b) := (Column(from), Column(to));
    BlockCellsExactly(Min(a, b), Max(a, b), Min(from.row, to.row), Max(from.row, to.row), c);
    LettersOfNumber(c.letters);
    forall n: nat | c.letters == Letters(n) ensures n == Column(c) { NumberOfLetters(n); }
  }
}
