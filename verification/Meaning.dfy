/** The memo-free meaning of a sheet: what a cell's formula comes to when every
    reference is simply evaluated again. It is indexed by depth - how many formula
    cells may be entered, one inside another - so that it is defined on every sheet,
    cyclic ones included, where it stays Unsettled at every depth.
 */
module Meaning {
  import opened Formulas

  datatype Content = Plain(v: Value) | Formulaic(f: Formula)

  /** A sheet's cells as written, and the values Excel last saved for its formulas. */
  datatype Sheet = Sheet(cells: map<Cell, Content>, cached: map<Cell, Value>, maths: Maths)

  function At(s: Sheet, c: Cell): Content {
    if c in s.cells then s.cells[c] else Plain(Blank)
  }

  predicate HasFormula(s: Sheet, c: Cell) {
    At(s, c).Formulaic?
  }

  /** `_evaluate`'s handlers, then the saved value in place of an error. */
  function Settle(s: Sheet, c: Cell, r: Result<Value>): Result<Value> {
    match r
    case Crash => Crash
    case Unsettled => Unsettled
    case Raise(code) => Ok(OrSaved(s, c, Text(code)))
    case Ok(v) => Ok(OrSaved(s, c, v))
  }

  function OrSaved(s: Sheet, c: Cell, v: Value): Value {
    if IsError(v) && c in s.cached && s.cached[c] != Blank then s.cached[c] else v
  }

  /** What a cell means within a depth. */
  function CellValue(s: Sheet, c: Cell, depth: nat): Result<Value>
    decreases depth, 0, 0
  {
    match At(s, c)
    case Plain(v) => Ok(v)
    case Formulaic(f) => if depth == 0 then Unsettled else Settle(s, c, FormulaValue(s, f, depth - 1))
  }

  function FormulaValue(s: Sheet, f: Formula, depth: nat): Result<Value>
    decreases depth, 2
  {
    match f
    case Blocked => Ok(Text("#BLOCKED!"))
    case Malformed => Raise("#VALUE!")
    case Parsed(e) => ExprValue(s, e, depth)
  }

  function CellValues(s: Sheet, cs: seq<Cell>, depth: nat): Result<seq<Value>>
    decreases depth, 0, 1 + |cs|
  {
    if cs == [] then Ok([])
    else
      var v :- CellValue(s, cs[0], depth);
      var rest :- CellValues(s, cs[1..], depth);
      Ok([v] + rest)
  }

  function ExprValue(s: Sheet, e: Expr, depth: nat): Result<Value>
    decreases depth, 1, e
  {
    match e
    case Lit(v) => Ok(v)
    case Sign(minus, operand) =>
      var v :- ExprValue(s, operand, depth);
      var x :- ToNumber(v, s.maths);
      Ok(Num(if minus then -x else x))
    case Arith(op, left, right) =>
      var v :- ExprValue(s, left, depth);
      var x :- ToNumber(v, s.maths);
      var w :- ExprValue(s, right, depth);
      var y :- ToNumber(w, s.maths);
      Calculate(op, x, y)
    case Compare(op, left, right) =>
      var v :- ExprValue(s, left, depth);
      var w :- ExprValue(s, right, depth);
      Judge(op, v, w, s.maths)
    case Ref(c) => CellValue(s, c, depth)
    case Area(from, to) =>
      var vs :- CellValues(s, AreaCells(from, to), depth);
      Ok(Many(vs))
    case If(args) =>
      if args == [] then Crash else
      var test :- ExprValue(s, args[0], depth);
      if IsError(test) then Ok(test) else
      var yes :- Truth(test, s.maths);
      if yes then (if |args| > 1 then ExprValue(s, args[1], depth) else Ok(Bool(true)))
      else if |args| > 2 then ExprValue(s, args[2], depth) else Ok(Bool(false))
    case Call(fn, args) =>
      var vs :- ExprValues(s, args, depth);
      Invoke(fn, vs, s.maths)
    case UnknownName => Raise("#NAME?")
    case Other => Raise("#VALUE!")
  }

  function ExprValues(s: Sheet, es: seq<Expr>, depth: nat): Result<seq<Value>>
    decreases depth, 1, es
  {
    if es == [] then Ok([])
    else
      var v :- ExprValue(s, es[0], depth);
      var rest :- ExprValues(s, es[1..], depth);
      Ok([v] + rest)
  }

  /** The cell has a meaning: some depth is enough. */
  ghost predicate Settles(s: Sheet, c: Cell) {
    exists n: nat :: !CellValue(s, c, n).Unsettled?
  }

  ghost function Means(s: Sheet, c: Cell): (r: Result<Value>)
    requires Settles(s, c)
    ensures !r.Unsettled?
  {
    var n: nat :| !CellValue(s, c, n).Unsettled?;
    CellValue(s, c, n)
  }

  // More depth never changes a meaning already settled.

  lemma {:induction false} CellDeeper(s: Sheet, c: Cell, n: nat, m: nat)
    requires n <= m && !CellValue(s, c, n).Unsettled?
    ensures CellValue(s, c, m) == CellValue(s, c, n)
    decreases n, 0, 0
  {
    if HasFormula(s, c) && At(s, c).f.Parsed? {
      ExprDeeper(s, At(s, c).f.e, n - 1, m - 1);
    }
  }

  lemma {:induction false} CellsDeeper(s: Sheet, cs: seq<Cell>, n: nat, m: nat)
    requires n <= m && !CellValues(s, cs, n).Unsettled?
    ensures CellValues(s, cs, m) == CellValues(s, cs, n)
    decreases n, 0, 1 + |cs|
  {
    if cs != [] {
      CellDeeper(s, cs[0], n, m);
      if CellValue(s, cs[0], n).Ok? { CellsDeeper(s, cs[1..], n, m); }
    }
  }

  lemma {:induction false} ExprDeeper(s: Sheet, e: Expr, n: nat, m: nat)
    requires n <= m && !ExprValue(s, e, n).Unsettled?
    ensures ExprValue(s, e, m) == ExprValue(s, e, n)
    decreases n, 1, e
  {
    match e
    case Lit(_) => case UnknownName => case Other =>
    case Sign(_, operand) => ExprDeeper(s, operand, n, m);
    case Arith(_, left, right) =>
      ExprDeeper(s, left, n, m);
      if ExprValue(s, left, n).Ok? && ToNumber(ExprValue(s, left, n).value, s.maths).Ok? { ExprDeeper(s, right, n, m); }
    case Compare(_, left, right) =>
      ExprDeeper(s, left, n, m);
      if ExprValue(s, left, n).Ok? { ExprDeeper(s, right, n, m); }
    case Ref(c) => CellDeeper(s, c, n, m);
    case Area(from, to) => CellsDeeper(s, AreaCells(from, to), n, m);
    case If(args) =>
      if args != [] {
        ExprDeeper(s, args[0], n, m);
        var test := ExprValue(s, args[0], n);
        if test.Ok? && !IsError(test.value) && Truth(test.value, s.maths).Ok? {
          var branch := if Truth(test.value, s.maths).value then 1 else 2;
          if branch < |args| { ExprDeeper(s, args[branch], n, m); }
        }
      }
    case Call(_, args) => ExprsDeeper(s, args, n, m);
  }

  lemma {:induction false} ExprsDeeper(s: Sheet, es: seq<Expr>, n: nat, m: nat)
    requires n <= m && !ExprValues(s, es, n).Unsettled?
    ensures ExprValues(s, es, m) == ExprValues(s, es, n)
    decreases n, 1, es
  {
    if es != [] {
      ExprDeeper(s, es[0], n, m);
      if ExprValue(s, es[0], n).Ok? { ExprsDeeper(s, es[1..], n, m); }
    }
  }

  /** A meaning is one value: whatever depth settles it, it is the same. */
  lemma MeansAt(s: Sheet, c: Cell, n: nat)
    requires !CellValue(s, c, n).Unsettled?
    ensures Settles(s, c) && Means(s, c) == CellValue(s, c, n)
  {
    var m: nat :| !CellValue(s, c, m).Unsettled? && Means(s, c) == CellValue(s, c, m);
    if n <= m { CellDeeper(s, c, n, m); } else { CellDeeper(s, c, m, n); }
  }
}
