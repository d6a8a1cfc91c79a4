/** The spreadsheet evaluator: formulas evaluated on demand, results remembered, and
    a busy set that stops a cell from waiting for itself. Whatever has been asked
    before and whatever is being evaluated around it, a cell that has a memo-free
    meaning gets exactly that meaning.
 */
module Grids {
  import opened Formulas
  import opened Meaning
  import opened References

  /** A set of cells under evaluation all waiting, directly or not, for an expression:
      if one of them settles at some depth, the expression settles one step shallower.
   */
  ghost predicate Awaits(s: Sheet, busy: set<Cell>, e: Expr) {
    forall b, n: nat :: b in busy && 0 < n && !CellValue(s, b, n).Unsettled? ==> !ExprValue(s, e, n - 1).Unsettled?
  }

  ghost predicate AwaitsAll(s: Sheet, busy: set<Cell>, es: seq<Expr>) {
    forall b, n: nat :: b in busy && 0 < n && !CellValue(s, b, n).Unsettled? ==> !ExprValues(s, es, n - 1).Unsettled?
  }

  ghost predicate AwaitsCell(s: Sheet, busy: set<Cell>, c: Cell) {
    forall b, n: nat :: b in busy && 0 < n && !CellValue(s, b, n).Unsettled? ==> !CellValue(s, c, n - 1).Unsettled?
  }

  ghost predicate AwaitsCells(s: Sheet, busy: set<Cell>, cs: seq<Cell>) {
    forall b, n: nat :: b in busy && 0 < n && !CellValue(s, b, n).Unsettled? ==> !CellValues(s, cs, n - 1).Unsettled?
  }

  /** A cell met while it waits for itself has no meaning at any depth. */
  lemma {:induction false} BusyNeverSettles(s: Sheet, busy: set<Cell>, c: Cell, n: nat)
    requires HasFormula(s, c) && c in busy && AwaitsCell(s, busy, c)
    ensures CellValue(s, c, n).Unsettled?
  {
    if n > 0 { BusyNeverSettles(s, busy, c, n - 1); }
  }

  /** Entering a cell keeps everything around it waiting for the formula inside. */
  lemma EnterCell(s: Sheet, busy: set<Cell>, c: Cell, e: Expr)
    requires At(s, c) == Formulaic(Parsed(e)) && AwaitsCell(s, busy, c)
    ensures Awaits(s, busy + {c}, e)
  {
    forall b, n: nat | b in busy + {c} && 0 < n && !CellValue(s, b, n).Unsettled?
      ensures !ExprValue(s, e, n - 1).Unsettled?
    {
      if b == c {
        assert CellValue(s, c, n) == Settle(s, c, FormulaValue(s, Parsed(e), n - 1));
      } else {
        assert !CellValue(s, c, n - 1).Unsettled?;
        assert CellValue(s, c, n - 1) == Settle(s, c, FormulaValue(s, Parsed(e), n - 2));
        ExprDeeper(s, e, n - 2, n - 1);
      }
    }
  }

  class Grid {
    const sheet: Sheet
    var busy: set<Cell>
    var done: map<Cell, Value>

    /** Every remembered value of a cell that has a meaning is that meaning. */
    ghost predicate Valid()
      reads this
    {
      && (forall c, n: nat :: c in done && !CellValue(sheet, c, n).Unsettled? ==> CellValue(sheet, c, n) == Ok(done[c]))
      && (forall c :: c in busy ==> HasFormula(sheet, c) && c !in done)
    }

    /** What is left of the sheet's formula cells to enter. */
    ghost function Idle(): set<Cell>
      reads this
    {
      (set c | c in sheet.cells && HasFormula(sheet, c)) - busy
    }

    /** The frame every evaluation keeps: the busy set as it was, nothing forgotten. */
    twostate predicate Kept()
      reads this
    {
      busy == old(busy) && forall c :: c in old(done) ==> c in done && done[c] == old(done)[c]
    }

    constructor (sheet: Sheet)
      ensures Valid() && busy == {} && done == map[] && this.sheet == sheet
    {
      this.sheet := sheet;
      busy, done := {}, map[];
    }

    /** `_Grid.value`. */
    method Value(c: Cell) returns (r: Result<Value>)
      requires Valid() && AwaitsCell(sheet, busy, c)
      modifies this
      ensures Valid() && Kept()
      ensures r.Ok? || r.Crash?
      ensures forall n: nat :: !CellValue(sheet, c, n).Unsettled? ==> r == CellValue(sheet, c, n)
      decreases Idle(), 0, 0
    {
      if c in done {
        return Ok(done[c]);
      }
      match At(sheet, c)
      case Plain(v) =>
        done := done[c := v];
        return Ok(v);
      case Formulaic(f) =>
        if c in busy {
          forall n: nat ensures CellValue(sheet, c, n).Unsettled? { BusyNeverSettles(sheet, busy, c, n); }
          return Ok(Text("#REF!"));
        }
        ghost var before := busy;
        if f.Parsed? { EnterCell(sheet, busy, c, f.e); }
        assert c in Idle();
        busy := busy + {c};
        var result := Evaluate(c, f);
        busy := busy - {c};
        assert busy == before;
        r := Settle(sheet, c, result);
        if r.Ok? {
          done := done[c := r.value];
        }
    }

    /** `_evaluate`, up to the exceptions it turns into error codes. */
    method Evaluate(ghost c: Cell, f: Formula) returns (r: Result<Value>)
      requires Valid() && c in busy && At(sheet, c) == Formulaic(f)
      requires f.Parsed? ==> Awaits(sheet, busy, f.e)
      modifies this
      ensures Valid() && Kept()
      ensures !r.Unsettled?
      ensures forall n: nat :: !FormulaValue(sheet, f, n).Unsettled? ==> r == FormulaValue(sheet, f, n)
      decreases Idle(), 2
    {
      match f
      case Blocked => return Ok(Text("#BLOCKED!"));
      case Malformed => return Raise("#VALUE!");
      case Parsed(e) => r := Walk(e);
    }

    /** `_walk`. */
    method Walk(e: Expr) returns (r: Result<Value>)
      requires Valid() && Awaits(sheet, busy, e)
      modifies this
      ensures Valid() && Kept()
      ensures !r.Unsettled?
      ensures forall n: nat :: !ExprValue(sheet, e, n).Unsettled? ==> r == ExprValue(sheet, e, n)
      decreases Idle(), 1, e
    {
      match e
      case Lit(v) => return Ok(v);
      case UnknownName => return Raise("#NAME?");
      case Other => return Raise("#VALUE!");
      case Sign(minus, operand) =>
        var v :- Walk(operand);
        var x :- ToNumber(v, sheet.maths);
        return Ok(Num(if minus then -x else x));
      case Arith(op, left, right) =>
        var v :- Walk(left);
        var x :- ToNumber(v, sheet.maths);
        var w :- Walk(right);
        var y :- ToNumber(w, sheet.maths);
        return Calculate(op, x, y);
      case Compare(op, left, right) =>
        var v :- Walk(left);
        var w :- Walk(right);
        return Judge(op, v, w, sheet.maths);
      case Ref(c) => r := Value(c);
      case Area(from, to) =>
        var vs :- Span(AreaCells(from, to));
        return Ok(Many(vs));
      case If(_) => r := WalkIf(e);
      case Call(fn, args) =>
        var vs :- WalkAll(args);
        return Invoke(fn, vs, sheet.maths);
    }

    /** IF walks its test, then only the branch it takes. */
    method WalkIf(e: Expr) returns (r: Result<Value>)
      requires e.If?
      requires Valid() && Awaits(sheet, busy, e)
      modifies this
      ensures Valid() && Kept()
      ensures !r.Unsettled?
      ensures forall n: nat :: !ExprValue(sheet, e, n).Unsettled? ==> r == ExprValue(sheet, e, n)
      decreases Idle(), 1, e, 0
    {
      var args := e.args;
      if args == [] { return Crash; }
      var test :- Walk(args[0]);
      if IsError(test) { return Ok(test); }
      var yes :- Truth(test, sheet.maths);
      var branch := if yes then 1 else 2;
      if branch < |args| { r := Walk(args[branch]); } else { r := Ok(Bool(yes)); }
    }

    /** A call's arguments, left to right. */
    method WalkAll(es: seq<Expr>) returns (r: Result<seq<Value>>)
      requires Valid() && AwaitsAll(sheet, busy, es)
      modifies this
      ensures Valid() && Kept()
      ensures !r.Unsettled?
      ensures forall n: nat :: !ExprValues(sheet, es, n).Unsettled? ==> r == ExprValues(sheet, es, n)
      decreases Idle(), 1, es
    {
      if es == [] { return Ok([]); }
      assert Awaits(sheet, busy, es[0]);
      var v :- Walk(es[0]);
      var rest :- WalkAll(es[1..]);
      return Ok([v] + rest);
    }

    /** `_Grid.span`, on the cells the range names. */
    method Span(cs: seq<Cell>) returns (r: Result<seq<Value>>)
      requires Valid() && AwaitsCells(sheet, busy, cs)
      modifies this
      ensures Valid() && Kept()
      ensures !r.Unsettled?
      ensures forall n: nat :: !CellValues(sheet, cs, n).Unsettled? ==> r == CellValues(sheet, cs, n)
      decreases Idle(), 0, 1 + |cs|
    {
      if cs == [] { return Ok([]); }
      var v :- Value(cs[0]);
      forall b, n: nat | b in busy && 0 < n && !CellValue(sheet, b, n).Unsettled?
        ensures !CellValues(sheet, cs[1..], n - 1).Unsettled?
      {
        assert !CellValues(sheet, cs, n - 1).Unsettled?;
        assert !CellValue(sheet, cs[0], n - 1).Unsettled?;
        assert CellValue(sheet, cs[0], n - 1) == Ok(v);
      }
      var rest :- Span(cs[1..]);
      return Ok([v] + rest);
    }

    /** Any queries, in any order, on a grid at rest: each cell that has a meaning gets
        it, whatever was asked before and however many cyclic cells were among them - and
        every cell that cannot reach a reference cycle has one.
     */
    method Query(cs: seq<Cell>) returns (rs: seq<Result<Value>>)
      requires Valid() && busy == {}
      modifies this
      ensures Valid() && Kept()
      ensures |rs| == |cs|
      ensures forall i :: 0 <= i < |cs| && Settles(sheet, cs[i]) ==> rs[i] == Means(sheet, cs[i])
      ensures forall i :: 0 <= i < |cs| && !ReachesCycle(sheet, cs[i]) ==> Settles(sheet, cs[i])
    {
      rs := [];
      for i := 0 to |cs|
        invariant Valid() && Kept() && |rs| == i
        invariant forall k :: 0 <= k < i && Settles(sheet, cs[k]) ==> rs[k] == Means(sheet, cs[k])
      {
        var r := Value(cs[i]);
        rs := rs + [r];
      }
      forall i | 0 <= i < |cs| && !ReachesCycle(sheet, cs[i]) ensures Settles(sheet, cs[i]) {
        AcyclicSettles(sheet, cs[i]);
      }
    }
  }
}
