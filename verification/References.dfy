/** Which cells a formula refers to, and what follows from it: a cell from which no
    reference cycle can be reached has a meaning, and a cell's meaning rests only on
    the cells it can reach.
 */
module References {
  import opened Formulas
  import opened Meaning

  /** Every cell an expression names, taken or not. */
  function Mentions(e: Expr): set<Cell> {
    match e
    case Lit(_) => {}
    case UnknownName => {}
    case Other => {}
    case Sign(_, operand) => Mentions(operand)
    case Arith(_, left, right) => Mentions(left) + Mentions(right)
    case Compare(_, left, right) => Mentions(left) + Mentions(right)
    case Ref(c) => {c}
    case Area(from, to) => set c | c in AreaCells(from, to)
    case If(args) => MentionsAll(args)
    case Call(_, args) => MentionsAll(args)
  }

  function MentionsAll(es: seq<Expr>): set<Cell> {
    if es == [] then {} else Mentions(es[0]) + MentionsAll(es[1..])
  }

  lemma {:induction false} MentionsOne(es: seq<Expr>, i: nat)
    requires i < |es|
    ensures Mentions(es[i]) <= MentionsAll(es)
  {
    if i > 0 { MentionsOne(es[1..], i - 1); }
  }

  function Precedents(s: Sheet, c: Cell): set<Cell> {
    match At(s, c)
    case Formulaic(Parsed(e)) => Mentions(e)
    case _ => {}
  }

  ghost predicate Path(s: Sheet, p: seq<Cell>) {
    p != [] && forall i :: 0 <= i < |p| - 1 ==> p[i + 1] in Precedents(s, p[i])
  }

  lemma FirstStep(s: Sheet, p: seq<Cell>)
    requires Path(s, p)
    ensures |p| > 1 ==> p[1] in Precedents(s, p[0])
  {
  }

  ghost predicate Repeats(p: seq<Cell>) {
    exists i, j :: 0 <= i < j < |p| && p[i] == p[j]
  }

  ghost predicate ReachesCycle(s: Sheet, c: Cell) {
    exists p :: Path(s, p) && p[0] == c && Repeats(p)
  }

  ghost predicate Reaches(s: Sheet, c: Cell, d: Cell) {
    exists p :: Path(s, p) && p[0] == c && p[|p| - 1] == d
  }

  // A cell that stays unsettled has a path of formula cells as long as the depth.

  lemma {:induction false} UnsettledCell(s: Sheet, cs: seq<Cell>, n: nat) returns (d: Cell)
    requires CellValues(s, cs, n).Unsettled?
    ensures d in cs && CellValue(s, d, n).Unsettled?
  {
    if CellValue(s, cs[0], n).Unsettled? { d := cs[0]; } else { d := UnsettledCell(s, cs[1..], n); }
  }

  lemma {:induction false} UnsettledMention(s: Sheet, e: Expr, n: nat) returns (d: Cell)
    requires ExprValue(s, e, n).Unsettled?
    ensures d in Mentions(e) && CellValue(s, d, n).Unsettled?
    decreases e
  {
    match e
    case Sign(_, operand) => d := UnsettledMention(s, operand, n);
    case Arith(_, left, right) =>
      if ExprValue(s, left, n).Unsettled? { d := UnsettledMention(s, left, n); }
      else { d := UnsettledMention(s, right, n); }
    case Compare(_, left, right) =>
      if ExprValue(s, left, n).Unsettled? { d := UnsettledMention(s, left, n); }
      else { d := UnsettledMention(s, right, n); }
    case Ref(c) => d := c;
    case Area(from, to) => d := UnsettledCell(s, AreaCells(from, to), n);
    case If(args) =>
      var i := if ExprValue(s, args[0], n).Unsettled? then 0
               else if Truth(ExprValue(s, args[0], n).value, s.maths).value then 1 else 2;
      d := UnsettledMention(s, args[i], n);
      MentionsOne(args, i);
    case Call(_, args) => d := UnsettledAmong(s, args, n);
  }

  lemma {:induction false} UnsettledAmong(s: Sheet, es: seq<Expr>, n: nat) returns (d: Cell)
    requires ExprValues(s, es, n).Unsettled?
    ensures d in MentionsAll(es) && CellValue(s, d, n).Unsettled?
    decreases es
  {
    if ExprValue(s, es[0], n).Unsettled? { d := UnsettledMention(s, es[0], n); }
    else { d := UnsettledAmong(s, es[1..], n); }
  }

  lemma {:induction false} UnsettledPath(s: Sheet, c: Cell, n: nat) returns (p: seq<Cell>)
    requires CellValue(s, c, n).Unsettled?
    ensures Path(s, p) && p[0] == c && |p| == n + 1
    ensures forall i :: 0 <= i < |p| ==> HasFormula(s, p[i])
    decreases n
  {
    p := [c];
    if n > 0 {
      var d := UnsettledMention(s, At(s, c).f.e, n - 1);
      var rest := UnsettledPath(s, d, n - 1);
      p := [c] + rest;
    }
  }

  lemma {:induction false} DistinctCells(p: seq<Cell>, all: set<Cell>)
    requires !Repeats(p) && forall i :: 0 <= i < |p| ==> p[i] in all
    ensures |p| <= |all|
  {
    if p != [] {
      assert forall i, j :: 0 <= i < j < |p[1..]| ==> p[1..][i] == p[i + 1] && p[1..][j] == p[j + 1];
      DistinctCells(p[1..], all - {p[0]});
    }
  }

  /** A cell that cannot reach a reference cycle has a meaning, found within as many
      steps as the sheet has formula cells.
   */
  lemma AcyclicSettles(s: Sheet, c: Cell)
    requires !ReachesCycle(s, c)
    ensures Settles(s, c)
  {
    var formulas := set d | d in s.cells && HasFormula(s, d);
    if CellValue(s, c, |formulas|).Unsettled? {
      var p := UnsettledPath(s, c, |formulas|);
      DistinctCells(p, formulas);
    }
  }

  // Two sheets that agree on everything a cell reaches give it the same meaning.

  ghost predicate Agree(s: Sheet, t: Sheet, c: Cell) {
    At(s, c) == At(t, c) && (c in s.cached <==> c in t.cached) && (c in s.cached ==> s.cached[c] == t.cached[c])
  }

  ghost predicate Alike(s: Sheet, t: Sheet, c: Cell) {
    forall d :: Reaches(s, c, d) ==> Agree(s, t, d)
  }

  lemma AlikeInside(s: Sheet, t: Sheet, c: Cell)
    requires Alike(s, t, c)
    ensures Agree(s, t, c)
    ensures forall d :: d in Precedents(s, c) ==> Alike(s, t, d)
  {
    assert Path(s, [c]);
    forall d, x | d in Precedents(s, c) && Reaches(s, d, x)
      ensures Agree(s, t, x)
    {
      var p :| Path(s, p) && p[0] == d && p[|p| - 1] == x;
      assert Path(s, [c] + p);
    }
  }

  /** A meaning rests only on the cells reached: at every depth, the same. */
  lemma {:induction false} CellFrame(s: Sheet, t: Sheet, c: Cell, n: nat)
    requires Alike(s, t, c) && s.maths == t.maths
    ensures CellValue(s, c, n) == CellValue(t, c, n)
    decreases n, 0, 0
  {
    AlikeInside(s, t, c);
    match At(s, c)
    case Formulaic(Parsed(e)) => if n > 0 { ExprFrame(s, t, e, n - 1); }
    case _ =>
  }

  lemma {:induction false} CellsFrame(s: Sheet, t: Sheet, cs: seq<Cell>, n: nat)
    requires (forall c :: c in cs ==> Alike(s, t, c)) && s.maths == t.maths
    ensures CellValues(s, cs, n) == CellValues(t, cs, n)
    decreases n, 0, 1 + |cs|
  {
    if cs != [] {
      CellFrame(s, t, cs[0], n);
      CellsFrame(s, t, cs[1..], n);
    }
  }

  lemma {:induction false} ExprFrame(s: Sheet, t: Sheet, e: Expr, n: nat)
    requires (forall c :: c in Mentions(e) ==> Alike(s, t, c)) && s.maths == t.maths
    ensures ExprValue(s, e, n) == ExprValue(t, e, n)
    decreases n, 1, e
  {
    match e
    case Lit(_) => case UnknownName => case Other =>
    case Sign(_, operand) => ExprFrame(s, t, operand, n);
    case Arith(_, left, right) => ExprFrame(s, t, left, n); ExprFrame(s, t, right, n);
    case Compare(_, left, right) => ExprFrame(s, t, left, n); ExprFrame(s, t, right, n);
    case Ref(c) => CellFrame(s, t, c, n);
    case Area(from, to) => CellsFrame(s, t, AreaCells(from, to), n);
    case If(args) =>
      forall i | 0 <= i < |args| ensures ExprValue(s, args[i], n) == ExprValue(t, args[i], n) {
        MentionsOne(args, i);
        ExprFrame(s, t, args[i], n);
      }
    case Call(_, args) => ExprsFrame(s, t, args, n);
  }

  lemma {:induction false} ExprsFrame(s: Sheet, t: Sheet, es: seq<Expr>, n: nat)
    requires (forall c :: c in MentionsAll(es) ==> Alike(s, t, c)) && s.maths == t.maths
    ensures ExprValues(s, es, n) == ExprValues(t, es, n)
    decreases n, 1, es
  {
    if es != [] {
      ExprFrame(s, t, es[0], n);
      ExprsFrame(s, t, es[1..], n);
    }
  }
}
