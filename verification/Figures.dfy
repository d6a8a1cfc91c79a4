/** 4CE's own check of an answer's figures: every figure a sentence cites to a document,
    or attributes to the SOP, must be found somewhere it could have come from. A text is
    the set of figures and clause numbers it contains as whole words.
 */
module Figures {

  datatype Kind = Fine | Problem | Unverified
  datatype Author = FourCE | Verifier

  /** A check on the answer: what it is about, and whether a second try could help. */
  datatype Check = Check(kind: Kind, author: Author, subject: string, final: bool)

  /** A sentence: the source numbers it cites, whether it says the SOP says something, its
      clause references, and its other figures.
   */
  datatype Sentence = Sentence(citations: seq<nat>, attributed: bool, clauses: seq<string>, figures: seq<string>)

  /** Where a figure may come from: the retrieved documents by number, the request, what
      was read from its image, 4CE's calculation, and the rule pack's output and clauses.
   */
  datatype Basis = Basis(
    sources: seq<set<string>>, request: set<string>, read: set<string>, computed: set<string>,
    ruled: set<string>, clauses: set<string>, names: seq<nat> -> string)

  function Cited(s: Sentence, b: Basis): seq<nat> {
    Keep(s.citations, |b.sources|)
  }

  function Keep(ns: seq<nat>, count: nat): (kept: seq<nat>)
    ensures forall n :: n in kept <==> n in ns && 1 <= n <= count
  {
    if ns == [] then [] else (if 1 <= ns[0] <= count then [ns[0]] else []) + Keep(ns[1..], count)
  }

  predicate InCited(figure: string, cited: seq<nat>, b: Basis) {
    exists n :: n in cited && 1 <= n <= |b.sources| && figure in b.sources[n - 1]
  }

  predicate Anywhere(figure: string, b: Basis) {
    exists t :: t in b.sources && figure in t
  }

  /** A cited figure that is not invented: in a cited document, the requester's own, read,
      calculated, held by another document, or the rule pack's.
   */
  predicate FigureGrounded(figure: string, cited: seq<nat>, b: Basis) {
    || InCited(figure, cited, b) || figure in b.request || figure in b.read
    || figure in b.computed || Anywhere(figure, b) || figure in b.ruled
  }

  predicate ClauseGrounded(clause: string, cited: seq<nat>, b: Basis) {
    clause in b.clauses || InCited(clause, cited, b)
  }

  /** A figure given as the SOP's with no citation. */
  predicate AttributionGrounded(figure: string, b: Basis) {
    Anywhere(figure, b) || figure in b.request || figure in b.computed || figure in b.ruled
  }

  ghost predicate Grounded(s: Sentence, b: Basis) {
    if Cited(s, b) == [] then s.attributed ==> forall f :: f in s.figures ==> AttributionGrounded(f, b)
    else
      && (forall f :: f in s.figures ==> FigureGrounded(f, Cited(s, b), b))
      && (forall c :: c in s.clauses ==> ClauseGrounded(c, Cited(s, b), b))
  }

  /** A problem the check may report: a figure or clause of some sentence without grounds. */
  ghost predicate Blames(subject: string, s: Sentence, b: Basis) {
    if Cited(s, b) == [] then s.attributed && subject in s.figures && !AttributionGrounded(subject, b)
    else
      || (subject in s.figures && !FigureGrounded(subject, Cited(s, b), b))
      || exists c :: c in s.clauses && subject == "Clause " + c && !ClauseGrounded(c, Cited(s, b), b)
  }

  /** A figure cited to the wrong document: in another one, and the requester's in no way. */
  predicate Misplaced(figure: string, cited: seq<nat>, b: Basis) {
    && !InCited(figure, cited, b) && Anywhere(figure, b)
    && figure !in b.request && figure !in b.read && figure !in b.computed
  }

  /** A figure cited to a document that is the request's, the image's, the calculation's or
      the rule pack's instead.
   */
  predicate Borrowed(figure: string, cited: seq<nat>, b: Basis) {
    && !InCited(figure, cited, b)
    && (figure in b.request || figure in b.read || figure in b.computed || (!Anywhere(figure, b) && figure in b.ruled))
  }

  ghost predicate HasBorrowed(s: Sentence, b: Basis) {
    Cited(s, b) != [] && exists f :: f in s.figures && Borrowed(f, Cited(s, b), b)
  }

  ghost predicate HasFound(s: Sentence, b: Basis) {
    Cited(s, b) != [] && exists f :: f in s.figures && InCited(f, Cited(s, b), b)
  }

  ghost predicate HasMisplaced(s: Sentence, b: Basis) {
    Cited(s, b) != [] && exists f :: f in s.figures && Misplaced(f, Cited(s, b), b)
  }

  /** What the pass over the sentences collects. */
  datatype Notes = Notes(
    found: seq<string>, missing: seq<(string, string)>, borrowed: seq<string>, misplaced: seq<string>,
    unsourced: seq<string>)

  function AddOnce<T(==)>(xs: seq<T>, x: T): seq<T> {
    if x in xs then xs else xs + [x]
  }

  function NoteFigure(notes: Notes, figure: string, cited: seq<nat>, b: Basis): Notes {
    if InCited(figure, cited, b) then notes.(found := AddOnce(notes.found, figure))
    else if figure in b.request || figure in b.read || figure in b.computed then
      notes.(borrowed := AddOnce(notes.borrowed, figure))
    else if Anywhere(figure, b) then notes.(misplaced := AddOnce(notes.misplaced, figure))
    else if figure in b.ruled then notes.(borrowed := AddOnce(notes.borrowed, figure))
    else notes.(missing := AddOnce(notes.missing, (figure, b.names(cited))))
  }

  function NoteClause(notes: Notes, clause: string, cited: seq<nat>, b: Basis): Notes {
    if ClauseGrounded(clause, cited, b) then notes
    else notes.(missing := AddOnce(notes.missing, ("Clause " + clause, b.names(cited))))
  }

  predicate Clean(notes: Notes) {
    notes.missing == [] && notes.unsourced == []
  }

  /** Every problem noted is one of the sentences' own. */
  ghost predicate Deserved(notes: Notes, sentences: seq<Sentence>, b: Basis) {
    && (forall m :: m in notes.missing ==> exists s :: s in sentences && Blames(m.0, s, b))
    && (forall f :: f in notes.unsourced ==> exists s :: s in sentences && Blames(f, s, b))
  }

  /** A citing sentence's clause references. */
  method CheckClauses(s: Sentence, b: Basis, before: Notes, ghost all: seq<Sentence>) returns (notes: Notes)
    requires Cited(s, b) != [] && s in all && Deserved(before, all, b)
    ensures Clean(notes) <==> Clean(before) && forall c :: c in s.clauses ==> ClauseGrounded(c, Cited(s, b), b)
    ensures notes.found == before.found && notes.misplaced == before.misplaced && notes.borrowed == before.borrowed
    ensures Deserved(notes, all, b)
  {
    var cited := Cited(s, b);
    notes := before;
    for i := 0 to |s.clauses|
      invariant Clean(notes) <==> Clean(before) && forall k :: 0 <= k < i ==> ClauseGrounded(s.clauses[k], cited, b)
      invariant notes.found == before.found && notes.misplaced == before.misplaced && notes.borrowed == before.borrowed
      invariant Deserved(notes, all, b)
    {
      assert !ClauseGrounded(s.clauses[i], cited, b) ==> Blames("Clause " + s.clauses[i], s, b);
      hide Blames, ClauseGrounded;
      notes := NoteClause(notes, s.clauses[i], cited, b);
    }
  }

  /** Its other figures. */
  method CheckFigures(s: Sentence, b: Basis, before: Notes, ghost all: seq<Sentence>) returns (notes: Notes)
    requires Cited(s, b) != [] && s in all && Deserved(before, all, b)
    ensures Clean(notes) <==> Clean(before) && forall f :: f in s.figures ==> FigureGrounded(f, Cited(s, b), b)
    ensures notes.found != [] <==> before.found != [] || HasFound(s, b)
    ensures notes.misplaced != [] <==> before.misplaced != [] || HasMisplaced(s, b)
    ensures notes.borrowed != [] <==> before.borrowed != [] || HasBorrowed(s, b)
    ensures Deserved(notes, all, b)
  {
    var cited := Cited(s, b);
    notes := before;
    for i := 0 to |s.figures|
      invariant Progress(before, notes, s.figures[..i], cited, b)
      invariant Deserved(notes, all, b)
    {
      NoteProgress(before, notes, s.figures[..i], s.figures[i], cited, b);
      hide Progress, NoteFigure, Deserved;
      assert s.figures[..i] + [s.figures[i]] == s.figures[..i + 1];
      notes := NoteFigure(notes, s.figures[i], cited, b);
    }
    assert s.figures[..|s.figures|] == s.figures;
  }

  /** What the figures seen so far have added to the notes. */
  ghost predicate Progress(before: Notes, notes: Notes, seen: seq<string>, cited: seq<nat>, b: Basis) {
    && (Clean(notes) <==> Clean(before) && forall f :: f in seen ==> FigureGrounded(f, cited, b))
    && (notes.found != [] <==> before.found != [] || exists f :: f in seen && InCited(f, cited, b))
    && (notes.misplaced != [] <==> before.misplaced != [] || exists f :: f in seen && Misplaced(f, cited, b))
    && (notes.borrowed != [] <==> before.borrowed != [] || exists f :: f in seen && Borrowed(f, cited, b))
  }

  lemma NoteProgress(before: Notes, notes: Notes, seen: seq<string>, figure: string, cited: seq<nat>, b: Basis)
    requires Progress(before, notes, seen, cited, b)
    ensures Progress(before, NoteFigure(notes, figure, cited, b), seen + [figure], cited, b)
  {
    NotedFigure(notes, figure, cited, b);
    hide FigureGrounded, Misplaced, Borrowed, InCited, NoteFigure;
    assert forall f :: f in seen + [figure] <==> f in seen || f == figure;
  }

  /** What one figure adds to the notes. */
  lemma NotedFigure(notes: Notes, figure: string, cited: seq<nat>, b: Basis)
    ensures var more := NoteFigure(notes, figure, cited, b);
      && more.unsourced == notes.unsourced
      && more.missing == (if FigureGrounded(figure, cited, b) then notes.missing
          else AddOnce(notes.missing, (figure, b.names(cited))))
      && more.found == (if InCited(figure, cited, b) then AddOnce(notes.found, figure) else notes.found)
      && more.misplaced == (if Misplaced(figure, cited, b) then AddOnce(notes.misplaced, figure) else notes.misplaced)
      && more.borrowed == (if Borrowed(figure, cited, b) then AddOnce(notes.borrowed, figure) else notes.borrowed)
  {
  }

  /** A sentence that cites a document: its clauses, then its figures. */
  method CheckCited(s: Sentence, b: Basis, before: Notes, ghost all: seq<Sentence>) returns (notes: Notes)
    requires Cited(s, b) != [] && s in all && Deserved(before, all, b)
    ensures Clean(notes) <==> Clean(before) && Grounded(s, b)
    ensures notes.found != [] <==> before.found != [] || HasFound(s, b)
    ensures notes.misplaced != [] <==> before.misplaced != [] || HasMisplaced(s, b)
    ensures notes.borrowed != [] <==> before.borrowed != [] || HasBorrowed(s, b)
    ensures Deserved(notes, all, b)
  {
    notes := CheckClauses(s, b, before, all);
    notes := CheckFigures(s, b, notes, all);
  }

  /** A sentence that cites none, but says the SOP says it. */
  method CheckUncited(s: Sentence, b: Basis, before: Notes, ghost all: seq<Sentence>) returns (notes: Notes)
    requires Cited(s, b) == [] && s in all && Deserved(before, all, b)
    ensures Clean(notes) <==> Clean(before) && Grounded(s, b)
    ensures notes.found == before.found && notes.misplaced == before.misplaced && notes.borrowed == before.borrowed
    ensures Deserved(notes, all, b)
  {
    notes := before;
    if s.attributed {
      for i := 0 to |s.figures|
        invariant Clean(notes) <==> Clean(before) && forall k :: 0 <= k < i ==> AttributionGrounded(s.figures[k], b)
        invariant notes.found == before.found && notes.misplaced == before.misplaced
          && notes.borrowed == before.borrowed
        invariant Deserved(notes, all, b)
      {
        if !AttributionGrounded(s.figures[i], b) {
          assert Blames(s.figures[i], s, b);
          notes := notes.(unsourced := AddOnce(notes.unsourced, s.figures[i]));
        }
      }
    }
  }

  function Cut<T>(xs: seq<T>, n: nat): seq<T> {
    if |xs| <= n then xs else xs[..n]
  }

  function Report(kind: Kind, subjects: seq<string>): seq<Check> {
    seq(|subjects|, i requires 0 <= i < |subjects| => Check(kind, FourCE, subjects[i], false))
  }

  function Subjects(missing: seq<(string, string)>): seq<string> {
    seq(|missing|, i requires 0 <= i < |missing| => missing[i].0)
  }

  /** The checks shown: at most four missing, three unsourced, three misplaced, three borrowed. */
  function Listed(notes: Notes): seq<Check> {
    (if notes.found != [] && Clean(notes) && notes.misplaced == []
     then [Check(Fine, FourCE, "every cited figure", false)] else [])
    + Report(Problem, Subjects(Cut(notes.missing, 4)))
    + Report(Problem, Cut(notes.unsourced, 3))
    + Report(Unverified, Cut(notes.misplaced, 3))
    + Report(Unverified, Cut(notes.borrowed, 3))
  }

  predicate IsOwnProblem(c: Check) {
    c.author == FourCE && c.kind == Problem
  }

  ghost predicate NoOwnProblem(checks: seq<Check>) {
    forall c :: c in checks ==> !IsOwnProblem(c)
  }

  lemma ReportExactly(kind: Kind, subjects: seq<string>, c: Check)
    ensures c in Report(kind, subjects) <==> c.kind == kind && c.author == FourCE && !c.final && c.subject in subjects
  {
    if c.kind == kind && c.author == FourCE && !c.final && c.subject in subjects {
      var i :| 0 <= i < |subjects| && subjects[i] == c.subject;
      assert Report(kind, subjects)[i] == c;
    }
  }

  /** The problems listed are those noted, the first of each kind among them. */
  lemma ListedExactly(notes: Notes, c: Check)
    ensures c in Listed(notes) && c.kind == Problem ==>
      c.subject in notes.unsourced || exists m :: m in notes.missing && m.0 == c.subject
    ensures c in Listed(notes) ==> c.author == FourCE && !c.final
    ensures c in Listed(notes) && c.kind == Unverified ==> notes.misplaced != [] || notes.borrowed != []
    ensures c in Listed(notes) && c.kind == Fine ==> notes.found != [] && Clean(notes) && notes.misplaced == []
  {
    var subjects := Subjects(Cut(notes.missing, 4));
    ReportExactly(Problem, subjects, c);
    ReportExactly(Problem, Cut(notes.unsourced, 3), c);
    ReportExactly(Unverified, Cut(notes.misplaced, 3), c);
    ReportExactly(Unverified, Cut(notes.borrowed, 3), c);
    if c.subject in subjects {
      var i :| 0 <= i < |subjects| && subjects[i] == c.subject;
      assert Cut(notes.missing, 4)[i] in notes.missing;
    }
    hide Report, Subjects;
  }

  lemma ListedWitness(notes: Notes) returns (c: Check)
    requires !Clean(notes)
    ensures c in Listed(notes) && IsOwnProblem(c)
  {
    if notes.missing != [] {
      var subjects := Subjects(Cut(notes.missing, 4));
      c := Check(Problem, FourCE, subjects[0], false);
      ReportExactly(Problem, subjects, c);
    } else {
      c := Check(Problem, FourCE, notes.unsourced[0], false);
      assert Cut(notes.unsourced, 3)[0] == c.subject;
      ReportExactly(Problem, Cut(notes.unsourced, 3), c);
    }
  }

  lemma ListedDoubt(notes: Notes) returns (c: Check)
    requires notes.misplaced != [] || notes.borrowed != []
    ensures c in Listed(notes) && c.kind == Unverified
  {
    var from := if notes.misplaced != [] then Cut(notes.misplaced, 3) else Cut(notes.borrowed, 3);
    c := Check(Unverified, FourCE, from[0], false);
    ReportExactly(Unverified, from, c);
  }

  lemma ListedProblems(notes: Notes)
    ensures NoOwnProblem(Listed(notes)) <==> Clean(notes)
    ensures (exists c :: c in Listed(notes) && c.kind == Fine) <==>
      notes.found != [] && Clean(notes) && notes.misplaced == []
    ensures (exists c :: c in Listed(notes) && c.kind == Unverified) <==> notes.misplaced != [] || notes.borrowed != []
  {
    if !Clean(notes) { var c := ListedWitness(notes); }
    if notes.misplaced != [] || notes.borrowed != [] { var c := ListedDoubt(notes); }
    if notes.found != [] && Clean(notes) && notes.misplaced == [] {
      assert Listed(notes)[0].kind == Fine;
    }
    hide Listed;
    forall c | c in Listed(notes)
      ensures c.kind == Unverified ==> notes.misplaced != [] || notes.borrowed != []
      ensures IsOwnProblem(c) ==> !Clean(notes)
      ensures c.kind == Fine ==> notes.found != [] && Clean(notes) && notes.misplaced == []
    {
      ListedExactly(notes, c);
    }
  }

  ghost predicate AllGrounded(sentences: seq<Sentence>, b: Basis) { forall s :: s in sentences ==> Grounded(s, b) }
  ghost predicate SomeFound(sentences: seq<Sentence>, b: Basis) { exists s :: s in sentences && HasFound(s, b) }
  ghost predicate SomeMisplaced(sentences: seq<Sentence>, b: Basis) { exists s :: s in sentences && HasMisplaced(s, b) }
  ghost predicate SomeBorrowed(sentences: seq<Sentence>, b: Basis) { exists s :: s in sentences && HasBorrowed(s, b) }

  /** The loop over the sentences. */
  method Scan(sentences: seq<Sentence>, b: Basis) returns (notes: Notes)
    ensures Clean(notes) <==> AllGrounded(sentences, b)
    ensures notes.found != [] <==> SomeFound(sentences, b)
    ensures notes.misplaced != [] <==> SomeMisplaced(sentences, b)
    ensures notes.borrowed != [] <==> SomeBorrowed(sentences, b)
    ensures Deserved(notes, sentences, b)
  {
    notes := Notes([], [], [], [], []);
    for i := 0 to |sentences|
      invariant Clean(notes) <==> AllGrounded(sentences[..i], b)
      invariant notes.found != [] <==> SomeFound(sentences[..i], b)
      invariant notes.misplaced != [] <==> SomeMisplaced(sentences[..i], b)
      invariant notes.borrowed != [] <==> SomeBorrowed(sentences[..i], b)
      invariant Deserved(notes, sentences, b)
    {
      var s := sentences[i];
      assert s in sentences;
      if Cited(s, b) == [] {
        notes := CheckUncited(s, b, notes, sentences);
      } else {
        notes := CheckCited(s, b, notes, sentences);
      }
      Extended(sentences, i, b);
    }
    assert sentences[..|sentences|] == sentences;
  }

  lemma Extended(sentences: seq<Sentence>, i: nat, b: Basis)
    requires i < |sentences|
    ensures AllGrounded(sentences[..i + 1], b) <==> AllGrounded(sentences[..i], b) && Grounded(sentences[i], b)
    ensures SomeFound(sentences[..i + 1], b) <==> SomeFound(sentences[..i], b) || HasFound(sentences[i], b)
    ensures SomeMisplaced(sentences[..i + 1], b) <==> SomeMisplaced(sentences[..i], b) || HasMisplaced(sentences[i], b)
    ensures SomeBorrowed(sentences[..i + 1], b) <==> SomeBorrowed(sentences[..i], b) || HasBorrowed(sentences[i], b)
  {
    hide Grounded, HasFound, HasMisplaced, HasBorrowed;
    assert forall s :: s in sentences[..i + 1] <==> s in sentences[..i] || s == sentences[i];
  }

  /** Every figure cited is in the source it is cited to. */
  ghost predicate AllWhereCited(sentences: seq<Sentence>, b: Basis) {
    forall s, f :: s in sentences && Cited(s, b) != [] && f in s.figures ==> InCited(f, Cited(s, b), b)
  }

  /** `_figure_checks`: with documents retrieved, no problem is reported exactly when every
      sentence's figures and clauses have grounds - deduplication and the caps hide
      nothing - and every problem reported is a sentence's own. The tick is given exactly
      when, besides, some figure is where it is cited and none is in another document only;
      and what it says is true exactly when no unverified figure is listed beside it.
   */
  method FigureChecks(sentences: seq<Sentence>, b: Basis) returns (checks: seq<Check>)
    ensures b.sources == [] ==> checks == []
    ensures b.sources != [] ==> (NoOwnProblem(checks) <==> AllGrounded(sentences, b))
    ensures forall c :: c in checks ==> c.author == FourCE && !c.final
    ensures forall c :: c in checks && c.kind == Problem ==> exists s :: s in sentences && Blames(c.subject, s, b)
    ensures b.sources != [] ==> ((exists c :: c in checks && c.kind == Fine) <==>
      AllGrounded(sentences, b) && SomeFound(sentences, b) && !SomeMisplaced(sentences, b))
    ensures (exists c :: c in checks && c.kind == Fine) ==>
      (AllWhereCited(sentences, b) <==> forall c :: c in checks ==> c.kind != Unverified)
  {
    if b.sources == [] { return []; }
    var notes := Scan(sentences, b);
    ListedProblems(notes);
    checks := Listed(notes);
    if AllGrounded(sentences, b) && !SomeMisplaced(sentences, b) { TickTrueExactly(sentences, b); }
    hide AllGrounded, SomeFound, SomeMisplaced, SomeBorrowed, AllWhereCited;
    forall c | c in checks
      ensures c.author == FourCE && !c.final
      ensures c.kind == Problem ==> exists s :: s in sentences && Blames(c.subject, s, b)
    {
      ListedExactly(notes, c);
      hide Listed, Blames;
    }
  }

  /** The tick says every figure cited is in the source cited. Beside a borrowed figure it
      overstates: 30 is cited to document 1, which has 14 and not 30, and the answer is
      still ticked.
   */
  lemma TickOverstates() returns (s: Sentence, b: Basis)
    ensures b.sources != [] && AllGrounded([s], b) && SomeFound([s], b) && !SomeMisplaced([s], b)
    ensures !AllWhereCited([s], b)
  {
    s := Sentence([1], false, [], ["14", "30"]);
    b := Basis([{"14"}], {"30"}, {}, {}, {}, {}, (ns: seq<nat>) => "");
    assert 1 in Cited(s, b) && "14" in s.figures && "14" in b.sources[0];
    assert InCited("14", Cited(s, b), b);
    assert s.figures[1] == "30";
    assert s in [s] && HasFound(s, b) && !HasMisplaced(s, b);
    assert !InCited("30", Cited(s, b), b);
  }

  /** What the tick says is true exactly when no cited figure is borrowed. */
  lemma TickTrueExactly(sentences: seq<Sentence>, b: Basis)
    requires AllGrounded(sentences, b) && !SomeMisplaced(sentences, b)
    ensures AllWhereCited(sentences, b) <==> !SomeBorrowed(sentences, b)
  {
    forall s, f | s in sentences && Cited(s, b) != [] && f in s.figures && !InCited(f, Cited(s, b), b)
      ensures HasBorrowed(s, b)
    {
      assert Grounded(s, b) && !HasMisplaced(s, b);
      assert FigureGrounded(f, Cited(s, b), b);
      assert !Misplaced(f, Cited(s, b), b);
      assert Borrowed(f, Cited(s, b), b);
    }
    if s, f :| s in sentences && Cited(s, b) != [] && f in s.figures && Borrowed(f, Cited(s, b), b) {
      assert !InCited(f, Cited(s, b), b);
    }
  }
}
