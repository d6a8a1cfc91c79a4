/** The agent chain, from the first draft to release: draft, execute, verify, replan at
    most once, record the verdict, ask the approver, and only then release. What the
    models, the sandbox, the tools and the approver answer is given from outside and may
    be anything; what the chain does with it is proved for every run.
 */
module Chain {
  import opened Options
  import opened Figures
  import opened Proposals

  datatype Task = Chat | Code | Document | Analysis | Vision
  datatype Office = Workbook | Deck
  datatype Valves = Valves(verification: bool, replan: bool, approval: bool)

  datatype Reply = Errored | Said(text: string)

  /** A line of the verifier's reply: a verdict line or not. */
  datatype Line = Plainly | Passing | Failing
  datatype Verification = CouldNotRun | Lines(lines: seq<Line>)

  /** The sandbox tool's report; absent when the tool is not attached or failed. */
  datatype Exit = Exited(code: int) | NoCode | Unstated
  datatype SandboxReport = Absent | Reported(text: string, refused: bool, timedOut: bool, exit: Exit, stdout: bool)

  /** Everything from outside in one attempt. `own` are 4CE's other checks on the draft, and
      `objections` the lines of the verifier's reply read as checks.
   */
  datatype Round = Round(
    friday: Reply, jarvis: Reply, preview: Option<string>, report: SandboxReport,
    ultron: Verification, own: seq<Check>, objections: seq<(Kind, string)>, basis: Basis)

  /** The request: the sheet attached, the changes 4CE plans for it, the section read from
      an image, the office files asked for, whether output was asked for.
   */
  datatype Request = Request(
    task: Task, sheet: bool, changes: seq<string>, section: Option<string>, formats: seq<Office>, asksOutput: bool)

  /** How text is read: what the code gets out of a draft by pattern matching, and the changes
      it reads in a proposal's body. The proposal itself is searched for by `Proposals`.
   */
  datatype Reader = Reader(
    tidy: string -> string, sentences: string -> seq<Sentence>, program: string -> Option<nat>,
    read: string -> seq<string>, artifacts: string -> seq<string>,
    strip: string -> string, fold: string -> string, hash: string -> string)

  datatype Response = NoAnswer | Typed(words: string) | Unusable

  datatype Status = PASS | FAIL | ERROR | SKIPPED
  datatype Verdict = Verdict(status: Status, passed: bool, checks: seq<Check>, final: bool)
  datatype Decision = Approved | Rejected | NotObtained | NotRequired

  /** What a run does, in order. */
  datatype Event =
    | Previewed(attempt: nat, changes: seq<string>, inDraft: bool)
    | Executed(attempt: nat)
    | Judged(attempt: nat, verdict: Verdict)
    | VerdictRecorded(status: Status, attempts: nat, draft: string)
    | Asked(shown: string)
    | DecisionRecorded(decision: Decision)
    | SavedArtifact(name: string)
    | MadeOffice(format: Office)
    | WroteSheet(changes: seq<string>)
    | WroteWord
    | ReleaseRecorded(fingerprint: string)

  datatype Ending = Broken | Withheld | Returned(fingerprint: Option<string>)

  // ---- The verdict ---------------------------------------------------------

  predicate Says(l: Line) { l != Plainly }

  /** The verdict line that governs: the first line's when it is one, else the last. */
  ghost predicate Governs(lines: seq<Line>, i: nat) {
    && i < |lines| && Says(lines[i])
    && (i == 0 || (!Says(lines[0]) && forall k :: i < k < |lines| ==> !Says(lines[k])))
  }

  /** The reply's governing line says PASS. */
  ghost predicate GovernedByPass(v: Verification) {
    v.Lines? && exists i: nat :: Governs(v.lines, i) && v.lines[i] == Passing
  }

  /** `_parse_verdict`: no verdict line at all fails closed. */
  method ParseVerdict(v: Verification) returns (status: Status)
    ensures status == PASS <==> GovernedByPass(v)
    ensures status in {PASS, FAIL, ERROR}
    ensures status == ERROR <==> v.CouldNotRun?
  {
    if v.CouldNotRun? { return ERROR; }
    var lines := v.lines;
    var last := -1;
    for i := 0 to |lines|
      invariant -1 <= last < i
      invariant last >= 0 ==> Says(lines[last])
      invariant forall k :: last < k < i ==> !Says(lines[k])
    {
      if Says(lines[i]) { last := i; }
    }
    if last < 0 { return FAIL; }
    var index := if Says(lines[0]) then 0 else last;
    assert Governs(lines, index);
    return if lines[index] == Passing then PASS else FAIL;
  }

  /** `_execution_check`: did the code run, and did it finish cleanly. */
  function ExecutionCheck(program: Option<nat>, report: SandboxReport, asksOutput: bool): Check {
    if program.None? then Check(Problem, FourCE, "no code", false)
    else if report.Absent? || report.refused then Check(Unverified, FourCE, "not executed", true)
    else if report.timedOut then Check(Problem, FourCE, "timed out", false)
    else if report.exit != Exited(0) then Check(Problem, FourCE, "failed", false)
    else if asksOutput && !report.stdout then Check(Problem, FourCE, "printed nothing", false)
    else if program.value > 0 then Check(Fine, FourCE, "exited 0", false)
    else Check(Unverified, FourCE, "asserts nothing", false)
  }

  /** The code was there, ran to the end, exited 0, and printed where asked to. */
  predicate RanCleanly(program: Option<nat>, report: SandboxReport, asksOutput: bool) {
    && program.Some? && report.Reported? && !report.refused && !report.timedOut
    && report.exit == Exited(0) && (asksOutput ==> report.stdout)
  }

  lemma ExecutionChecked(program: Option<nat>, report: SandboxReport, asksOutput: bool)
    ensures var c := ExecutionCheck(program, report, asksOutput);
      RanCleanly(program, report, asksOutput) <==> c.kind != Problem && !c.final
  {
  }

  /** What a PASS has to mean: the verifier's word, none of 4CE's checks a problem, every
      figure with grounds when documents were retrieved, and code that ran cleanly.
   */
  ghost predicate Merited(req: Request, reader: Reader, round: Round, draft: string, program: Option<nat>) {
    && GovernedByPass(round.ultron)
    && NoOwnProblem(round.own)
    && (round.basis.sources != [] ==> AllGrounded(reader.sentences(draft), round.basis))
    && (req.task.Code? ==> RanCleanly(program, round.report, req.asksOutput))
  }

  /** The verifier's own lines are never 4CE's checks. */
  function Voiced(lines: seq<(Kind, string)>): seq<Check> {
    seq(|lines|, i requires 0 <= i < |lines| => Check(lines[i].0, Verifier, lines[i].1, false))
  }

  lemma Joined(a: seq<Check>, b: seq<Check>)
    ensures NoOwnProblem(a + b) <==> NoOwnProblem(a) && NoOwnProblem(b)
  {
    assert forall c :: c in a + b <==> c in a || c in b;
  }

  /** The verification step: the verifier's verdict, overruled by 4CE's own checks. It
      passes exactly when the pass is deserved.
   */
  method Verify(req: Request, reader: Reader, round: Round, draft: string, program: Option<nat>)
    returns (verdict: Verdict)
    ensures verdict.passed <==> Merited(req, reader, round, draft, program)
    ensures (verdict.passed <==> verdict.status == PASS) && verdict.status != SKIPPED
    ensures verdict.passed ==> NoOwnProblem(verdict.checks)
    ensures verdict.final <==> req.task.Code? && ExecutionCheck(program, round.report, req.asksOutput).final
  {
    var status := ParseVerdict(round.ultron);
    var ran := if req.task.Code? then [ExecutionCheck(program, round.report, req.asksOutput)] else [];
    ExecutionChecked(program, round.report, req.asksOutput);
    var figures := FigureChecks(reader.sentences(draft), round.basis);
    var checks := ran + round.own + figures + Voiced(round.objections);
    Joined(ran, round.own);
    Joined(ran + round.own, figures);
    Joined(ran + round.own + figures, Voiced(round.objections));
    verdict := Verdict(status, status == PASS, checks, req.task.Code? && ran[0].final);
    if verdict.passed && exists c :: c in checks && IsOwnProblem(c) {
      verdict := verdict.(status := FAIL, passed := false);
    }
    if verdict.passed && verdict.final {
      verdict := verdict.(status := FAIL, passed := false);
    }
    assert req.task.Code? ==> (NoOwnProblem(ran) <==> !IsOwnProblem(ran[0]));
  }

  // ---- Drafting and replanning --------------------------------------------

  /** The draft as the verifier and the approver will read it, before any code is run. */
  function Compose(req: Request, reader: Reader, round: Round): string
    requires round.jarvis.Said?
  {
    var text := reader.tidy(round.jarvis.text);
    text
    + (if Planned(req, reader, round) != [] && round.preview.Some? then PREVIEW_HEAD + round.preview.value else "")
    + SectionOf(req)
  }

  // What sets the parts of a draft apart.
  const BLANK_LINE := "\n\n"
  const PREVIEW_HEAD := "\n\n### The workbook, on approval\n\n"
  const RUN_HEAD := "\n\n### Sandboxed execution result\n\n"

  function SectionOf(req: Request): string {
    if req.section.Some? then BLANK_LINE + req.section.value else ""
  }

  /** `_sheet_block`: the changes a text proposes. */
  function BlockOf(reader: Reader, text: string): seq<string> {
    Block(text, reader.read)
  }

  /** The workbook changes an attempt plans: 4CE's own, else those the draft proposes. */
  function Planned(req: Request, reader: Reader, round: Round): seq<string>
    requires round.jarvis.Said?
  {
    if !req.sheet then []
    else if req.changes != [] then req.changes
    else BlockOf(reader, reader.tidy(round.jarvis.text))
  }

  function Complete(req: Request, reader: Reader, round: Round): string
    requires round.jarvis.Said?
  {
    var draft := Compose(req, reader, round);
    if req.task.Code? && reader.program(draft).Some? && round.report.Reported?
    then draft + RUN_HEAD + round.report.text
    else draft
  }

  predicate Answered(round: Round) {
    round.friday.Said? && round.jarvis.Said?
  }

  /** A pass is deserved by the draft an attempt completes. */
  ghost predicate Earned(req: Request, reader: Reader, round: Round)
    requires Answered(round)
  {
    Merited(req, reader, round, Complete(req, reader, round), reader.program(Compose(req, reader, round)))
  }

  /** The sandbox did not run the code, so a second try could not either. */
  predicate Final(req: Request, reader: Reader, round: Round)
    requires Answered(round)
  {
    req.task.Code? && ExecutionCheck(reader.program(Compose(req, reader, round)), round.report, req.asksOutput).final
  }

  /** A second attempt is made exactly when the first was judged, failed, could be improved
      on and replanning is on.
   */
  ghost predicate Replans(valves: Valves, req: Request, reader: Reader, first: Round) {
    && valves.verification && valves.replan && Answered(first)
    && !Earned(req, reader, first) && !Final(req, reader, first)
  }

  /** What an attempt does before it is judged: the preview of planned changes, the code run. */
  function RoundEvents(req: Request, reader: Reader, attempt: nat, round: Round): seq<Event>
    requires Answered(round)
  {
    (if Planned(req, reader, round) == [] then []
     else [Previewed(attempt, Planned(req, reader, round), round.preview.Some?)])
    + (if req.task.Code? && reader.program(Compose(req, reader, round)).Some? then [Executed(attempt)] else [])
  }

  /** One attempt up to verification: the draft assembled step by step, its code run. */
  method DraftRound(req: Request, reader: Reader, attempt: nat, round: Round)
    returns (draft: string, program: Option<nat>, events: seq<Event>)
    requires Answered(round)
    ensures draft == Complete(req, reader, round) && program == reader.program(Compose(req, reader, round))
    ensures events == RoundEvents(req, reader, attempt, round)
  {
    events := [];
    draft := reader.tidy(round.jarvis.text);
    if req.sheet {
      var planned := if req.changes != [] then req.changes else BlockOf(reader, draft);
      if planned != [] {
        events := events + [Previewed(attempt, planned, round.preview.Some?)];
        if round.preview.Some? { draft := draft + (PREVIEW_HEAD + round.preview.value); }
      }
    }
    if req.section.Some? { draft := draft + (BLANK_LINE + req.section.value); }
    assert draft == Compose(req, reader, round);
    program := reader.program(draft);
    if req.task.Code? && program.Some? {
      events := events + [Executed(attempt)];
      if round.report.Reported? { draft := draft + RUN_HEAD + round.report.text; }
    }
  }

  /** The whole record of a failed first attempt. */
  ghost predicate FirstFailed(req: Request, reader: Reader, first: Round, events: seq<Event>)
    requires Answered(first)
  {
    exists v: Verdict :: !v.passed && events == RoundEvents(req, reader, 1, first) + [Judged(1, v)]
  }

  /** The loop: attempts until one passes or the replan budget is spent. */
  method Deliberate(valves: Valves, req: Request, reader: Reader, rounds: nat -> Round)
    returns (done: bool, attempts: nat, draft: string, verdict: Verdict, events: seq<Event>, ghost earlier: seq<Event>)
    ensures attempts == if Replans(valves, req, reader, rounds(1)) then 2 else 1
    ensures done <==> Answered(rounds(attempts))
    ensures done ==> draft == Complete(req, reader, rounds(attempts))
    ensures done && !valves.verification ==> verdict.status == SKIPPED && verdict.passed
    ensures done && valves.verification ==>
      (verdict.passed <==> Earned(req, reader, rounds(attempts))) && verdict.status != SKIPPED
    ensures attempts == 1 ==> earlier == []
    ensures attempts == 2 ==> FirstFailed(req, reader, rounds(1), earlier)
    ensures events == earlier + (if !done then [] else RoundEvents(req, reader, attempts, rounds(attempts)))
                      + (if done && valves.verification then [Judged(attempts, verdict)] else [])
  {
    attempts, draft, events, earlier := 0, "", [], [];
    verdict := Verdict(ERROR, false, [], false);
    while true
      invariant attempts == 0 || (attempts == 1 && Replans(valves, req, reader, rounds(1)))
      invariant events == earlier
      invariant attempts == 0 ==> earlier == []
      invariant attempts == 1 ==> FirstFailed(req, reader, rounds(1), earlier)
      decreases 2 - attempts
    {
      attempts := attempts + 1;
      var round := rounds(attempts);
      if round.friday.Errored? || round.jarvis.Errored? {
        return false, attempts, draft, verdict, events, earlier;
      }
      var program, work;
      draft, program, work := DraftRound(req, reader, attempts, round);
      events := events + work;
      if !valves.verification {
        verdict := Verdict(SKIPPED, true, [], false);
        return true, attempts, draft, verdict, events, earlier;
      }
      verdict := Verify(req, reader, round, draft, program);
      events := events + [Judged(attempts, verdict)];
      if verdict.passed || !valves.replan || attempts > 1 || verdict.final {
        return true, attempts, draft, verdict, events, earlier;
      }
      assert events == RoundEvents(req, reader, 1, rounds(1)) + [Judged(1, verdict)];
      earlier := events;
    }
  }

  // ---- The gate and the release --------------------------------------------

  /** The approver typed the word; anything else withholds. */
  predicate Approves(reader: Reader, response: Response) {
    response.Typed? && reader.fold(response.words) in {"approve", "approved"}
  }

  /** Whether a run may release: nobody has to approve, or the approver did. */
  predicate Cleared(valves: Valves, reader: Reader, interactive: bool, response: Response) {
    !valves.approval || (interactive && Approves(reader, response))
  }

  /** Nobody to ask is not an approval, and no answer is not a rejection. */
  function DecisionOf(valves: Valves, reader: Reader, interactive: bool, response: Response): Decision {
    if !valves.approval then NotRequired
    else if !interactive || response.NoAnswer? then NotObtained
    else if Approves(reader, response) then Approved
    else Rejected
  }

  function GateEvents(valves: Valves, reader: Reader, interactive: bool, response: Response, draft: string)
    : seq<Event>
  {
    (if valves.approval && interactive then [Asked(reader.strip(draft))] else [])
    + (if valves.approval then [DecisionRecorded(DecisionOf(valves, reader, interactive, response))] else [])
  }

  method Gate(valves: Valves, reader: Reader, interactive: bool, response: Response, draft: string)
    returns (decision: Decision, open: bool, events: seq<Event>)
    ensures decision == DecisionOf(valves, reader, interactive, response)
    ensures events == GateEvents(valves, reader, interactive, response, draft)
    ensures open <==> !valves.approval || !interactive || Approves(reader, response)
  {
    if !valves.approval { return NotRequired, true, []; }
    if !interactive { return NotObtained, true, [DecisionRecorded(NotObtained)]; }
    events := [Asked(reader.strip(draft))];
    if response.NoAnswer? { return NotObtained, false, events + [DecisionRecorded(NotObtained)]; }
    if response.Typed? && reader.fold(response.words) in {"approve", "approved"} {
      return Approved, true, events + [DecisionRecorded(Approved)];
    }
    return Rejected, false, events + [DecisionRecorded(Rejected)];
  }

  function Saved(names: seq<string>): seq<Event> {
    seq(|names|, i requires 0 <= i < |names| => SavedArtifact(names[i]))
  }

  function Made(formats: seq<Office>): seq<Event> {
    seq(|formats|, i requires 0 <= i < |formats| => MadeOffice(formats[i]))
  }

  /** The changes a release writes into the sheet's copy. */
  function ChangesToWrite(req: Request, reader: Reader, draft: string): seq<string> {
    if !req.sheet then [] else if req.changes != [] then req.changes else BlockOf(reader, draft)
  }

  /** Everything a release does, in order: the draft's own files, the office files asked for,
      the sheet's copy, the Word document of a document or vision task, and its own record.
   */
  function ReleaseEvents(req: Request, reader: Reader, draft: string): seq<Event> {
    (if req.task.Chat? then [] else Saved(reader.artifacts(draft)) + Made(req.formats))
    + (if ChangesToWrite(req, reader, draft) == [] then [] else [WroteSheet(ChangesToWrite(req, reader, draft))])
    + (if req.task.Document? || req.task.Vision? then [WroteWord] else [])
    + [ReleaseRecorded(Fingerprint(reader, draft))]
  }

  function Fingerprint(reader: Reader, draft: string): string {
    reader.hash(reader.strip(draft))
  }

  /** The draft's own files and the office files asked for, one call each. */
  method WriteFiles(req: Request, reader: Reader, draft: string) returns (events: seq<Event>)
    ensures events == if req.task.Chat? then [] else Saved(reader.artifacts(draft)) + Made(req.formats)
  {
    events := [];
    if req.task.Chat? { return; }
    var artifacts := reader.artifacts(draft);
    for i := 0 to |artifacts|
      invariant events == Saved(artifacts[..i])
    {
      events := events + [SavedArtifact(artifacts[i])];
    }
    assert artifacts[..|artifacts|] == artifacts;
    for i := 0 to |req.formats|
      invariant events == Saved(artifacts) + Made(req.formats[..i])
    {
      events := events + [MadeOffice(req.formats[i])];
    }
    assert req.formats[..|req.formats|] == req.formats;
  }

  method Release(req: Request, reader: Reader, draft: string) returns (events: seq<Event>)
    ensures events == ReleaseEvents(req, reader, draft)
  {
    events := WriteFiles(req, reader, draft);
    var changes := ChangesToWrite(req, reader, draft);
    if changes != [] { events := events + [WroteSheet(changes)]; }
    if req.task.Document? || req.task.Vision? { events := events + [WroteWord]; }
    events := events + [ReleaseRecorded(Fingerprint(reader, draft))];
  }

  /** The record of a run that is not cut short: the work, the verdict, the gate, the release. */
  function Record(valves: Valves, req: Request, reader: Reader, interactive: bool, response: Response,
                  work: seq<Event>, recorded: Event, draft: string): seq<Event>
  {
    work + [recorded] + GateEvents(valves, reader, interactive, response, draft)
    + if Cleared(valves, reader, interactive, response) then ReleaseEvents(req, reader, draft) else []
  }

  /** A fingerprint only for what was released; an answer withheld, or returned unreleased
      where there was nobody to ask.
   */
  function EndingOf(valves: Valves, reader: Reader, interactive: bool, response: Response, draft: string): Ending {
    if Cleared(valves, reader, interactive, response) then Returned(Some(Fingerprint(reader, draft)))
    else if interactive then Withheld
    else Returned(None)
  }

  /** `_run_chain`, from the first attempt on: its record, exactly, and how it ends. */
  method RunChain(
    valves: Valves, req: Request, reader: Reader, rounds: nat -> Round, interactive: bool, response: Response)
    returns (attempts: nat, draft: string, verdict: Verdict, events: seq<Event>, ending: Ending, ghost work: seq<Event>)
    ensures attempts == if Replans(valves, req, reader, rounds(1)) then 2 else 1
    ensures ending == Broken <==> !Answered(rounds(attempts))
    ensures ending != Broken ==> draft == Complete(req, reader, rounds(attempts))
    ensures ending != Broken && valves.verification ==> (verdict.passed <==> Earned(req, reader, rounds(attempts)))
    ensures forall i :: 0 <= i < |work| ==> Stage(work[i]) == 0
    ensures ending == Broken ==> events == work
    ensures ending != Broken ==>
      events == Record(
        valves, req, reader, interactive, response, work, VerdictRecorded(verdict.status, attempts, draft), draft)
    ensures ending != Broken ==> ending == EndingOf(valves, reader, interactive, response, draft)
    ensures InOrder(events) && Vouched(events, VerdictRecorded(verdict.status, attempts, draft), valves.approval)
    ensures ending != Broken ==>
      (AllPreviewed(events, attempts) <==>
       (Cleared(valves, reader, interactive, response) ==> PreviewCovers(req, reader, rounds(attempts))))
  {
    hide RoundEvents, ReleaseEvents, Merited, Complete;
    var done;
    ghost var earlier;
    done, attempts, draft, verdict, events, earlier := Deliberate(valves, req, reader, rounds);
    work := events;
    WorkStages(req, reader, rounds, attempts, earlier);
    if !done { return attempts, draft, verdict, events, Broken, work; }
    EveryRunSafe(valves, req, reader, interactive, response, work,
      VerdictRecorded(verdict.status, attempts, draft), draft);
    WorkPreviews(valves, req, reader, rounds, attempts, verdict, earlier, work);
    PreviewedExactly(valves, req, reader, interactive, response, work,
                     VerdictRecorded(verdict.status, attempts, draft), attempts, rounds(attempts));
    hide InOrder, Vouched, AllPreviewed, PreviewsOf, PreviewCovers;
    events := events + [VerdictRecorded(verdict.status, attempts, draft)];
    var decision, open, asked := Gate(valves, reader, interactive, response, draft);
    events := events + asked;
    if !open { return attempts, draft, verdict, events, Withheld, work; }
    if decision != Approved && decision != NotRequired {
      return attempts, draft, verdict, events, Returned(None), work;
    }
    var released := Release(req, reader, draft);
    events := events + released;
    return attempts, draft, verdict, events, Returned(Some(Fingerprint(reader, draft))), work;
  }

  lemma WorkStages(req: Request, reader: Reader, rounds: nat -> Round, attempts: nat, earlier: seq<Event>)
    requires earlier == [] || (Answered(rounds(1)) && FirstFailed(req, reader, rounds(1), earlier))
    ensures forall i :: 0 <= i < |earlier| ==> Stage(earlier[i]) == 0
    ensures Answered(rounds(attempts)) ==>
      var es := RoundEvents(req, reader, attempts, rounds(attempts)); forall i :: 0 <= i < |es| ==> Stage(es[i]) == 0
  {
  }

  // ---- What holds of every run's record ----------------------------------------

  /** How far a run has come when it does something. */
  function Stage(e: Event): nat {
    match e
    case Previewed(_, _, _) => 0 case Executed(_) => 0 case Judged(_, _) => 0
    case VerdictRecorded(_, _, _) => 1
    case Asked(_) => 2
    case DecisionRecorded(_) => 3
    case SavedArtifact(_) => 4 case MadeOffice(_) => 4 case WroteSheet(_) => 4 case WroteWord => 4
    case ReleaseRecorded(_) => 5
  }

  /** Files, the sheet's copy, and the release entry itself. */
  predicate Releases(e: Event) { Stage(e) >= 4 }

  /** Stage by stage, and no stage but working and writing files happens twice. */
  ghost predicate InOrder(es: seq<Event>) {
    forall i, j :: 0 <= i < j < |es| ==>
      Stage(es[i]) < Stage(es[j]) || (Stage(es[i]) == Stage(es[j]) && Stage(es[i]) in {0, 4})
  }

  /** Each releasing event comes after what vouches for it: the recorded verdict, and the
      recorded approval where one is required.
   */
  ghost predicate Vouched(events: seq<Event>, recorded: Event, approval: bool) {
    forall i :: 0 <= i < |events| && Releases(events[i]) ==>
      recorded in events[..i] && (approval ==> DecisionRecorded(Approved) in events[..i])
  }

  lemma VouchedAfter(before: seq<Event>, released: seq<Event>, recorded: Event, approval: bool)
    requires forall i :: 0 <= i < |before| ==> !Releases(before[i])
    requires recorded in before && (approval ==> DecisionRecorded(Approved) in before)
    ensures Vouched(before + released, recorded, approval)
  {
    var all := before + released;
    forall i | 0 <= i < |all| && Releases(all[i])
      ensures recorded in all[..i] && (approval ==> DecisionRecorded(Approved) in all[..i])
    {
      assert i >= |before|;
      assert all[..i] == before + released[..i - |before|];
    }
  }

  lemma ReleaseInOrder(req: Request, reader: Reader, draft: string)
    ensures var es := ReleaseEvents(req, reader, draft);
      && InOrder(es) && (forall i :: 0 <= i < |es| ==> Releases(es[i]))
      && (forall i :: 0 <= i < |es| - 1 ==> Stage(es[i]) == 4)
      && es[|es| - 1] == ReleaseRecorded(Fingerprint(reader, draft))
  {
    var es := ReleaseEvents(req, reader, draft);
    assert forall i :: 0 <= i < |es| - 1 ==> Stage(es[i]) == 4;
  }

  /** Nothing before the release releases, and what is recorded there vouches for it. */
  lemma BeforeRelease(valves: Valves, reader: Reader, interactive: bool, response: Response,
                      work: seq<Event>, recorded: Event, draft: string) returns (before: seq<Event>)
    requires recorded.VerdictRecorded? && forall i :: 0 <= i < |work| ==> Stage(work[i]) == 0
    ensures before == work + [recorded] + GateEvents(valves, reader, interactive, response, draft)
    ensures InOrder(before) && forall i :: 0 <= i < |before| ==> Stage(before[i]) < 4
    ensures recorded in before
    ensures valves.approval ==> (DecisionRecorded(Approved) in before <==> interactive && Approves(reader, response))
    ensures forall i :: 0 <= i < |before| && before[i].Asked? ==> before[i].shown == reader.strip(draft)
  {
    var asked := GateEvents(valves, reader, interactive, response, draft);
    before := work + [recorded] + asked;
    GateExactly(valves, reader, interactive, response, draft);
    hide GateEvents;
    assert before[|work|] == recorded;
    assert InOrder(before) by {
    }
    hide InOrder;
    forall e ensures e in before <==> e in work || e == recorded || e in asked {}
    assert DecisionRecorded(Approved) !in work;
  }

  lemma GateExactly(valves: Valves, reader: Reader, interactive: bool, response: Response, draft: string)
    ensures var asked := GateEvents(valves, reader, interactive, response, draft);
      && InOrder(asked) && (forall i :: 0 <= i < |asked| ==> 2 <= Stage(asked[i]) <= 3)
      && (forall i :: 0 <= i < |asked| && asked[i].Asked? ==> asked[i].shown == reader.strip(draft))
      && (DecisionRecorded(Approved) in asked <==> valves.approval && interactive && Approves(reader, response))
  {
    var asked := GateEvents(valves, reader, interactive, response, draft);
    if valves.approval {
      assert asked[|asked| - 1] == DecisionRecorded(DecisionOf(valves, reader, interactive, response));
    }
  }

  /** Over every run, whatever came from outside: verdict, then decision, then release, each
      at most once; nothing released without the verdict on record and, where it is required,
      an approval on record; and something is released exactly when the approver typed the
      word or nobody has to.
   */
  lemma EveryRunSafe(valves: Valves, req: Request, reader: Reader, interactive: bool, response: Response,
                     work: seq<Event>, recorded: Event, draft: string)
    requires recorded.VerdictRecorded? && forall i :: 0 <= i < |work| ==> Stage(work[i]) == 0
    ensures var es := Record(valves, req, reader, interactive, response, work, recorded, draft);
      && InOrder(es) && Vouched(es, recorded, valves.approval)
      && ((exists i :: 0 <= i < |es| && Releases(es[i])) <==> Cleared(valves, reader, interactive, response))
  {
    var before := BeforeRelease(valves, reader, interactive, response, work, recorded, draft);
    if Cleared(valves, reader, interactive, response) {
      var released := ReleaseEvents(req, reader, draft);
      ReleaseInOrder(req, reader, draft);
      VouchedAfter(before, released, recorded, valves.approval);
      assert Releases((before + released)[|before|]);
    } else {
      assert before + [] == before;
    }
  }

  /** And the one fingerprint recorded is of the very draft the approver was shown. */
  lemma FingerprintOfShown(valves: Valves, req: Request, reader: Reader, interactive: bool, response: Response,
                           work: seq<Event>, recorded: Event, draft: string)
    requires recorded.VerdictRecorded? && forall i :: 0 <= i < |work| ==> Stage(work[i]) == 0
    ensures var es := Record(valves, req, reader, interactive, response, work, recorded, draft);
      forall i, j :: 0 <= i < |es| && 0 <= j < |es| && es[i].Asked? && es[j].ReleaseRecorded? ==>
        es[j].fingerprint == reader.hash(es[i].shown)
  {
    hide InOrder, ReleaseEvents, GateEvents;
    var es := Record(valves, req, reader, interactive, response, work, recorded, draft);
    var before := BeforeRelease(valves, reader, interactive, response, work, recorded, draft);
    var released := if Cleared(valves, reader, interactive, response) then ReleaseEvents(req, reader, draft) else [];
    ReleaseInOrder(req, reader, draft);
    assert es == before + released;
    assert forall i :: 0 <= i < |before| ==> es[i] == before[i];
    assert forall i :: |before| <= i < |es| ==> es[i] == released[i - |before|];
  }

  // ---- What is written was previewed -----------------------------------------

  /** What is added after an answer that plans no changes: the image's section, then the
      sandbox's report.
   */
  function Added(req: Request, reader: Reader, round: Round): string
    requires round.jarvis.Said?
  {
    SectionOf(req)
    + if req.task.Code? && reader.program(Compose(req, reader, round)).Some? && round.report.Reported?
      then RUN_HEAD + round.report.text else ""
  }

  /** The preview stands in the draft: changes were planned and their preview was given, or
      none were and none surface from what is added to the answer.
   */
  predicate PreviewCovers(req: Request, reader: Reader, round: Round)
    requires round.jarvis.Said?
  {
    var answer := reader.tidy(round.jarvis.text);
    || !req.sheet
    || if req.changes != [] || BlockOf(reader, answer) != [] then round.preview.Some?
       else Surfacing(answer, Added(req, reader, round), reader.read) == []
  }

  /** The changes a release writes: those planned, or else what surfaces. */
  lemma ChangesExactly(req: Request, reader: Reader, round: Round)
    requires round.jarvis.Said?
    ensures ChangesToWrite(req, reader, Complete(req, reader, round)) ==
      if !req.sheet || Planned(req, reader, round) != [] then Planned(req, reader, round)
      else Surfacing(reader.tidy(round.jarvis.text), Added(req, reader, round), reader.read)
  {
    hide Block, Surfacing, Compose, Complete, Added, Apart;
    DraftParts(req, reader, round);
    BlockJoined(reader.tidy(round.jarvis.text), Rest(req, reader, round), reader.read);
  }

  /** All that follows the answer: the preview given, and what is added. */
  function Rest(req: Request, reader: Reader, round: Round): string
    requires round.jarvis.Said?
  {
    (if Planned(req, reader, round) != [] && round.preview.Some? then PREVIEW_HEAD + round.preview.value else "")
    + Added(req, reader, round)
  }

  lemma DraftParts(req: Request, reader: Reader, round: Round)
    requires round.jarvis.Said?
    ensures Complete(req, reader, round) == reader.tidy(round.jarvis.text) + Rest(req, reader, round)
    ensures Apart(Rest(req, reader, round))
    ensures Planned(req, reader, round) == [] ==> Rest(req, reader, round) == Added(req, reader, round)
  {
    hide Planned;
    assert PREVIEW_HEAD[0] == BLANK_LINE[0] == RUN_HEAD[0] == NEWLINE;
  }

  /** Every sheet written was previewed, in the draft of the last attempt, with its changes. */
  ghost predicate AllPreviewed(es: seq<Event>, attempt: nat) {
    forall j :: 0 <= j < |es| && es[j].WroteSheet? ==> Previewed(attempt, es[j].changes, true) in es[..j]
  }

  /** The last attempt's previews in the record of the work are that attempt's own. */
  ghost predicate PreviewsOf(work: seq<Event>, req: Request, reader: Reader, attempt: nat, round: Round)
    requires Answered(round)
  {
    forall changes: seq<string> :: Previewed(attempt, changes, true) in work <==>
      Planned(req, reader, round) != [] && changes == Planned(req, reader, round) && round.preview.Some?
  }

  lemma WorkPreviews(
    valves: Valves, req: Request, reader: Reader, rounds: nat -> Round, attempts: nat, verdict: Verdict,
    earlier: seq<Event>, work: seq<Event>)
    requires Answered(rounds(attempts)) && (attempts == 1 ==> earlier == [])
    requires attempts != 1 ==> Answered(rounds(1)) && FirstFailed(req, reader, rounds(1), earlier)
    requires work == earlier + RoundEvents(req, reader, attempts, rounds(attempts))
                     + (if valves.verification then [Judged(attempts, verdict)] else [])
    ensures PreviewsOf(work, req, reader, attempts, rounds(attempts))
  {
    var own := RoundEvents(req, reader, attempts, rounds(attempts));
    assert forall changes: seq<string> :: Previewed(attempts, changes, true) !in earlier;
    forall changes: seq<string>
      ensures Previewed(attempts, changes, true) in work <==> Previewed(attempts, changes, true) in own
    {
    }
  }

  /** Where a record's sheet is written, and with what. */
  lemma SheetWritten(req: Request, reader: Reader, draft: string)
    ensures var es, changes := ReleaseEvents(req, reader, draft), ChangesToWrite(req, reader, draft);
      && (forall i :: 0 <= i < |es| && es[i].WroteSheet? ==> es[i].changes == changes != [])
      && (changes != [] ==> WroteSheet(changes) in es)
  {
  }

  /** In the record of a run, every sheet written was previewed in the draft released, if and
      only if nothing is released or the preview stands in the draft.
   */
  lemma PreviewedExactly(
    valves: Valves, req: Request, reader: Reader, interactive: bool, response: Response,
    work: seq<Event>, recorded: Event, attempt: nat, round: Round)
    requires Answered(round) && PreviewsOf(work, req, reader, attempt, round)
    requires recorded.VerdictRecorded? && forall i :: 0 <= i < |work| ==> Stage(work[i]) == 0
    ensures AllPreviewed(
      Record(valves, req, reader, interactive, response, work, recorded, Complete(req, reader, round)), attempt) <==>
      (Cleared(valves, reader, interactive, response) ==> PreviewCovers(req, reader, round))
  {
    var draft := Complete(req, reader, round);
    var before := BeforeRelease(valves, reader, interactive, response, work, recorded, draft);
    var released := if Cleared(valves, reader, interactive, response) then ReleaseEvents(req, reader, draft) else [];
    ChangesExactly(req, reader, round);
    SheetWritten(req, reader, draft);
    PreviewsBefore(valves, reader, interactive, response, work, recorded, draft, attempt);
    hide ReleaseEvents, GateEvents, Complete, InOrder, Surfacing, ChangesToWrite, BlockOf;
    assert Record(valves, req, reader, interactive, response, work, recorded, draft) == before + released;
    PreviewedIn(before, released, attempt, ChangesToWrite(req, reader, draft));
  }

  lemma PreviewsBefore(
    valves: Valves, reader: Reader, interactive: bool, response: Response, work: seq<Event>, recorded: Event,
    draft: string, attempt: nat)
    requires recorded.VerdictRecorded?
    ensures forall changes: seq<string> ::
      Previewed(attempt, changes, true) in
        work + [recorded] + GateEvents(valves, reader, interactive, response, draft) <==>
      Previewed(attempt, changes, true) in work
  {
  }

  lemma PreviewedIn(before: seq<Event>, released: seq<Event>, attempt: nat, changes: seq<string>)
    requires forall i :: 0 <= i < |before| ==> Stage(before[i]) < 4
    requires forall i :: 0 <= i < |released| ==> Stage(released[i]) >= 4
    requires forall i :: 0 <= i < |released| && released[i].WroteSheet? ==> released[i].changes == changes
    ensures AllPreviewed(before + released, attempt) <==>
      (WroteSheet(changes) in released ==> Previewed(attempt, changes, true) in before)
  {
    var es := before + released;
    forall j | |before| <= j < |es|
      ensures Previewed(attempt, changes, true) in es[..j] <==> Previewed(attempt, changes, true) in before
    {
      assert es[..j] == before + released[..j - |before|];
    }
    assert forall j :: |before| <= j < |es| ==> es[j] == released[j - |before|];
    if WroteSheet(changes) in released {
      var k :| 0 <= k < |released| && released[k] == WroteSheet(changes);
      assert es[|before| + k] == WroteSheet(changes);
    }
  }

  /** A preview that stands in the draft is text of it. */
  lemma PreviewInDraft(req: Request, reader: Reader, round: Round) returns (before: string, after: string)
    requires Answered(round) && Planned(req, reader, round) != [] && round.preview.Some?
    ensures Complete(req, reader, round) == before + round.preview.value + after
  {
    before, after := reader.tidy(round.jarvis.text) + PREVIEW_HEAD, Added(req, reader, round);
  }

  /** A reader for the two failing inputs: a proposal's body is its one change. */
  const SAMPLE := Reader(
    (text: string) => text, (text: string) => [], (text: string) => Some(0), (body: string) => [body],
    (text: string) => [], (text: string) => text, (text: string) => text, (text: string) => text)

  function SampleRound(answer: string, report: SandboxReport): Round {
    var basis := Basis([], {}, {}, {}, {}, {}, (ns: seq<nat>) => "");
    Round(Said(""), Said(answer), None, report, Lines([Passing]), [], [], basis)
  }

  /** The preview refused: the draft is the answer alone, and the changes are written all the same. */
  lemma RefusedPreviewWritten()
    ensures var req, round := Request(Analysis, true, ["D2:=9"], None, [], false), SampleRound("Done.", Absent);
      && Complete(req, SAMPLE, round) == "Done."
      && ChangesToWrite(req, SAMPLE, Complete(req, SAMPLE, round)) == ["D2:=9"]
      && !PreviewCovers(req, SAMPLE, round)
  {
    var req, round := Request(Analysis, true, ["D2:=9"], None, [], false), SampleRound("Done.", Absent);
    assert "Done." + "" + "" == "Done.";
  }

  const STATUS_LINE := "### Sandbox execution: completed"
  const EXIT_LINE := "\n\n- Exit code: 0"
  const STDOUT_HEAD := "\n\n**stdout**\n```\n"

  /** What a report says of a program that printed a proposal. */
  function Printed(body: string): SandboxReport {
    Reported(
      STATUS_LINE + EXIT_LINE + STDOUT_HEAD + OPENING + "\n" + body + FENCE + "\n```", false, false, Exited(0), true)
  }

  /** A proposal printed by the program, whatever it proposes: nothing was planned or shown
      beforehand, and its changes are written.
   */
  lemma PrintedProposalWritten(body: string)
    requires body != "" && BACKQUOTE !in body && !IsSpace(body[0])
    ensures var req, round := Request(Code, true, [], None, [], false), SampleRound("Done.", Printed(body));
      && Planned(req, SAMPLE, round) == []
      && ChangesToWrite(req, SAMPLE, Complete(req, SAMPLE, round)) == [body]
      && !PreviewCovers(req, SAMPLE, round)
  {
    hide Scanned, Block, Surfacing;
    var req, round := Request(Code, true, [], None, [], false), SampleRound("Done.", Printed(body));
    NothingProposed("Done.");
    PrintedBlock(body);
    AfterNothing("Done.", RUN_HEAD + round.report.text, SAMPLE.read);
    assert Added(req, SAMPLE, round) == "" + (RUN_HEAD + round.report.text) == RUN_HEAD + round.report.text;
    ChangesExactly(req, SAMPLE, round);
  }

  lemma AfterNothing(answer: string, added: string, read: string -> seq<string>)
    requires Scanned(Seeking(""), answer).Seeking?
    ensures Block(answer, read) == [] && Surfacing(answer, added, read) == Block(added, read)
  {
  }

  lemma NoFour()
    ensures FOUR !in RUN_HEAD + (STATUS_LINE + EXIT_LINE) + STDOUT_HEAD
  {
    assert FOUR !in RUN_HEAD by { NoFourAbove(); }
    assert FOUR !in STATUS_LINE + EXIT_LINE + STDOUT_HEAD;
  }

  lemma NoFourAbove()
    ensures FOUR !in RUN_HEAD
  {
  }

  lemma Regrouped(a: string, b: string, c: string, d: string, e: string, f: string, g: string, h: string)
    ensures a + (b + c + d + e + f + g + h) == a + b + c + d + e + f + g + h
  {
  }

  lemma PrintedBlock(body: string)
    requires body != "" && BACKQUOTE !in body && !IsSpace(body[0])
    ensures Block(RUN_HEAD + Printed(body).text, SAMPLE.read) == [body]
  {
    hide Scanned;
    NoFour();
    Regrouped(RUN_HEAD, STATUS_LINE + EXIT_LINE, STDOUT_HEAD, OPENING, "\n", body, FENCE, "\n```");
    WholeProposal(RUN_HEAD + (STATUS_LINE + EXIT_LINE) + STDOUT_HEAD, body, "\n```");
  }
}
