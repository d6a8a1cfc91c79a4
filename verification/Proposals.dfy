/** The workbook changes a text proposes: the body of its first fenced proposal, which
    `_SHEET_BLOCK` searches for. The search is given twice, by the positions its pattern
    matches and as a scan of the text, one character after another. What is added to a text
    can close a proposal it left open, or bring the first one.
 */
module Proposals {
  import opened Options

  const OPENING := "```4ce-sheet"
  const FENCE := "```"
  const NEWLINE := '\n'
  const BACKQUOTE := '`'
  const FOUR := '4'

  /** What the pattern's `\s` matches. */
  predicate IsSpace(ch: char) {
    var n := ch as int;
    || n == 0x20 || 9 <= n <= 13 || 28 <= n <= 31 || n == 0x85 || n == 0xa0 || n == 0x1680
    || 0x2000 <= n <= 0x200a || n == 0x2028 || n == 0x2029 || n == 0x202f || n == 0x205f || n == 0x3000
  }

  // ---- The search, by positions ----------------------------------------------

  predicate At(s: string, i: nat, part: string) {
    i + |part| <= |s| && s[i..i + |part|] == part
  }

  /** An opening at i whose body may begin at b: whitespace between, its last a newline. */
  ghost predicate Opens(s: string, i: nat, b: nat) {
    && At(s, i, OPENING) && i + 12 < b <= |s| && s[b - 1] == '\n'
    && forall j :: i + 12 <= j < b ==> IsSpace(s[j])
  }

  /** The whitespace taken is as long as can be. */
  ghost predicate Starts(s: string, i: nat, b: nat) {
    Opens(s, i, b) && forall c: nat :: b < c ==> !Opens(s, i, c)
  }

  /** The first fence from b on. */
  ghost predicate Closes(s: string, b: nat, e: nat) {
    b <= e && At(s, e, FENCE) && forall f: nat :: b <= f < e ==> !At(s, f, FENCE)
  }

  ghost predicate Match(s: string, i: nat, b: nat, e: nat) {
    Starts(s, i, b) && Closes(s, b, e)
  }

  /** The leftmost match. */
  ghost predicate Search(s: string, i: nat, b: nat, e: nat) {
    Match(s, i, b, e) && forall h: nat, c: nat, d: nat :: h < i ==> !Match(s, h, c, d)
  }

  // ---- The search, as a scan -------------------------------------------------

  /** Where the scan stands: no opening yet, just after one, in the whitespace after its
      newline, in the body, or at its end.
   */
  datatype Seek =
    | Seeking(text: string)
    | Opened(text: string)
    | Leading(body: string)
    | Inside(body: string)
    | Found(body: string)

  predicate Ends(s: string, part: string) {
    |part| <= |s| && s[|s| - |part|..] == part
  }

  function Step(p: Seek, ch: char): Seek {
    match p
    case Seeking(text) => if Ends(text + [ch], OPENING) then Opened(text + [ch]) else Seeking(text + [ch])
    case Opened(text) =>
      if ch == '\n' then Leading("") else if IsSpace(ch) then Opened(text + [ch]) else Seeking(text + [ch])
    case Leading(body) =>
      if ch == '\n' then Leading("") else if IsSpace(ch) then Leading(body + [ch]) else Inside(body + [ch])
    case Inside(body) => if Ends(body + [ch], FENCE) then Found((body + [ch])[..|body| - 2]) else Inside(body + [ch])
    case Found(_) => p
  }

  function Scanned(p: Seek, s: string): Seek {
    if s == "" then p else Step(Scanned(p, s[..|s| - 1]), s[|s| - 1])
  }

  /** `_sheet_block`: the changes of the first proposal, as far as it can be read. */
  function Block(s: string, read: string -> seq<string>): seq<string> {
    match Scanned(Seeking(""), s)
    case Found(body) => read(body)
    case _ => []
  }

  // ---- The scan is the search ------------------------------------------------

  /** An opening with nothing after it but whitespace, and no newline. */
  ghost predicate Bare(s: string, i: nat) {
    At(s, i, OPENING) && forall j :: i + 12 <= j < |s| ==> IsSpace(s[j]) && s[j] != '\n'
  }

  ghost predicate NoneOpens(s: string, n: nat) {
    forall i: nat, b: nat :: i < n ==> !Opens(s, i, b)
  }

  ghost predicate LeadingAt(s: string, i: nat, b: nat) {
    && Opens(s, i, b) && NoneOpens(s, i)
    && forall j :: b <= j < |s| ==> IsSpace(s[j]) && s[j] != '\n'
  }

  ghost predicate InsideAt(s: string, i: nat, b: nat) {
    && Starts(s, i, b) && NoneOpens(s, i)
    && (exists j :: b <= j < |s| && !IsSpace(s[j])) && forall f: nat :: b <= f ==> !At(s, f, FENCE)
  }

  ghost predicate FoundAt(s: string, i: nat, b: nat, e: nat) {
    Starts(s, i, b) && NoneOpens(s, i) && Closes(s, b, e)
  }

  /** What the scan knows of the text so far. */
  ghost predicate Knows(s: string, p: Seek) {
    match p
    case Seeking(text) => text == s && NoneOpens(s, |s|) && forall i: nat :: !Bare(s, i)
    case Opened(text) => text == s && NoneOpens(s, |s|) && exists i: nat :: Bare(s, i)
    case Leading(body) => exists i: nat, b: nat :: LeadingAt(s, i, b) && body == s[b..]
    case Inside(body) => exists i: nat, b: nat :: InsideAt(s, i, b) && body == s[b..]
    case Found(body) => exists i: nat, b: nat, e: nat :: FoundAt(s, i, b, e) && body == s[b..e]
  }

  /** What an opening's characters are. */
  lemma OpeningChars(s: string, i: nat)
    ensures At(s, i, OPENING) ==>
      && At(s, i, FENCE) && s[i] == '`' && !IsSpace(s[i]) && s[i + 3] == '4'
      && forall j :: i + 3 <= j < i + 12 ==> s[j] != '`'
  {
    if At(s, i, OPENING) {
      var a := s[i..i + 12];
      assert a[..3] == s[i..i + 3] && OPENING[..3] == FENCE;
      assert forall j :: i <= j < i + 12 ==> s[j] == a[j - i];
    }
  }

  /** Two openings do not overlap. */
  lemma Overlap(s: string, h: nat, i: nat)
    ensures At(s, h, OPENING) && At(s, i, OPENING) && h < i ==> i >= h + 12
  {
    OpeningChars(s, h);
    OpeningChars(s, i);
    if At(s, i, OPENING) { assert s[i..i + 12][1] == s[i + 1] && s[i..i + 12][2] == s[i + 2]; }
  }

  lemma FenceStarts(s: string, f: nat)
    ensures At(s, f, FENCE) ==> s[f] == '`' && !IsSpace(s[f])
  {
    if At(s, f, FENCE) { assert s[f..f + 3][0] == s[f]; }
  }

  lemma AtMore(s: string, ch: char, i: nat, part: string)
    ensures i + |part| <= |s| ==> (At(s + [ch], i, part) <==> At(s, i, part))
    ensures part != "" && i + |part| == |s| + 1 ==> (At(s + [ch], i, part) <==> Ends(s + [ch], part))
  {
    if i + |part| <= |s| { assert (s + [ch])[i..i + |part|] == s[i..i + |part|]; }
  }

  /** One more character: the openings there were, and one that a newline completes. */
  lemma OpensMore(s: string, ch: char, i: nat, b: nat)
    ensures b <= |s| ==> (Opens(s + [ch], i, b) <==> Opens(s, i, b))
    ensures Opens(s + [ch], i, |s| + 1) <==>
      ch == '\n' && At(s, i, OPENING) && forall j :: i + 12 <= j < |s| ==> IsSpace(s[j])
    ensures b > |s| + 1 ==> !Opens(s + [ch], i, b)
  {
    AtMore(s, ch, i, OPENING);
    assert (s + [ch])[|s|] == ch && forall j :: 0 <= j < |s| ==> (s + [ch])[j] == s[j];
  }

  lemma StillNone(s: string, ch: char, n: nat)
    requires n <= |s| && NoneOpens(s, n)
    requires ch == '\n' ==>
      forall h: nat :: h < n && At(s, h, OPENING) ==> exists j :: h + 12 <= j < |s| && !IsSpace(s[j])
    ensures NoneOpens(s + [ch], n)
  {
    forall i: nat, b: nat | i < n ensures !Opens(s + [ch], i, b) { OpensMore(s, ch, i, b); }
  }

  /** Before an opening, none is followed by whitespace alone. */
  lemma Separated(s: string, h: nat, i: nat)
    ensures At(s, h, OPENING) && At(s, i, OPENING) && h < i ==> exists j :: h + 12 <= j < |s| && !IsSpace(s[j])
  {
    Overlap(s, h, i);
    OpeningChars(s, i);
  }

  /** A newline completes an opening left bare, or lengthens one. */
  lemma NewOpening(s: string, ch: char, i: nat)
    ensures Opens(s + [ch], i, |s| + 1) ==> Bare(s, i) || exists b: nat :: Opens(s, i, b)
  {
    OpensMore(s, ch, i, |s| + 1);
    if Opens(s + [ch], i, |s| + 1) {
      if j :| i + 12 <= j < |s| && s[j] == '\n' { assert Opens(s, i, j + 1); } else { assert Bare(s, i); }
    }
  }

  lemma SeekingStep(s: string, ch: char)
    requires Knows(s, Seeking(s))
    ensures Knows(s + [ch], Step(Seeking(s), ch))
  {
    var t := s + [ch];
    forall i: nat, b: nat | i < |t| ensures !Opens(t, i, b) {
      OpensMore(s, ch, i, b);
      NewOpening(s, ch, i);
    }
    forall i: nat ensures Bare(t, i) ==> Ends(t, OPENING) && i + 12 == |t| {
      AtMore(s, ch, i, OPENING);
      if Bare(t, i) && i + 12 <= |s| {
        assert forall j :: i + 12 <= j < |s| ==> t[j] == s[j];
        assert Bare(s, i);
      }
    }
    if Ends(t, OPENING) {
      AtMore(s, ch, |t| - 12, OPENING);
      assert Bare(t, |t| - 12);
    }
  }

  lemma OpenedStep(s: string, ch: char)
    requires Knows(s, Opened(s))
    ensures Knows(s + [ch], Step(Opened(s), ch))
  {
    var t := s + [ch];
    var i: nat :| Bare(s, i);
    AtMore(s, ch, i, OPENING);
    assert t[|s|] == ch && forall j :: 0 <= j < |s| ==> t[j] == s[j];
    if ch == '\n' {
      OpensMore(s, ch, i, |t|);
      forall h: nat | h < i && At(s, h, OPENING) ensures exists j :: h + 12 <= j < |s| && !IsSpace(s[j]) {
        Separated(s, h, i);
      }
      StillNone(s, ch, i);
      assert LeadingAt(t, i, |t|);
    } else {
      StillNone(s, ch, |s|);
      forall b: nat ensures !Opens(t, |s|, b) {}
      if IsSpace(ch) {
        assert Bare(t, i);
      } else {
        forall k: nat ensures !Bare(t, k) {
          AtMore(s, ch, k, OPENING);
          if At(t, k, OPENING) && k + 12 > |s| {
            Overlap(t, i, k);
            OpeningChars(t, k);
          }
        }
      }
    }
  }

  lemma LeadingStep(s: string, ch: char, i: nat, b: nat)
    requires LeadingAt(s, i, b)
    ensures Knows(s + [ch], Step(Leading(s[b..]), ch))
  {
    var t := s + [ch];
    OpensMore(s, ch, i, b);
    forall h: nat | h < i && At(s, h, OPENING) ensures exists j :: h + 12 <= j < |s| && !IsSpace(s[j]) {
      Separated(s, h, i);
    }
    StillNone(s, ch, i);
    if ch == '\n' {
      OpensMore(s, ch, i, |t|);
      assert LeadingAt(t, i, |t|);
    } else if IsSpace(ch) {
      assert LeadingAt(t, i, b) && t[b..] == s[b..] + [ch];
    } else {
      forall c: nat | b < c ensures !Opens(t, i, c) { OpensMore(s, ch, i, c); }
      forall f: nat | b <= f ensures !At(t, f, FENCE) { FenceStarts(t, f); }
      assert InsideAt(t, i, b) && t[b..] == s[b..] + [ch];
    }
  }

  lemma StartsMore(s: string, ch: char, i: nat, b: nat)
    requires Starts(s, i, b) && NoneOpens(s, i) && exists j :: b <= j < |s| && !IsSpace(s[j])
    ensures Starts(s + [ch], i, b) && NoneOpens(s + [ch], i)
  {
    forall c: nat ensures b <= c ==> (Opens(s + [ch], i, c) <==> c == b) { OpensMore(s, ch, i, c); }
    forall h: nat | h < i && At(s, h, OPENING) ensures exists j :: h + 12 <= j < |s| && !IsSpace(s[j]) {
      Separated(s, h, i);
    }
    StillNone(s, ch, i);
  }

  /** One more character of a body without a fence: it completes one, or there is still none. */
  lemma FenceMore(s: string, ch: char, b: nat)
    requires b <= |s| && forall f: nat :: b <= f ==> !At(s, f, FENCE)
    ensures var t, body := s + [ch], s[b..];
      && t[b..] == body + [ch]
      && (Ends(body + [ch], FENCE) ==>
            |t| >= b + 3 && Closes(t, b, |t| - 3) && (body + [ch])[..|body| - 2] == t[b..|t| - 3])
      && (!Ends(body + [ch], FENCE) ==> forall f: nat :: b <= f ==> !At(t, f, FENCE))
  {
    var t, body := s + [ch], s[b..];
    forall f: nat | b <= f
      ensures f + 3 < |t| ==> !At(t, f, FENCE)
      ensures f + 3 == |t| ==> (At(t, f, FENCE) <==> Ends(body + [ch], FENCE))
    {
      AtMore(s, ch, f, FENCE);
      if f + 3 == |t| { assert (body + [ch])[|body| - 2..] == t[f..f + 3]; }
    }
  }

  lemma InsideStep(s: string, ch: char, i: nat, b: nat)
    requires InsideAt(s, i, b)
    ensures Knows(s + [ch], Step(Inside(s[b..]), ch))
  {
    var t, body := s + [ch], s[b..];
    StartsMore(s, ch, i, b);
    FenceMore(s, ch, b);
    hide Starts, NoneOpens, At, Closes, IsSpace, Ends;
    if Ends(body + [ch], FENCE) {
      assert FoundAt(t, i, b, |t| - 3);
    } else {
      var j :| b <= j < |s| && !IsSpace(s[j]);
      assert t[j] == s[j];
      assert InsideAt(t, i, b);
    }
  }

  lemma FoundStep(s: string, ch: char, i: nat, b: nat, e: nat)
    requires FoundAt(s, i, b, e)
    ensures Knows(s + [ch], Step(Found(s[b..e]), ch))
  {
    var t := s + [ch];
    assert s[e..e + 3][0] == s[e] && !IsSpace(s[e]);
    StartsMore(s, ch, i, b);
    forall f: nat | f <= e ensures At(t, f, FENCE) <==> At(s, f, FENCE) { AtMore(s, ch, f, FENCE); }
    assert FoundAt(t, i, b, e) && t[b..e] == s[b..e];
  }

  lemma {:induction false} ScanKnows(s: string)
    ensures Knows(s, Scanned(Seeking(""), s))
  {
    if s != "" {
      var front, ch := s[..|s| - 1], s[|s| - 1];
      ScanKnows(front);
      assert s == front + [ch];
      match Scanned(Seeking(""), front)
      case Seeking(_) => SeekingStep(front, ch);
      case Opened(_) => OpenedStep(front, ch);
      case Leading(body) =>
        var i: nat, b: nat :| LeadingAt(front, i, b) && body == front[b..];
        LeadingStep(front, ch, i, b);
      case Inside(body) =>
        var i: nat, b: nat :| InsideAt(front, i, b) && body == front[b..];
        InsideStep(front, ch, i, b);
      case Found(body) =>
        var i: nat, b: nat, e: nat :| FoundAt(front, i, b, e) && body == front[b..e];
        FoundStep(front, ch, i, b, e);
    }
  }

  /** Past an opening not closed there is no match either: a later opening would close it. */
  lemma UnclosedEverywhere(s: string, h: nat, c: nat, i: nat, b: nat, e: nat)
    requires LeadingAt(s, h, c) || InsideAt(s, h, c)
    ensures !Match(s, i, b, e)
  {
    FenceStarts(s, e);
    Separated(s, h, i);
    Overlap(s, h, i);
    OpeningChars(s, i);
  }

  lemma NoMatch(s: string, p: Seek, i: nat, b: nat, e: nat)
    requires Knows(s, p) && !p.Found?
    ensures !Match(s, i, b, e)
  {
    match p
    case Leading(body) =>
      var h: nat, c: nat :| LeadingAt(s, h, c) && body == s[c..];
      UnclosedEverywhere(s, h, c, i, b, e);
    case Inside(body) =>
      var h: nat, c: nat :| InsideAt(s, h, c) && body == s[c..];
      UnclosedEverywhere(s, h, c, i, b, e);
    case _ =>
  }

  /** The scan finds what the pattern matches first, and nothing when it matches nowhere. */
  lemma ScanExactly(s: string)
    ensures forall i: nat, b: nat, e: nat :: Search(s, i, b, e) ==> Scanned(Seeking(""), s) == Found(s[b..e])
    ensures Scanned(Seeking(""), s).Found? <==> exists i: nat, b: nat, e: nat :: Search(s, i, b, e)
  {
    var p := Scanned(Seeking(""), s);
    ScanKnows(s);
    if p.Found? {
      var i: nat, b: nat, e: nat :| FoundAt(s, i, b, e) && p.body == s[b..e];
      assert Search(s, i, b, e);
      forall h: nat, c: nat, d: nat | Search(s, h, c, d) ensures h == i && c == b && d == e {}
    } else {
      forall i: nat, b: nat, e: nat ensures !Match(s, i, b, e) { NoMatch(s, p, i, b, e); }
    }
  }

  // ---- A text and what is added to it ----------------------------------------

  lemma {:induction false} ScannedJoined(p: Seek, a: string, b: string)
    ensures Scanned(p, a + b) == Scanned(Scanned(p, a), b)
  {
    if b == "" {
      assert a + b == a;
    } else {
      ScannedJoined(p, a, b[..|b| - 1]);
      assert (a + b)[..|a + b| - 1] == a + b[..|b| - 1];
    }
  }

  /** Once found, a proposal is the one read, whatever follows. */
  lemma {:induction false} FoundStays(body: string, s: string)
    ensures Scanned(Found(body), s) == Found(body)
  {
    if s != "" { FoundStays(body, s[..|s| - 1]); }
  }

  /** The first fence. */
  function FirstFence(s: string): Option<nat> {
    if s == "" then None
    else
      match FirstFence(s[..|s| - 1])
      case Some(e) => Some(e)
      case None => if Ends(s, FENCE) then Some(|s| - 3) else None
  }

  /** Where the first fence is, or that there is none. */
  ghost predicate FirstAt(s: string, r: Option<nat>) {
    match r case Some(e) => Closes(s, 0, e) case None => forall f: nat :: !At(s, f, FENCE)
  }

  lemma FirstFenceStep(front: string, ch: char)
    ensures FirstFence(front + [ch]) ==
      if FirstFence(front).Some? then FirstFence(front)
      else if Ends(front + [ch], FENCE) then Some(|front| - 2)
      else None
  {
    assert (front + [ch])[..|front|] == front;
  }

  lemma {:induction false} FirstFenceExactly(s: string)
    ensures FirstAt(s, FirstFence(s))
  {
    if s != "" {
      hide FirstFence, FirstAt, Ends;
      var front, ch := s[..|s| - 1], s[|s| - 1];
      FirstFenceExactly(front);
      FenceSoFar(front, ch, FirstFence(front));
      FirstFenceStep(front, ch);
      assert s == front + [ch];
    }
  }

  lemma FenceSoFar(front: string, ch: char, r: Option<nat>)
    requires FirstAt(front, r)
    ensures var s := front + [ch];
      FirstAt(s, if r.Some? then r else if Ends(s, FENCE) then Some(|s| - 3) else None)
  {
    var s := front + [ch];
    forall f: nat
      ensures f + 3 <= |front| ==> (At(s, f, FENCE) <==> At(front, f, FENCE))
      ensures f + 3 == |s| ==> (At(s, f, FENCE) <==> Ends(s, FENCE))
      ensures At(s, f, FENCE) ==> f + 3 <= |s|
      ensures At(front, f, FENCE) ==> f + 3 <= |front|
    {
      AtMore(front, ch, f, FENCE);
    }
    if Ends(s, FENCE) { assert |s| >= 3; }
    hide At, Ends;
  }

  /** Set apart from what it is added to: nothing, or beginning on a line of its own. */
  predicate Apart(added: string) {
    added == "" || added[0] == NEWLINE
  }

  /** No fence and no opening runs across the line break. */
  lemma EndsApart(text: string, added: string, part: string)
    requires added != "" && added[0] == NEWLINE && NEWLINE !in part && part != ""
    ensures Ends(text + added, part) <==> Ends(added, part)
  {
    var s := text + added;
    if |part| <= |added| {
      assert s[|s| - |part|..] == added[|added| - |part|..];
    } else if |part| <= |s| {
      assert s[|s| - |part|..][|part| - |added|] == NEWLINE;
    }
  }

  function Upto(s: string, n: nat): string {
    if n <= |s| then s[..n] else s
  }

  /** A body with a text added to it, the first fence of which is given. */
  function Ended(body: string, added: string, r: Option<nat>): Seek {
    match r
    case Some(e) => Found(body + Upto(added, e))
    case None => Inside(body + added)
  }

  /** A body left open takes in what follows, up to its first fence. */
  lemma {:induction false} InsideEnds(body: string, added: string)
    requires Apart(added)
    ensures FirstFence(added).Some? ==> FirstFence(added).value <= |added|
    ensures Scanned(Inside(body), added) == Ended(body, added, FirstFence(added))
  {
    if added == "" {
      assert body + added == body;
    } else {
      hide Scanned, Step, Ends, IsSpace, FirstFence, Ended;
      var front, ch := added[..|added| - 1], added[|added| - 1];
      InsideEnds(body, front);
      FirstFenceStep(front, ch);
      InsideMore(body, front, ch, FirstFence(front));
      assert front + [ch] == added;
    }
  }

  lemma InsideMore(body: string, front: string, ch: char, r: Option<nat>)
    requires (front + [ch])[0] == NEWLINE && (r.Some? ==> r.value <= |front|)
    ensures Ends(front + [ch], FENCE) ==> |front| >= 2
    ensures Step(Ended(body, front, r), ch) == Ended(body, front + [ch],
      if r.Some? then r else if Ends(front + [ch], FENCE) then Some(|front| - 2) else None)
  {
    hide IsSpace;
    var added := front + [ch];
    EndsApart(body, added, FENCE);
    assert body + front + [ch] == body + added;
    if r.Some? { assert added[..r.value] == front[..r.value]; }
    hide Ends;
  }

  /** The same scan, with other text before it. */
  function After(text: string, p: Seek): Seek {
    match p
    case Seeking(t) => Seeking(text + t)
    case Opened(t) => Opened(text + t)
    case _ => p
  }

  /** What went before an opening does not matter. */
  lemma {:induction false} SeekingForgets(text: string, added: string)
    requires Apart(added)
    ensures Scanned(Seeking(text), added) == After(text, Scanned(Seeking(""), added))
  {
    if added == "" {
      assert text + "" == text;
    } else {
      var front, ch := added[..|added| - 1], added[|added| - 1];
      SeekingForgets(text, front);
      TextKept(front);
      EndsApart(text, added, OPENING);
      assert front + [ch] == added && text + front + [ch] == text + added;
      hide IsSpace, Ends;
    }
  }

  lemma TextKept(s: string)
    ensures var p := Scanned(Seeking(""), s); p.Seeking? || p.Opened? ==> p.text == s
  {
    ScanKnows(s);
  }

  /** What the text added after an answer makes of an answer that proposes nothing readable:
      nothing, after a proposal that cannot be read; its own first proposal, after none; the
      body of an opening left bare; and, after a body left open, that body and its own text up
      to the first fence.
   */
  function Surfacing(answer: string, added: string, read: string -> seq<string>): seq<string> {
    match Scanned(Seeking(""), answer)
    case Found(_) => []
    case Seeking(_) => Block(added, read)
    case Opened(_) => Block(OPENING + added, read)
    case Leading(_) => Block(OPENING + added, read)
    case Inside(body) => (match FirstFence(added) case Some(e) => read(body + Upto(added, e)) case None => [])
  }

  /** An opening left bare is completed by the line break. */
  lemma BareOpening(added: string)
    requires Apart(added)
    ensures Scanned(Seeking(""), OPENING + added) == Scanned(Opened(OPENING), added)
  {
    ScannedJoined(Seeking(""), OPENING, added);
    ScanKnows(OPENING);
    assert Bare(OPENING, 0);
    forall i: nat, b: nat ensures !Opens(OPENING, i, b) {}
  }

  /** From its line break on, a scan just after an opening is one in its whitespace. */
  lemma LineBreak(p: Seek, q: Seek, added: string)
    requires (p.Opened? || p.Leading?) && (q.Opened? || q.Leading?) && added != "" && added[0] == NEWLINE
    ensures Scanned(p, added) == Scanned(q, added)
  {
    var first, rest := added[..1], added[1..];
    assert added == first + rest && first == [NEWLINE] && first[..0] == "";
    ScannedJoined(p, first, rest);
    ScannedJoined(q, first, rest);
    assert Scanned(p, first) == Step(p, NEWLINE) == Leading("");
    assert Scanned(q, first) == Step(q, NEWLINE) == Leading("");
  }

  /** The first proposal of an answer and what is added to it. */
  lemma BlockJoined(answer: string, added: string, read: string -> seq<string>)
    requires Apart(added)
    ensures Block(answer + added, read) ==
      if Block(answer, read) != [] then Block(answer, read) else Surfacing(answer, added, read)
  {
    var p := Scanned(Seeking(""), answer);
    ScannedJoined(Seeking(""), answer, added);
    match p
    case Found(body) => FoundStays(body, added);
    case Seeking(text) => SeekingForgets(text, added);
    case Inside(body) => InsideEnds(body, added);
    case _ =>
      BareOpening(added);
      if added != "" { LineBreak(p, Opened(OPENING), added); }
  }

  /** A proposal in full, with no 4 before it and no backquote in it, is the one found. */
  lemma WholeProposal(before: string, body: string, after: string)
    requires FOUR !in before && body != "" && BACKQUOTE !in body && !IsSpace(body[0])
    ensures Scanned(Seeking(""), before + OPENING + "\n" + body + FENCE + after) == Found(body)
  {
    var s := before + OPENING + "\n" + body + FENCE + after;
    var i, b, e := |before|, |before| + 13, |before| + 13 + |body|;
    assert s[i..i + 12] == OPENING && s[e..e + 3] == FENCE && s[b..e] == body;
    assert Opens(s, i, b) && s[b] == body[0];
    forall f: nat | b <= f < e ensures !At(s, f, FENCE) {
      FenceStarts(s, f);
      assert s[f] == body[f - b];
    }
    forall h: nat | h < i ensures !At(s, h, OPENING) {
      OpeningChars(s, h);
      assert h + 3 < i ==> s[h + 3] == before[h + 3];
      assert h + 3 >= i ==> s[h + 3] == OPENING[h + 3 - i];
    }
    assert Search(s, i, b, e);
    ScanExactly(s);
  }

  /** A text without a 4 proposes nothing. */
  lemma NothingProposed(s: string)
    requires FOUR !in s
    ensures Scanned(Seeking(""), s) == Seeking(s)
  {
    ScanKnows(s);
    forall i: nat ensures !At(s, i, OPENING) { OpeningChars(s, i); }
  }
}
