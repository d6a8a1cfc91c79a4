/** What a second draft changed, sentence by sentence, and which change answers which
    objection. Sentences are named by their position; how alike two are, whether they differ
    only in punctuation and case, and how well a change answers an objection are given.
 */
module Revision {
  import opened Options

  /** A stretch of the comparison: positions [i1, i2) of the first draft against [j1, j2) of
      the second.
   */
  datatype Stretch = Stretch(equal: bool, i1: nat, i2: nat, j1: nat, j2: nat)

  datatype Judge = Judge(ratio: (nat, nat) -> real, same: (nat, nat) -> bool)

  /** A sentence removed, added, or reworded; a silent one is a rewording in nothing but
      punctuation and case, which is not listed.
   */
  datatype Change = Change(removed: Option<nat>, added: Option<nat>, silent: bool)

  ghost predicate IsScript(ops: seq<Stretch>) {
    && (forall t :: 0 <= t < |ops| ==> ops[t].i1 <= ops[t].i2 && ops[t].j1 <= ops[t].j2)
    && (forall t, u :: 0 <= t < u < |ops| ==> ops[t].i2 <= ops[u].i1 && ops[t].j2 <= ops[u].j1)
  }

  ghost predicate Takes(cs: seq<Change>, i: nat) {
    exists t :: 0 <= t < |cs| && cs[t].removed == Some(i)
  }

  ghost predicate Gives(cs: seq<Change>, k: nat) {
    exists t :: 0 <= t < |cs| && cs[t].added == Some(k)
  }

  /** No sentence is in two changes. */
  ghost predicate Once(cs: seq<Change>) {
    && (forall t, u :: 0 <= t < u < |cs| && cs[t].removed.Some? ==> cs[t].removed != cs[u].removed)
    && (forall t, u :: 0 <= t < u < |cs| && cs[t].added.Some? ==> cs[t].added != cs[u].added)
  }

  /** Pairs are alike enough, silent exactly when the same but for punctuation and case. */
  ghost predicate Fair(c: Change, judge: Judge) {
    && (c.removed.Some? || c.added.Some?)
    && (c.removed.Some? && c.added.Some? ==>
          judge.ratio(c.removed.value, c.added.value) >= 0.45 &&
          (c.silent <==> judge.same(c.removed.value, c.added.value)))
    && (c.removed.None? || c.added.None? ==> !c.silent)
  }

  /** Everything in the stretch is in a change, and nothing else is. */
  ghost predicate Covers(cs: seq<Change>, i1: nat, i2: nat, j1: nat, j2: nat) {
    (forall i: nat :: Takes(cs, i) <==> i1 <= i < i2) && (forall k: nat :: Gives(cs, k) <==> j1 <= k < j2)
  }

  /** The added sentence most like a removed one, of those not taken; the first of equals. */
  method MostAlike(judge: Judge, gone: nat, j1: nat, j2: nat, used: set<nat>) returns (best: Option<nat>)
    requires j1 <= j2
    ensures best.Some? ==> j1 <= best.value < j2 && best.value !in used && judge.ratio(gone, best.value) >= 0.45
    ensures best.Some? ==>
      forall k :: j1 <= k < j2 && k !in used ==> judge.ratio(gone, k) <= judge.ratio(gone, best.value)
    ensures best.Some? ==>
      forall k :: j1 <= k < best.value && k !in used ==> judge.ratio(gone, k) < judge.ratio(gone, best.value)
    ensures best.None? ==> forall k :: j1 <= k < j2 && k !in used ==> judge.ratio(gone, k) < 0.45
  {
    best := None;
    var score := 0.0;
    for k := j1 to j2
      invariant best.Some? ==>
        j1 <= best.value < k && best.value !in used && score == judge.ratio(gone, best.value) > 0.0
      invariant best.None? ==> score == 0.0
      invariant best.Some? ==> forall l :: j1 <= l < best.value && l !in used ==> judge.ratio(gone, l) < score
      invariant forall l :: j1 <= l < k && l !in used ==> judge.ratio(gone, l) <= score
    {
      if k !in used && judge.ratio(gone, k) > score {
        best, score := Some(k), judge.ratio(gone, k);
      }
    }
    if score < 0.45 { best := None; }
  }

  /** The removed sentences of a stretch, each paired or not. */
  ghost predicate Paired(cs: seq<Change>, used: set<nat>, judge: Judge, i1: nat, n: nat, j1: nat, j2: nat) {
    && |cs| == n
    && (forall t :: 0 <= t < n ==> cs[t].removed == Some(i1 + t) && Fair(cs[t], judge))
    && (forall t :: 0 <= t < n && cs[t].added.Some? ==> cs[t].added.value in used)
    && (forall k :: k in used ==> j1 <= k < j2 && Gives(cs, k))
    && (forall t, u :: 0 <= t < u < n && cs[t].added.Some? ==> cs[t].added != cs[u].added)
  }

  /** No removed sentence is left beside an added one alike enough to be its rewording. */
  ghost predicate NoneMissed(cs: seq<Change>, used: set<nat>, judge: Judge, i1: nat, j1: nat, j2: nat) {
    forall t, k :: 0 <= t < |cs| && cs[t].added.None? && j1 <= k < j2 && k !in used ==> judge.ratio(i1 + t, k) < 0.45
  }

  /** Each pair was the closest left: whatever is more alike was paired with an earlier sentence. */
  ghost predicate Greedy(cs: seq<Change>, judge: Judge, i1: nat, j1: nat, j2: nat) {
    forall t, k :: 0 <= t < |cs| && cs[t].added.Some? && j1 <= k < j2 ==>
      judge.ratio(i1 + t, k) > judge.ratio(i1 + t, cs[t].added.value) ==> Gives(cs[..t], k)
  }

  lemma GreedyMore(cs: seq<Change>, c: Change, used: set<nat>, judge: Judge, i1: nat, j1: nat, j2: nat)
    requires Greedy(cs, judge, i1, j1, j2) && forall k :: k in used ==> Gives(cs, k)
    requires c.added.Some? ==>
      forall k :: j1 <= k < j2 && k !in used ==> judge.ratio(i1 + |cs|, k) <= judge.ratio(i1 + |cs|, c.added.value)
    ensures Greedy(cs + [c], judge, i1, j1, j2)
  {
    hide Gives;
    assert forall t :: 0 <= t < |cs| ==> (cs + [c])[t] == cs[t] && (cs + [c])[..t] == cs[..t];
    assert (cs + [c])[|cs|] == c && (cs + [c])[..|cs|] == cs;
  }

  lemma GivesMore(cs: seq<Change>, c: Change, k: nat)
    ensures Gives(cs + [c], k) <==> Gives(cs, k) || c.added == Some(k)
    ensures Takes(cs + [c], k) <==> Takes(cs, k) || c.removed == Some(k)
  {
    var more := cs + [c];
    assert more[|cs|] == c;
    assert forall t :: 0 <= t < |cs| ==> more[t] == cs[t];
  }

  method PairRemoved(judge: Judge, i1: nat, i2: nat, j1: nat, j2: nat) returns (cs: seq<Change>, used: set<nat>)
    requires i1 <= i2 && j1 <= j2
    ensures Paired(cs, used, judge, i1, i2 - i1, j1, j2) && NoneMissed(cs, used, judge, i1, j1, j2)
    ensures Greedy(cs, judge, i1, j1, j2)
  {
    cs, used := [], {};
    for i := i1 to i2
      invariant Paired(cs, used, judge, i1, i - i1, j1, j2) && NoneMissed(cs, used, judge, i1, j1, j2)
      invariant Greedy(cs, judge, i1, j1, j2)
    {
      var best := MostAlike(judge, i, j1, j2, used);
      match best
      case Some(k) =>
        var c := Change(Some(i), Some(k), judge.same(i, k));
        forall l ensures Gives(cs + [c], l) <==> Gives(cs, l) || l == k { GivesMore(cs, c, l); }
        GreedyMore(cs, c, used, judge, i1, j1, j2);
        cs, used := cs + [c], used + {k};
      case None =>
        var c := Change(Some(i), None, false);
        forall l ensures Gives(cs + [c], l) <==> Gives(cs, l) { GivesMore(cs, c, l); }
        GreedyMore(cs, c, used, judge, i1, j1, j2);
        cs := cs + [c];
    }
  }

  /** What is left unpaired on both sides of a stretch is too different to pair. */
  ghost predicate Thorough(cs: seq<Change>, judge: Judge) {
    forall t, u :: 0 <= t < |cs| && 0 <= u < |cs| && OnlyRemoved(cs[t]) && OnlyAdded(cs[u]) ==>
      judge.ratio(cs[t].removed.value, cs[u].added.value) < 0.45
  }

  predicate OnlyRemoved(c: Change) { c.removed.Some? && c.added.None? }
  predicate OnlyAdded(c: Change) { c.added.Some? && c.removed.None? }

  ghost predicate Sound(cs: seq<Change>, judge: Judge) {
    Once(cs) && forall t :: 0 <= t < |cs| ==> Fair(cs[t], judge)
  }

  /** The pairs, then the added sentences nothing was paired with. */
  ghost predicate Leftover(cs: seq<Change>, paired: seq<Change>, used: set<nat>, j1: nat, k: nat) {
    && |paired| <= |cs| && cs[..|paired|] == paired
    && (forall t :: |paired| <= t < |cs| ==>
          cs[t].removed.None? && !cs[t].silent && cs[t].added.Some? &&
          j1 <= cs[t].added.value < k && cs[t].added.value !in used)
    && (forall l :: j1 <= l < k && l !in used ==> Gives(cs, l))
    && (forall t, u :: |paired| <= t < u < |cs| ==> cs[t].added.value < cs[u].added.value)
  }

  lemma StretchDone(
    cs: seq<Change>, paired: seq<Change>, used: set<nat>, judge: Judge, i1: nat, i2: nat, j1: nat, j2: nat)
    requires i1 <= i2 && j1 <= j2
    requires Paired(paired, used, judge, i1, i2 - i1, j1, j2) && NoneMissed(paired, used, judge, i1, j1, j2)
    requires Leftover(cs, paired, used, j1, j2)
    ensures Sound(cs, judge) && Covers(cs, i1, i2, j1, j2) && Thorough(cs, judge)
  {
    assert forall t :: 0 <= t < |paired| ==> cs[t] == paired[t];
    forall i: nat ensures Takes(cs, i) <==> i1 <= i < i2 {
      if i1 <= i < i2 { assert cs[i - i1].removed == Some(i); }
    }
    forall k: nat ensures Gives(cs, k) <==> j1 <= k < j2 {
      if Gives(paired, k) {
        var t :| 0 <= t < |paired| && paired[t].added == Some(k);
        assert cs[t].added == Some(k);
      }
    }
  }

  /** One stretch: the removed sentences in order, then what was only added. */
  method CompareStretch(judge: Judge, i1: nat, i2: nat, j1: nat, j2: nat) returns (cs: seq<Change>)
    requires i1 <= i2 && j1 <= j2
    ensures Sound(cs, judge) && Covers(cs, i1, i2, j1, j2) && Thorough(cs, judge)
    ensures i2 - i1 <= |cs| && Greedy(cs[..i2 - i1], judge, i1, j1, j2)
  {
    var paired, used := PairRemoved(judge, i1, i2, j1, j2);
    cs := paired;
    for k := j1 to j2
      invariant Leftover(cs, paired, used, j1, k)
    {
      if k !in used {
        var c := Change(None, Some(k), false);
        forall l: nat ensures Gives(cs + [c], l) <==> Gives(cs, l) || l == k { GivesMore(cs, c, l); }
        cs := cs + [c];
      }
    }
    StretchDone(cs, paired, used, judge, i1, i2, j1, j2);
  }

  ghost predicate Removed(ops: seq<Stretch>, i: nat) {
    exists t :: 0 <= t < |ops| && !ops[t].equal && ops[t].i1 <= i < ops[t].i2
  }

  ghost predicate Added(ops: seq<Stretch>, k: nat) {
    exists t :: 0 <= t < |ops| && !ops[t].equal && ops[t].j1 <= k < ops[t].j2
  }

  /** Exactly the sentences of the changed stretches, on both sides. */
  ghost predicate Accounts(cs: seq<Change>, ops: seq<Stretch>) {
    (forall i: nat :: Takes(cs, i) <==> Removed(ops, i)) && (forall k: nat :: Gives(cs, k) <==> Added(ops, k))
  }

  lemma Joined(a: seq<Change>, b: seq<Change>, i: nat)
    ensures Takes(a + b, i) <==> Takes(a, i) || Takes(b, i)
    ensures Gives(a + b, i) <==> Gives(a, i) || Gives(b, i)
  {
    var ab := a + b;
    assert forall t :: 0 <= t < |a| ==> ab[t] == a[t];
    assert forall t :: 0 <= t < |b| ==> ab[|a| + t] == b[t];
    if Takes(ab, i) {
      var t :| 0 <= t < |ab| && ab[t].removed == Some(i);
      assert t >= |a| ==> b[t - |a|].removed == Some(i);
    }
    if Gives(ab, i) {
      var t :| 0 <= t < |ab| && ab[t].added == Some(i);
      assert t >= |a| ==> b[t - |a|].added == Some(i);
    }
  }

  lemma OnceJoined(a: seq<Change>, b: seq<Change>)
    requires Once(a) && Once(b)
    requires forall i: nat :: !(Takes(a, i) && Takes(b, i)) && !(Gives(a, i) && Gives(b, i))
    ensures Once(a + b)
  {
    var ab := a + b;
    forall t, u | 0 <= t < |a| <= u < |ab|
      ensures ab[t].removed.Some? ==> ab[t].removed != ab[u].removed
      ensures ab[t].added.Some? ==> ab[t].added != ab[u].added
    {
      assert ab[t] == a[t] && ab[u] == b[u - |a|];
      if a[t].removed.Some? && a[t].removed == b[u - |a|].removed {
        assert Takes(a, a[t].removed.value) && Takes(b, a[t].removed.value);
      }
      if a[t].added.Some? && a[t].added == b[u - |a|].added {
        assert Gives(a, a[t].added.value) && Gives(b, a[t].added.value);
      }
    }
  }

  /** What the changes of one stretch are: none where nothing changed, and otherwise every
      sentence of it once, each pair the closest left, and nothing left apart that could pair.
   */
  ghost predicate Stretched(cs: seq<Change>, judge: Judge, op: Stretch) {
    if op.equal then cs == []
    else
      && op.i1 <= op.i2 && Sound(cs, judge) && Covers(cs, op.i1, op.i2, op.j1, op.j2) && Thorough(cs, judge)
      && op.i2 - op.i1 <= |cs| && Greedy(cs[..op.i2 - op.i1], judge, op.i1, op.j1, op.j2)
  }

  /** Laid end to end. */
  function Joint(parts: seq<seq<Change>>): seq<Change> {
    if parts == [] then [] else Joint(parts[..|parts| - 1]) + parts[|parts| - 1]
  }

  /** The changes are the stretches' own, in order. */
  ghost predicate ByStretch(cs: seq<Change>, parts: seq<seq<Change>>, ops: seq<Stretch>, judge: Judge) {
    cs == Joint(parts) && |parts| == |ops| && forall n :: 0 <= n < |ops| ==> Stretched(parts[n], judge, ops[n])
  }

  /** `_revision`'s comparison: every sentence of a changed stretch, of either draft, is in
      exactly one change or silent pair, and no other sentence is in any; stretch by stretch
      each pair is the closest left, and nothing that could pair is left apart.
   */
  method Compare(ops: seq<Stretch>, judge: Judge) returns (cs: seq<Change>, ghost parts: seq<seq<Change>>)
    requires IsScript(ops)
    ensures Sound(cs, judge) && Accounts(cs, ops) && ByStretch(cs, parts, ops, judge)
  {
    cs, parts := [], [];
    for n := 0 to |ops|
      invariant Sound(cs, judge) && Accounts(cs, ops[..n]) && ByStretch(cs, parts, ops[..n], judge)
    {
      var op := ops[n];
      assert ops[..n + 1] == ops[..n] + [op];
      var more := CompareOne(judge, op);
      JoinStretch(cs, more, ops, n, judge);
      hide Stretched, ByStretch, Sound, Accounts, IsScript;
      parts := parts + [more];
      cs := cs + more;
    }
    assert ops[..|ops|] == ops;
  }

  method CompareOne(judge: Judge, op: Stretch) returns (cs: seq<Change>)
    requires op.i1 <= op.i2 && op.j1 <= op.j2
    ensures Stretched(cs, judge, op)
  {
    if op.equal { return []; }
    cs := CompareStretch(judge, op.i1, op.i2, op.j1, op.j2);
  }

  /** One more stretch keeps every sentence in one change, and accounts for its own. */
  lemma JoinStretch(cs: seq<Change>, more: seq<Change>, ops: seq<Stretch>, n: nat, judge: Judge)
    requires IsScript(ops) && n < |ops| && Sound(cs, judge) && Accounts(cs, ops[..n]) && Stretched(more, judge, ops[n])
    ensures Sound(cs + more, judge) && Accounts(cs + more, ops[..n + 1])
  {
    var op := ops[n];
    forall i: nat
      ensures Takes(more, i) <==> !op.equal && op.i1 <= i < op.i2
      ensures Gives(more, i) <==> !op.equal && op.j1 <= i < op.j2
    {
    }
    assert Sound(more, judge);
    hide Stretched, Takes, Gives, Removed, Added;
    assert forall i: nat :: !(Takes(cs, i) && Takes(more, i)) && !(Gives(cs, i) && Gives(more, i));
    OnceJoined(cs, more);
    forall i: nat
      ensures (Takes(cs + more, i) <==> Removed(ops[..n + 1], i)) && (Gives(cs + more, i) <==> Added(ops[..n + 1], i))
    {
      Joined(cs, more, i);
    }
  }

  // ---- Which change answers which objection ---------------------------------

  const CAP: nat := 14

  /** The change that scores highest, the later of two equals, apart from one left out. */
  function TopTo(scores: seq<real>, except: Option<nat>, n: nat): (r: Option<nat>)
    requires n <= |scores|
    ensures r.Some? ==> r.value < n && r != except
    ensures r.Some? ==> forall i :: 0 <= i < n && Some(i) != except ==>
      scores[i] < scores[r.value] || (scores[i] == scores[r.value] && i <= r.value)
    ensures r.None? ==> forall i :: 0 <= i < n ==> Some(i) == except
  {
    if n == 0 then None
    else
      var r := TopTo(scores, except, n - 1);
      if Some(n - 1) == except then r
      else if r.Some? && scores[n - 1] < scores[r.value] then r else Some(n - 1)
  }

  predicate Outranks(scores: seq<real>, i: nat, j: nat)
    requires i < |scores| && j < |scores|
  {
    scores[i] > scores[j] || (scores[i] == scores[j] && i > j)
  }

  /** The two changes that answer an objection best, of those that answer it at all. */
  function FixesFor(scores: seq<real>): (fixes: seq<nat>)
    ensures |fixes| <= 2 && forall i :: i in fixes ==> i < |scores| && scores[i] >= 0.25
    ensures forall i, j :: 0 <= i < j < |fixes| ==> fixes[i] != fixes[j]
    ensures forall i :: 0 <= i < |scores| && scores[i] >= 0.25 && i !in fixes ==>
      |fixes| == 2 && forall f :: f in fixes ==> Outranks(scores, f, i)
    ensures |fixes| == 2 ==> Outranks(scores, fixes[0], fixes[1])
  {
    var first := TopTo(scores, None, |scores|);
    if first.None? || scores[first.value] < 0.25 then []
    else
      var second := TopTo(scores, first, |scores|);
      if second.None? || scores[second.value] < 0.25 then [first.value] else [first.value, second.value]
  }

  ghost predicate Distinct(xs: seq<nat>) {
    forall i, j :: 0 <= i < j < |xs| ==> xs[i] != xs[j]
  }

  /** The changes objections point to, each once, in the order met. */
  method Linked(fixes: seq<seq<nat>>, n: nat) returns (fixed: seq<nat>)
    requires forall o, f :: 0 <= o < |fixes| && f in fixes[o] ==> f < n
    ensures Distinct(fixed) && forall f :: f in fixed <==> exists o :: 0 <= o < |fixes| && f in fixes[o]
  {
    fixed := [];
    for o := 0 to |fixes|
      invariant Distinct(fixed) && forall f :: f in fixed <==> exists p :: 0 <= p < o && f in fixes[p]
    {
      for i := 0 to |fixes[o]|
        invariant Distinct(fixed)
        invariant forall f :: f in fixed <==> (exists p :: 0 <= p < o && f in fixes[p]) || f in fixes[o][..i]
      {
        if fixes[o][i] !in fixed { fixed := fixed + [fixes[o][i]]; }
      }
      assert fixes[o][..|fixes[o]|] == fixes[o];
    }
  }

  /** Every change once, those objections point to first, the rest as they came. */
  method Order(fixed: seq<nat>, n: nat) returns (order: seq<nat>)
    requires Distinct(fixed) && forall f :: f in fixed ==> f < n
    ensures Distinct(order) && |fixed| <= |order| && order[..|fixed|] == fixed
    ensures forall i: nat :: i in order <==> i < n
    ensures forall i, j :: |fixed| <= i < j < |order| ==> order[i] < order[j]
  {
    order := fixed;
    for i := 0 to n
      invariant Distinct(order) && |fixed| <= |order| && order[..|fixed|] == fixed
      invariant forall k :: k in order <==> k in fixed || 0 <= k < i
      invariant forall t :: |fixed| <= t < |order| ==> order[t] < i
      invariant forall t, u :: |fixed| <= t < u < |order| ==> order[t] < order[u]
    {
      if i !in fixed { order := order + [i]; }
    }
  }

  lemma {:induction false} AsManyAsBelow(order: seq<nat>, n: nat)
    requires Distinct(order) && forall i: nat :: i in order <==> i < n
    ensures |order| == n
  {
    assert forall t :: 0 <= t < |order| ==> order[t] in order;
    assert order == [] || order[0] < n;
    if n > 0 {
      assert n - 1 in order;
      var t :| 0 <= t < |order| && order[t] == n - 1;
      var rest := order[..t] + order[t + 1..];
      assert forall u :: 0 <= u < |rest| ==> rest[u] == order[if u < t then u else u + 1];
      forall i: nat ensures i in rest <==> i < n - 1 {
        if i < n - 1 {
          assert i in order;
          var u :| 0 <= u < |order| && order[u] == i;
          assert rest[if u < t then u else u - 1] == i;
        }
      }
      AsManyAsBelow(rest, n - 1);
    }
  }

  /** An objection's fixes by their new places, the ones cut left out. */
  function Replaced(fixes: seq<nat>, keep: seq<nat>): (places: seq<nat>)
    ensures forall p :: p in places ==> p < |keep| && keep[p] in fixes
    ensures forall f :: f in fixes && f in keep ==> exists p :: p in places && keep[p] == f
  {
    if fixes == [] then []
    else
      var rest := Replaced(fixes[1..], keep);
      if fixes[0] in keep then [PlaceOf(keep, fixes[0])] + rest else rest
  }

  function PlaceOf(keep: seq<nat>, i: nat): (p: nat)
    requires i in keep
    ensures p < |keep| && keep[p] == i
  {
    if keep[0] == i then 0 else 1 + PlaceOf(keep[1..], i)
  }

  /** The list as kept: at most fourteen changes, each once, with `more` counting the rest.
      Each fix kept names the same change by its new place, each fix cut is of a change cut,
      and a change an objection points to is cut only when every change kept is one too.
   */
  method KeepFirst(n: nat, fixes: seq<seq<nat>>) returns (keep: seq<nat>, places: seq<seq<nat>>, more: nat)
    requires forall o, f :: 0 <= o < |fixes| && f in fixes[o] ==> f < n
    ensures Distinct(keep) && |keep| <= CAP && |keep| + more == n && (more > 0 ==> |keep| == CAP)
    ensures forall i :: i in keep ==> i < n
    ensures |places| == |fixes|
    ensures forall o :: 0 <= o < |fixes| ==>
      && (forall p :: p in places[o] ==> p < |keep| && keep[p] in fixes[o])
      && (forall f :: f in fixes[o] && f in keep ==> exists p :: p in places[o] && keep[p] == f)
    ensures forall o, f :: 0 <= o < |fixes| && f in fixes[o] && f !in keep ==>
      forall i :: i in keep ==> exists p :: 0 <= p < |fixes| && i in fixes[p]
  {
    var fixed := Linked(fixes, n);
    var order := Order(fixed, n);
    AsManyAsBelow(order, n);
    keep := if |order| <= CAP then order else order[..CAP];
    more := |order| - |keep|;
    assert forall i :: i in keep ==> i in order;
    places := seq(|fixes|, o requires 0 <= o < |fixes| => Replaced(fixes[o], keep));
    KeptPrefix(fixed, order, keep);
    forall o, f | 0 <= o < |fixes| && f in fixes[o] && f !in keep
      ensures forall i :: i in keep ==> exists p :: 0 <= p < |fixes| && i in fixes[p]
    {
      assert f in fixed;
    }
  }

  /** Cut from a list that starts with the linked changes, either all of those are kept or
      nothing else is.
   */
  lemma KeptPrefix(fixed: seq<nat>, order: seq<nat>, keep: seq<nat>)
    requires |fixed| <= |order| && order[..|fixed|] == fixed && keep <= order
    ensures (forall f :: f in fixed ==> f in keep) || (forall i :: i in keep ==> i in fixed)
  {
    if |fixed| <= |keep| {
      assert fixed == keep[..|fixed|];
    } else {
      assert keep == fixed[..|keep|];
    }
  }

  /** The changes listed: all but the silent ones, in order. */
  function Listed(cs: seq<Change>): (out: seq<Change>)
    ensures forall c :: c in out <==> c in cs && !c.silent
  {
    if cs == [] then []
    else
      var (front, last) := (cs[..|cs| - 1], cs[|cs| - 1]);
      assert forall c :: c in cs <==> c in front || c == last;
      Listed(front) + if last.silent then [] else [last]
  }

  /** Each sentence is in one listed change at most, as it is in one change at most. */
  lemma {:induction false} ListedOnce(cs: seq<Change>)
    requires Once(cs)
    ensures Once(Listed(cs))
  {
    if cs != [] {
      var front, last := cs[..|cs| - 1], cs[|cs| - 1];
      OnceFront(cs, front, last);
      ListedOnce(front);
      hide Once, Distinctly;
      OnceMore(Listed(front), last);
      assert Listed(front) + [] == Listed(front);
    }
  }

  /** Sharing no sentence. */
  predicate Distinctly(c: Change, d: Change) {
    (c.removed.Some? ==> c.removed != d.removed) && (c.added.Some? ==> c.added != d.added)
  }

  lemma OnceFront(cs: seq<Change>, front: seq<Change>, last: Change)
    requires Once(cs) && cs == front + [last]
    ensures Once(front) && forall c :: c in front ==> Distinctly(c, last)
  {
    assert forall t :: 0 <= t < |front| ==> cs[t] == front[t];
    assert cs[|front|] == last;
  }

  lemma OnceMore(cs: seq<Change>, d: Change)
    requires Once(cs) && forall c :: c in cs ==> Distinctly(c, d)
    ensures Once(cs + [d])
  {
    assert forall t :: 0 <= t < |cs| ==> (cs + [d])[t] == cs[t] && Distinctly(cs[t], d);
  }

  /** How well each listed change answers an objection. */
  function Scores(listed: seq<Change>, o: nat, score: (seq<Change>, nat, nat) -> real): seq<real> {
    seq(|listed|, i requires 0 <= i < |listed| => score(listed, o, i))
  }

  /** `_revision`, whole: the comparison, then for each objection the two listed changes that
      answer it best, by their places among the changes kept. Every sentence of a changed
      stretch is in one change, listed unless silent; kept and `more` make up the whole list;
      every place names a fix, every fix not named is of a change cut, and a fix is cut only
      when every change kept is one.
   */
  method Revise(ops: seq<Stretch>, judge: Judge, objections: nat, score: (seq<Change>, nat, nat) -> real)
    returns (
      all: seq<Change>, fixes: seq<seq<nat>>, keep: seq<nat>, kept: seq<Change>, places: seq<seq<nat>>, more: nat,
             ghost parts: seq<seq<Change>>)
    requires IsScript(ops)
    ensures Sound(all, judge) && Accounts(all, ops) && ByStretch(all, parts, ops, judge)
    ensures |fixes| == |places| == objections
    ensures forall o :: 0 <= o < objections ==> fixes[o] == FixesFor(Scores(Listed(all), o, score))
    ensures Once(kept) && Distinct(keep) && |kept| == |keep| <= CAP && |keep| + more == |Listed(all)|
    ensures forall p :: 0 <= p < |keep| ==> keep[p] < |Listed(all)| && kept[p] == Listed(all)[keep[p]]
    ensures forall o :: 0 <= o < objections ==>
      && (forall p :: p in places[o] ==> p < |keep| && keep[p] in fixes[o])
      && (forall f :: f in fixes[o] && f in keep ==> exists p :: p in places[o] && keep[p] == f)
    ensures forall o, f :: 0 <= o < objections && f in fixes[o] && f !in keep ==>
      forall i :: i in keep ==> exists p :: 0 <= p < objections && i in fixes[p]
  {
    hide ByStretch, Accounts, Sound, Once, Listed, FixesFor;
    all, parts := Compare(ops, judge);
    var listed := Listed(all);
    fixes := AllFixes(listed, objections, score);
    keep, places, more := KeepFirst(|listed|, fixes);
    assert forall p :: 0 <= p < |keep| ==> keep[p] in keep;
    kept := seq(|keep|, p requires 0 <= p < |keep| => listed[keep[p]]);
    OnceOf(all, judge);
    ListedOnce(all);
    KeptOnce(listed, keep, kept);
  }

  method AllFixes(listed: seq<Change>, objections: nat, score: (seq<Change>, nat, nat) -> real)
    returns (fixes: seq<seq<nat>>)
    ensures |fixes| == objections
    ensures forall o :: 0 <= o < objections ==> fixes[o] == FixesFor(Scores(listed, o, score))
    ensures forall o, f :: 0 <= o < objections && f in fixes[o] ==> f < |listed|
  {
    fixes := [];
    for o := 0 to objections
      invariant |fixes| == o
      invariant forall p :: 0 <= p < o ==> fixes[p] == FixesFor(Scores(listed, p, score))
    {
      fixes := fixes + [FixesFor(Scores(listed, o, score))];
    }
  }

  lemma OnceOf(cs: seq<Change>, judge: Judge)
    requires Sound(cs, judge)
    ensures Once(cs)
  {
  }

  lemma KeptOnce(listed: seq<Change>, keep: seq<nat>, kept: seq<Change>)
    requires Once(listed) && Distinct(keep) && |kept| == |keep|
    requires forall p :: 0 <= p < |keep| ==> keep[p] < |listed| && kept[p] == listed[keep[p]]
    ensures Once(kept)
  {
    forall t, u | 0 <= t < u < |kept|
      ensures kept[t].removed.Some? ==> kept[t].removed != kept[u].removed
      ensures kept[t].added.Some? ==> kept[t].added != kept[u].added
    {
      assert keep[t] != keep[u];
    }
  }
}
