/** Reading a calibration register's headings: which column each heading means, the most
    specific match first. A heading and a phrase are their words.
 */
module ColumnMatch {
  import opened Options

  type Words = seq<string>

  /** How specifically a heading matches: exact, at an edge, or within; then the phrase's
      words, then its characters.
   */
  datatype Rank = Rank(kind: nat, words: nat, length: nat)

  predicate AtLeast(a: Rank, b: Rank) {
    a.kind > b.kind || (a.kind == b.kind && (a.words > b.words || (a.words == b.words && a.length >= b.length)))
  }

  function Length(phrase: Words): nat {
    if phrase == [] then 0
    else |phrase[0]| + (if |phrase| == 1 then 0 else 1 + Length(phrase[1..]))
  }

  predicate Within(header: Words, phrase: Words) {
    exists k :: 0 <= k <= |header| - |phrase| && header[k..][..|phrase|] == phrase
  }

  /** `_header_rank`. */
  function HeaderRank(header: Words, phrase: Words): Option<Rank> {
    var n := |phrase|;
    if header == phrase then Some(Rank(3, n, Length(phrase)))
    else if n < |header| && (header[..n] == phrase || header[|header| - n..] == phrase)
      then Some(Rank(2, n, Length(phrase)))
    else if Within(header, phrase) then Some(Rank(1, n, Length(phrase)))
    else None
  }

  /** A phrase ranks a heading exactly when its words stand together in it, and highest
      exactly when they are all of it.
   */
  lemma RankedExactly(header: Words, phrase: Words)
    ensures HeaderRank(header, phrase).Some? <==> Within(header, phrase)
    ensures HeaderRank(header, phrase).Some? ==> (HeaderRank(header, phrase).value.kind == 3 <==> header == phrase)
  {
    var n := |phrase|;
    if header == phrase { assert header[0..][..n] == phrase; }
    if n < |header| && header[..n] == phrase { assert header[0..][..n] == phrase; }
    if n < |header| && header[|header| - n..] == phrase { assert header[|header| - n..][..n] == phrase; }
  }

  /** What a column goes by, and the words that rule a heading out for it. */
  datatype Vocabulary = Vocabulary(phrases: seq<Words>, rejects: set<string>)

  /** The best rank any of a column's phrases gives a heading. */
  function Best(phrases: seq<Words>, header: Words): (best: Option<Rank>)
    ensures best.Some? ==> exists p :: p in phrases && HeaderRank(header, p) == best
    ensures forall p :: p in phrases && HeaderRank(header, p).Some? ==>
      best.Some? && AtLeast(best.value, HeaderRank(header, p).value)
  {
    if phrases == [] then None
    else
      var last := phrases[|phrases| - 1];
      var (sofar, rank) := (Best(phrases[..|phrases| - 1], header), HeaderRank(header, last));
      assert forall p :: p in phrases <==> p in phrases[..|phrases| - 1] || p == last;
      if rank.Some? && (sofar.None? || !AtLeast(sofar.value, rank.value)) then rank else sofar
  }

  predicate Rejected(v: Vocabulary, header: Words) {
    exists w :: w in header && w in v.rejects
  }

  datatype Candidate = Candidate(rank: Rank, key: nat, position: nat)

  ghost predicate IsCandidate(c: Candidate, vocab: seq<Vocabulary>, headers: seq<Words>) {
    && c.key < |vocab| && c.position < |headers|
    && !Rejected(vocab[c.key], headers[c.position])
    && Best(vocab[c.key].phrases, headers[c.position]) == Some(c.rank)
  }

  ghost predicate Before(c: Candidate, key: nat, position: nat) {
    c.key < key || (c.key == key && c.position < position)
  }

  /** The candidates of the headings before a place, in order. */
  ghost predicate Gathered(cs: seq<Candidate>, vocab: seq<Vocabulary>, headers: seq<Words>, key: nat, position: nat) {
    AsCollected(cs) && forall c :: c in cs <==> IsCandidate(c, vocab, headers) && Before(c, key, position)
  }

  /** What one heading adds for one column. */
  function Offered(vocab: seq<Vocabulary>, headers: seq<Words>, key: nat, position: nat): (cs: seq<Candidate>)
    requires key < |vocab| && position < |headers|
    ensures forall c :: c in cs <==> c.key == key && c.position == position && IsCandidate(c, vocab, headers)
  {
    var best := Best(vocab[key].phrases, headers[position]);
    if !Rejected(vocab[key], headers[position]) && best.Some? then [Candidate(best.value, key, position)] else []
  }

  /** The two loops that collect the candidates, column by column, heading by heading. */
  method Collect(vocab: seq<Vocabulary>, headers: seq<Words>) returns (cs: seq<Candidate>)
    ensures forall c :: c in cs <==> IsCandidate(c, vocab, headers)
    ensures AsCollected(cs)
  {
    cs := [];
    for key := 0 to |vocab|
      invariant Gathered(cs, vocab, headers, key, 0)
    {
      for position := 0 to |headers|
        invariant Gathered(cs, vocab, headers, key, position)
      {
        hide Gathered;
        var best := Best(vocab[key].phrases, headers[position]);
        assert Offered(vocab, headers, key, position) ==
          if !Rejected(vocab[key], headers[position]) && best.Some? then [Candidate(best.value, key, position)] else [];
        if !Rejected(vocab[key], headers[position]) && best.Some? {
          cs := cs + [Candidate(best.value, key, position)];
        } else {
          assert cs + [] == cs;
        }
      }
    }
  }

  /** Column by column, heading by heading. */
  ghost predicate AsCollected(cs: seq<Candidate>) {
    forall i, j :: 0 <= i < j < |cs| ==> Before(cs[i], cs[j].key, cs[j].position)
  }

  /** Of a higher rank, or of the same rank and collected first. */
  ghost predicate Precedes(a: Candidate, b: Candidate) {
    AtLeast(a.rank, b.rank) && (AtLeast(b.rank, a.rank) ==> Before(a, b.key, b.position))
  }

  ghost predicate Sorted(cs: seq<Candidate>) {
    forall i, j :: 0 <= i < j < |cs| ==> Precedes(cs[i], cs[j])
  }

  /** Sorting by rank, highest first, ties left in the order they came. */
  function Sort(cs: seq<Candidate>): (sorted: seq<Candidate>)
    requires AsCollected(cs)
    ensures Sorted(sorted) && |sorted| == |cs| && forall x :: x in sorted <==> x in cs
  {
    if cs == [] then []
    else
      assert forall x :: x in cs <==> x == cs[0] || x in cs[1..];
      assert forall i :: 0 <= i < |cs[1..]| ==> cs[1..][i] == cs[i + 1];
      Insert(cs[0], Sort(cs[1..]))
  }

  function Insert(c: Candidate, cs: seq<Candidate>): (out: seq<Candidate>)
    requires Sorted(cs) && forall x :: x in cs ==> Before(c, x.key, x.position)
    ensures Sorted(out) && |out| == |cs| + 1 && forall x :: x in out <==> x == c || x in cs
  {
    if cs == [] || AtLeast(c.rank, cs[0].rank) then
      OnTop(c, cs);
      [c] + cs
    else
      var rest := Insert(c, cs[1..]);
      assert forall x :: x in cs <==> x == cs[0] || x in cs[1..];
      OnTop(cs[0], rest);
      [cs[0]] + rest
  }

  lemma OnTop(c: Candidate, cs: seq<Candidate>)
    requires Sorted(cs) && (cs != [] ==> Precedes(c, cs[0]))
    ensures Sorted([c] + cs)
  {
    forall j | 0 <= j < |cs| ensures Precedes(c, cs[j]) {
      if j > 0 { assert Precedes(cs[0], cs[j]); }
    }
  }

  predicate Clash(a: Candidate, b: Candidate) {
    a.key == b.key || a.position == b.position
  }

  /** A selection from the first n of a list in order of preference: no two clash, and
      whatever is left out clashes with something chosen before it.
   */
  ghost predicate StableTo(cs: seq<Candidate>, n: nat, chosen: set<nat>)
    requires n <= |cs|
  {
    && (forall i :: i in chosen ==> i < n)
    && (forall i, j :: i in chosen && j in chosen && i != j ==> !Clash(cs[i], cs[j]))
    && (forall i :: 0 <= i < n && i !in chosen ==> exists j :: j in chosen && j < i && Clash(cs[i], cs[j]))
  }

  ghost predicate Stable(cs: seq<Candidate>, chosen: set<nat>) {
    StableTo(cs, |cs|, chosen)
  }

  /** There is only one: the greedy choice is not one of several answers. */
  lemma {:induction false} StableUnique(cs: seq<Candidate>, a: set<nat>, b: set<nat>, i: nat)
    requires Stable(cs, a) && Stable(cs, b)
    ensures i in a <==> i in b
  {
    forall j: nat | j < i ensures j in a <==> j in b { StableUnique(cs, a, b, j); }
  }

  ghost predicate Assigned(cs: seq<Candidate>, chosen: set<nat>, columns: map<nat, nat>)
    requires forall i :: i in chosen ==> i < |cs|
  {
    && (forall i :: i in chosen ==> cs[i].key in columns && columns[cs[i].key] == cs[i].position)
    && (forall k :: k in columns ==> exists i :: i in chosen && cs[i].key == k)
  }

  /** The loop down the sorted candidates, taking each that is still free. */
  method Assign(cs: seq<Candidate>) returns (columns: map<nat, nat>, ghost chosen: set<nat>)
    ensures Stable(cs, chosen) && Assigned(cs, chosen, columns)
  {
    columns, chosen := map[], {};
    var used: set<nat> := {};
    for i := 0 to |cs|
      invariant StableTo(cs, i, chosen) && Assigned(cs, chosen, columns)
      invariant forall p :: p in used <==> exists k :: k in chosen && cs[k].position == p
    {
      if cs[i].key in columns {
        ghost var j :| j in chosen && cs[j].key == cs[i].key;
        Skip(cs, i, chosen, j);
      } else if cs[i].position in used {
        ghost var j :| j in chosen && cs[j].position == cs[i].position;
        Skip(cs, i, chosen, j);
      } else {
        Take(cs, i, chosen);
        columns := columns[cs[i].key := cs[i].position];
        used := used + {cs[i].position};
        chosen := chosen + {i};
        assert i in chosen;
      }
    }
  }

  lemma Skip(cs: seq<Candidate>, i: nat, chosen: set<nat>, j: nat)
    requires i < |cs| && StableTo(cs, i, chosen) && j in chosen && Clash(cs[i], cs[j])
    ensures StableTo(cs, i + 1, chosen)
  {
  }

  lemma Take(cs: seq<Candidate>, i: nat, chosen: set<nat>)
    requires i < |cs| && StableTo(cs, i, chosen) && forall j :: j in chosen ==> !Clash(cs[i], cs[j])
    ensures StableTo(cs, i + 1, chosen + {i})
  {
    forall k | 0 <= k < i + 1 && k !in chosen + {i}
      ensures exists j :: j in chosen + {i} && j < k && Clash(cs[k], cs[j])
    {
      var j :| j in chosen && j < k && Clash(cs[k], cs[j]);
      assert j in chosen + {i};
    }
  }

  /** `match_columns`: the columns found make the one stable selection. Each heading means
      at most one column, and every candidate passed over shares its column or its heading
      with one chosen of at least its rank.
   */
  method MatchColumns(vocab: seq<Vocabulary>, headers: seq<Words>)
    returns (columns: map<nat, nat>, cs: seq<Candidate>, ghost chosen: set<nat>)
    ensures Sorted(cs) && forall c :: c in cs <==> IsCandidate(c, vocab, headers)
    ensures Stable(cs, chosen) && Assigned(cs, chosen, columns)
    ensures forall k, l :: k in columns && l in columns && k != l ==> columns[k] != columns[l]
    ensures forall k :: k in columns ==> exists c :: c in cs && c.key == k && c.position == columns[k]
    ensures forall c :: c in cs && !(c.key in columns && columns[c.key] == c.position) ==>
      exists d :: d in cs && d.key in columns && columns[d.key] == d.position && Clash(c, d) && AtLeast(d.rank, c.rank)
  {
    var found := Collect(vocab, headers);
    cs := Sort(found);
    columns, chosen := Assign(cs);
    forall c | c in cs && !(c.key in columns && columns[c.key] == c.position)
      ensures exists d ::
        d in cs && d.key in columns && columns[d.key] == d.position && Clash(c, d) && AtLeast(d.rank, c.rank)
    {
    }
  }

  // ---- The matching, as a relation ---------------------------------------------

  /** The candidates, sorted. */
  ghost predicate Ranked(cs: seq<Candidate>, vocab: seq<Vocabulary>, headers: seq<Words>) {
    Sorted(cs) && forall c :: c in cs <==> IsCandidate(c, vocab, headers)
  }

  ghost predicate Matched(cs: seq<Candidate>, chosen: set<nat>, columns: map<nat, nat>) {
    Stable(cs, chosen) && Assigned(cs, chosen, columns)
  }

  ghost predicate IsMatching(columns: map<nat, nat>, vocab: seq<Vocabulary>, headers: seq<Words>) {
    exists cs: seq<Candidate>, chosen: set<nat> ::
      Ranked(cs, vocab, headers) && Matched(cs, chosen, columns)
  }

  /** Sorted, one set of candidates makes one list. */
  lemma {:induction false} SortedUnique(cs: seq<Candidate>, ds: seq<Candidate>)
    requires Sorted(cs) && Sorted(ds) && forall c :: c in cs <==> c in ds
    ensures cs == ds
    decreases |cs|
  {
    assert ds == [] || ds[0] in ds;
    if cs != [] {
      assert cs[0] in cs;
      assert cs[0] == ds[0];
      forall c ensures c in cs[1..] <==> c in ds[1..] {
        RestWithout(cs, c);
        RestWithout(ds, c);
      }
      SortedUnique(cs[1..], ds[1..]);
    }
  }

  lemma RestWithout(cs: seq<Candidate>, c: Candidate)
    requires Sorted(cs) && cs != []
    ensures c in cs[1..] <==> c in cs && c != cs[0]
  {
    assert forall i :: 0 < i < |cs| ==> Precedes(cs[0], cs[i]);
  }

  /** A text's headings are matched in one way only. */
  lemma MatchingUnique(a: map<nat, nat>, b: map<nat, nat>, vocab: seq<Vocabulary>, headers: seq<Words>)
    requires IsMatching(a, vocab, headers) && IsMatching(b, vocab, headers)
    ensures a == b
  {
    hide Ranked, Stable, Assigned;
    var cs: seq<Candidate>, c: set<nat> :| Ranked(cs, vocab, headers) && Matched(cs, c, a);
    var ds: seq<Candidate>, d: set<nat> :| Ranked(ds, vocab, headers) && Matched(ds, d, b);
    RankedUnique(cs, ds, vocab, headers);
    StableSame(cs, c, d);
    SameAssigned(cs, c, a, b);
  }

  lemma RankedUnique(cs: seq<Candidate>, ds: seq<Candidate>, vocab: seq<Vocabulary>, headers: seq<Words>)
    requires Ranked(cs, vocab, headers) && Ranked(ds, vocab, headers)
    ensures cs == ds
  {
    hide IsCandidate, Sorted;
    SortedUnique(cs, ds);
  }

  lemma StableSame(cs: seq<Candidate>, c: set<nat>, d: set<nat>)
    requires Stable(cs, c) && Stable(cs, d)
    ensures c == d
  {
    forall i: nat ensures i in c <==> i in d { StableUnique(cs, c, d, i); }
  }

  lemma SameAssigned(cs: seq<Candidate>, chosen: set<nat>, a: map<nat, nat>, b: map<nat, nat>)
    requires Matched(cs, chosen, a) && Matched(cs, chosen, b)
    ensures a == b
  {
    forall k ensures k in a <==> k in b {}
  }
}
