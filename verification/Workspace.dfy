/** The workspace writer: overwriting a file keeps the version it replaces, numbered, and
    writing what is already there changes nothing. Over any sequence of writes a path's kept
    versions and its content are its whole history.
 */
module Workspace {
  type Path = string
  type Bytes = seq<bv8>

  /** The files, and the versions kept for each by number. */
  datatype Store = Store(files: map<Path, Bytes>, kept: map<Path, map<nat, Bytes>>)

  const EMPTY := Store(map[], map[])

  function Versions(s: Store, path: Path): map<nat, Bytes> {
    if path in s.kept then s.kept[path] else map[]
  }

  /** What one accepted write does: the next version number is one past how many there are. */
  function After(s: Store, path: Path, content: Bytes): Store {
    if path !in s.files then s.(files := s.files[path := content])
    else if s.files[path] == content then s
    else
      var versions := Versions(s, path);
      Store(s.files[path := content], s.kept[path := versions[|versions| + 1 := s.files[path]]])
  }

  datatype Answer = Refused | AlreadyThere | Written

  class Writer {
    const accepts: (Path, Bytes) -> bool
    var files: map<Path, Bytes>
    var kept: map<Path, map<nat, Bytes>>

    function Contents(): Store
      reads this
    {
      Store(files, kept)
    }

    constructor (accepts: (Path, Bytes) -> bool)
      ensures Contents() == EMPTY && this.accepts == accepts
    {
      this.accepts := accepts;
      files, kept := map[], map[];
    }

    /** `write_file`: refused outside the workspace, for its type, when empty or too long. */
    method WriteFile(path: Path, content: Bytes) returns (answer: Answer)
      modifies this
      ensures Contents() == if accepts(path, content) then After(old(Contents()), path, content) else old(Contents())
      ensures answer == Refused <==> !accepts(path, content)
      ensures answer == AlreadyThere <==> accepts(path, content) && path in old(files) && old(files)[path] == content
    {
      if !accepts(path, content) { return Refused; }
      if path in files {
        var previous := files[path];
        if previous == content { return AlreadyThere; }
        var versions := if path in kept then kept[path] else map[];
        var number := |versions| + 1;
        kept := kept[path := versions[number := previous]];
      }
      files := files[path := content];
      return Written;
    }
  }

  // ---- Any sequence of writes ------------------------------------------------

  datatype Call = Call(path: Path, content: Bytes)

  function Run(calls: seq<Call>, accepts: (Path, Bytes) -> bool): Store {
    if calls == [] then EMPTY
    else
      var (s, last) := (Run(calls[..|calls| - 1], accepts), calls[|calls| - 1]);
      if accepts(last.path, last.content) then After(s, last.path, last.content) else s
  }

  /** The contents accepted for a path, in order. */
  function Accepted(calls: seq<Call>, accepts: (Path, Bytes) -> bool, path: Path): seq<Bytes> {
    if calls == [] then []
    else
      var last := calls[|calls| - 1];
      Accepted(calls[..|calls| - 1], accepts, path)
      + if last.path == path && accepts(path, last.content) then [last.content] else []
  }

  /** Consecutive repeats removed. */
  function Squeezed(xs: seq<Bytes>): seq<Bytes> {
    if |xs| <= 1 then xs
    else
      var rest := Squeezed(xs[..|xs| - 1]);
      if xs[|xs| - 1] == xs[|xs| - 2] then rest else rest + [xs[|xs| - 1]]
  }

  lemma {:induction false} SqueezedLast(xs: seq<Bytes>)
    requires xs != []
    ensures Squeezed(xs) != [] && Squeezed(xs)[|Squeezed(xs)| - 1] == xs[|xs| - 1]
  {
    if |xs| > 1 { SqueezedLast(xs[..|xs| - 1]); }
  }

  /** Versions 1 to k and no others. */
  ghost predicate Numbered(versions: map<nat, Bytes>) {
    forall n :: n in versions <==> 1 <= n <= |versions|
  }

  /** A path's history: its versions in order, then its content. */
  function History(s: Store, path: Path): seq<Bytes>
    requires Numbered(Versions(s, path))
  {
    var versions := Versions(s, path);
    seq(|versions|, i requires 0 <= i < |versions| => versions[i + 1])
    + if path in s.files then [s.files[path]] else []
  }

  ghost predicate Inv(s: Store) {
    forall path :: Numbered(Versions(s, path)) && (path !in s.files ==> |Versions(s, path)| == 0)
  }

  /** Replacing a content keeps it under a number no version had. */
  lemma Replaced(s: Store, path: Path, content: Bytes)
    requires Numbered(Versions(s, path)) && path in s.files && s.files[path] != content
    ensures var versions, t := Versions(s, path), After(s, path, content);
      && |versions| + 1 !in versions
      && Versions(t, path) == versions[|versions| + 1 := s.files[path]]
      && |Versions(t, path)| == |versions| + 1 && Numbered(Versions(t, path))
  {
    NextNumber(Versions(s, path), s.files[path]);
    hide Numbered;
  }

  lemma NextNumber(versions: map<nat, Bytes>, content: Bytes)
    requires Numbered(versions)
    ensures |versions| + 1 !in versions
    ensures var more := versions[|versions| + 1 := content]; |more| == |versions| + 1 && Numbered(more)
  {
  }

  lemma AfterKeeps(s: Store, path: Path, content: Bytes)
    requires Inv(s)
    ensures Inv(After(s, path, content))
  {
    var t := After(s, path, content);
    assert Numbered(Versions(s, path));
    if path in s.files && s.files[path] != content { Replaced(s, path, content); }
    forall p ensures Numbered(Versions(t, p)) && (p !in t.files ==> |Versions(t, p)| == 0) {
      assert Numbered(Versions(s, p));
      if p != path { assert Versions(t, p) == Versions(s, p); }
    }
  }

  /** One write adds its content to its own path's history unless it is already there, loses
      no version, and touches no other path.
   */
  lemma AfterHistory(s: Store, path: Path, content: Bytes, other: Path)
    requires Inv(s)
    ensures Inv(After(s, path, content))
    ensures History(After(s, path, content), other) ==
      if other == path && !(path in s.files && s.files[path] == content)
        then History(s, other) + [content] else History(s, other)
    ensures forall n :: n in Versions(s, other) ==>
      && n in Versions(After(s, path, content), other)
      && Versions(After(s, path, content), other)[n] == Versions(s, other)[n]
  {
    AfterKeeps(s, path, content);
    assert Numbered(Versions(s, path)) && Numbered(Versions(s, other));
    var t := After(s, path, content);
    if other != path {
      assert Versions(t, other) == Versions(s, other);
    } else if path in s.files && s.files[path] != content {
      Replaced(s, path, content);
    } else {
      assert Versions(t, path) == Versions(s, path);
    }
  }

  lemma {:induction false} RunKeeps(calls: seq<Call>, accepts: (Path, Bytes) -> bool)
    ensures Inv(Run(calls, accepts))
  {
    if calls != [] {
      RunKeeps(calls[..|calls| - 1], accepts);
      var s, last := Run(calls[..|calls| - 1], accepts), calls[|calls| - 1];
      AfterHistory(s, last.path, last.content, last.path);
    }
  }

  lemma SqueezedMore(s: Store, path: Path, sofar: seq<Bytes>, content: Bytes)
    requires Inv(s) && (path in s.files <==> sofar != []) && History(s, path) == Squeezed(sofar)
    ensures Squeezed(sofar + [content]) ==
      if path in s.files && s.files[path] == content then History(s, path) else History(s, path) + [content]
    ensures path in After(s, path, content).files
  {
    var more := sofar + [content];
    assert more[..|more| - 1] == sofar;
    assert Numbered(Versions(s, path));
    hide History, Numbered;
    if sofar != [] {
      assert more[|more| - 2] == sofar[|sofar| - 1] && more[|more| - 1] == content;
      SqueezedLast(sofar);
      assert Squeezed(more) == if content == sofar[|sofar| - 1] then Squeezed(sofar) else Squeezed(sofar) + [content];
    }
  }

  /** The whole of it: after any writes to an empty workspace, a path's versions followed by
      its content are what was accepted for it, in order, with consecutive repeats removed.
   */
  lemma {:induction false} HistoryIsComplete(calls: seq<Call>, accepts: (Path, Bytes) -> bool, path: Path)
    ensures Inv(Run(calls, accepts))
    ensures History(Run(calls, accepts), path) == Squeezed(Accepted(calls, accepts, path))
    ensures path in Run(calls, accepts).files <==> Accepted(calls, accepts, path) != []
  {
    if calls != [] {
      var front, last := calls[..|calls| - 1], calls[|calls| - 1];
      var s, sofar := Run(front, accepts), Accepted(front, accepts, path);
      HistoryIsComplete(front, accepts, path);
      AfterHistory(s, last.path, last.content, path);
      hide History, After, Squeezed;
      if last.path == path && accepts(path, last.content) {
        SqueezedMore(s, path, sofar, last.content);
      } else {
        assert sofar + [] == sofar;
      }
    }
  }

  /** And a version once kept is never changed or lost by what comes after. */
  lemma {:induction false} VersionsStay(
    calls: seq<Call>, later: seq<Call>, accepts: (Path, Bytes) -> bool, path: Path, n: nat)
    requires n in Versions(Run(calls, accepts), path)
    ensures n in Versions(Run(calls + later, accepts), path)
    ensures Versions(Run(calls + later, accepts), path)[n] == Versions(Run(calls, accepts), path)[n]
    decreases |later|
  {
    if later == [] {
      assert calls + later == calls;
    } else {
      var front, last := later[..|later| - 1], later[|later| - 1];
      VersionsStay(calls, front, accepts, path, n);
      RunKeeps(calls + front, accepts);
      AfterHistory(Run(calls + front, accepts), last.path, last.content, path);
      assert (calls + later)[..|calls + later| - 1] == calls + front;
    }
  }
}
