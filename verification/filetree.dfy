/** The directory walk `Finder.searchFiles` hands to `Files.walkFileTree`,
    over an abstract tree instead of a file system.

    The walk is depth first, visiting the entries of a directory in the
    order the tree lists them. What reaches the visitor is a sequence of
    events: `visitFile` for every entry that is not a directory, and
    `visitFileFailed` for every entry whose attributes or listing could not
    be read. Directories themselves raise no event the finder acts on. */
module FileTree {

  /** A path as the walk reports it: the root as given, then one name per
      level below it. */
  type Path = seq<string>

  datatype Entry =
    | Dir(name: string, children: seq<Entry>)
    | File(name: string)        // any entry that is not a directory
    | Unreadable(name: string)  // an entry the walk cannot access

  datatype Visit =
    | VisitFile(path: Path, name: string)  // `name` is the file's base name
    | VisitFailed(path: Path)

  /** The events of walking `e`, found at `path`. Every event lies at or
      below `path`; a file or an inaccessible entry raises exactly one
      event, at `path` itself. */
  function Walk(e: Entry, path: Path): (vs: seq<Visit>)
    ensures forall v :: v in vs ==> Below(v, path)
    ensures !e.Dir? ==> |vs| == 1 && vs[0].path == path
    decreases e
  {
    match e
    case File(n) => [VisitFile(path, n)]
    case Unreadable(_) => [VisitFailed(path)]
    case Dir(_, cs) => WalkChildren(cs, path)
  }

  /** The events of walking the entries `cs` of the directory at `parent`,
      one after the other; all of them lie strictly below `parent`. */
  function WalkChildren(cs: seq<Entry>, parent: Path): (vs: seq<Visit>)
    ensures forall v :: v in vs ==> Below(v, parent) && |v.path| > |parent|
    decreases cs
  {
    if cs == [] then []
    else
      var here := Walk(cs[0], parent + [cs[0].name]);
      var rest := WalkChildren(cs[1..], parent);
      assert forall v :: v in here ==> (parent + [cs[0].name])[..|parent|] == parent;
      here + rest
  }

  /** The event `v` lies at `path` or below it. */
  predicate Below(v: Visit, path: Path) {
    |v.path| >= |path| && v.path[..|path|] == path
  }

  /** `e`, found at `path`, holds a file called `n` at path `p`. */
  ghost predicate IsFileOf(e: Entry, path: Path, p: Path, n: string)
    decreases e
  {
    match e
    case File(m) => p == path && n == m
    case Unreadable(_) => false
    case Dir(_, cs) => exists i :: 0 <= i < |cs| && IsFileOf(cs[i], path + [cs[i].name], p, n)
  }

  /** `e`, found at `path`, holds an inaccessible entry at path `p`. */
  ghost predicate IsUnreadableOf(e: Entry, path: Path, p: Path)
    decreases e
  {
    match e
    case File(_) => false
    case Unreadable(_) => p == path
    case Dir(_, cs) => exists i :: 0 <= i < |cs| && IsUnreadableOf(cs[i], path + [cs[i].name], p)
  }

  lemma WalkChildrenCons(c: Entry, cs: seq<Entry>, parent: Path)
    ensures WalkChildren([c] + cs, parent) == Walk(c, parent + [c.name]) + WalkChildren(cs, parent)
  {
    assert ([c] + cs)[1..] == cs;
  }

  lemma {:induction false} WalkChildrenAppend(a: seq<Entry>, b: seq<Entry>, parent: Path)
    ensures WalkChildren(a + b, parent) == WalkChildren(a, parent) + WalkChildren(b, parent)
    decreases |a|
  {
    if a == [] {
      assert a + b == b;
    } else {
      assert (a + b)[0] == a[0];
      assert (a + b)[1..] == a[1..] + b;
      WalkChildrenAppend(a[1..], b, parent);
    }
  }

  /** The walk raises `visitFile` for a path and name iff the tree holds
      that file there, and for nothing else: no directory, no inaccessible
      entry. */
  lemma {:induction false} WalkVisitsExactlyTheFiles(e: Entry, path: Path, p: Path, n: string)
    ensures VisitFile(p, n) in Walk(e, path) <==> IsFileOf(e, path, p, n)
    decreases e, 1
  {
    match e
    case File(_) =>
    case Unreadable(_) =>
    case Dir(_, cs) => WalkChildrenVisitsExactlyTheFiles(cs, path, p, n);
  }

  lemma {:induction false} WalkChildrenVisitsExactlyTheFiles(cs: seq<Entry>, parent: Path, p: Path, n: string)
    ensures VisitFile(p, n) in WalkChildren(cs, parent) <==>
              exists i :: 0 <= i < |cs| && IsFileOf(cs[i], parent + [cs[i].name], p, n)
    decreases cs, 0
  {
    if cs != [] {
      WalkVisitsExactlyTheFiles(cs[0], parent + [cs[0].name], p, n);
      WalkChildrenVisitsExactlyTheFiles(cs[1..], parent, p, n);
      if exists i :: 0 <= i < |cs| && IsFileOf(cs[i], parent + [cs[i].name], p, n) {
        var i :| 0 <= i < |cs| && IsFileOf(cs[i], parent + [cs[i].name], p, n);
        if i > 0 {
          assert cs[1..][i - 1] == cs[i];
        }
      }
      if exists i :: 0 <= i < |cs[1..]| && IsFileOf(cs[1..][i], parent + [cs[1..][i].name], p, n) {
        var i :| 0 <= i < |cs[1..]| && IsFileOf(cs[1..][i], parent + [cs[1..][i].name], p, n);
        assert cs[i + 1] == cs[1..][i];
      }
    }
  }

  /** Likewise `visitFileFailed` is raised for exactly the inaccessible
      entries. */
  lemma {:induction false} WalkReportsExactlyTheUnreadable(e: Entry, path: Path, p: Path)
    ensures VisitFailed(p) in Walk(e, path) <==> IsUnreadableOf(e, path, p)
    decreases e, 1
  {
    match e
    case File(_) =>
    case Unreadable(_) =>
    case Dir(_, cs) => WalkChildrenReportsExactlyTheUnreadable(cs, path, p);
  }

  lemma {:induction false} WalkChildrenReportsExactlyTheUnreadable(cs: seq<Entry>, parent: Path, p: Path)
    ensures VisitFailed(p) in WalkChildren(cs, parent) <==>
              exists i :: 0 <= i < |cs| && IsUnreadableOf(cs[i], parent + [cs[i].name], p)
    decreases cs, 0
  {
    if cs != [] {
      WalkReportsExactlyTheUnreadable(cs[0], parent + [cs[0].name], p);
      WalkChildrenReportsExactlyTheUnreadable(cs[1..], parent, p);
      if exists i :: 0 <= i < |cs| && IsUnreadableOf(cs[i], parent + [cs[i].name], p) {
        var i :| 0 <= i < |cs| && IsUnreadableOf(cs[i], parent + [cs[i].name], p);
        if i > 0 {
          assert cs[1..][i - 1] == cs[i];
        }
      }
      if exists i :: 0 <= i < |cs[1..]| && IsUnreadableOf(cs[1..][i], parent + [cs[1..][i].name], p) {
        var i :| 0 <= i < |cs[1..]| && IsUnreadableOf(cs[1..][i], parent + [cs[1..][i].name], p);
        assert cs[i + 1] == cs[1..][i];
      }
    }
  }
}
