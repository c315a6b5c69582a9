/** `Finder.matches` and `Finder.searchFiles`: the choice among the three
    ways of comparing a file name with the pattern, and the visitor that
    collects, in the order of the walk, the paths of the files whose base
    name matches. */
module Finder {

  import opened Results
  import opened Regex
  import opened Mask
  import opened FileTree

  /** The three search types, named "name", "mask" and "regex" on the
      command line. */
  datatype Kind = ByName | ByMask | ByRegex

  function KindName(k: Kind): string {
    match k
    case ByName => "name"
    case ByMask => "mask"
    case ByRegex => "regex"
  }

  /** The switch of `matches` on the type string; any other string throws. */
  function KindOf(searchType: string): (r: Result<Kind>)
    ensures r.Err? <==> searchType != "mask" && searchType != "name" && searchType != "regex"
    ensures r.Ok? ==> KindName(r.value) == searchType
    ensures r.Err? ==> r.error == UnknownSearchType(searchType)
  {
    match searchType
    case "mask" => Ok(ByMask)
    case "name" => Ok(ByName)
    case "regex" => Ok(ByRegex)
    case _ => Err(UnknownSearchType(searchType))
  }

  /** Every search type is recognised under its own name, and no other
      string is recognised. */
  lemma KindOfInvertsKindName(k: Kind, searchType: string)
    ensures KindOf(KindName(k)) == Ok(k)
    ensures KindOf(searchType).Err? <==> forall k': Kind :: KindName(k') != searchType
  {
    if KindOf(searchType).Ok? {
      assert KindName(KindOf(searchType).value) == searchType;
    }
  }

  /** How a file name is compared with the pattern once the type is known. */
  predicate MatchKind(k: Kind, engine: Engine, fileName: string, pattern: string) {
    match k
    case ByName => fileName == pattern
    case ByMask => MatchesMask(engine, fileName, pattern)
    case ByRegex => FullMatch(engine, fileName, pattern)
  }

  /** `matches(fileName, pattern, type)`. An unknown type is an error
      whatever the file name, never a plain "no match". */
  function Matches(engine: Engine, fileName: string, pattern: string, searchType: string): (r: Result<bool>)
    ensures r.Err? <==> searchType != "mask" && searchType != "name" && searchType != "regex"
    ensures r.Err? ==> r.error == UnknownSearchType(searchType)
    ensures searchType == "name" ==> r.Ok? && (r.value <==> fileName == pattern)
    ensures searchType == "regex" ==> r.Ok? && (r.value <==> FullMatch(engine, fileName, pattern))
    ensures searchType == "mask" ==> r.Ok? && (r.value <==> MatchesMask(engine, fileName, pattern))
    ensures searchType == "mask" && MetaFree(pattern) ==> r == Ok(GlobMatch(pattern, fileName))
  {
    match KindOf(searchType)
    case Err(e) => Err(e)
    case Ok(k) => Ok(MatchKind(k, engine, fileName, pattern))
  }

  /** The paths the visitor adds for the events `vs` once the type is
      known: those of the `visitFile` events whose name matches, in order. */
  function Selected(vs: seq<Visit>, k: Kind, engine: Engine, pattern: string): (r: seq<Path>)
    ensures |r| <= |vs|
    ensures !HasFileVisit(vs) ==> r == []
    decreases |vs|
  {
    if vs == [] then []
    else Picked(vs[0], k, engine, pattern) + Selected(vs[1..], k, engine, pattern)
  }

  /** What the visitor adds for one event. */
  function Picked(v: Visit, k: Kind, engine: Engine, pattern: string): seq<Path> {
    match v
    case VisitFile(p, n) => if MatchKind(k, engine, n, pattern) then [p] else []
    case VisitFailed(_) => []
  }

  /** The events hold at least one `visitFile`. */
  predicate HasFileVisit(vs: seq<Visit>)
    decreases |vs|
  {
    vs != [] && (vs[0].VisitFile? || HasFileVisit(vs[1..]))
  }

  lemma {:induction false} HasFileVisitConcat(a: seq<Visit>, b: seq<Visit>)
    ensures HasFileVisit(a + b) <==> HasFileVisit(a) || HasFileVisit(b)
    decreases |a|
  {
    if a == [] {
      assert a + b == b;
    } else {
      assert (a + b)[0] == a[0];
      assert (a + b)[1..] == a[1..] + b;
      HasFileVisitConcat(a[1..], b);
    }
  }

  lemma {:induction false} HasFileVisitIff(vs: seq<Visit>)
    ensures HasFileVisit(vs) <==> exists i :: 0 <= i < |vs| && vs[i].VisitFile?
    decreases |vs|
  {
    if vs != [] {
      HasFileVisitIff(vs[1..]);
      if exists i :: 0 <= i < |vs| && vs[i].VisitFile? {
        var i :| 0 <= i < |vs| && vs[i].VisitFile?;
        if i > 0 {
          assert vs[1..][i - 1] == vs[i];
        }
      }
      if exists i :: 0 <= i < |vs[1..]| && vs[1..][i].VisitFile? {
        var i :| 0 <= i < |vs[1..]| && vs[1..][i].VisitFile?;
        assert vs[i + 1] == vs[1..][i];
      }
    }
  }

  lemma {:induction false} SelectedAppend(a: seq<Visit>, b: seq<Visit>, k: Kind, engine: Engine, pattern: string)
    ensures Selected(a + b, k, engine, pattern) == Selected(a, k, engine, pattern) + Selected(b, k, engine, pattern)
    decreases |a|
  {
    if a == [] {
      assert a + b == b;
    } else {
      var v, rest := a[0], a[1..];
      assert (a + b)[0] == v;
      assert (a + b)[1..] == rest + b;
      var pv, sr, sb := Picked(v, k, engine, pattern), Selected(rest, k, engine, pattern), Selected(b, k, engine, pattern);
      assert Selected(a, k, engine, pattern) == pv + sr;
      assert Selected(a + b, k, engine, pattern) == pv + Selected(rest + b, k, engine, pattern);
      assert pv + (sr + sb) == (pv + sr) + sb;
      SelectedAppend(rest, b, k, engine, pattern);
    }
  }

  /** A failed event between two stretches of the walk adds nothing. */
  lemma SelectedSkipsFailure(wa: seq<Visit>, p: Path, wb: seq<Visit>, k: Kind, engine: Engine, pattern: string)
    ensures Selected(wa + [VisitFailed(p)] + wb, k, engine, pattern) == Selected(wa + wb, k, engine, pattern)
  {
    var f := [VisitFailed(p)];
    var sa, sb := Selected(wa, k, engine, pattern), Selected(wb, k, engine, pattern);
    assert Selected(f, k, engine, pattern) == [];
    SelectedAppend(wa, f, k, engine, pattern);
    assert Selected(wa + f, k, engine, pattern) == sa;
    SelectedAppend(wa + f, wb, k, engine, pattern);
    SelectedAppend(wa, wb, k, engine, pattern);
  }

  /** `searchFiles(directory, pattern, type)` on the tree `root` found at
      `directory`: the visitor runs over the walk's events, adding the path
      of each matching file and carrying on past every failed entry. The
      first file visited with an unknown type aborts the search. */
  method SearchFiles(engine: Engine, root: Entry, directory: string, pattern: string, searchType: string)
    returns (r: Result<seq<Path>>)
    ensures r.Err? <==> KindOf(searchType).Err? && HasFileVisit(Walk(root, [directory]))
    ensures r.Err? ==> r.error == UnknownSearchType(searchType)
    ensures r.Ok? && KindOf(searchType).Ok? ==>
              r.value == Selected(Walk(root, [directory]), KindOf(searchType).value, engine, pattern)
    ensures r.Ok? && KindOf(searchType).Err? ==> r.value == []
  {
    var visits := Walk(root, [directory]);
    var result: seq<Path> := [];
    var i := 0;
    while i < |visits|
      invariant 0 <= i <= |visits|
      invariant KindOf(searchType).Ok? ==>
                  result == Selected(visits[..i], KindOf(searchType).value, engine, pattern)
      invariant KindOf(searchType).Err? ==> result == [] && !HasFileVisit(visits[..i])
    {
      ghost var before := visits[..i];
      assert visits[..i + 1] == before + [visits[i]];
      HasFileVisitConcat(before, [visits[i]]);
      match visits[i] {
        case VisitFile(p, n) =>
          var m := Matches(engine, n, pattern, searchType);
          if m.Err? {
            assert visits == visits[..i + 1] + visits[i + 1..];
            HasFileVisitConcat(visits[..i + 1], visits[i + 1..]);
            return Err(m.error);
          }
          if m.value {
            result := result + [p];
          }
          SelectedAppend(before, [visits[i]], KindOf(searchType).value, engine, pattern);
        case VisitFailed(_) =>
          // Reported on the error stream; the walk continues.
          if KindOf(searchType).Ok? {
            SelectedAppend(before, [visits[i]], KindOf(searchType).value, engine, pattern);
          }
      }
      i := i + 1;
    }
    assert visits[..i] == visits;
    return Ok(result);
  }

  // ---------------------------------------------------------------------
  // What the search returns, in terms of the tree

  lemma {:induction false} SelectedMembers(vs: seq<Visit>, k: Kind, engine: Engine, pattern: string, p: Path)
    ensures p in Selected(vs, k, engine, pattern) <==>
              exists i :: 0 <= i < |vs| && vs[i].VisitFile? && vs[i].path == p && MatchKind(k, engine, vs[i].name, pattern)
    decreases |vs|
  {
    if vs != [] {
      SelectedMembers(vs[1..], k, engine, pattern, p);
      if exists i :: 0 <= i < |vs| && vs[i].VisitFile? && vs[i].path == p && MatchKind(k, engine, vs[i].name, pattern) {
        var i :| 0 <= i < |vs| && vs[i].VisitFile? && vs[i].path == p && MatchKind(k, engine, vs[i].name, pattern);
        if i > 0 {
          assert vs[1..][i - 1] == vs[i];
        }
      }
      if exists i :: 0 <= i < |vs[1..]| && vs[1..][i].VisitFile? && vs[1..][i].path == p && MatchKind(k, engine, vs[1..][i].name, pattern) {
        var i :| 0 <= i < |vs[1..]| && vs[1..][i].VisitFile? && vs[1..][i].path == p && MatchKind(k, engine, vs[1..][i].name, pattern);
        assert vs[i + 1] == vs[1..][i];
      }
    }
  }

  /** A path is returned iff it is the path of a file of the tree whose
      base name matches. Directories and inaccessible entries are never
      returned. */
  lemma SearchReturnsExactlyTheMatchingFiles(root: Entry, path: Path, k: Kind, engine: Engine, pattern: string, p: Path)
    ensures p in Selected(Walk(root, path), k, engine, pattern) <==>
              exists n :: IsFileOf(root, path, p, n) && MatchKind(k, engine, n, pattern)
  {
    var vs := Walk(root, path);
    SelectedMembers(vs, k, engine, pattern, p);
    if p in Selected(vs, k, engine, pattern) {
      var i :| 0 <= i < |vs| && vs[i].VisitFile? && vs[i].path == p && MatchKind(k, engine, vs[i].name, pattern);
      WalkVisitsExactlyTheFiles(root, path, p, vs[i].name);
    }
    if exists n :: IsFileOf(root, path, p, n) && MatchKind(k, engine, n, pattern) {
      var n :| IsFileOf(root, path, p, n) && MatchKind(k, engine, n, pattern);
      WalkVisitsExactlyTheFiles(root, path, p, n);
      var i :| 0 <= i < |vs| && vs[i] == VisitFile(p, n);
    }
  }

  /** The result lists the matches of the entries of a directory in the
      order the entries are listed. */
  lemma SearchFollowsEntryOrder(d: string, a: seq<Entry>, b: seq<Entry>, path: Path, k: Kind, engine: Engine, pattern: string)
    ensures Selected(Walk(Dir(d, a + b), path), k, engine, pattern) ==
              Selected(Walk(Dir(d, a), path), k, engine, pattern) + Selected(Walk(Dir(d, b), path), k, engine, pattern)
  {
    WalkChildrenAppend(a, b, path);
    SelectedAppend(WalkChildren(a, path), WalkChildren(b, path), k, engine, pattern);
  }

  /** An inaccessible entry adds nothing and does not stop the walk: the
      entries after it are searched as if it were not there. */
  lemma UnreadableEntryAddsNothing(d: string, a: seq<Entry>, x: string, b: seq<Entry>, path: Path, k: Kind, engine: Engine, pattern: string)
    ensures Selected(Walk(Dir(d, a + [Unreadable(x)] + b), path), k, engine, pattern) ==
              Selected(Walk(Dir(d, a + b), path), k, engine, pattern)
  {
    var wa, wb := WalkChildren(a, path), WalkChildren(b, path);
    WalkWithUnreadable(a, x, b, path);
    WalkChildrenAppend(a, b, path);
    SelectedSkipsFailure(wa, path + [x], wb, k, engine, pattern);
  }

  lemma WalkWithUnreadable(a: seq<Entry>, x: string, b: seq<Entry>, path: Path)
    ensures WalkChildren(a + [Unreadable(x)] + b, path) ==
              WalkChildren(a, path) + [VisitFailed(path + [x])] + WalkChildren(b, path)
  {
    var u := [Unreadable(x)];
    WalkChildrenAppend(a + u, b, path);
    WalkChildrenAppend(a, u, path);
    WalkChildrenCons(Unreadable(x), [], path);
    assert u == [Unreadable(x)] + [];
  }

  /** A root the walk cannot access is reported through `visitFileFailed`
      like any other entry: the search finds nothing and raises no error,
      whatever the type. */
  lemma UnreadableRootFindsNothing(x: string, path: Path, k: Kind, engine: Engine, pattern: string)
    ensures !HasFileVisit(Walk(Unreadable(x), path))
    ensures Selected(Walk(Unreadable(x), path), k, engine, pattern) == []
  {
  }
}
