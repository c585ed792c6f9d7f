/** Entries of a Docker build context, and the validation of a context walk. */
module ContextEntries {
  import opened Paths
  import opened Sequences

  datatype Kind = File | Directory
  datatype Entry = Entry(path: string, kind: Kind, mode: nat)

  predicate PathsDiffer(a: Entry, b: Entry) {
    a.path != b.path
  }

  predicate PathLe(a: Entry, b: Entry) {
    StringLe(a.path, b.path)
  }

  predicate ComponentLe(a: Entry, b: Entry) {
    SegmentsLe(Split(a.path), Split(b.path))
  }

  // ---------------------------------------------------------------------
  // What a valid walk is
  // ---------------------------------------------------------------------

  predicate SafePath(p: string) {
    '\0' !in p && '\\' !in p && Clean(p)
  }

  predicate IsDirectory(entries: seq<Entry>, path: string) {
    exists e :: e in entries && e.path == path && e.kind == Directory
  }

  /** Every proper ancestor of the path is listed as a directory. */
  ghost predicate AncestorsListed(entries: seq<Entry>, path: string) {
    forall a :: Under(path, a) ==> IsDirectory(entries, a)
  }

  ghost predicate WellFormedWalk(entries: seq<Entry>) {
    && (forall e :: e in entries ==> SafePath(e.path) && AncestorsListed(entries, e.path))
    && Pairwise(entries, PathsDiffer)
  }

  lemma SamePathSameEntry(entries: seq<Entry>, a: Entry, b: Entry)
    requires Pairwise(entries, PathsDiffer) && a in entries && b in entries && a.path == b.path
    ensures a == b
  {
    var i :| 0 <= i < |entries| && entries[i] == a;
    var j :| 0 <= j < |entries| && entries[j] == b;
  }

  lemma UnderTransitive(a: string, b: string, c: string)
    requires Under(a, b) && Under(b, c)
    ensures Under(a, c)
  {
    assert a[..|c|] == a[..|b|][..|c|];
    assert a[|c|] == a[..|b|][|c|];
  }

  /** One dirname step on a clean path: the parent covers all remaining ancestors. */
  lemma ParentStep(path: string)
    requires Clean(path)
    ensures var parent := Dirname(path);
            && |parent| < |path| && parent != "."
            && (parent == "" ==> forall a :: !Under(path, a))
            && (parent != "" ==>
                  && Clean(parent) && Under(path, parent)
                  && forall a :: Under(path, a) <==> a == parent || Under(parent, a))
  {
    DirnameSegments(path);
    var xs := Split(path);
    var parent := Dirname(path);
    NormPathOfClean(path);
    if |xs| == 1 {
      forall a ensures !Under(path, a) {
        UnderIsProperPrefix(path, a);
      }
    } else {
      assert forall i :: 0 <= i < |xs| - 1 ==> Split(parent)[i] == xs[i];
      if parent == "." {
        SplitAtom(".");
      }
      forall a | Under(path, a) ensures a == parent || Under(parent, a) {
        UnderIsProperPrefix(path, a);
        UnderIsProperPrefix(parent, a);
        if |Split(a)| == |xs| - 1 {
          SplitInjective(a, parent);
        } else {
          assert xs[..|xs| - 1][..|Split(a)|] == xs[..|Split(a)|];
        }
      }
      forall a | Under(parent, a) ensures Under(path, a) {
        UnderTransitive(path, parent, a);
      }
    }
  }

  // ---------------------------------------------------------------------
  // _validate_walk_entries
  // ---------------------------------------------------------------------

  datatype WalkCheck = Accepted | UnsafePath | DuplicatePath | OmittedDirectory | FileAsAncestor

  predicate UnsafeSegment(s: string) {
    s == "" || s == "." || s == ".."
  }

  /** The path tests of the validation, in their order. */
  predicate PathRejected(path: string) {
    || path == ""
    || '\0' in path
    || '\\' in path
    || path[0] == '/'
    || path[|path| - 1] == '/'
    || (exists i :: 0 <= i < |Split(path)| && UnsafeSegment(Split(path)[i]))
    || NormPath(path) != path
  }

  /** Several of the tests are redundant: together they say the path is safe. */
  lemma PathRejectedExactly(path: string)
    ensures PathRejected(path) <==> !SafePath(path)
  {
    if Clean(path) {
      NormPathOfClean(path);
      JoinSplit(path);
      SplitSlashFree(path);
      JoinCleanEnds(Split(path));
    } else {
      var i :| 0 <= i < |Split(path)| && UnsafeSegment(Split(path)[i]);
    }
  }

  /** The entries by path, as the first loop collects them. */
  ghost predicate Indexes(seen: map<string, Entry>, entries: seq<Entry>) {
    && (forall e :: e in entries ==> e.path in seen && seen[e.path] == e)
    && forall p :: p in seen ==> seen[p] in entries && seen[p].path == p
  }

  lemma IndexesExtend(seen: map<string, Entry>, front: seq<Entry>, entry: Entry)
    requires Indexes(seen, front) && Pairwise(front, PathsDiffer)
    ensures entry.path in seen ==> !Pairwise(front + [entry], PathsDiffer)
    ensures entry.path !in seen ==>
              Pairwise(front + [entry], PathsDiffer) && Indexes(seen[entry.path := entry], front + [entry])
  {
    var all := front + [entry];
    if entry.path in seen {
      var k :| 0 <= k < |front| && front[k] == seen[entry.path];
      assert !PathsDiffer(all[k], all[|front|]);
    } else {
      forall k | 0 <= k < |front| ensures PathsDiffer(front[k], entry) {
        assert front[k] in front;
      }
    }
  }

  lemma PairwisePrefix<T(!new)>(s: seq<T>, rel: (T, T) -> bool, n: nat)
    requires n <= |s|
    ensures Pairwise(s, rel) ==> Pairwise(s[..n], rel)
  {
  }

  lemma IndexesNext(seen: map<string, Entry>, entries: seq<Entry>, i: nat)
    requires i < |entries| && Indexes(seen, entries[..i]) && Pairwise(entries[..i], PathsDiffer)
    ensures entries[i].path in seen ==> !Pairwise(entries, PathsDiffer)
    ensures entries[i].path !in seen ==>
              Pairwise(entries[..i + 1], PathsDiffer) && Indexes(seen[entries[i].path := entries[i]], entries[..i + 1])
  {
    IndexesExtend(seen, entries[..i], entries[i]);
    assert entries[..i + 1] == entries[..i] + [entries[i]];
    if Pairwise(entries, PathsDiffer) { PairwisePrefix(entries, PathsDiffer, i + 1); }
  }

  /** The tests of one path. */
  method RejectPath(path: string) returns (rejected: bool)
    ensures rejected <==> !SafePath(path)
  {
    PathRejectedExactly(path);
    rejected := PathRejected(path);
  }

  ghost predicate SafeUpTo(entries: seq<Entry>, n: nat)
    requires n <= |entries|
  {
    forall k :: 0 <= k < n ==> SafePath(entries[k].path)
  }

  lemma AllSafe(entries: seq<Entry>)
    ensures SafeUpTo(entries, |entries|) <==> forall e :: e in entries ==> SafePath(e.path)
  {
    forall k | 0 <= k < |entries| ensures entries[k] in entries {
    }
  }

  lemma SafeNext(entries: seq<Entry>, i: nat)
    requires i < |entries| && SafeUpTo(entries, i)
    ensures SafeUpTo(entries, i + 1) <==> SafePath(entries[i].path)
    ensures !SafePath(entries[i].path) ==> !SafeUpTo(entries, |entries|)
  {
  }

  /** First loop: path tests and duplicates. */
  method CheckPaths(entries: seq<Entry>) returns (r: WalkCheck, seen: map<string, Entry>)
    ensures r == Accepted <==> (forall e :: e in entries ==> SafePath(e.path)) && Pairwise(entries, PathsDiffer)
    ensures r == Accepted ==> Indexes(seen, entries)
  {
    AllSafe(entries);
    r, seen := IndexPaths(entries);
  }

  method IndexPaths(entries: seq<Entry>) returns (r: WalkCheck, seen: map<string, Entry>)
    ensures r == Accepted <==> SafeUpTo(entries, |entries|) && Pairwise(entries, PathsDiffer)
    ensures r == Accepted ==> Indexes(seen, entries)
  {
    seen := map[];
    for i := 0 to |entries|
      invariant SafeUpTo(entries, i)
      invariant Pairwise(entries[..i], PathsDiffer)
      invariant Indexes(seen, entries[..i])
    {
      var entry := entries[i];
      var rejected := RejectPath(entry.path);
      SafeNext(entries, i);
      if rejected {
        return UnsafePath, seen;
      }
      IndexesNext(seen, entries, i);
      if entry.path in seen {
        return DuplicatePath, seen;
      }
      seen := seen[entry.path := entry];
    }
    assert entries[..|entries|] == entries;
    r := Accepted;
  }

  /** The walk from one path up to the root. */
  method CheckAncestors(entries: seq<Entry>, seen: map<string, Entry>, path: string) returns (r: WalkCheck)
    requires Indexes(seen, entries) && Pairwise(entries, PathsDiffer) && Clean(path)
    ensures r == Accepted <==> AncestorsListed(entries, path)
  {
    var parent := Dirname(path);
    ParentStep(path);
    while parent != "" && parent != "."
      invariant parent != "." && (parent != "" ==> Clean(parent) && Under(path, parent))
      invariant forall a :: Under(path, a) ==>
                  IsDirectory(entries, a) || (parent != "" && (a == parent || Under(parent, a)))
      decreases |parent|
    {
      ParentStep(parent);
      if parent !in seen {
        return OmittedDirectory;
      }
      if seen[parent].kind == File {
        NotADirectory(entries, seen[parent]);
        return FileAsAncestor;
      }
      assert IsDirectory(entries, parent);
      var above := Dirname(parent);
      if above != "" { UnderTransitive(path, parent, above); }
      parent := above;
    }
    r := Accepted;
  }

  /** The validation accepts exactly the valid walks. */
  method ValidateWalkEntries(entries: seq<Entry>) returns (r: WalkCheck)
    ensures r == Accepted <==> WellFormedWalk(entries)
  {
    var seen;
    r, seen := CheckPaths(entries);
    if r != Accepted {
      return;
    }
    for i := 0 to |entries|
      invariant forall k :: 0 <= k < i ==> AncestorsListed(entries, entries[k].path)
    {
      assert entries[i] in entries;
      r := CheckAncestors(entries, seen, entries[i].path);
      if r != Accepted {
        return;
      }
    }
    r := Accepted;
  }

  lemma NotADirectory(entries: seq<Entry>, e: Entry)
    requires Pairwise(entries, PathsDiffer) && e in entries && e.kind == File
    ensures !IsDirectory(entries, e.path)
  {
    if IsDirectory(entries, e.path) {
      var d :| d in entries && d.path == e.path && d.kind == Directory;
      SamePathSameEntry(entries, d, e);
    }
  }

  /** Files have nothing below them. */
  lemma NothingUnderFile(entries: seq<Entry>, file: Entry, e: Entry)
    requires WellFormedWalk(entries) && file in entries && e in entries && file.kind == File
    ensures !Under(e.path, file.path)
  {
    NotADirectory(entries, file);
  }

  // ---------------------------------------------------------------------
  // Orders on entries
  // ---------------------------------------------------------------------

  lemma PathOrder()
    ensures TotalPreorder(PathLe) && TotalPreorder(ComponentLe) && Symmetric(PathsDiffer)
  {
    forall x, y ensures PathLe(x, y) || PathLe(y, x) { StringLeTotal(x.path, y.path); }
    forall x, y, z | PathLe(x, y) && PathLe(y, z) ensures PathLe(x, z) { StringLeTransitive(x.path, y.path, z.path); }
    forall x, y ensures ComponentLe(x, y) || ComponentLe(y, x) { SegmentsLeTotal(Split(x.path), Split(y.path)); }
    forall x, y, z | ComponentLe(x, y) && ComponentLe(y, z) ensures ComponentLe(x, z) {
      SegmentsLeTransitive(Split(x.path), Split(y.path), Split(z.path));
    }
  }

  /** Validity does not depend on the order of the walk. */
  lemma SortedWalk(entries: seq<Entry>, le: (Entry, Entry) -> bool)
    requires WellFormedWalk(entries) && TotalPreorder(le)
    ensures WellFormedWalk(SortBy(entries, le)) && Pairwise(SortBy(entries, le), le)
  {
    PathOrder();
    SortSorted(entries, le);
    SortKeepsPairs(entries, le, PathsDiffer);
    var r := SortBy(entries, le);
    forall e, a | e in r && Under(e.path, a) ensures IsDirectory(r, a) {
      assert IsDirectory(entries, a);
    }
  }
}
