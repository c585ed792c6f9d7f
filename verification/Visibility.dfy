/** Which entries of a context are visible under ignore rules: the component-sorted
    stack traversal, and the set it computes. */
module Visibility {
  import opened Options
  import opened Paths
  import opened Sequences
  import opened ContextEntries
  import opened IgnorePatterns
  import opened IgnoreRules

  /** The recursive verdict: parent before child, from the root. */
  ghost predicate WalkIgnored(patterns: seq<Pattern>, path: string) {
    Fold(patterns, Split(path)).ignored
  }

  /** The path is not ignored, or is a proper ancestor of an entry that is not. */
  ghost predicate IsVisible(entries: seq<Entry>, patterns: seq<Pattern>, path: string) {
    exists e :: e in entries && !WalkIgnored(patterns, e.path) && (e.path == path || Under(e.path, path))
  }

  // ---------------------------------------------------------------------
  // The directory stack
  // ---------------------------------------------------------------------

  type Frame = (string, seq<bool>)

  /** The state of the traversal before tree[n]: the stack is a chain of directories
      already seen, each with its own folded results, and a directory that left the
      stack has no entry left to come. */
  ghost predicate StackInvariant(tree: seq<Entry>, patterns: seq<Pattern>, n: nat, stack: seq<Frame>)
    requires n <= |tree|
  {
    && Chain(stack)
    && (forall a :: 0 <= a < |stack| ==> FrameSeen(tree, patterns, n, stack[a]))
    && (forall i :: 0 <= i < n ==> Settled(tree, n, stack, i))
  }

  ghost predicate Settled(tree: seq<Entry>, n: nat, stack: seq<Frame>, i: nat)
    requires i < n <= |tree|
  {
    tree[i].kind == Directory ==> OnStack(stack, tree[i].path) || Finished(tree, n, tree[i].path)
  }

  ghost predicate Chain(stack: seq<Frame>) {
    forall a, b :: 0 <= a < b < |stack| ==> Under(stack[b].0, stack[a].0)
  }

  ghost predicate FrameSeen(tree: seq<Entry>, patterns: seq<Pattern>, n: nat, frame: Frame)
    requires n <= |tree|
  {
    && frame.1 == Fold(patterns, Split(frame.0)).results
    && exists i :: 0 <= i < n && tree[i].path == frame.0
  }

  ghost predicate OnStack(stack: seq<Frame>, path: string) {
    exists a :: 0 <= a < |stack| && stack[a].0 == path
  }

  ghost predicate Finished(tree: seq<Entry>, n: nat, path: string) {
    forall m :: n <= m < |tree| ==> !Under(tree[m].path, path)
  }

  ghost predicate SortedTree(tree: seq<Entry>) {
    WellFormedWalk(tree) && Pairwise(tree, ComponentLe)
  }

  /** A directory seen before tree[n] that tree[n] is not under has nothing to come. */
  lemma LeavingIsFinal(tree: seq<Entry>, i: nat, n: nat)
    requires SortedTree(tree) && i < n < |tree| && !Under(tree[n].path, tree[i].path)
    ensures Finished(tree, n, tree[i].path)
  {
    var d := tree[i].path;
    forall m | n <= m < |tree| ensures !Under(tree[m].path, d) {
      if Under(tree[m].path, d) && m > n {
        UnderIsProperPrefix(tree[m].path, d);
        assert ComponentLe(tree[i], tree[n]) && ComponentLe(tree[n], tree[m]);
        SubtreeContiguous(Split(d), Split(tree[n].path), Split(tree[m].path));
        UnderIsProperPrefix(tree[n].path, d);
        assert PathsDiffer(tree[i], tree[n]);
        SplitInjectiveUnless(d, tree[n].path);
      }
    }
  }

  lemma SplitInjectiveUnless(a: string, b: string)
    ensures Split(a) == Split(b) ==> a == b
  {
    JoinSplit(a);
    JoinSplit(b);
  }

  /** Popping a frame that tree[n] is not under keeps the invariant. */
  lemma PopKeeps(tree: seq<Entry>, patterns: seq<Pattern>, n: nat, stack: seq<Frame>)
    requires SortedTree(tree) && n < |tree| && stack != []
    requires StackInvariant(tree, patterns, n, stack)
    requires !Under(tree[n].path, stack[|stack| - 1].0)
    ensures StackInvariant(tree, patterns, n, stack[..|stack| - 1])
  {
    var rest := stack[..|stack| - 1];
    forall i | 0 <= i < n ensures Settled(tree, n, rest, i) {
      assert Settled(tree, n, stack, i);
      PopSettled(tree, n, stack, i);
    }
  }

  lemma PopSettled(tree: seq<Entry>, n: nat, stack: seq<Frame>, i: nat)
    requires SortedTree(tree) && i < n < |tree| && stack != []
    requires !Under(tree[n].path, stack[|stack| - 1].0)
    requires Settled(tree, n, stack, i)
    ensures Settled(tree, n, stack[..|stack| - 1], i)
  {
    var rest := stack[..|stack| - 1];
    if OnStack(stack, tree[i].path) {
      var a :| 0 <= a < |stack| && stack[a].0 == tree[i].path;
      if a < |rest| {
        assert rest[a].0 == tree[i].path;
      } else {
        LeavingIsFinal(tree, i, n);
      }
    }
  }

  /** The parent of tree[n] has been seen, as a directory. */
  lemma ParentSeen(tree: seq<Entry>, n: nat) returns (i: nat)
    requires SortedTree(tree) && n < |tree| && Dirname(tree[n].path) != ""
    ensures i < n && tree[i].path == Dirname(tree[n].path) && tree[i].kind == Directory
  {
    var path := tree[n].path;
    var parent := Dirname(path);
    assert tree[n] in tree;
    ParentStep(path);
    assert AncestorsListed(tree, path);
    assert IsDirectory(tree, parent);
    var d :| d in tree && d.path == parent && d.kind == Directory;
    i :| 0 <= i < |tree| && tree[i] == d;
    UnderIsProperPrefix(path, parent);
    PrefixLe(Split(parent), Split(path));
    if i > n {
      assert ComponentLe(tree[n], tree[i]);
      SegmentsLeTotal(Split(parent), Split(path));
    }
  }

  /** Once frames the entry is not under are popped, the top frame is exactly the
      entry's parent with the parent's own results, or the stack is empty. */
  lemma TopIsParent(tree: seq<Entry>, patterns: seq<Pattern>, n: nat, stack: seq<Frame>)
    requires SortedTree(tree) && n < |tree|
    requires StackInvariant(tree, patterns, n, stack)
    requires stack == [] || Under(tree[n].path, stack[|stack| - 1].0)
    ensures var parent := Dirname(tree[n].path);
            if parent == "" then stack == []
            else stack != [] && stack[|stack| - 1] == (parent, Fold(patterns, Split(parent)).results)
  {
    var path := tree[n].path;
    var parent := Dirname(path);
    assert tree[n] in tree;
    ParentStep(path);
    if parent != "" {
      var i := ParentSeen(tree, n);
      assert Settled(tree, n, stack, i);
      assert !Finished(tree, n, parent) by { assert Under(tree[n].path, parent); }
      var a :| 0 <= a < |stack| && stack[a].0 == parent;
      var top := stack[|stack| - 1].0;
      NothingBetween(path, top);
      assert a < |stack| - 1 ==> Under(top, parent);
    }
  }

  /** No ancestor of a path is below its parent. */
  lemma NothingBetween(path: string, top: string)
    requires Clean(path) && Under(path, top)
    ensures !Under(top, Dirname(path))
  {
    ParentStep(path);
  }

  lemma VerdictFromParent(patterns: seq<Pattern>, path: string)
    requires Clean(path)
    ensures var parent := Dirname(path);
            var results := if parent == "" then [] else Fold(patterns, Split(parent)).results;
            && ParentFits(patterns, results)
            && Fold(patterns, Split(path)) == Evaluate(patterns, path, results, |patterns|)
  {
    DirnameSegments(path);
    FoldOfPath(patterns, path);
    var xs := Split(path);
    assert |xs| == 1 ==> xs[..|xs| - 1] == [];
    assert ParentResults(patterns, path) == if Dirname(path) == "" then [] else Fold(patterns, Split(Dirname(path))).results;
  }

  /** Moving past tree[n], pushed when it is a directory, keeps the invariant. */
  lemma PushKeeps(tree: seq<Entry>, patterns: seq<Pattern>, n: nat, stack: seq<Frame>, frame: Frame)
      returns (next: seq<Frame>)
    requires n < |tree|
    requires StackInvariant(tree, patterns, n, stack)
    requires stack == [] || Under(tree[n].path, stack[|stack| - 1].0)
    requires frame == (tree[n].path, Fold(patterns, Split(tree[n].path)).results)
    ensures next == if tree[n].kind == Directory then stack + [frame] else stack
    ensures StackInvariant(tree, patterns, n + 1, next)
  {
    next := if tree[n].kind == Directory then stack + [frame] else stack;
    var after := n + 1;
    PushChain(frame.0, frame.1, stack);
    PushSeen(tree, patterns, n, after, stack, frame, next);
    PushSettlesAll(tree, n, after, stack, next);
  }

  lemma PushSeen(tree: seq<Entry>, patterns: seq<Pattern>, n: nat, after: nat, stack: seq<Frame>, frame: Frame, next: seq<Frame>)
    requires n < |tree| && after == n + 1 && forall a :: 0 <= a < |stack| ==> FrameSeen(tree, patterns, n, stack[a])
    requires frame == (tree[n].path, Fold(patterns, Split(tree[n].path)).results)
    requires next == stack || next == stack + [frame]
    ensures forall a :: 0 <= a < |next| ==> FrameSeen(tree, patterns, after, next[a])
  {
    FrameNow(tree, patterns, n);
    forall a | 0 <= a < |next| ensures FrameSeen(tree, patterns, after, next[a]) {
      if a < |stack| { FrameStays(tree, patterns, n, stack[a]); }
    }
  }

  lemma PushSettlesAll(tree: seq<Entry>, n: nat, after: nat, stack: seq<Frame>, next: seq<Frame>)
    requires n < |tree| && after == n + 1 && stack <= next && forall i :: 0 <= i < n ==> Settled(tree, n, stack, i)
    requires tree[n].kind == Directory ==> |next| > |stack| && next[|stack|].0 == tree[n].path
    ensures forall i :: 0 <= i < after ==> Settled(tree, after, next, i)
  {
    forall i | 0 <= i < after ensures Settled(tree, after, next, i) {
      if i < n { PushSettled(tree, n, stack, next, i); }
    }
  }

  lemma FrameStays(tree: seq<Entry>, patterns: seq<Pattern>, n: nat, frame: Frame)
    requires n < |tree| && FrameSeen(tree, patterns, n, frame)
    ensures FrameSeen(tree, patterns, n + 1, frame)
  {
  }

  lemma FrameNow(tree: seq<Entry>, patterns: seq<Pattern>, n: nat)
    requires n < |tree|
    ensures FrameSeen(tree, patterns, n + 1, (tree[n].path, Fold(patterns, Split(tree[n].path)).results))
  {
  }

  lemma PushSettled(tree: seq<Entry>, n: nat, stack: seq<Frame>, next: seq<Frame>, i: nat)
    requires i < n < |tree| && stack <= next && Settled(tree, n, stack, i)
    ensures Settled(tree, n + 1, next, i)
  {
    if OnStack(stack, tree[i].path) {
      var a :| 0 <= a < |stack| && stack[a].0 == tree[i].path;
      assert next[a].0 == tree[i].path;
    }
  }

  lemma PushChain(path: string, results: seq<bool>, stack: seq<Frame>)
    requires Chain(stack) && (stack == [] || Under(path, stack[|stack| - 1].0))
    ensures Chain(stack + [(path, results)])
  {
    forall a | 0 <= a < |stack| ensures Under(path, stack[a].0) {
      if a < |stack| - 1 {
        UnderTransitive(path, stack[|stack| - 1].0, stack[a].0);
      }
    }
  }

  // ---------------------------------------------------------------------
  // _visible_entries_with_ancestors
  // ---------------------------------------------------------------------

  /** What the traversal can report about a walk. */
  datatype VisibleError =
    | DirectoryOmitted(path: string)
    | FileAboveEntry(path: string)
    | InvalidResults

  datatype VisibleOutcome = Visible(entries: seq<Entry>) | Inconsistent(check: Check<VisibleError>)

  ghost function NotIgnored(entries: seq<Entry>, patterns: seq<Pattern>): set<string> {
    set e | e in entries && !WalkIgnored(patterns, e.path) :: e.path
  }

  lemma NotIgnoredStep(tree: seq<Entry>, n: nat, patterns: seq<Pattern>)
    requires n < |tree|
    ensures NotIgnored(tree[..n + 1], patterns) ==
            NotIgnored(tree[..n], patterns) + if WalkIgnored(patterns, tree[n].path) then {} else {tree[n].path}
  {
    assert tree[..n + 1] == tree[..n] + [tree[n]];
  }

  method PopFrames(tree: seq<Entry>, patterns: seq<Pattern>, n: nat, stack: seq<Frame>) returns (active: seq<Frame>)
    requires SortedTree(tree) && n < |tree|
    requires StackInvariant(tree, patterns, n, stack)
    ensures StackInvariant(tree, patterns, n, active)
    ensures active == [] || Under(tree[n].path, active[|active| - 1].0)
  {
    active := stack;
    while active != [] && !Under(tree[n].path, active[|active| - 1].0)
      invariant StackInvariant(tree, patterns, n, active)
      decreases |active|
    {
      PopKeeps(tree, patterns, n, active);
      active := active[..|active| - 1];
    }
  }

  /** One entry: its parent's results are on top of the stack, and its verdict is that
      of the recursive definition. */
  method VisitEntry(tree: seq<Entry>, patterns: seq<Pattern>, n: nat, active: seq<Frame>)
      returns (check: Check<VisibleError>, verdict: Verdict)
    requires SortedTree(tree) && n < |tree|
    requires StackInvariant(tree, patterns, n, active)
    requires active == [] || Under(tree[n].path, active[|active| - 1].0)
    ensures check == Pass
    ensures verdict == Fold(patterns, Split(tree[n].path))
  {
    var entry := tree[n];
    assert entry in tree;
    TopIsParent(tree, patterns, n, active);
    VerdictFromParent(patterns, entry.path);
    var parent := Dirname(entry.path);
    var parentResults: seq<bool> := [];
    if parent != "" {
      if active == [] || active[|active| - 1].0 != parent {
        return Fail(DirectoryOmitted(parent)), Verdict(false, []);
      }
      parentResults := active[|active| - 1].1;
    }
    var outcome := MatchWithParentResults(patterns, entry.path, parentResults);
    if outcome.InvalidParentResults? {
      return Fail(InvalidResults), Verdict(false, []);
    }
    return Pass, outcome.verdict;
  }

  /** Popping, the verdict and the push for one entry. */
  method Advance(tree: seq<Entry>, patterns: seq<Pattern>, n: nat, stack: seq<Frame>)
      returns (check: Check<VisibleError>, active: seq<Frame>, ignored: bool)
    requires SortedTree(tree) && n < |tree|
    requires StackInvariant(tree, patterns, n, stack)
    ensures check == Pass
    ensures StackInvariant(tree, patterns, n + 1, active)
    ensures ignored <==> WalkIgnored(patterns, tree[n].path)
  {
    active := PopFrames(tree, patterns, n, stack);
    var verdict;
    check, verdict := VisitEntry(tree, patterns, n, active);
    ignored := verdict.ignored;
    if check.Fail? {
      return;
    }
    ghost var next := PushKeeps(tree, patterns, n, active, (tree[n].path, verdict.results));
    if tree[n].kind == Directory {
      active := active + [(tree[n].path, verdict.results)];
    }
  }

  /** The first loop: every entry gets the verdict of the recursive definition, and
      neither the omitted-directory nor the parent-results error can occur. */
  method CollectNotIgnored(tree: seq<Entry>, patterns: seq<Pattern>) returns (check: Check<VisibleError>, visible: set<string>)
    requires SortedTree(tree)
    ensures check == Pass
    ensures visible == NotIgnored(tree, patterns)
  {
    var active: seq<Frame> := [];
    visible := {};
    for n := 0 to |tree|
      invariant StackInvariant(tree, patterns, n, active)
      invariant visible == NotIgnored(tree[..n], patterns)
    {
      var ignored;
      check, active, ignored := Advance(tree, patterns, n, active);
      if check.Fail? {
        return;
      }
      NotIgnoredStep(tree, n, patterns);
      if !ignored {
        visible := visible + {tree[n].path};
      }
    }
    assert tree[..|tree|] == tree;
    check := Pass;
  }

  ghost function AncestorsOf(entries: seq<Entry>, path: string): set<string> {
    set e | e in entries && Under(path, e.path) :: e.path
  }

  ghost predicate Reached(paths: set<string>, entries: seq<Entry>, v: string) {
    v in paths || AbovePath(paths, entries, v)
  }

  ghost predicate AbovePath(paths: set<string>, entries: seq<Entry>, v: string) {
    exists p :: p in paths && v in AncestorsOf(entries, p)
  }

  lemma ListedAsDirectory(raw: seq<Entry>, rawByPath: map<string, Entry>, path: string, parent: string)
    requires WellFormedWalk(raw) && Indexes(rawByPath, raw)
    requires (exists e :: e in raw && e.path == path) && Under(path, parent)
    ensures parent in rawByPath && rawByPath[parent].kind == Directory
  {
    assert AncestorsListed(raw, path) && IsDirectory(raw, parent);
    var d :| d in raw && d.path == parent && d.kind == Directory;
    assert d.path in rawByPath;
  }

  /** `{entry.path: entry for entry in entries}`. */
  function ByPath(entries: seq<Entry>): (r: map<string, Entry>)
    requires Pairwise(entries, PathsDiffer)
    ensures Indexes(r, entries)
  {
    SamePaths(entries);
    map e | e in entries :: e.path := e
  }

  lemma SamePaths(entries: seq<Entry>)
    requires Pairwise(entries, PathsDiffer)
    ensures forall a, b :: a in entries && b in entries && a.path == b.path ==> a == b
  {
    forall a, b | a in entries && b in entries && a.path == b.path ensures a == b {
      SamePathSameEntry(entries, a, b);
    }
  }

  /** What is left to add when the walk has come to a path: that path and what is above it. */
  ghost function LeftToAdd(entries: seq<Entry>, parent: string): set<string> {
    if parent == "" then {} else {parent} + AncestorsOf(entries, parent)
  }

  lemma ClimbStart(raw: seq<Entry>, path: string)
    requires WellFormedWalk(raw) && exists e :: e in raw && e.path == path
    ensures LeftToAdd(raw, Dirname(path)) == AncestorsOf(raw, path)
    ensures Dirname(path) != "." && (Dirname(path) != "" ==> Clean(Dirname(path)) && Under(path, Dirname(path)))
  {
    ParentStep(path);
    assert AncestorsListed(raw, path);
    if Dirname(path) != "" {
      assert IsDirectory(raw, Dirname(path));
    }
  }

  /** Adding the parent leaves what is above it. */
  lemma ClimbStep(raw: seq<Entry>, path: string, parent: string)
    requires WellFormedWalk(raw) && (exists e :: e in raw && e.path == path)
    requires Clean(parent) && Under(path, parent)
    ensures LeftToAdd(raw, parent) == {parent} + LeftToAdd(raw, Dirname(parent))
    ensures |Dirname(parent)| < |parent| && Dirname(parent) != "."
    ensures Dirname(parent) != "" ==> Clean(Dirname(parent)) && Under(path, Dirname(parent))
  {
    assert AncestorsListed(raw, path) && IsDirectory(raw, parent);
    var d :| d in raw && d.path == parent && d.kind == Directory;
    ClimbStart(raw, parent);
    ParentStep(parent);
    if Dirname(parent) != "" { UnderTransitive(path, parent, Dirname(parent)); }
  }

  /** The walk from one visible path up to the root. */
  method AddAncestorsOf(raw: seq<Entry>, path: string, start: set<string>)
      returns (check: Check<VisibleError>, visible: set<string>)
    requires WellFormedWalk(raw) && exists e :: e in raw && e.path == path
    ensures check == Pass
    ensures visible == start + AncestorsOf(raw, path)
  {
    var rawByPath := ByPath(raw);
    visible := start;
    var parent := Dirname(path);
    ClimbStart(raw, path);
    while parent != "" && parent != "."
      invariant parent != "." && (parent != "" ==> Clean(parent) && Under(path, parent))
      invariant visible + LeftToAdd(raw, parent) == start + AncestorsOf(raw, path)
      decreases |parent|
    {
      ListedAsDirectory(raw, rawByPath, path, parent);
      ClimbStep(raw, path, parent);
      if rawByPath[parent].kind != Directory {
        return Fail(FileAboveEntry(parent)), visible;
      }
      visible := visible + {parent};
      parent := Dirname(parent);
    }
    check := Pass;
  }

  /** The second loop: add every ancestor of every visible path, in whatever order the
      set is listed. */
  method AddAncestors(raw: seq<Entry>, start: set<string>) returns (check: Check<VisibleError>, visible: set<string>)
    requires WellFormedWalk(raw) && start <= set e | e in raw :: e.path
    ensures check == Pass
    ensures forall v :: v in visible <==> Reached(start, raw, v)
  {
    visible := start;
    var pending := start;
    while pending != {}
      invariant pending <= start
      invariant forall v :: v in visible <==> v in start || AbovePath(start - pending, raw, v)
      decreases |pending|
    {
      var path :| path in pending;
      ghost var before, left := visible, pending;
      pending := pending - {path};
      check, visible := AddAncestorsOf(raw, path, visible);
      if check.Fail? {
        return;
      }
      forall v ensures AbovePath(start - pending, raw, v) <==>
                       AbovePath(start - left, raw, v) || v in AncestorsOf(raw, path) {
        assert start - pending == start - left + {path};
      }
    }
    assert start - pending == start;
    check := Pass;
  }

  /** The visible entries are, in the given order, exactly the entries that are not
      ignored and the proper ancestors of such entries. */
  method VisibleEntriesWithAncestors(raw: seq<Entry>, patterns: seq<Pattern>) returns (r: VisibleOutcome)
    requires WellFormedWalk(raw)
    ensures r == Visible(Filter(raw, (e: Entry) => IsVisible(raw, patterns, e.path)))
  {
    PathOrder();
    SortedWalk(raw, ComponentLe);
    var tree := SortBy(raw, ComponentLe);
    var check, notIgnored := CollectNotIgnored(tree, patterns);
    if check.Fail? {
      return Inconsistent(check);
    }
    var checkAbove, visible := AddAncestors(raw, notIgnored);
    if checkAbove.Fail? {
      return Inconsistent(checkAbove);
    }
    forall e | e in raw ensures e.path in visible <==> IsVisible(raw, patterns, e.path) {
      VisibleMembership(raw, tree, patterns, e);
    }
    FilterCongruent(raw, (e: Entry) => e.path in visible, (e: Entry) => IsVisible(raw, patterns, e.path));
    r := Visible(Filter(raw, (e: Entry) => e.path in visible));
  }

  lemma VisibleMembership(raw: seq<Entry>, tree: seq<Entry>, patterns: seq<Pattern>, e: Entry)
    requires e in raw && forall x :: x in tree <==> x in raw
    ensures Reached(NotIgnored(tree, patterns), raw, e.path) <==> IsVisible(raw, patterns, e.path)
  {
    var notIgnored := NotIgnored(tree, patterns);
    if Reached(notIgnored, raw, e.path) {
      var p :| p in notIgnored && (p == e.path || Under(p, e.path));
      var w :| w in tree && !WalkIgnored(patterns, w.path) && w.path == p;
    }
    if IsVisible(raw, patterns, e.path) {
      var w :| w in raw && !WalkIgnored(patterns, w.path) && (w.path == e.path || Under(w.path, e.path));
      assert w.path in notIgnored;
    }
  }

  // ---------------------------------------------------------------------
  // Properties of the visible set
  // ---------------------------------------------------------------------

  /** Visibility is closed under parents: an ancestor of a visible entry is a visible
      directory. */
  lemma VisibleClosed(raw: seq<Entry>, patterns: seq<Pattern>, e: Entry, a: string)
    requires WellFormedWalk(raw) && e in raw && IsVisible(raw, patterns, e.path) && Under(e.path, a)
    ensures IsDirectory(Filter(raw, (x: Entry) => IsVisible(raw, patterns, x.path)), a)
  {
    assert AncestorsListed(raw, e.path);
    var d :| d in raw && d.path == a && d.kind == Directory;
    var w :| w in raw && !WalkIgnored(patterns, w.path) && (w.path == e.path || Under(w.path, e.path));
    if w.path != e.path {
      UnderTransitive(w.path, e.path, a);
    }
    assert IsVisible(raw, patterns, d.path);
  }

  /** A file is visible exactly when its own verdict is not ignored. */
  lemma VisibleFile(raw: seq<Entry>, patterns: seq<Pattern>, file: Entry)
    requires WellFormedWalk(raw) && file in raw && file.kind == File
    ensures IsVisible(raw, patterns, file.path) <==> !WalkIgnored(patterns, file.path)
  {
    forall e | e in raw ensures !Under(e.path, file.path) {
      NothingUnderFile(raw, file, e);
    }
  }

  /** With exclusions first, a file is visible exactly when the direct rule "the last
      pattern that hits the path or an ancestor decides" does not ignore it. */
  lemma VisibleFileByLastHit(raw: seq<Entry>, patterns: seq<Pattern>, flags: seq<bool>, file: Entry)
    requires WellFormedWalk(raw) && file in raw && file.kind == File
    requires HasPolarity(patterns, flags) && ExclusionsFirst(flags)
    ensures IsVisible(raw, patterns, file.path) <==> !Ignored(patterns, file.path)
  {
    VisibleFile(raw, patterns, file);
    ExclusionsFirstAgree(patterns, flags, file.path);
  }
}
