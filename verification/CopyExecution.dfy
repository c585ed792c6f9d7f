/** Execution of a prepared plan on a file tree in which creating a directory or
    copying a file needs an existing parent directory. */
module CopyExecution {
  import opened Options
  import opened Paths
  import opened AbsolutePaths
  import opened Sequences
  import opened ContextEntries
  import opened CopyPlan

  datatype Node =
    | Dir(mode: nat, owner: string)
    | FileNode(content: Content, mode: nat, owner: string)

  type Tree = map<string, Node>

  const NEW_DIRECTORY := Dir(0x1ed, "root")
  const NEW_FILE_MODE: nat := 0x1a4
  const NEW_OWNER := "root"

  predicate IsDir(tree: Tree, path: string) {
    path in tree && tree[path].Dir?
  }

  ghost predicate WellFormedTree(tree: Tree) {
    && IsDir(tree, "/")
    && forall path {:trigger Dirname(path)} :: path in tree && path != "/" ==> IsDir(tree, Dirname(path))
  }

  // ---------------------------------------------------------------------
  // The directories of a plan
  // ---------------------------------------------------------------------

  /** An explicitly planned directory, or one the walk above a target visits. */
  ghost predicate PlannedDirectory(plans: seq<Planned>, d: string) {
    exists p :: p in plans && DirectoryOf(p, d)
  }

  ghost predicate DirectoryOf(p: Planned, d: string) {
    WalkVisits(Dirname(p.remote), d) || (p.kind == Directory && p.remote == d && d != "/")
  }

  method AddParents(remote: string, start: set<string>) returns (directories: set<string>)
    requires WalkEnds(Dirname(remote))
    ensures forall d :: d in directories <==> d in start || WalkVisits(Dirname(remote), d)
  {
    directories := start;
    var parent := Dirname(remote);
    while parent != "/"
      invariant WalkEnds(parent)
      invariant forall d :: d in directories || WalkVisits(parent, d) <==> d in start || WalkVisits(Dirname(remote), d)
      decreases |parent|
    {
      directories := directories + {parent};
      parent := Dirname(parent);
    }
  }

  /** `tuple(set)`: the elements in some order, each once. */
  method Elements(s: set<string>) returns (r: seq<string>)
    ensures forall x :: x in r <==> x in s
  {
    r := [];
    var left := s;
    while left != {}
      invariant left <= s
      invariant forall x :: x in r <==> x in s && x !in left
      decreases |left|
    {
      var x :| x in left;
      r := r + [x];
      left := left - {x};
    }
  }

  /** Every parent stands before its children. */
  ghost predicate ParentsFirst(directories: seq<string>) {
    forall i :: 0 <= i < |directories| ==>
      Dirname(directories[i]) == "/" || Dirname(directories[i]) in directories[..i]
  }

  /** One planned entry's parents, and itself when it is a directory. */
  method AddPlan(plan: Planned, start: set<string>) returns (directories: set<string>)
    requires WalkEnds(Dirname(plan.remote))
    ensures forall d :: d in directories <==> d in start || DirectoryOf(plan, d)
  {
    directories := AddParents(plan.remote, start);
    if plan.kind == Directory && plan.remote != "/" {
      directories := directories + {plan.remote};
    }
  }

  lemma PlannedDirectoryStep(plans: seq<Planned>, i: nat, d: string)
    requires i < |plans|
    ensures PlannedDirectory(plans[..i + 1], d) <==> PlannedDirectory(plans[..i], d) || DirectoryOf(plans[i], d)
  {
    assert plans[..i + 1] == plans[..i] + [plans[i]];
    assert forall p :: p in plans[..i + 1] <==> p in plans[..i] || p == plans[i];
  }

  /** The planned directories in creation order. */
  method CopyDirectories(plans: seq<Planned>) returns (r: seq<string>)
    requires ExecutablePlan(plans)
    ensures forall d :: d in r <==> PlannedDirectory(plans, d)
    ensures ParentsFirst(r)
  {
    var directories: set<string> := {};
    for i := 0 to |plans|
      invariant forall d :: d in directories <==> PlannedDirectory(plans[..i], d)
    {
      PlanWalkEnds(plans, plans[i]);
      directories := AddPlan(plans[i], directories);
      forall d ensures d in directories <==> PlannedDirectory(plans[..i + 1], d) {
        PlannedDirectoryStep(plans, i, d);
      }
    }
    assert plans[..|plans|] == plans;
    var elements := Elements(directories);
    r := SortBy(elements, DepthThenPath);
    SortedParentsFirst(plans, elements);
  }

  /** Sorting by depth puts every parent before its children. */
  lemma SortedParentsFirst(plans: seq<Planned>, elements: seq<string>)
    requires ExecutablePlan(plans)
    requires forall d :: d in elements <==> PlannedDirectory(plans, d)
    ensures ParentsFirst(SortBy(elements, DepthThenPath))
  {
    var r := SortBy(elements, DepthThenPath);
    DepthThenPathOrder();
    SortSorted(elements, DepthThenPath);
    forall i | 0 <= i < |r| && Dirname(r[i]) != "/" ensures Dirname(r[i]) in r[..i] {
      assert r[i] in r;
      ParentPlanned(plans, r[i]);
      assert Dirname(r[i]) in r;
      ShallowerIsBefore(r, i, Dirname(r[i]));
    }
  }

  lemma ShallowerIsBefore(r: seq<string>, i: nat, d: string)
    requires Pairwise(r, DepthThenPath) && i < |r| && d in r && SlashCount(d) < SlashCount(r[i])
    ensures d in r[..i]
  {
    var j :| 0 <= j < |r| && r[j] == d;
    assert i < j ==> DepthThenPath(r[i], r[j]);
    assert j < i && r[..i][j] == d;
  }

  lemma PlanWalkEnds(plans: seq<Planned>, p: Planned)
    requires ExecutablePlan(plans) && p in plans
    ensures WalkEnds(Dirname(p.remote))
  {
    var xs :| Canonical(p.remote, "/", xs);
    DirnameAbs("/", xs);
    WalkEndsForOneSlash("/", if xs == [] then [] else xs[..|xs| - 1]);
  }

  lemma {:induction false} WalkGoesOn(parent: string, d: string)
    requires WalkVisits(parent, d) && Dirname(d) != "/" && Dirname(d) != d
    ensures WalkVisits(parent, Dirname(d))
    decreases |parent|
  {
    if d != parent { WalkGoesOn(Dirname(parent), d); }
  }

  lemma PlannedCanonical(plans: seq<Planned>, d: string)
    requires ExecutablePlan(plans) && PlannedDirectory(plans, d)
    ensures exists xs :: Canonical(d, "/", xs) && xs != []
  {
    var p :| p in plans && DirectoryOf(p, d);
    var xs :| Canonical(p.remote, "/", xs);
    if WalkVisits(Dirname(p.remote), d) {
      var ys := VisitedCanonical(xs, d);
    } else {
      JoinStart(xs);
    }
  }

  /** The parent of a planned directory is the root, or planned and less deep. */
  lemma ParentPlanned(plans: seq<Planned>, d: string)
    requires ExecutablePlan(plans) && PlannedDirectory(plans, d) && Dirname(d) != "/"
    ensures PlannedDirectory(plans, Dirname(d))
    ensures SlashCount(Dirname(d)) < SlashCount(d)
  {
    PlannedCanonical(plans, d);
    var xs :| Canonical(d, "/", xs) && xs != [];
    if |xs| == 1 { DirnameAbs("/", xs); } else { ParentDepth(xs); }
    var p :| p in plans && DirectoryOf(p, d);
    if WalkVisits(Dirname(p.remote), d) {
      WalkGoesOn(Dirname(p.remote), d);
    }
    assert DirectoryOf(p, Dirname(d));
  }

  // ---------------------------------------------------------------------
  // What the tree becomes
  // ---------------------------------------------------------------------

  ghost predicate PlannedFile(plans: seq<Planned>, path: string) {
    exists p :: p in plans && p.kind == File && p.remote == path
  }

  ghost predicate Occupied(plans: seq<Planned>, path: string) {
    exists p :: p in plans && !p.marker && p.remote == path
  }

  /** The selected entry planned for the path; markers do not count. */
  ghost function PlanAt(plans: seq<Planned>, path: string): Planned
    requires Occupied(plans, path)
  {
    var p :| p in plans && !p.marker && p.remote == path;
    p
  }

  lemma PlanAtUnique(plans: seq<Planned>, p: Planned)
    requires Pairwise(plans, RemoteDiffer) && p in plans && !p.marker
    ensures PlanAt(plans, p.remote) == p
  {
    PairwiseMembers(plans, RemoteDiffer, PlanAt(plans, p.remote), p);
  }

  /** No planned file is also a planned directory. */
  lemma FilesAreNotDirectories(plans: seq<Planned>, path: string)
    requires ExecutablePlan(plans) && PlannedFile(plans, path)
    ensures !PlannedDirectory(plans, path)
    ensures Occupied(plans, path) && PlanAt(plans, path).kind == File
  {
    var q :| q in plans && q.kind == File && q.remote == path;
    PlanAtUnique(plans, q);
    forall p | p in plans ensures !DirectoryOf(p, path) {
      PairwiseMembers(plans, RemoteDiffer, p, q);
    }
  }

  /** No planned directory is a file of the tree, no planned file a directory of it. */
  ghost predicate NoClash(tree: Tree, plans: seq<Planned>) {
    && (forall d :: PlannedDirectory(plans, d) ==> DirectoryFree(tree, d))
    && (forall path :: PlannedFile(plans, path) && path in tree ==> tree[path].FileNode?)
  }

  ghost predicate InResult(tree: Tree, plans: seq<Planned>, path: string) {
    path in tree || PlannedDirectory(plans, path) || PlannedFile(plans, path)
  }

  /** The path's node before the modes and owners of the plan are applied. */
  ghost function Placed(tree: Tree, plans: seq<Planned>, path: string): Node
    requires ExecutablePlan(plans)
  {
    if PlannedFile(plans, path) then
      FilesAreNotDirectories(plans, path);
      var staged := PlanAt(plans, path).staged;
      FileNode(if staged.Some? then staged.value else "",
               if path in tree then tree[path].mode else NEW_FILE_MODE,
               if path in tree then tree[path].owner else NEW_OWNER)
    else if path in tree then tree[path]
    else NEW_DIRECTORY
  }

  /** Selected entries get their own mode; created parents and the destination itself
      keep what they have. */
  ghost function Mode(tree: Tree, plans: seq<Planned>, path: string): nat
    requires ExecutablePlan(plans)
  {
    if Occupied(plans, path) then PlanAt(plans, path).mode else Placed(tree, plans, path).mode
  }

  /** The owner is set on planned files and on directories that did not exist. */
  ghost function Owner(tree: Tree, plans: seq<Planned>, chown: Option<string>, path: string): string
    requires ExecutablePlan(plans)
  {
    if chown.Some? && (PlannedFile(plans, path) || (PlannedDirectory(plans, path) && path !in tree))
    then chown.value
    else Placed(tree, plans, path).owner
  }

  /** The overlay: the initial tree with exactly the planned files and directories. */
  ghost function Overlaid(tree: Tree, plans: seq<Planned>, chown: Option<string>, path: string): Node
    requires ExecutablePlan(plans)
  {
    var mode, owner := Mode(tree, plans, path), Owner(tree, plans, chown, path);
    match Placed(tree, plans, path)
    case FileNode(content, _, _) => FileNode(content, mode, owner)
    case Dir(_, _) => Dir(mode, owner)
  }

  ghost predicate IsOverlay(before: Tree, after: Tree, plans: seq<Planned>, chown: Option<string>)
    requires ExecutablePlan(plans)
  {
    && (forall path :: path in after <==> InResult(before, plans, path))
    && (forall path :: path in after ==> after[path] == Overlaid(before, plans, chown, path))
  }

  /** Paths outside the plan are as before, and new paths are planned ones. */
  ghost predicate OnlyPlanned(before: Tree, after: Tree, plans: seq<Planned>) {
    && (forall path :: path in before ==> path in after)
    && (forall path :: path in before && !PlannedFile(plans, path) ==> after[path] == before[path])
    && (forall path :: path in after ==> InResult(before, plans, path))
  }

  lemma DirectoriesOnlyPlanned(before: Tree, after: Tree, plans: seq<Planned>, directories: seq<string>)
    requires forall d :: d in directories ==> PlannedDirectory(plans, d)
    requires exists n: nat :: n <= |directories| && after == DirectoriesFrom(before, directories, n)
    ensures OnlyPlanned(before, after, plans)
  {
    var n: nat :| n <= |directories| && after == DirectoriesFrom(before, directories, n);
    forall path
      ensures path in after <==> path in before || path in directories[..n]
      ensures path in before ==> after[path] == before[path]
    {
      DirectoriesPointwise(before, directories, n, path);
    }
  }

  lemma FilesOnlyPlanned(before: Tree, made: Tree, after: Tree, plans: seq<Planned>, directories: seq<string>)
    requires ExecutablePlan(plans)
    requires forall d :: d in directories ==> PlannedDirectory(plans, d)
    requires made == DirectoriesFrom(before, directories, |directories|)
    requires exists n: nat :: n <= |plans| && after == FilesFrom(made, plans, n)
    ensures OnlyPlanned(before, after, plans)
  {
    DirectoriesOnlyPlanned(before, made, plans, directories);
    var n: nat :| n <= |plans| && after == FilesFrom(made, plans, n);
    forall path
      ensures path in after ==> path in made || PlannedFile(plans, path)
      ensures path in made ==> path in after && (!PlannedFile(plans, path) ==> after[path] == made[path])
    {
      FileOnlyPlanned(made, plans, n, path);
    }
    OnlyPlannedThen(before, made, after, plans);
  }

  lemma OnlyPlannedThen(before: Tree, made: Tree, after: Tree, plans: seq<Planned>)
    requires OnlyPlanned(before, made, plans)
    requires forall path :: path in after ==> path in made || PlannedFile(plans, path)
    requires forall path :: path in made ==> path in after && (!PlannedFile(plans, path) ==> after[path] == made[path])
    ensures OnlyPlanned(before, after, plans)
  {
  }

  lemma FileOnlyPlanned(made: Tree, plans: seq<Planned>, n: nat, path: string)
    requires ExecutablePlan(plans) && n <= |plans|
    ensures var after := FilesFrom(made, plans, n);
            && (path in after ==> path in made || PlannedFile(plans, path))
            && (path in made ==> path in after && (!PlannedFile(plans, path) ==> after[path] == made[path]))
  {
    FilesPointwise(made, plans, n, path);
    EarlierFiles(plans, n, path);
  }

  /** Overlaying keeps the tree well formed: every parent is a directory. */
  lemma OverlayWellFormed(before: Tree, after: Tree, plans: seq<Planned>, chown: Option<string>)
    requires WellFormedTree(before) && ExecutablePlan(plans) && NoClash(before, plans)
    requires IsOverlay(before, after, plans, chown)
    ensures WellFormedTree(after)
  {
    forall path | path in after ensures path == "/" || IsDir(after, Dirname(path)) {
      if path != "/" {
        var parent := Dirname(path);
        if PlannedDirectory(plans, path) {
          if parent != "/" { ParentPlanned(plans, path); }
        } else if PlannedFile(plans, path) {
          var q :| q in plans && q.kind == File && q.remote == path;
          FileParent(plans, q);
        }
        assert InResult(before, plans, parent);
        NoFileAt(before, plans, path, parent);
      }
    }
    assert InResult(before, plans, "/");
    RootIsNoFile(plans);
  }

  lemma RootIsNoFile(plans: seq<Planned>)
    requires ExecutablePlan(plans)
    ensures !PlannedFile(plans, "/")
  {
  }

  lemma FileParent(plans: seq<Planned>, q: Planned)
    requires ExecutablePlan(plans) && q in plans
    ensures Dirname(q.remote) == "/" || PlannedDirectory(plans, Dirname(q.remote))
  {
    if Dirname(q.remote) != "/" {
      assert WalkVisits(Dirname(q.remote), Dirname(q.remote));
      assert DirectoryOf(q, Dirname(q.remote));
    }
  }

  /** The parent of a path of the result is not a planned file. */
  lemma NoFileAt(before: Tree, plans: seq<Planned>, path: string, parent: string)
    requires WellFormedTree(before) && ExecutablePlan(plans) && NoClash(before, plans)
    requires path != "/" && parent == Dirname(path)
    requires path in before || parent == "/" || PlannedDirectory(plans, parent)
    ensures !PlannedFile(plans, parent)
  {
    if PlannedFile(plans, parent) {
      FilesAreNotDirectories(plans, parent);
      RootIsNoFile(plans);
    }
  }

  // ---------------------------------------------------------------------
  // The tree after each phase
  // ---------------------------------------------------------------------

  /** After making the first i directories. */
  ghost function DirectoriesFrom(tree: Tree, directories: seq<string>, i: nat): Tree
    requires i <= |directories|
  {
    if i == 0 then tree
    else
      var t, d := DirectoriesFrom(tree, directories, i - 1), directories[i - 1];
      if d in t then t else t[d := NEW_DIRECTORY]
  }

  ghost predicate MakeAllowed(tree: Tree, path: string) {
    IsDir(tree, path) || (path !in tree && IsDir(tree, Dirname(path)))
  }

  function Copied(tree: Tree, path: string, content: Content): Node {
    FileNode(content,
             if path in tree then tree[path].mode else NEW_FILE_MODE,
             if path in tree then tree[path].owner else NEW_OWNER)
  }

  function WithMode(n: Node, mode: nat): Node {
    match n
    case Dir(_, owner) => Dir(mode, owner)
    case FileNode(content, _, owner) => FileNode(content, mode, owner)
  }

  function WithOwner(n: Node, owner: string): Node {
    match n
    case Dir(mode, _) => Dir(mode, owner)
    case FileNode(content, mode, _) => FileNode(content, mode, owner)
  }

  ghost predicate CopyAllowed(tree: Tree, path: string) {
    IsDir(tree, Dirname(path)) && (path in tree ==> tree[path].FileNode?)
  }

  /** After copying the files among the first i plans. */
  ghost function FilesFrom(tree: Tree, plans: seq<Planned>, i: nat): Tree
    requires i <= |plans|
  {
    if i == 0 then tree
    else
      var t, p := FilesFrom(tree, plans, i - 1), plans[i - 1];
      if p.kind == Directory || p.staged == None then t else t[p.remote := Copied(t, p.remote, p.staged.value)]
  }

  /** After setting the modes of the first i plans. */
  ghost function ModesFrom(tree: Tree, plans: seq<Planned>, i: nat): Tree
    requires i <= |plans|
  {
    if i == 0 then tree
    else
      var t, p := ModesFrom(tree, plans, i - 1), plans[i - 1];
      if p.marker || p.remote !in t then t else t[p.remote := WithMode(t[p.remote], p.mode)]
  }

  ghost function OwnersFrom(tree: Tree, targets: seq<string>, owner: string, i: nat): Tree
    requires i <= |targets|
  {
    if i == 0 then tree
    else
      var t := OwnersFrom(tree, targets, owner, i - 1);
      if targets[i - 1] in t then t[targets[i - 1] := WithOwner(t[targets[i - 1]], owner)] else t
  }

  /** Files among the first plans are planned files, and a file's own path is not
      among the files before it. */
  lemma EarlierFiles(plans: seq<Planned>, i: nat, path: string)
    requires i <= |plans| && ExecutablePlan(plans)
    ensures PlannedFile(plans[..i], path) ==> PlannedFile(plans, path)
    ensures i < |plans| && plans[i].kind == File && plans[i].remote == path ==>
              !PlannedFile(plans[..i], path) && !plans[i].marker && Occupied(plans, path) && PlanAt(plans, path) == plans[i]
  {
    if i < |plans| && plans[i].kind == File && plans[i].remote == path {
      assert plans[i] in plans;
      PlanAtUnique(plans, plans[i]);
      assert forall q :: q in plans[..i] ==> RemoteDiffer(q, plans[i]);
    }
  }

  lemma PlannedFileStep(plans: seq<Planned>, i: nat, path: string)
    requires 0 < i <= |plans|
    ensures PlannedFile(plans[..i], path) <==>
            PlannedFile(plans[..i - 1], path) || (plans[i - 1].kind == File && plans[i - 1].remote == path)
  {
    assert plans[..i] == plans[..i - 1] + [plans[i - 1]];
  }

  lemma {:induction false} FilesPointwise(tree: Tree, plans: seq<Planned>, i: nat, path: string)
    requires i <= |plans| && ExecutablePlan(plans)
    ensures var t := FilesFrom(tree, plans, i);
            && (path in t <==> path in tree || PlannedFile(plans[..i], path))
            && (PlannedFile(plans[..i], path) ==>
                  Occupied(plans, path) && PlanAt(plans, path).staged.Some?
                  && t[path] == Copied(tree, path, PlanAt(plans, path).staged.value))
            && (path in tree && !PlannedFile(plans[..i], path) ==> t[path] == tree[path])
  {
    if i > 0 {
      var p := plans[i - 1];
      FilesPointwise(tree, plans, i - 1, path);
      PlannedFileStep(plans, i, path);
      assert p in plans;
      if p.kind == File && p.remote == path {
        EarlierFiles(plans, i - 1, path);
      } else {
        SamePlaceAfterFile(tree, plans, i, path);
      }
    }
  }

  /** Copying a file elsewhere leaves the path alone. */
  lemma SamePlaceAfterFile(tree: Tree, plans: seq<Planned>, i: nat, path: string)
    requires 0 < i <= |plans|
    requires plans[i - 1].kind == Directory || plans[i - 1].remote != path
    ensures var t, u := FilesFrom(tree, plans, i), FilesFrom(tree, plans, i - 1);
            (path in t <==> path in u) && (path in t ==> t[path] == u[path])
  {
  }

  lemma {:induction false} DirectoriesPointwise(tree: Tree, directories: seq<string>, i: nat, path: string)
    requires i <= |directories|
    ensures var t := DirectoriesFrom(tree, directories, i);
            && (path in t <==> path in tree || path in directories[..i])
            && (path in t ==> t[path] == if path in tree then tree[path] else NEW_DIRECTORY)
  {
    if i > 0 {
      DirectoriesPointwise(tree, directories, i - 1, path);
      assert directories[..i] == directories[..i - 1] + [directories[i - 1]];
    }
  }

  ghost predicate CopyAllowedIn(tree: Tree, plans: seq<Planned>, i: nat)
    requires i < |plans|
  {
    plans[i].kind == File ==> CopyAllowed(FilesFrom(tree, plans, i), plans[i].remote)
  }

  lemma OccupiedStep(plans: seq<Planned>, i: nat, path: string)
    requires 0 < i <= |plans|
    ensures Occupied(plans[..i], path) <==>
            Occupied(plans[..i - 1], path) || (!plans[i - 1].marker && plans[i - 1].remote == path)
  {
    assert plans[..i] == plans[..i - 1] + [plans[i - 1]];
  }

  /** The files among the first n plans can be copied one after the other. */
  ghost predicate AllCopyable(tree: Tree, plans: seq<Planned>, n: nat)
    requires n <= |plans|
  {
    forall i {:trigger CopyAllowedIn(tree, plans, i)} :: 0 <= i < n ==> CopyAllowedIn(tree, plans, i)
  }

  lemma AllCopyableNext(tree: Tree, plans: seq<Planned>, i: nat)
    requires i < |plans| && AllCopyable(tree, plans, i)
    ensures AllCopyable(tree, plans, i + 1) <==> CopyAllowedIn(tree, plans, i)
    ensures !CopyAllowedIn(tree, plans, i) ==> !AllCopyable(tree, plans, |plans|)
  {
  }

  lemma CopyAllowedHere(tree: Tree, plans: seq<Planned>, i: nat, t: Tree)
    requires i < |plans| && t == FilesFrom(tree, plans, i)
    ensures CopyAllowedIn(tree, plans, i) <==> plans[i].kind == Directory || CopyAllowed(t, plans[i].remote)
  {
  }

  lemma FilesNext(tree: Tree, plans: seq<Planned>, i: nat, t: Tree)
    requires i < |plans| && t == FilesFrom(tree, plans, i)
    ensures var p := plans[i];
            FilesFrom(tree, plans, i + 1) ==
            if p.kind == Directory || p.staged == None then t else t[p.remote := Copied(t, p.remote, p.staged.value)]
  {
  }

  lemma {:induction false} ModesPointwise(tree: Tree, plans: seq<Planned>, i: nat, path: string)
    requires i <= |plans| && ExecutablePlan(plans)
    ensures var t := ModesFrom(tree, plans, i);
            && (path in t <==> path in tree)
            && (path in tree && Occupied(plans[..i], path) ==>
                  Occupied(plans, path) && t[path] == WithMode(tree[path], PlanAt(plans, path).mode))
            && (path in tree && !Occupied(plans[..i], path) ==> t[path] == tree[path])
  {
    if i > 0 {
      ModesPointwise(tree, plans, i - 1, path);
      OccupiedStep(plans, i, path);
      var p := plans[i - 1];
      assert p in plans;
      if !p.marker && p.remote == path {
        PlanAtUnique(plans, p);
      } else {
        SamePlaceAfterMode(tree, plans, i, path);
      }
    }
  }

  /** Setting another path's mode leaves the path alone. */
  lemma SamePlaceAfterMode(tree: Tree, plans: seq<Planned>, i: nat, path: string)
    requires 0 < i <= |plans|
    requires plans[i - 1].marker || plans[i - 1].remote != path
    ensures var t, u := ModesFrom(tree, plans, i), ModesFrom(tree, plans, i - 1);
            (path in t <==> path in u) && (path in t ==> t[path] == u[path])
  {
  }

  lemma {:induction false} OwnersPointwise(tree: Tree, targets: seq<string>, owner: string, i: nat, path: string)
    requires i <= |targets|
    ensures var t := OwnersFrom(tree, targets, owner, i);
            && (path in t <==> path in tree)
            && (path in tree ==> t[path] == if path in targets[..i] then WithOwner(tree[path], owner) else tree[path])
  {
    if i > 0 {
      OwnersPointwise(tree, targets, owner, i - 1, path);
      assert targets[..i] == targets[..i - 1] + [targets[i - 1]];
    }
  }

  /** No file is in the way of the directory. */
  ghost predicate DirectoryFree(tree: Tree, d: string) {
    d in tree ==> tree[d].Dir?
  }

  /** No file is in the way of the first n directories. */
  ghost predicate AllFree(tree: Tree, directories: seq<string>, n: nat)
    requires n <= |directories|
  {
    forall k :: 0 <= k < n ==> DirectoryFree(tree, directories[k])
  }

  /** Making the next directory is allowed unless a file is in the way. */
  lemma DirectoryStep(before: Tree, directories: seq<string>, i: nat)
    requires WellFormedTree(before) && ParentsFirst(directories) && i < |directories|
    requires AllFree(before, directories, i)
    ensures MakeAllowed(DirectoriesFrom(before, directories, i), directories[i]) <==>
            DirectoryFree(before, directories[i])
  {
    var d := directories[i];
    DirectoriesPointwise(before, directories, i, d);
    DirectoriesPointwise(before, directories, i, Dirname(d));
    EarlierFree(before, directories, i, Dirname(d));
    EarlierFree(before, directories, i, d);
    assert d in before && d != "/" ==> IsDir(before, Dirname(d));
  }

  /** The i-th directory can be made after the ones before it unless a file is in the way. */
  ghost predicate Creatable(tree: Tree, directories: seq<string>, i: nat)
    requires i < |directories|
  {
    AllFree(tree, directories, i) ==>
      (MakeAllowed(DirectoriesFrom(tree, directories, i), directories[i]) <==> DirectoryFree(tree, directories[i]))
  }

  lemma EachCreatable(before: Tree, directories: seq<string>)
    requires WellFormedTree(before) && ParentsFirst(directories)
    ensures forall i :: 0 <= i < |directories| ==> Creatable(before, directories, i)
  {
    forall i | 0 <= i < |directories| && AllFree(before, directories, i)
      ensures Creatable(before, directories, i)
    {
      DirectoryStep(before, directories, i);
    }
  }

  lemma EarlierFree(before: Tree, directories: seq<string>, i: nat, d: string)
    requires i <= |directories| && AllFree(before, directories, i)
    ensures d in directories[..i] ==> DirectoryFree(before, d)
  {
  }

  lemma DirectoriesUnfold(before: Tree, directories: seq<string>, i: nat)
    requires i < |directories|
    ensures var t, d := DirectoriesFrom(before, directories, i), directories[i];
            DirectoriesFrom(before, directories, i + 1) == if d in t then t else t[d := NEW_DIRECTORY]
  {
  }

  // ---------------------------------------------------------------------
  // The sandbox
  // ---------------------------------------------------------------------

  /** The sandbox file operations the runner uses. */
  class Sandbox {
    var tree: Tree

    constructor (initial: Tree)
      ensures tree == initial
    {
      tree := initial;
    }

    method MakeDir(path: string) returns (ok: bool)
      modifies this
      ensures ok <==> MakeAllowed(old(tree), path)
      ensures tree == if ok && path !in old(tree) then old(tree)[path := NEW_DIRECTORY] else old(tree)
    {
      if path in tree {
        return tree[path].Dir?;
      }
      ok := IsDir(tree, Dirname(path));
      if ok {
        tree := tree[path := NEW_DIRECTORY];
      }
    }

    method CopyFromLocal(content: Content, path: string) returns (ok: bool)
      modifies this
      ensures ok <==> CopyAllowed(old(tree), path)
      ensures tree == if ok then old(tree)[path := Copied(old(tree), path, content)] else old(tree)
    {
      ok := IsDir(tree, Dirname(path)) && (path in tree ==> tree[path].FileNode?);
      if ok {
        tree := tree[path := Copied(tree, path, content)];
      }
    }

    method Chmod(path: string, mode: nat) returns (ok: bool)
      modifies this
      ensures ok <==> path in old(tree)
      ensures tree == if ok then old(tree)[path := WithMode(old(tree)[path], mode)] else old(tree)
    {
      ok := path in tree;
      if ok {
        tree := tree[path := WithMode(tree[path], mode)];
      }
    }

    method Chown(path: string, owner: string) returns (ok: bool)
      modifies this
      ensures ok <==> path in old(tree)
      ensures tree == if ok then old(tree)[path := WithOwner(old(tree)[path], owner)] else old(tree)
    {
      ok := path in tree;
      if ok {
        tree := tree[path := WithOwner(tree[path], owner)];
      }
    }

    /** Directories are made parents first, so only a file in the way stops it. */
    method MakeDirectories(directories: seq<string>) returns (ok: bool)
      requires forall i :: 0 <= i < |directories| ==> Creatable(tree, directories, i)
      modifies this
      ensures ok <==> AllFree(old(tree), directories, |directories|)
      ensures ok ==> tree == DirectoriesFrom(old(tree), directories, |directories|)
      ensures !ok ==> exists n: nat :: n <= |directories| && tree == DirectoriesFrom(old(tree), directories, n)
    {
      for i := 0 to |directories|
        invariant tree == DirectoriesFrom(old(tree), directories, i)
        invariant AllFree(old(tree), directories, i)
      {
        assert Creatable(old(tree), directories, i);
        DirectoriesUnfold(old(tree), directories, i);
        ok := MakeDir(directories[i]);
        if !ok {
          return;
        }
      }
      ok := true;
    }

    method CopyFiles(plans: seq<Planned>) returns (ok: bool)
      requires forall i :: 0 <= i < |plans| && plans[i].kind == File ==> plans[i].staged.Some?
      modifies this
      ensures ok <==> AllCopyable(old(tree), plans, |plans|)
      ensures ok ==> tree == FilesFrom(old(tree), plans, |plans|)
      ensures !ok ==> exists n: nat :: n <= |plans| && tree == FilesFrom(old(tree), plans, n)
    {
      for i := 0 to |plans|
        invariant tree == FilesFrom(old(tree), plans, i)
        invariant AllCopyable(old(tree), plans, i)
      {
        var plan := plans[i];
        AllCopyableNext(old(tree), plans, i);
        CopyAllowedHere(old(tree), plans, i, tree);
        FilesNext(old(tree), plans, i, tree);
        if plan.kind == Directory {
          continue;
        }
        ok := CopyFromLocal(plan.staged.value, plan.remote);
        if !ok {
          return;
        }
      }
      ok := true;
    }

    /** Modes of the selected entries; destination markers are not touched. */
    method ChmodAll(plans: seq<Planned>) returns (ok: bool)
      requires ExecutablePlan(plans)
      requires forall p :: p in plans && !p.marker ==> p.remote in tree
      modifies this
      ensures ok && tree == ModesFrom(old(tree), plans, |plans|)
    {
      for i := 0 to |plans|
        invariant tree == ModesFrom(old(tree), plans, i)
      {
        var plan := plans[i];
        assert plan in plans;
        if plan.marker {
          continue;
        }
        ModesPointwise(old(tree), plans, i, plan.remote);
        ok := Chmod(plan.remote, plan.mode);
        if !ok {
          return;
        }
      }
      ok := true;
    }

    method ChownAll(targets: seq<string>, owner: string) returns (ok: bool)
      requires forall t :: t in targets ==> t in tree
      modifies this
      ensures ok && tree == OwnersFrom(old(tree), targets, owner, |targets|)
    {
      for i := 0 to |targets|
        invariant tree == OwnersFrom(old(tree), targets, owner, i)
      {
        assert targets[i] in targets;
        OwnersPointwise(old(tree), targets, owner, i, targets[i]);
        ok := Chown(targets[i], owner);
        if !ok {
          return;
        }
      }
      ok := true;
    }

    /** Execution of an accepted plan: it succeeds exactly when no planned directory is
        a file of the tree and no planned file a directory, and then the tree is the
        old one overlaid with exactly the planned files and directories. When it fails,
        nothing outside the plan has changed. */
    method ExecutePreparedCopy(plans: seq<Planned>, chown: Option<string>) returns (ok: bool)
      requires WellFormedTree(tree) && ExecutablePlan(plans)
      modifies this
      ensures ok <==> NoClash(old(tree), plans)
      ensures ok ==> IsOverlay(old(tree), tree, plans, chown) && WellFormedTree(tree)
      ensures !ok ==> OnlyPlanned(old(tree), tree, plans)
    {
      ghost var before := tree;
      var directories := CopyDirectories(plans);
      var current := tree;
      var newDirectories := if chown.Some? then Filter(directories, (d: string) => d !in current) else [];
      EachCreatable(before, directories);
      ok := MakeDirectories(directories);
      if !ok {
        DirectoriesOnlyPlanned(before, tree, plans, directories);
        return;
      }
      CopiesAllowed(before, tree, plans, directories);
      ghost var made := tree;
      ok := CopyFiles(plans);
      if !ok {
        FilesOnlyPlanned(before, made, tree, plans, directories);
        return;
      }
      PlacedAfterCopy(before, made, tree, plans, directories);
      ghost var copied := tree;
      ok := ApplyAttributes(plans, chown, newDirectories, before);
      OverlayWellFormed(before, tree, plans, chown);
    }

    /** Modes, then owners. */
    method ApplyAttributes(plans: seq<Planned>, chown: Option<string>, newDirectories: seq<string>, ghost before: Tree)
        returns (ok: bool)
      requires ExecutablePlan(plans) && AsPlaced(before, tree, plans) && "/" in before
      requires chown.Some? ==> forall d :: d in newDirectories <==> PlannedDirectory(plans, d) && d !in before
      modifies this
      ensures ok && IsOverlay(before, tree, plans, chown)
    {
      ghost var copied := tree;
      SelectedInResult(before, plans);
      ok := ChmodAll(plans);
      if !ok {
        return;
      }
      ghost var moded := tree;
      ModesKeepPaths(copied, plans);
      if chown.Some? {
        var targets := FileTargets(plans) + newDirectories;
        ok := ChownAll(targets, chown.value);
        if !ok {
          return;
        }
        OverlayWithOwner(before, copied, plans, chown, targets);
      } else {
        OverlayWithoutOwner(before, copied, plans);
      }
    }
  }

  ghost predicate AsPlaced(before: Tree, tree: Tree, plans: seq<Planned>)
    requires ExecutablePlan(plans)
  {
    && (forall path :: path in tree <==> InResult(before, plans, path))
    && (forall path :: path in tree ==> tree[path] == Placed(before, plans, path))
  }

  lemma SelectedInResult(before: Tree, plans: seq<Planned>)
    requires ExecutablePlan(plans) && "/" in before
    ensures forall p :: p in plans ==> InResult(before, plans, p.remote)
    ensures forall path :: PlannedFile(plans, path) ==> InResult(before, plans, path)
  {
    forall p | p in plans ensures InResult(before, plans, p.remote) {
      assert p.kind == File ==> PlannedFile(plans, p.remote);
      assert p.kind == Directory && p.remote != "/" ==> DirectoryOf(p, p.remote);
    }
  }

  lemma ModesKeepPaths(tree: Tree, plans: seq<Planned>)
    requires ExecutablePlan(plans)
    ensures forall path :: path in ModesFrom(tree, plans, |plans|) <==> path in tree
  {
    forall path ensures path in ModesFrom(tree, plans, |plans|) <==> path in tree {
      ModesPointwise(tree, plans, |plans|, path);
    }
  }

  /** A path of the tree after the modes are set. */
  lemma AfterModes(before: Tree, copied: Tree, plans: seq<Planned>, path: string)
    requires ExecutablePlan(plans) && AsPlaced(before, copied, plans)
    ensures var moded := ModesFrom(copied, plans, |plans|);
            && (path in moded <==> InResult(before, plans, path))
            && (path in moded ==> moded[path] == WithMode(Placed(before, plans, path), Mode(before, plans, path)))
  {
    assert plans[..|plans|] == plans;
    ModesPointwise(copied, plans, |plans|, path);
    var node := Placed(before, plans, path);
    assert node == WithMode(node, node.mode);
  }

  lemma OverlayWithoutOwner(before: Tree, copied: Tree, plans: seq<Planned>)
    requires ExecutablePlan(plans) && AsPlaced(before, copied, plans)
    ensures IsOverlay(before, ModesFrom(copied, plans, |plans|), plans, None)
  {
    var after := ModesFrom(copied, plans, |plans|);
    forall path
      ensures path in after <==> InResult(before, plans, path)
      ensures path in after ==> after[path] == Overlaid(before, plans, None, path)
    {
      AfterModes(before, copied, plans, path);
      OverlaidParts(before, plans, None, path);
    }
  }

  lemma OverlaidParts(before: Tree, plans: seq<Planned>, chown: Option<string>, path: string)
    requires ExecutablePlan(plans)
    ensures var placed := Placed(before, plans, path);
            && Overlaid(before, plans, chown, path) ==
               WithOwner(WithMode(placed, Mode(before, plans, path)), Owner(before, plans, chown, path))
            && (chown == None ==> Owner(before, plans, chown, path) == placed.owner)
  {
  }

  lemma OverlayWithOwner(before: Tree, copied: Tree, plans: seq<Planned>, chown: Option<string>, targets: seq<string>)
    requires ExecutablePlan(plans) && AsPlaced(before, copied, plans)
    requires chown.Some?
    requires forall t :: t in targets <==> PlannedFile(plans, t) || (PlannedDirectory(plans, t) && t !in before)
    ensures IsOverlay(before, OwnersFrom(ModesFrom(copied, plans, |plans|), targets, chown.value, |targets|), plans, chown)
  {
    var moded := ModesFrom(copied, plans, |plans|);
    var after := OwnersFrom(moded, targets, chown.value, |targets|);
    assert targets[..|targets|] == targets;
    forall path
      ensures path in after <==> InResult(before, plans, path)
      ensures path in after ==> after[path] == Overlaid(before, plans, chown, path)
    {
      AfterModes(before, copied, plans, path);
      OwnersPointwise(moded, targets, chown.value, |targets|, path);
      OverlaidParts(before, plans, chown, path);
    }
  }

  /** The targets of the planned files. */
  function FileTargets(plans: seq<Planned>): (r: seq<string>)
    ensures forall path :: path in r <==> exists p :: p in plans && p.kind == File && p.remote == path
  {
    if plans == [] then []
    else
      var rest := FileTargets(plans[1..]);
      assert plans == [plans[0]] + plans[1..];
      if plans[0].kind == File then [plans[0].remote] + rest else rest
  }

  /** Once the directories exist, the files can be copied exactly when none of them is a
      directory of the initial tree. */
  lemma CopiesAllowed(before: Tree, made: Tree, plans: seq<Planned>, directories: seq<string>)
    requires WellFormedTree(before) && ExecutablePlan(plans)
    requires forall d :: d in directories <==> PlannedDirectory(plans, d)
    requires forall d :: d in directories ==> DirectoryFree(before, d)
    requires made == DirectoriesFrom(before, directories, |directories|)
    ensures AllCopyable(made, plans, |plans|) <==> NoClash(before, plans)
  {
    forall i | 0 <= i < |plans| && plans[i].kind == File
      ensures CopyAllowedIn(made, plans, i) <==>
              (plans[i].remote in before ==> before[plans[i].remote].FileNode?)
    {
      CopyAllowedAt(before, made, plans, directories, i);
    }
    forall path | PlannedFile(plans, path)
      ensures exists i :: 0 <= i < |plans| && plans[i].kind == File && plans[i].remote == path
    {
    }
  }

  lemma CopyAllowedAt(before: Tree, made: Tree, plans: seq<Planned>, directories: seq<string>, i: nat)
    requires WellFormedTree(before) && ExecutablePlan(plans)
    requires forall d :: d in directories <==> PlannedDirectory(plans, d)
    requires forall d :: d in directories ==> DirectoryFree(before, d)
    requires made == DirectoriesFrom(before, directories, |directories|)
    requires i < |plans| && plans[i].kind == File
    ensures CopyAllowed(FilesFrom(made, plans, i), plans[i].remote) <==>
            (plans[i].remote in before ==> before[plans[i].remote].FileNode?)
  {
    var p := plans[i];
    var parent := Dirname(p.remote);
    assert p in plans && PlannedFile(plans, p.remote);
    FilesAreNotDirectories(plans, p.remote);
    FileParent(plans, p);
    FilesPointwise(made, plans, i, p.remote);
    FilesPointwise(made, plans, i, parent);
    DirectoriesPointwise(before, directories, |directories|, p.remote);
    DirectoriesPointwise(before, directories, |directories|, parent);
    assert directories[..|directories|] == directories;
    assert IsDir(made, parent);
    EarlierFiles(plans, i, parent);
    EarlierFiles(plans, i, p.remote);
    if PlannedFile(plans, parent) {
      FilesAreNotDirectories(plans, parent);
      RootIsNoFile(plans);
    }
  }

  /** After the files: exactly the result paths, each as placed. */
  lemma PlacedAfterCopy(before: Tree, made: Tree, copied: Tree, plans: seq<Planned>, directories: seq<string>)
    requires ExecutablePlan(plans)
    requires forall d :: d in directories <==> PlannedDirectory(plans, d)
    requires made == DirectoriesFrom(before, directories, |directories|)
    requires copied == FilesFrom(made, plans, |plans|)
    ensures AsPlaced(before, copied, plans)
  {
    assert plans[..|plans|] == plans;
    forall path
      ensures path in copied <==> InResult(before, plans, path)
      ensures path in copied ==> copied[path] == Placed(before, plans, path)
    {
      FilesPointwise(made, plans, |plans|, path);
      DirectoriesPointwise(before, directories, |directories|, path);
      assert directories[..|directories|] == directories;
      if PlannedFile(plans, path) {
        FilesAreNotDirectories(plans, path);
      }
    }
  }

  // ---------------------------------------------------------------------
  // Every executable plan has an overlay
  // ---------------------------------------------------------------------

  ghost function Visited(parent: string): (r: seq<string>)
    ensures forall a :: a in r <==> WalkVisits(parent, a)
    decreases |parent|
  {
    if parent == "/" then []
    else if Dirname(parent) == parent then [parent]
    else [parent] + Visited(Dirname(parent))
  }

  ghost function DirectoryList(plans: seq<Planned>): (r: seq<string>)
    ensures forall d :: d in r <==> PlannedDirectory(plans, d)
  {
    if plans == [] then []
    else
      var p := plans[0];
      var own := if p.kind == Directory && p.remote != "/" then [p.remote] else [];
      assert plans == [p] + plans[1..];
      assert forall d :: PlannedDirectory(plans, d) <==> DirectoryOf(p, d) || PlannedDirectory(plans[1..], d);
      own + Visited(Dirname(p.remote)) + DirectoryList(plans[1..])
  }

  lemma OverlayExists(before: Tree, plans: seq<Planned>, chown: Option<string>) returns (after: Tree)
    requires ExecutablePlan(plans)
    ensures IsOverlay(before, after, plans, chown)
  {
    var directories := DirectoryList(plans);
    var made := DirectoriesFrom(before, directories, |directories|);
    var copied := FilesFrom(made, plans, |plans|);
    PlacedAfterCopy(before, made, copied, plans, directories);
    after := ModesFrom(copied, plans, |plans|);
    if chown.Some? {
      var targets := FileTargets(plans) + Filter(directories, (d: string) => d !in before);
      after := OwnersFrom(after, targets, chown.value, |targets|);
      OverlayWithOwner(before, copied, plans, chown, targets);
    } else {
      OverlayWithoutOwner(before, copied, plans);
    }
  }
}
