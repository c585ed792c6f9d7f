/** The second pass on one file tree: what a list of instructions without RUN leaves, and
    at which instruction it fails. */
module TreeReplay {
  import opened Options
  import opened Paths
  import opened AbsolutePaths
  import opened CopyPlan
  import opened CopyExecution
  import opened Dockerfile
  import opened DockerfileRunner
  import opened Stepwise

  // ---------------------------------------------------------------------
  // Working directories
  // ---------------------------------------------------------------------

  /** A spelling that names its directory without climbing. */
  predicate PlainWorkdir(path: string) {
    IsAbsolute(path) && ".." !in Split(path) && '\0' !in path
  }

  /** The directory such a spelling names; doubled, leading and trailing slashes and "."
      make no difference to the file system. */
  function WorkdirPlace(path: string): string {
    Abs("/", Collapse(Split(path), true, []))
  }

  lemma PlaceCanonical(path: string)
    requires PlainWorkdir(path)
    ensures CleanParts(Collapse(Split(path), true, []))
  {
    SplitSlashFree(path);
    CollapseKeeps(Split(path), true, []);
    CollapseNoDots(Split(path), true, []);
  }

  lemma PlaceEnds(path: string)
    requires PlainWorkdir(path)
    ensures WalkEnds(WorkdirPlace(path))
  {
    PlaceCanonical(path);
    WalkEndsForOneSlash("/", Collapse(Split(path), true, []));
  }

  /** It is the normal form of the path, but for a second leading slash. */
  lemma PlaceNormal(path: string)
    requires PlainWorkdir(path)
    ensures NormPath(path) == WorkdirPlace(path) || NormPath(path) == "/" + WorkdirPlace(path)
  {
    var rest := Join(Collapse(Split(path), true, []));
    assert "//" + rest == "/" + ("/" + rest);
  }

  /** No file is at the place or above it. */
  ghost predicate WayFree(tree: Tree, place: string) {
    forall d :: WalkVisits(place, d) ==> DirectoryFree(tree, d)
  }

  /** The tree with a new directory at the place and everywhere above it where there was
      nothing. */
  ghost predicate WithDirectories(before: Tree, place: string, after: Tree) {
    && (forall path :: path in after <==> path in before || WalkVisits(place, path))
    && (forall path :: path in after ==> after[path] == if path in before then before[path] else NEW_DIRECTORY)
  }

  /** What exists has directories above it. */
  lemma {:induction false} DirectoriesAbove(tree: Tree, path: string)
    requires WellFormedTree(tree) && path in tree && WalkEnds(path) && path != "/"
    ensures forall d :: WalkVisits(Dirname(path), d) ==> IsDir(tree, d)
    decreases |path|
  {
    var parent := Dirname(path);
    assert IsDir(tree, parent);
    if parent != "/" { DirectoriesAbove(tree, parent); }
  }

  /** `os.makedirs(path, exist_ok=True)`. */
  method MakeDirs(sandbox: Sandbox, path: string) returns (ok: bool)
    requires WellFormedTree(sandbox.tree) && WalkEnds(path)
    modifies sandbox
    ensures ok <==> WayFree(old(sandbox.tree), path)
    ensures ok ==> WithDirectories(old(sandbox.tree), path, sandbox.tree) && WellFormedTree(sandbox.tree)
    ensures !ok ==> sandbox.tree == old(sandbox.tree)
    decreases |path|
  {
    if path == "/" {
      return true;
    }
    ghost var before := sandbox.tree;
    if path in sandbox.tree {
      ExistingWay(before, path);
      return sandbox.tree[path].Dir?;
    }
    ok := MakeDirs(sandbox, Dirname(path));
    if ok {
      OneMoreDirectory(before, path, sandbox.tree);
      ok := sandbox.MakeDir(path);
    }
  }

  lemma ExistingWay(tree: Tree, path: string)
    requires WellFormedTree(tree) && path in tree && WalkEnds(path) && path != "/"
    ensures WayFree(tree, path) <==> tree[path].Dir?
    ensures tree[path].Dir? ==> WithDirectories(tree, path, tree)
  {
    DirectoriesAbove(tree, path);
    forall d | WalkVisits(path, d) ensures d in tree && (d != path ==> tree[d].Dir?) {
      assert d != path ==> WalkVisits(Dirname(path), d) && IsDir(tree, d);
    }
    assert WalkVisits(path, path);
  }

  /** With everything above it made, the directory itself can be made. */
  lemma OneMoreDirectory(before: Tree, path: string, above: Tree)
    requires WellFormedTree(before) && WalkEnds(path) && path != "/" && path !in before
    requires WayFree(before, Dirname(path)) && WithDirectories(before, Dirname(path), above) && WellFormedTree(above)
    ensures WayFree(before, path) && MakeAllowed(above, path)
    ensures var after := if path in above then above else above[path := NEW_DIRECTORY];
            WithDirectories(before, path, after) && WellFormedTree(after)
  {
    var parent := Dirname(path);
    assert parent != "/" ==> WalkVisits(parent, parent);
    assert IsDir(above, parent);
  }

  // ---------------------------------------------------------------------
  // The instructions
  // ---------------------------------------------------------------------

  /** No commands are run, no archive is extracted, every copy has an executable plan,
      and every working directory is spelled plainly. */
  ghost predicate OnlyFiles(instructions: seq<Instruction>, prepared: map<nat, PreparedCopy>) {
    forall i: nat {:trigger FileInstruction(instructions[i], prepared, i)} ::
      i < |instructions| ==> FileInstruction(instructions[i], prepared, i)
  }

  ghost predicate FileInstruction(instruction: Instruction, prepared: map<nat, PreparedCopy>, i: nat) {
    && !instruction.Run?
    && (instruction.Workdir? ==> PlainWorkdir(instruction.path))
    && (instruction.Copy? ==> i in prepared && ExecutablePlan(prepared[i].plans) && prepared[i].archive == None)
  }

  predicate MakesDirectory(instruction: Instruction) {
    instruction.Workdir? && instruction.path != "" && instruction.path != "/"
  }

  /** The instruction can be carried out on the tree. */
  ghost predicate Allowed(tree: Tree, instruction: Instruction, prepared: map<nat, PreparedCopy>, i: nat) {
    && (instruction.Copy? && i in prepared ==> NoClash(tree, prepared[i].plans))
    && (MakesDirectory(instruction) ==> WayFree(tree, WorkdirPlace(instruction.path)))
  }

  /** What it makes of the tree. */
  ghost predicate Yields(before: Tree, instruction: Instruction, prepared: map<nat, PreparedCopy>, i: nat, after: Tree)
    requires FileInstruction(instruction, prepared, i)
  {
    if instruction.Copy? then IsOverlay(before, after, prepared[i].plans, prepared[i].ins.chown)
    else if MakesDirectory(instruction) then WithDirectories(before, WorkdirPlace(instruction.path), after)
    else after == before
  }

  /** The instructions as steps of the tree. */
  ghost function StepOf(instructions: seq<Instruction>, prepared: map<nat, PreparedCopy>): (Tree, nat, Tree) -> bool
    requires OnlyFiles(instructions, prepared)
  {
    (before: Tree, i: nat, after: Tree) =>
      i < |instructions| && FileInstruction(instructions[i], prepared, i)
      && Allowed(before, instructions[i], prepared, i) && Yields(before, instructions[i], prepared, i, after)
  }

  ghost function AllowedIn(instructions: seq<Instruction>, prepared: map<nat, PreparedCopy>): (Tree, nat) -> bool {
    (tree: Tree, i: nat) => i < |instructions| && Allowed(tree, instructions[i], prepared, i)
  }

  /** The first n instructions, one after the other, lead from one tree to another. */
  ghost predicate LeadsTo(before: Tree, instructions: seq<Instruction>, prepared: map<nat, PreparedCopy>, n: nat, after: Tree)
    requires OnlyFiles(instructions, prepared) && n <= |instructions|
  {
    Leads(before, n, StepOf(instructions, prepared), after)
  }

  /** The first n instructions can all be carried out. */
  ghost predicate AllCarriedOut(before: Tree, instructions: seq<Instruction>, prepared: map<nat, PreparedCopy>, n: nat)
    requires OnlyFiles(instructions, prepared) && n <= |instructions|
  {
    Completes(before, n, StepOf(instructions, prepared))
  }

  /** The instruction at the index is the first that the tree does not allow. */
  ghost predicate FirstClash(before: Tree, instructions: seq<Instruction>, prepared: map<nat, PreparedCopy>, i: nat)
    requires OnlyFiles(instructions, prepared) && i < |instructions|
  {
    Clashes(before, i, StepOf(instructions, prepared), AllowedIn(instructions, prepared))
  }

  lemma StepsFunctional(instructions: seq<Instruction>, prepared: map<nat, PreparedCopy>)
    requires OnlyFiles(instructions, prepared)
    ensures Functional(StepOf(instructions, prepared))
    ensures Guarded(StepOf(instructions, prepared), AllowedIn(instructions, prepared))
  {
    var step := StepOf(instructions, prepared);
    forall s: Tree, i: nat, a: Tree, b: Tree | step(s, i, a) && step(s, i, b) ensures a == b {
      YieldsOnce(s, instructions[i], prepared, i, a, b);
    }
  }

  lemma YieldsOnce(before: Tree, instruction: Instruction, prepared: map<nat, PreparedCopy>, i: nat, a: Tree, b: Tree)
    requires FileInstruction(instruction, prepared, i)
    requires Yields(before, instruction, prepared, i, a) && Yields(before, instruction, prepared, i, b)
    ensures a == b
  {
    if instruction.Copy? {
      OverlayOnce(before, prepared[i].plans, prepared[i].ins.chown, a, b);
    } else if MakesDirectory(instruction) {
      DirectoriesOnce(before, WorkdirPlace(instruction.path), a, b);
    }
  }

  lemma DirectoriesOnce(before: Tree, place: string, a: Tree, b: Tree)
    requires WithDirectories(before, place, a) && WithDirectories(before, place, b)
    ensures a == b
  {
    forall path ensures path in a <==> path in b {
      assert path in a <==> path in before || WalkVisits(place, path);
    }
    assert a.Keys == b.Keys;
  }

  lemma OverlayOnce(before: Tree, plans: seq<Planned>, chown: Option<string>, a: Tree, b: Tree)
    requires ExecutablePlan(plans) && IsOverlay(before, a, plans, chown) && IsOverlay(before, b, plans, chown)
    ensures a == b
  {
    forall path ensures path in a <==> path in b {
      assert path in a <==> InResult(before, plans, path);
    }
    assert a.Keys == b.Keys;
  }

  /** The tree they lead to is determined. */
  lemma LeadsToOnce(before: Tree, instructions: seq<Instruction>, prepared: map<nat, PreparedCopy>, n: nat, a: Tree, b: Tree)
    requires OnlyFiles(instructions, prepared) && n <= |instructions|
    requires LeadsTo(before, instructions, prepared, n, a) && LeadsTo(before, instructions, prepared, n, b)
    ensures a == b
  {
    StepsFunctional(instructions, prepared);
    LeadsOnce(before, n, StepOf(instructions, prepared), a, b);
  }

  /** One instruction on the tree. */
  method ReplayOne(sandbox: Sandbox, instruction: Instruction, prepared: map<nat, PreparedCopy>, i: nat) returns (ok: bool)
    requires WellFormedTree(sandbox.tree) && FileInstruction(instruction, prepared, i)
    modifies sandbox
    ensures ok <==> Allowed(old(sandbox.tree), instruction, prepared, i)
    ensures ok ==> Yields(old(sandbox.tree), instruction, prepared, i, sandbox.tree) && WellFormedTree(sandbox.tree)
  {
    ok := true;
    if instruction.Copy? {
      ok := sandbox.ExecutePreparedCopy(prepared[i].plans, prepared[i].ins.chown);
    } else if MakesDirectory(instruction) {
      PlaceEnds(instruction.path);
      ok := MakeDirs(sandbox, WorkdirPlace(instruction.path));
    }
  }

  /** The instructions on one tree: they fail exactly at the first clash, and otherwise
      leave the tree that the overlays and directories, one after the other, lead to. */
  method ReplayOnTree(sandbox: Sandbox, instructions: seq<Instruction>, prepared: map<nat, PreparedCopy>)
      returns (failedAt: Option<nat>)
    requires WellFormedTree(sandbox.tree) && OnlyFiles(instructions, prepared)
    modifies sandbox
    ensures failedAt == None ==> LeadsTo(old(sandbox.tree), instructions, prepared, |instructions|, sandbox.tree)
    ensures failedAt == None <==> AllCarriedOut(old(sandbox.tree), instructions, prepared, |instructions|)
    ensures forall i: nat :: i < |instructions| ==>
              (failedAt == Some(i) <==> FirstClash(old(sandbox.tree), instructions, prepared, i))
  {
    ghost var before, step, allowed := sandbox.tree, StepOf(instructions, prepared), AllowedIn(instructions, prepared);
    StepsFunctional(instructions, prepared);
    for i := 0 to |instructions|
      invariant WellFormedTree(sandbox.tree)
      invariant Leads(before, i, step, sandbox.tree)
    {
      ghost var tree := sandbox.tree;
      var ok := ReplayStep(sandbox, instructions, prepared, i);
      if !ok {
        assert Clashes(before, i, step, allowed);
        OneClash(before, i, |instructions|, step, allowed);
        return Some(i);
      }
      LeadsNext(before, i, step, tree, sandbox.tree);
    }
    assert Completes(before, |instructions|, step);
    NeverClashes(before, |instructions|, step, allowed);
    failedAt := None;
  }

  method ReplayStep(sandbox: Sandbox, instructions: seq<Instruction>, prepared: map<nat, PreparedCopy>, i: nat)
      returns (ok: bool)
    requires WellFormedTree(sandbox.tree) && OnlyFiles(instructions, prepared) && i < |instructions|
    modifies sandbox
    ensures ok <==> AllowedIn(instructions, prepared)(old(sandbox.tree), i)
    ensures ok ==> StepOf(instructions, prepared)(old(sandbox.tree), i, sandbox.tree) && WellFormedTree(sandbox.tree)
  {
    assert FileInstruction(instructions[i], prepared, i);
    ok := ReplayOne(sandbox, instructions[i], prepared, i);
  }

  // ---------------------------------------------------------------------
  // The operation trace and the tree
  // ---------------------------------------------------------------------

  /** The sandbox fails an operation exactly when the tree does not allow it. */
  ghost predicate FailsAsTree(before: Tree, instructions: seq<Instruction>, prepared: map<nat, PreparedCopy>, fails: nat -> bool)
    requires OnlyFiles(instructions, prepared)
  {
    forall i: nat, tree :: i < |instructions| && LeadsTo(before, instructions, prepared, i, tree) ==>
      (fails(i) <==> !AllowedIn(instructions, prepared)(tree, i))
  }

  /** Then the operations of the first n instructions succeed exactly when all of these
      can be carried out. */
  lemma {:induction false} TraceFollowsTree(before: Tree, instructions: seq<Instruction>, prepared: map<nat, PreparedCopy>,
                                            fails: nat -> bool, n: nat)
    requires OnlyFiles(instructions, prepared) && n <= |instructions|
    requires FailsAsTree(before, instructions, prepared, fails)
    ensures Succeeded(instructions, prepared, fails, n) <==> AllCarriedOut(before, instructions, prepared, n)
  {
    if n == 0 {
      assert Leads(before, 0, StepOf(instructions, prepared), before);
    } else {
      TraceFollowsTree(before, instructions, prepared, fails, n - 1);
      CarriedOutNext(before, instructions, prepared, fails, n);
      SucceededStep(instructions, prepared, fails, n - 1);
    }
  }

  /** And the first operation to fail is the first clash. */
  lemma TraceStopsAtClash(before: Tree, instructions: seq<Instruction>, prepared: map<nat, PreparedCopy>,
                          fails: nat -> bool, i: nat)
    requires OnlyFiles(instructions, prepared) && i < |instructions|
    requires FailsAsTree(before, instructions, prepared, fails)
    ensures Succeeded(instructions, prepared, fails, i) && OpsAt(instructions, prepared, i) != [] && fails(i)
            <==> FirstClash(before, instructions, prepared, i)
  {
    var step, allowed := StepOf(instructions, prepared), AllowedIn(instructions, prepared);
    TraceFollowsTree(before, instructions, prepared, fails, i);
    NothingAsked(instructions, prepared, i);
    if AllCarriedOut(before, instructions, prepared, i) {
      var tree :| Leads(before, i, step, tree);
      assert LeadsTo(before, instructions, prepared, i, tree);
    }
    if FirstClash(before, instructions, prepared, i) {
      var tree :| Leads(before, i, step, tree) && !allowed(tree, i);
      assert LeadsTo(before, instructions, prepared, i, tree) && Completes(before, i, step);
    }
  }

  lemma SucceededStep(instructions: seq<Instruction>, prepared: map<nat, PreparedCopy>, fails: nat -> bool, i: nat)
    requires i < |instructions|
    ensures Succeeded(instructions, prepared, fails, i + 1) <==>
            Succeeded(instructions, prepared, fails, i) && (OpsAt(instructions, prepared, i) == [] || !fails(i))
  {
    if Succeeded(instructions, prepared, fails, i) && (OpsAt(instructions, prepared, i) == [] || !fails(i)) {
      SucceededNext(instructions, prepared, fails, i);
    }
  }

  lemma CarriedOutNext(before: Tree, instructions: seq<Instruction>, prepared: map<nat, PreparedCopy>, fails: nat -> bool, n: nat)
    requires OnlyFiles(instructions, prepared) && 0 < n <= |instructions|
    requires FailsAsTree(before, instructions, prepared, fails)
    ensures AllCarriedOut(before, instructions, prepared, n) <==>
            AllCarriedOut(before, instructions, prepared, n - 1)
            && (OpsAt(instructions, prepared, n - 1) == [] || !fails(n - 1))
  {
    var step, i := StepOf(instructions, prepared), n - 1;
    NothingAsked(instructions, prepared, i);
    if Completes(before, n, step) {
      var after :| Leads(before, n, step, after);
      var tree :| Leads(before, n - 1, step, tree) && step(tree, n - 1, after);
      assert LeadsTo(before, instructions, prepared, i, tree);
      StepAllowed(instructions, prepared, i, tree, after);
    }
    if Completes(before, i, step) {
      var tree :| Leads(before, i, step, tree);
      assert LeadsTo(before, instructions, prepared, i, tree);
      if AllowedIn(instructions, prepared)(tree, i) {
        var after := StepSomewhere(instructions, prepared, i, tree);
        assert Leads(before, n, step, after);
      }
    }
  }

  lemma StepAllowed(instructions: seq<Instruction>, prepared: map<nat, PreparedCopy>, i: nat, tree: Tree, after: Tree)
    requires OnlyFiles(instructions, prepared) && StepOf(instructions, prepared)(tree, i, after)
    ensures AllowedIn(instructions, prepared)(tree, i)
  {
  }

  lemma StepSomewhere(instructions: seq<Instruction>, prepared: map<nat, PreparedCopy>, i: nat, tree: Tree) returns (after: Tree)
    requires OnlyFiles(instructions, prepared) && AllowedIn(instructions, prepared)(tree, i)
    ensures StepOf(instructions, prepared)(tree, i, after)
  {
    assert FileInstruction(instructions[i], prepared, i);
    after := YieldsSomething(tree, instructions[i], prepared, i);
  }

  /** An instruction that asks for nothing is always allowed. */
  lemma NothingAsked(instructions: seq<Instruction>, prepared: map<nat, PreparedCopy>, i: nat)
    requires OnlyFiles(instructions, prepared) && i < |instructions|
    ensures OpsAt(instructions, prepared, i) == [] ==> forall tree :: AllowedIn(instructions, prepared)(tree, i)
  {
    assert FileInstruction(instructions[i], prepared, i);
    AsksForSomething(instructions, prepared, i);
  }

  lemma AsksForSomething(instructions: seq<Instruction>, prepared: map<nat, PreparedCopy>, i: nat)
    requires i < |instructions| && FileInstruction(instructions[i], prepared, i)
    ensures OpsAt(instructions, prepared, i) != [] <==> instructions[i].Copy? || MakesDirectory(instructions[i])
  {
  }

  lemma YieldsSomething(before: Tree, instruction: Instruction, prepared: map<nat, PreparedCopy>, i: nat) returns (after: Tree)
    requires FileInstruction(instruction, prepared, i)
    ensures Yields(before, instruction, prepared, i, after)
  {
    if instruction.Copy? {
      after := OverlayExists(before, prepared[i].plans, prepared[i].ins.chown);
    } else if MakesDirectory(instruction) {
      after := DirectoriesExist(before, WorkdirPlace(instruction.path));
    } else {
      after := before;
    }
  }

  lemma {:induction false} DirectoriesExist(before: Tree, place: string) returns (after: Tree)
    ensures WithDirectories(before, place, after)
  {
    var directories := Visited(place);
    after := DirectoriesFrom(before, directories, |directories|);
    assert directories[..|directories|] == directories;
    forall path
      ensures path in after <==> path in before || WalkVisits(place, path)
      ensures path in after ==> after[path] == if path in before then before[path] else NEW_DIRECTORY
    {
      DirectoriesPointwise(before, directories, |directories|, path);
    }
  }
}
