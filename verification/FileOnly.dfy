/** Files from end to end: what a Dockerfile without RUN and without archives leaves in
    the sandbox, from the context and its ignore patterns to the contents of the tree. */
module FileOnly {
  import opened Options
  import opened ContextEntries
  import opened Visibility
  import opened Selection
  import opened WildcardSelection
  import opened CopyPlan
  import opened TarEntries
  import opened CopyOutcome
  import opened CopyMeaning
  import opened CopyExecution
  import opened Dockerfile
  import opened DockerfileRunner
  import opened Stepwise
  import opened TreeReplay

  // ---------------------------------------------------------------------
  // Lists that only handle files
  // ---------------------------------------------------------------------

  /** An ADD of a single source is not one with the name of an archive. */
  predicate NoArchive(ins: CopyInstruction) {
    ins.isAdd && |ins.srcs| == 1 && NormalizeSource(ins.srcs[0]).Source? ==>
      !HasTarSuffix(NormalizeSource(ins.srcs[0]).path)
  }

  predicate OnFiles(instruction: Instruction) {
    && !instruction.Run?
    && (instruction.Workdir? ==> PlainWorkdir(instruction.path))
    && (instruction.Copy? ==> NoArchive(instruction.copy))
  }

  predicate FileOnlyList(instructions: seq<Instruction>) {
    forall i :: 0 <= i < |instructions| ==> OnFiles(instructions[i])
  }

  lemma NotExtracted(m: Manifest, ins: CopyInstruction, workdir: string, files: ContextFiles, dest: string,
                     plans: seq<Planned>, archive: Option<seq<TarEntry>>)
    requires PreparesTo(m, ins, workdir, files, Prepared(dest, plans, archive)) && NoArchive(ins)
    ensures archive == None
  {
    var selections := SelectionsOf(m, ins, workdir, files, dest, plans, archive);
    if ExtractsArchive(ins, selections) {
      assert Denotes(m, ins.srcs[0], selections[0]);
      LiteralFileSource(m, ins.srcs[0], selections[0]);
    }
  }

  /** A literal file is selected under its normalised source. */
  lemma LiteralFileSource(m: Manifest, source: string, s: Selection)
    requires Denotes(m, source, s) && s.kind == LiteralFile
    ensures NormalizeSource(source).Source? && s.entries != [] && s.entries[0].source == NormalizeSource(source).path
  {
  }

  /** What the first pass prepares for such a list can be replayed on a tree. */
  lemma PreparedOnlyFiles(runner: Runner, instructions: seq<Instruction>, prepared: map<nat, PreparedCopy>)
    requires runner.PreparedFor(instructions, prepared, |instructions|) && FileOnlyList(instructions)
    ensures OnlyFiles(instructions, prepared)
  {
    forall i: nat | i < |instructions| ensures FileInstruction(instructions[i], prepared, i) {
      assert OnFiles(instructions[i]);
      if instructions[i].Copy? {
        var p := prepared[i];
        assert runner.PreparedAt(instructions, p, i);
        var m :| runner.ManifestOf(m) && PreparesTo(m, p.ins, p.workdir, runner.files, Prepared(p.dest, p.plans, p.archive));
        NotExtracted(m, p.ins, p.workdir, runner.files, p.dest, p.plans, p.archive);
      }
    }
  }

  // ---------------------------------------------------------------------
  // Where planned contents come from
  // ---------------------------------------------------------------------

  /** A file of the context that the ignore patterns leave visible. */
  ghost predicate ContextFile(runner: Runner, e: Entry) {
    e in runner.walk && e.kind == File && !WalkIgnored(runner.patterns, e.path)
  }

  /** The copy at the index puts the file at the path: one of its sources names the file,
      and the path is the destination itself for a lone file, and otherwise what the
      source gives it below the destination. */
  ghost predicate Places(runner: Runner, instructions: seq<Instruction>, prepared: map<nat, PreparedCopy>, i: nat, e: Entry, path: string)
    requires i < |instructions|
  {
    && instructions[i].Copy? && i in prepared
    && exists m, selections :: PlacesIn(runner, prepared[i], m, selections, e, path)
  }

  ghost predicate PlacesIn(runner: Runner, c: PreparedCopy, m: Manifest, selections: seq<Selection>, e: Entry, path: string) {
    && runner.ManifestOf(m) && e in m.visible && e.kind == File
    && PreparedAsWritten(m, c.ins, c.workdir, runner.files, selections, c.dest, c.plans)
    && exists x: Selected :: Stands(x, e, x.target) && PutAt(selections, c.dest, EndsInSlash(c.ins.dest), x, path)
  }

  /** What is placed is written, with the bytes of the file. */
  lemma PlacedIsWritten(runner: Runner, instructions: seq<Instruction>, prepared: map<nat, PreparedCopy>, i: nat, e: Entry, path: string)
    requires i < |instructions| && Places(runner, instructions, prepared, i, e, path) && ExecutablePlan(prepared[i].plans)
    ensures WritesAt(instructions, prepared, i, path) && ContextFile(runner, e)
    ensures runner.files.open(e.path) == Some(Written(prepared, i, path))
  {
    var c := prepared[i];
    var m, selections: seq<Selection> :| PlacesIn(runner, c, m, selections, e, path);
    VisibleInContext(runner, m, e);
    var p := PlacedPlan(runner, c, m, selections, e, path);
    WrittenPlan(prepared, i, p);
  }

  lemma PlacedPlan(runner: Runner, c: PreparedCopy, m: Manifest, selections: seq<Selection>, e: Entry, path: string) returns (p: Planned)
    requires PlacesIn(runner, c, m, selections, e, path)
    ensures p in c.plans && p.kind == File && !p.marker && p.remote == path && p.staged.Some? && p.staged == runner.files.open(e.path)
  {
    var x: Selected :| Stands(x, e, x.target) && PutAt(selections, c.dest, EndsInSlash(c.ins.dest), x, path);
    p := PutIsPlanned(c.plans, selections, c.dest, EndsInSlash(c.ins.dest), runner.files, x, path);
  }

  lemma WrittenPlan(prepared: map<nat, PreparedCopy>, i: nat, p: Planned)
    requires i in prepared && ExecutablePlan(prepared[i].plans) && p in prepared[i].plans
    requires p.kind == File && !p.marker && p.staged.Some?
    ensures PlannedFile(prepared[i].plans, p.remote) && p.staged == Some(Written(prepared, i, p.remote))
  {
    FilesAreNotDirectories(prepared[i].plans, p.remote);
    PlanAtUnique(prepared[i].plans, p);
  }

  /** What is written has been placed. */
  lemma WrittenIsPlaced(runner: Runner, instructions: seq<Instruction>, prepared: map<nat, PreparedCopy>, i: nat, path: string)
      returns (e: Entry)
    requires AllExecutable(instructions) && runner.PreparedFor(instructions, prepared, |instructions|)
    requires i < |instructions| && WritesAt(instructions, prepared, i, path)
    ensures Places(runner, instructions, prepared, i, e, path)
  {
    var c := prepared[i];
    assert runner.PreparedAt(instructions, c, i);
    runner.PreparedStands(instructions, c, i);
    var m, selections: seq<Selection> :|
      runner.ManifestOf(m) && PreparedAsWritten(m, c.ins, c.workdir, runner.files, selections, c.dest, c.plans);
    var p :| p in c.plans && p.kind == File && p.remote == path;
    e := PlannedPlaced(runner, c, m, selections, p);
  }

  lemma PlannedPlaced(runner: Runner, c: PreparedCopy, m: Manifest, selections: seq<Selection>, p: Planned) returns (e: Entry)
    requires runner.ManifestOf(m) && PreparedAsWritten(m, c.ins, c.workdir, runner.files, selections, c.dest, c.plans)
    requires p in c.plans && p.kind == File
    ensures PlacesIn(runner, c, m, selections, e, p.remote)
  {
    var k, x := PlannedIsPut(c.plans, selections, c.dest, EndsInSlash(c.ins.dest), runner.files, p);
    e := HeldVisible(m, c.ins.srcs[k], selections[k], x);
  }

  lemma VisibleInContext(runner: Runner, m: Manifest, e: Entry)
    requires runner.ManifestOf(m) && e in m.visible && e.kind == File
    ensures ContextFile(runner, e)
  {
    runner.WalkOfManifest(m);
    assert e in m.raw && IsVisible(runner.walk, runner.patterns, e.path);
    VisibleFile(runner.walk, runner.patterns, e);
  }

  // ---------------------------------------------------------------------
  // The files of the tree a list leads to
  // ---------------------------------------------------------------------

  predicate IsFile(tree: Tree, path: string) {
    path in tree && tree[path].FileNode?
  }

  /** The instruction is a copy that plans a file at the path. */
  ghost predicate WritesFile(instruction: Instruction, prepared: map<nat, PreparedCopy>, i: nat, path: string) {
    instruction.Copy? && i in prepared && ExecutablePlan(prepared[i].plans) && PlannedFile(prepared[i].plans, path)
  }

  ghost predicate WritesAt(instructions: seq<Instruction>, prepared: map<nat, PreparedCopy>, i: nat, path: string)
    requires i < |instructions|
  {
    WritesFile(instructions[i], prepared, i, path)
  }

  ghost function Written(prepared: map<nat, PreparedCopy>, i: nat, path: string): Content
    requires i in prepared && ExecutablePlan(prepared[i].plans) && PlannedFile(prepared[i].plans, path)
  {
    FilesAreNotDirectories(prepared[i].plans, path);
    var staged := PlanAt(prepared[i].plans, path).staged;
    if staged.Some? then staged.value else ""
  }

  ghost predicate LastWriter(instructions: seq<Instruction>, prepared: map<nat, PreparedCopy>, n: nat, path: string, i: nat)
    requires n <= |instructions|
  {
    && i < n && WritesAt(instructions, prepared, i, path)
    && forall j :: i < j < n ==> !WritesAt(instructions, prepared, j, path)
  }

  ghost predicate NoWriter(instructions: seq<Instruction>, prepared: map<nat, PreparedCopy>, n: nat, path: string)
    requires n <= |instructions|
  {
    forall j :: 0 <= j < n ==> !WritesAt(instructions, prepared, j, path)
  }

  /** The path is a file with the same content in both trees, or in neither. */
  ghost predicate SameFile(before: Tree, after: Tree, path: string) {
    && (IsFile(after, path) <==> IsFile(before, path))
    && (IsFile(after, path) ==> after[path].content == before[path].content)
  }

  /** One instruction writes its planned files and leaves all others. */
  lemma StepFiles(instruction: Instruction, prepared: map<nat, PreparedCopy>, i: nat, tree: Tree, after: Tree, path: string)
    requires FileInstruction(instruction, prepared, i) && Yields(tree, instruction, prepared, i, after)
    ensures WritesFile(instruction, prepared, i, path) ==>
              IsFile(after, path) && after[path].content == Written(prepared, i, path)
    ensures !WritesFile(instruction, prepared, i, path) ==> SameFile(tree, after, path)
  {
    if instruction.Copy? {
      OverlaidFile(tree, prepared[i].plans, prepared[i].ins.chown, after, path);
    }
  }

  lemma OverlaidFile(tree: Tree, plans: seq<Planned>, chown: Option<string>, after: Tree, path: string)
    requires ExecutablePlan(plans) && IsOverlay(tree, after, plans, chown)
    ensures PlannedFile(plans, path) ==>
              && IsFile(after, path) && Occupied(plans, path)
              && var staged := PlanAt(plans, path).staged;
                 after[path].content == if staged.Some? then staged.value else ""
    ensures !PlannedFile(plans, path) ==> SameFile(tree, after, path)
  {
    assert path in after <==> InResult(tree, plans, path);
    if path in after {
      OverlaidParts(tree, plans, chown, path);
    }
    if PlannedFile(plans, path) { FilesAreNotDirectories(plans, path); }
  }

  /** The last writer of one more instruction. */
  lemma WritersNext(instructions: seq<Instruction>, prepared: map<nat, PreparedCopy>, k: nat, path: string, i: nat)
    requires k < |instructions|
    ensures LastWriter(instructions, prepared, k + 1, path, i) <==>
            if WritesAt(instructions, prepared, k, path) then i == k else LastWriter(instructions, prepared, k, path, i)
  {
    if i < k && LastWriter(instructions, prepared, k + 1, path, i) {
      assert !WritesAt(instructions, prepared, k, path);
      assert LastWriter(instructions, prepared, k, path, i);
    }
  }

  lemma NoWriterNext(instructions: seq<Instruction>, prepared: map<nat, PreparedCopy>, k: nat, path: string)
    requires k < |instructions|
    ensures NoWriter(instructions, prepared, k + 1, path) <==>
            NoWriter(instructions, prepared, k, path) && !WritesAt(instructions, prepared, k, path)
  {
  }

  /** What the tree shows at the path after the first n instructions. */
  ghost predicate ShowsWriters(before: Tree, instructions: seq<Instruction>, prepared: map<nat, PreparedCopy>, n: nat,
                               after: Tree, path: string)
    requires n <= |instructions|
  {
    && (forall i: nat :: LastWriter(instructions, prepared, n, path, i) ==> ShowsContent(prepared, i, after, path))
    && (NoWriter(instructions, prepared, n, path) ==> SameFile(before, after, path))
  }

  ghost predicate ShowsContent(prepared: map<nat, PreparedCopy>, i: nat, after: Tree, path: string) {
    && i in prepared && ExecutablePlan(prepared[i].plans) && PlannedFile(prepared[i].plans, path)
    && IsFile(after, path) && after[path].content == Written(prepared, i, path)
  }

  lemma ShowsNext(before: Tree, instructions: seq<Instruction>, prepared: map<nat, PreparedCopy>, k: nat,
                  tree: Tree, after: Tree, path: string)
    requires k < |instructions| && ShowsWriters(before, instructions, prepared, k, tree, path)
    requires WritesAt(instructions, prepared, k, path) ==> ShowsContent(prepared, k, after, path)
    requires !WritesAt(instructions, prepared, k, path) ==> SameFile(tree, after, path)
    ensures ShowsWriters(before, instructions, prepared, k + 1, after, path)
  {
    forall i: nat | LastWriter(instructions, prepared, k + 1, path, i) ensures ShowsContent(prepared, i, after, path) {
      WritersNext(instructions, prepared, k, path, i);
    }
    NoWriterNext(instructions, prepared, k, path);
  }

  /** In the final tree the last writer's bytes stand, and where there is none, what was
      there before. */
  lemma {:induction false} FinalFiles(before: Tree, instructions: seq<Instruction>, prepared: map<nat, PreparedCopy>, n: nat,
                                      after: Tree, path: string)
    requires OnlyFiles(instructions, prepared) && n <= |instructions|
    requires LeadsTo(before, instructions, prepared, n, after)
    ensures ShowsWriters(before, instructions, prepared, n, after, path)
  {
    if n > 0 {
      var step, k: nat := StepOf(instructions, prepared), n - 1;
      var tree :| Leads(before, k, step, tree) && step(tree, k, after);
      FinalFiles(before, instructions, prepared, k, tree, path);
      StepShows(instructions, prepared, k, tree, after, path);
      ShowsNext(before, instructions, prepared, k, tree, after, path);
    }
  }

  lemma StepShows(instructions: seq<Instruction>, prepared: map<nat, PreparedCopy>, k: nat, tree: Tree, after: Tree, path: string)
    requires OnlyFiles(instructions, prepared) && StepOf(instructions, prepared)(tree, k, after)
    ensures k < |instructions|
    ensures WritesAt(instructions, prepared, k, path) ==> ShowsContent(prepared, k, after, path)
    ensures !WritesAt(instructions, prepared, k, path) ==> SameFile(tree, after, path)
  {
    StepFiles(instructions[k], prepared, k, tree, after, path);
  }

  lemma {:induction false} SomeWriter(instructions: seq<Instruction>, prepared: map<nat, PreparedCopy>, n: nat, path: string)
      returns (i: nat)
    requires n <= |instructions|
    ensures NoWriter(instructions, prepared, n, path) || LastWriter(instructions, prepared, n, path, i)
  {
    i := 0;
    if n > 0 {
      var k: nat := n - 1;
      i := SomeWriter(instructions, prepared, k, path);
      if WritesAt(instructions, prepared, k, path) { i := k; }
      WritersNext(instructions, prepared, k, path, i);
      NoWriterNext(instructions, prepared, k, path);
    }
  }

  ghost predicate PlacedAt(runner: Runner, instructions: seq<Instruction>, prepared: map<nat, PreparedCopy>, i: nat, path: string)
    requires i < |instructions|
  {
    exists e :: Places(runner, instructions, prepared, i, e, path)
  }

  /** The copy at the index is the last to put a file at the path, and it is this one. */
  ghost predicate LastPlaces(runner: Runner, instructions: seq<Instruction>, prepared: map<nat, PreparedCopy>, i: nat, e: Entry, path: string) {
    && i < |instructions| && Places(runner, instructions, prepared, i, e, path)
    && forall j :: i < j < |instructions| ==> !PlacedAt(runner, instructions, prepared, j, path)
  }

  ghost predicate NothingPlaced(runner: Runner, instructions: seq<Instruction>, prepared: map<nat, PreparedCopy>, path: string) {
    forall j :: 0 <= j < |instructions| ==> !PlacedAt(runner, instructions, prepared, j, path)
  }

  /** Each path of the later tree shows the context file that the last copy to place one
      there puts there, which the ignore patterns do not exclude; and where none does, what
      was there before. */
  ghost predicate FilesExplained(runner: Runner, instructions: seq<Instruction>, prepared: map<nat, PreparedCopy>, before: Tree, after: Tree) {
    forall path :: PathExplained(runner, instructions, prepared, before, after, path)
  }

  ghost predicate PathExplained(runner: Runner, instructions: seq<Instruction>, prepared: map<nat, PreparedCopy>,
                                before: Tree, after: Tree, path: string)
  {
    && (NothingPlaced(runner, instructions, prepared, path) ==> SameFile(before, after, path))
    && (!NothingPlaced(runner, instructions, prepared, path) ==> exists i: nat, e :: LastPlaces(runner, instructions, prepared, i, e, path))
    && forall i: nat, e :: LastPlaces(runner, instructions, prepared, i, e, path) ==>
         ContextFile(runner, e) && IsFile(after, path) && runner.files.open(e.path) == Some(after[path].content)
  }

  /** Writing and placing are the same. */
  lemma WritersPlace(runner: Runner, instructions: seq<Instruction>, prepared: map<nat, PreparedCopy>, path: string)
    requires AllExecutable(instructions) && runner.PreparedFor(instructions, prepared, |instructions|)
    requires OnlyFiles(instructions, prepared)
    ensures forall j: nat :: j < |instructions| ==>
              (PlacedAt(runner, instructions, prepared, j, path) <==> WritesAt(instructions, prepared, j, path))
  {
    forall j: nat | j < |instructions|
      ensures PlacedAt(runner, instructions, prepared, j, path) <==> WritesAt(instructions, prepared, j, path)
    {
      assert FileInstruction(instructions[j], prepared, j);
      if WritesAt(instructions, prepared, j, path) {
        var e := WrittenIsPlaced(runner, instructions, prepared, j, path);
      }
      if e :| Places(runner, instructions, prepared, j, e, path) {
        PlacedIsWritten(runner, instructions, prepared, j, e, path);
      }
    }
  }

  lemma ReplayedFiles(runner: Runner, before: Tree, instructions: seq<Instruction>, prepared: map<nat, PreparedCopy>, after: Tree)
    requires AllExecutable(instructions)
    requires runner.PreparedFor(instructions, prepared, |instructions|) && OnlyFiles(instructions, prepared)
    requires LeadsTo(before, instructions, prepared, |instructions|, after)
    ensures FilesExplained(runner, instructions, prepared, before, after)
  {
    forall path ensures PathExplained(runner, instructions, prepared, before, after, path) {
      FinalFiles(before, instructions, prepared, |instructions|, after, path);
      WritersPlace(runner, instructions, prepared, path);
      PathReplayed(runner, instructions, prepared, before, after, path);
    }
  }

  lemma PathReplayed(runner: Runner, instructions: seq<Instruction>, prepared: map<nat, PreparedCopy>,
                     before: Tree, after: Tree, path: string)
    requires OnlyFiles(instructions, prepared)
    requires ShowsWriters(before, instructions, prepared, |instructions|, after, path)
    requires forall j: nat :: j < |instructions| ==>
               (PlacedAt(runner, instructions, prepared, j, path) <==> WritesAt(instructions, prepared, j, path))
    ensures PathExplained(runner, instructions, prepared, before, after, path)
  {
    var n := |instructions|;
    var w := SomeWriter(instructions, prepared, n, path);
    if !NothingPlaced(runner, instructions, prepared, path) {
      assert LastWriter(instructions, prepared, n, path, w);
      var e :| Places(runner, instructions, prepared, w, e, path);
      assert LastPlaces(runner, instructions, prepared, w, e, path);
    }
    forall i: nat, e | LastPlaces(runner, instructions, prepared, i, e, path)
      ensures ContextFile(runner, e) && IsFile(after, path) && runner.files.open(e.path) == Some(after[path].content)
    {
      assert FileInstruction(instructions[i], prepared, i);
      assert PlacedAt(runner, instructions, prepared, i, path);
      assert LastWriter(instructions, prepared, n, path, i);
      PlacedIsWritten(runner, instructions, prepared, i, e, path);
      assert ShowsContent(prepared, i, after, path);
    }
  }

  // ---------------------------------------------------------------------
  // Both passes
  // ---------------------------------------------------------------------

  /** Whatever is prepared, the sandbox fails as the tree does. */
  ghost predicate SandboxOnTree(runner: Runner, instructions: seq<Instruction>, fails: nat -> bool, tree: Tree) {
    forall prepared :: runner.PreparedFor(instructions, prepared, |instructions|) && OnlyFiles(instructions, prepared) ==>
      FailsAsTree(tree, instructions, prepared, fails)
  }

  ghost predicate Leaves(runner: Runner, instructions: seq<Instruction>, tree: Tree, prepared: map<nat, PreparedCopy>, after: Tree) {
    && runner.PreparedFor(instructions, prepared, |instructions|) && OnlyFiles(instructions, prepared)
    && LeadsTo(tree, instructions, prepared, |instructions|, after)
  }

  ghost predicate StopsAt(runner: Runner, instructions: seq<Instruction>, tree: Tree, prepared: map<nat, PreparedCopy>, i: nat)
    requires i < |instructions|
  {
    && runner.PreparedFor(instructions, prepared, |instructions|) && OnlyFiles(instructions, prepared)
    && FirstClash(tree, instructions, prepared, i)
  }

  /** A file-only Dockerfile that is applied leaves the tree that its prepared copies and
      working directories lead to, in which every path shows the context file that the last
      copy placing one there puts there, or what it was; one that fails in the second pass fails at the
      first clash with the tree. */
  lemma AppliedFiles(runner: Runner, parsed: Parsed, autoStart: bool, ready: bool, fails: nat -> bool,
                     r: ApplyOutcome, opsBefore: seq<Op>, opsAfter: seq<Op>, tree: Tree)
    requires AllExecutable(parsed.instructions) && FileOnlyList(parsed.instructions)
    requires runner.AppliedAs(opsBefore, parsed, autoStart, ready, fails, r, opsAfter)
    requires SandboxOnTree(runner, parsed.instructions, fails, tree)
    ensures r.Applied? ==> exists prepared, after ::
              Leaves(runner, parsed.instructions, tree, prepared, after)
              && FilesExplained(runner, parsed.instructions, prepared, tree, after)
    ensures r.InstructionFailed? ==>
              r.index < |parsed.instructions|
              && exists prepared :: StopsAt(runner, parsed.instructions, tree, prepared, r.index)
  {
    if r.Applied? {
      var prepared := CompletedPrepared(runner, parsed, autoStart, ready, fails, r, opsBefore, opsAfter);
      CompletedLeaves(runner, parsed.instructions, prepared, fails, tree);
    } else if r.InstructionFailed? {
      var prepared := StoppedPrepared(runner, parsed, autoStart, ready, fails, r, opsBefore, opsAfter);
      StoppedClashes(runner, parsed.instructions, prepared, fails, r.index, tree);
    }
  }

  lemma CompletedPrepared(runner: Runner, parsed: Parsed, autoStart: bool, ready: bool, fails: nat -> bool,
                          r: ApplyOutcome, opsBefore: seq<Op>, opsAfter: seq<Op>) returns (prepared: map<nat, PreparedCopy>)
    requires AllExecutable(parsed.instructions) && r.Applied?
    requires runner.AppliedAs(opsBefore, parsed, autoStart, ready, fails, r, opsAfter)
    ensures runner.PreparedFor(parsed.instructions, prepared, |parsed.instructions|)
    ensures Succeeded(parsed.instructions, prepared, fails, |parsed.instructions|)
  {
    var n := |parsed.instructions|;
    prepared :| runner.PreparedFor(parsed.instructions, prepared, n) && Succeeded(parsed.instructions, prepared, fails, n);
  }

  lemma StoppedPrepared(runner: Runner, parsed: Parsed, autoStart: bool, ready: bool, fails: nat -> bool,
                        r: ApplyOutcome, opsBefore: seq<Op>, opsAfter: seq<Op>) returns (prepared: map<nat, PreparedCopy>)
    requires AllExecutable(parsed.instructions) && r.InstructionFailed?
    requires runner.AppliedAs(opsBefore, parsed, autoStart, ready, fails, r, opsAfter)
    ensures r.index < |parsed.instructions| && fails(r.index)
    ensures runner.PreparedFor(parsed.instructions, prepared, |parsed.instructions|)
    ensures Succeeded(parsed.instructions, prepared, fails, r.index) && OpsAt(parsed.instructions, prepared, r.index) != []
  {
    prepared :| runner.PreparedFor(parsed.instructions, prepared, |parsed.instructions|)
                && Succeeded(parsed.instructions, prepared, fails, r.index)
                && OpsAt(parsed.instructions, prepared, r.index) != [];
  }

  lemma CompletedLeaves(runner: Runner, instructions: seq<Instruction>, prepared: map<nat, PreparedCopy>,
                        fails: nat -> bool, tree: Tree)
    requires AllExecutable(instructions) && FileOnlyList(instructions)
    requires runner.PreparedFor(instructions, prepared, |instructions|)
    requires Succeeded(instructions, prepared, fails, |instructions|) && SandboxOnTree(runner, instructions, fails, tree)
    ensures exists after ::
              Leaves(runner, instructions, tree, prepared, after) && FilesExplained(runner, instructions, prepared, tree, after)
  {
    PreparedOnlyFiles(runner, instructions, prepared);
    TraceFollowsTree(tree, instructions, prepared, fails, |instructions|);
    var after :| Leads(tree, |instructions|, StepOf(instructions, prepared), after);
    ReplayedFiles(runner, tree, instructions, prepared, after);
    assert Leaves(runner, instructions, tree, prepared, after);
  }

  lemma StoppedClashes(runner: Runner, instructions: seq<Instruction>, prepared: map<nat, PreparedCopy>,
                       fails: nat -> bool, i: nat, tree: Tree)
    requires FileOnlyList(instructions) && runner.PreparedFor(instructions, prepared, |instructions|)
    requires i < |instructions| && Succeeded(instructions, prepared, fails, i)
    requires OpsAt(instructions, prepared, i) != [] && fails(i) && SandboxOnTree(runner, instructions, fails, tree)
    ensures StopsAt(runner, instructions, tree, prepared, i)
  {
    PreparedOnlyFiles(runner, instructions, prepared);
    TraceStopsAtClash(tree, instructions, prepared, fails, i);
  }
}
