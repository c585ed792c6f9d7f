/** The two passes of applying a parsed Dockerfile: prepare every COPY and ADD first,
    then replay the instructions on the sandbox. */
module DockerfileRunner {
  import opened Options
  import opened Sequences
  import opened ContextEntries
  import opened IgnorePatterns
  import opened Visibility
  import opened Selection
  import opened CopyPlan
  import opened CopyOutcome
  import opened CopyMeaning
  import opened CopyPreparation
  import opened TarEntries
  import opened Dockerfile

  /** The operations the sandbox sees. */
  datatype Op =
    | RunCommand(command: string, envs: map<string, string>, cwd: string, user: Option<string>)
    | ExecuteCopy(prepared: PreparedCopy, envs: map<string, string>)
    | MakeDirectory(path: string)
    | StartCommand(argv: seq<string>, envs: map<string, string>, cwd: string, user: Option<string>)

  datatype PreparedCopy = PreparedCopy(index: nat, ins: CopyInstruction, workdir: string, dest: string, plans: seq<Planned>,
                                       archive: Option<seq<TarEntry>>)

  datatype ApplyOutcome =
    | Applied(start: Option<seq<string>>)
    | HasUnsupported
    | NoBaseImage
    | BadContext
    | PrepareFailed(index: nat, error: PlanError)
    | PrepareHangs
    | InstructionFailed(index: nat)
    | NotReady
    | StartFailed

  /** The operation of the instruction at an index, in the state that the instructions
      before it leave. */
  function OpsAt(instructions: seq<Instruction>, prepared: map<nat, PreparedCopy>, i: nat): seq<Op>
    requires i < |instructions|
  {
    var before := instructions[..i];
    OpsOf(instructions[i], prepared, i, EnvsAfter(before), WorkdirAfter(before), UserAfter(before))
  }

  function OpsOf(instruction: Instruction, prepared: map<nat, PreparedCopy>, i: nat,
                 envs: map<string, string>, workdir: string, user: Option<string>): seq<Op>
  {
    match instruction
    case Run(command) => [RunCommand(command, envs, workdir, user)]
    case Copy(_) => if i in prepared then [ExecuteCopy(prepared[i], envs)] else []
    case Workdir(path) => if path != "" && path != "/" then [MakeDirectory(path)] else []
    case _ => []
  }

  /** The operations of the first n instructions. */
  function Replay(instructions: seq<Instruction>, prepared: map<nat, PreparedCopy>, n: nat): seq<Op>
    requires n <= |instructions|
  {
    if n == 0 then [] else Replay(instructions, prepared, n - 1) + OpsAt(instructions, prepared, n - 1)
  }

  /** None of the first n instructions that ask for something fails. */
  ghost predicate Succeeded(instructions: seq<Instruction>, prepared: map<nat, PreparedCopy>, fails: nat -> bool, n: nat)
    requires n <= |instructions|
  {
    forall j: nat :: j < n && OpsAt(instructions, prepared, j) != [] ==> !fails(j)
  }

  lemma SucceededNext(instructions: seq<Instruction>, prepared: map<nat, PreparedCopy>, fails: nat -> bool, i: nat)
    requires i < |instructions| && Succeeded(instructions, prepared, fails, i)
    requires OpsAt(instructions, prepared, i) == [] || !fails(i)
    ensures Succeeded(instructions, prepared, fails, i + 1)
  {
  }

  lemma ReplayNext(instructions: seq<Instruction>, prepared: map<nat, PreparedCopy>, n: nat, before: seq<Op>)
    requires n < |instructions|
    ensures before + Replay(instructions, prepared, n) + OpsAt(instructions, prepared, n) ==
            before + Replay(instructions, prepared, n + 1)
  {
  }

  /** The runtime state in force after the first n instructions. */
  ghost predicate InState(instructions: seq<Instruction>, n: nat, envs: map<string, string>, workdir: string, user: Option<string>)
    requires n <= |instructions|
  {
    && envs == EnvsAfter(instructions[..n])
    && workdir == WorkdirAfter(instructions[..n])
    && user == UserAfter(instructions[..n])
  }

  /** The state after one more instruction. */
  lemma StateNext(instructions: seq<Instruction>, i: nat)
    requires i < |instructions|
    ensures WorkdirAfter(instructions[..i + 1]) ==
            if instructions[i].Workdir? then instructions[i].path else WorkdirAfter(instructions[..i])
    ensures EnvsAfter(instructions[..i + 1]) ==
            if instructions[i].Env? then EnvsAfter(instructions[..i]) + instructions[i].envs else EnvsAfter(instructions[..i])
    ensures UserAfter(instructions[..i + 1]) ==
            if instructions[i].User? then Some(instructions[i].user) else UserAfter(instructions[..i])
  {
    assert instructions[..i + 1][..i] == instructions[..i];
    assert EnvsAfter(instructions[..i]) + map[] == EnvsAfter(instructions[..i]);
  }

  // ---------------------------------------------------------------------
  // Traces, told from the instructions
  // ---------------------------------------------------------------------

  predicate AsksSomething(instruction: Instruction) {
    instruction.Run? || instruction.Copy? || (instruction.Workdir? && instruction.path != "" && instruction.path != "/")
  }

  /** The operation that the instruction at the index asks for: a command runs in the
      environment and directory and as the user in force before it, a copy is the one
      prepared for it, and a working directory is made. */
  ghost predicate Asks(instructions: seq<Instruction>, prepared: map<nat, PreparedCopy>, i: nat, op: Op)
    requires i < |instructions|
  {
    match instructions[i]
    case Run(command) => op.RunCommand? && op.command == command && InForce(instructions[..i], op.envs, op.cwd, op.user)
    case Copy(_) => op.ExecuteCopy? && i in prepared && op.prepared == prepared[i] && EnvsInForce(instructions[..i], op.envs)
    case Workdir(path) => op == MakeDirectory(path) && path != "" && path != "/"
    case _ => false
  }

  /** The operations are those of the instructions at the positions, in order, and no other
      of the first n instructions asks for anything. */
  ghost predicate TraceAt(instructions: seq<Instruction>, prepared: map<nat, PreparedCopy>, n: nat, positions: seq<nat>, trace: seq<Op>)
    requires n <= |instructions|
  {
    && |trace| == |positions|
    && (forall a :: 0 <= a < |positions| ==> positions[a] < n)
    && (forall a, b :: 0 <= a < b < |positions| ==> positions[a] < positions[b])
    && (forall a :: 0 <= a < |positions| ==> Asks(instructions, prepared, positions[a], trace[a]))
    && forall j: nat :: j < n && AsksSomething(instructions[j]) ==> j in positions
  }

  ghost predicate TraceOf(instructions: seq<Instruction>, prepared: map<nat, PreparedCopy>, n: nat, trace: seq<Op>)
    requires n <= |instructions|
  {
    exists positions :: TraceAt(instructions, prepared, n, positions, trace)
  }

  ghost predicate AllPrepared(instructions: seq<Instruction>, prepared: map<nat, PreparedCopy>) {
    forall i: nat :: i < |instructions| && instructions[i].Copy? ==> i in prepared
  }

  lemma OpsAsked(instructions: seq<Instruction>, prepared: map<nat, PreparedCopy>, i: nat)
    requires i < |instructions| && AllPrepared(instructions, prepared)
    ensures var ops := OpsAt(instructions, prepared, i);
            if AsksSomething(instructions[i]) then |ops| == 1 && Asks(instructions, prepared, i, ops[0]) else ops == []
  {
    AfterInForce(instructions[..i]);
  }

  /** Replaying the instructions gives a trace of them. */
  lemma {:induction false} ReplayTrace(instructions: seq<Instruction>, prepared: map<nat, PreparedCopy>, n: nat) returns (positions: seq<nat>)
    requires n <= |instructions| && AllPrepared(instructions, prepared)
    ensures TraceAt(instructions, prepared, n, positions, Replay(instructions, prepared, n))
  {
    positions := [];
    if n > 0 {
      positions := ReplayTrace(instructions, prepared, n - 1);
      OpsAsked(instructions, prepared, n - 1);
      positions := TraceNext(instructions, prepared, n - 1, positions, Replay(instructions, prepared, n - 1),
                             OpsAt(instructions, prepared, n - 1));
    }
  }

  lemma TraceNext(instructions: seq<Instruction>, prepared: map<nat, PreparedCopy>, n: nat, before: seq<nat>,
                  trace: seq<Op>, ops: seq<Op>) returns (positions: seq<nat>)
    requires n < |instructions| && TraceAt(instructions, prepared, n, before, trace)
    requires if AsksSomething(instructions[n]) then |ops| == 1 && Asks(instructions, prepared, n, ops[0]) else ops == []
    ensures TraceAt(instructions, prepared, n + 1, positions, trace + ops)
  {
    positions := before + if ops != [] then [n] else [];
    forall j: nat | j < n + 1 && AsksSomething(instructions[j]) ensures j in positions {
      if j == n { assert positions[|before|] == n; }
    }
    assert ops == [] ==> trace + ops == trace;
  }

  /** The instructions determine the trace: what is stated of it leaves no choice. */
  lemma {:induction false} TraceOnce(instructions: seq<Instruction>, prepared: map<nat, PreparedCopy>, n: nat, positions: seq<nat>, trace: seq<Op>)
    requires n <= |instructions| && AllPrepared(instructions, prepared) && TraceAt(instructions, prepared, n, positions, trace)
    ensures trace == Replay(instructions, prepared, n)
  {
    if n > 0 {
      var i: nat := n - 1;
      OpsAsked(instructions, prepared, i);
      assert Replay(instructions, prepared, n) == Replay(instructions, prepared, i) + OpsAt(instructions, prepared, i);
      if AsksSomething(instructions[i]) {
        var front, before, op := LastPosition(instructions, prepared, i, positions, trace);
        TraceOnce(instructions, prepared, i, front, before);
        AsksOnce(instructions, prepared, i, op, OpsAt(instructions, prepared, i)[0]);
        assert OpsAt(instructions, prepared, i) == [op];
      } else {
        NotLastPosition(instructions, prepared, n, positions, trace);
        TraceOnce(instructions, prepared, i, positions, trace);
      }
    } else if positions != [] {
      SomethingBelow(positions, n);
    }
  }

  lemma SomethingBelow(positions: seq<nat>, n: nat)
    requires positions != [] && forall a :: 0 <= a < |positions| ==> positions[a] < n
    ensures n > 0
  {
    assert positions[0] < n;
  }

  lemma LastPosition(instructions: seq<Instruction>, prepared: map<nat, PreparedCopy>, i: nat, positions: seq<nat>, trace: seq<Op>)
      returns (front: seq<nat>, before: seq<Op>, op: Op)
    requires i < |instructions| && TraceAt(instructions, prepared, i + 1, positions, trace) && AsksSomething(instructions[i])
    ensures trace == before + [op] && Asks(instructions, prepared, i, op)
    ensures TraceAt(instructions, prepared, i, front, before)
  {
    var k :| 0 <= k < |positions| && positions[k] == i;
    assert positions[|positions| - 1] <= i;
    assert k == |positions| - 1;
    front, before, op := positions[..k], trace[..k], trace[k];
    forall j: nat | j < i && AsksSomething(instructions[j]) ensures j in front {
      var l :| 0 <= l < |positions| && positions[l] == j;
      assert front[l] == j;
    }
  }

  lemma NotLastPosition(instructions: seq<Instruction>, prepared: map<nat, PreparedCopy>, n: nat, positions: seq<nat>, trace: seq<Op>)
    requires 0 < n <= |instructions| && TraceAt(instructions, prepared, n, positions, trace) && !AsksSomething(instructions[n - 1])
    ensures TraceAt(instructions, prepared, n - 1, positions, trace)
  {
    forall a | 0 <= a < |positions| ensures positions[a] < n - 1 {
      assert Asks(instructions, prepared, positions[a], trace[a]);
    }
  }

  lemma AsksOnce(instructions: seq<Instruction>, prepared: map<nat, PreparedCopy>, i: nat, a: Op, b: Op)
    requires i < |instructions| && Asks(instructions, prepared, i, a) && Asks(instructions, prepared, i, b)
    ensures a == b
  {
    if !instructions[i].Workdir? { EnvsOnce(instructions[..i], a.envs, b.envs); }
  }

  lemma ThenStarted(before: seq<Op>, replayed: seq<Op>, after: seq<Op>, started: seq<Op>)
    requires after == before + replayed + []
    ensures after + started == before + replayed + started
  {
  }

  /** The working directory is always absolute. */
  lemma {:induction false} WorkdirAbsolute(instructions: seq<Instruction>, i: nat)
    requires AllExecutable(instructions) && i <= |instructions|
    ensures IsAbsolute(WorkdirAfter(instructions[..i]))
  {
    if i > 0 {
      assert Executable(instructions[i - 1]);
      StateNext(instructions, i - 1);
      WorkdirAbsolute(instructions, i - 1);
    }
  }

  class Runner {
    const walk: seq<Entry>
    const patterns: seq<Pattern>
    const files: ContextFiles
    var manifest: Option<Manifest>
    var ops: seq<Op>

    constructor (walk: seq<Entry>, patterns: seq<Pattern>, files: ContextFiles)
      ensures this.walk == walk && this.patterns == patterns && this.files == files
      ensures Valid() && ops == []
    {
      this.walk := walk;
      this.patterns := patterns;
      this.files := files;
      manifest := None;
      ops := [];
    }

    /** The manifest of this context. */
    ghost predicate ManifestOf(m: Manifest) {
      && ValidManifest(m)
      && m.raw == SortBy(walk, PathLe)
      && m.visible == Filter(m.raw, (e: Entry) => IsVisible(walk, patterns, e.path))
    }

    ghost predicate Valid()
      reads this
    {
      manifest.Some? ==> ManifestOf(manifest.value)
    }

    /** Built on first use and kept. */
    method ContextManifest() returns (r: Option<Manifest>)
      requires Valid()
      modifies this`manifest
      ensures Valid()
      ensures r.Some? <==> WellFormedWalk(walk)
      ensures r.Some? ==> ManifestOf(r.value)
    {
      if manifest.Some? {
        WalkOfManifest(manifest.value);
        return manifest;
      }
      var outcome := FromContext(walk, patterns);
      if !outcome.Built? {
        return None;
      }
      manifest := Some(outcome.manifest);
      r := manifest;
    }

    lemma WalkOfManifest(m: Manifest)
      requires ManifestOf(m)
      ensures WellFormedWalk(walk)
    {
      PathOrder();
      SortReflectsPairs(walk, PathLe, PathsDiffer);
      forall e, a | e in walk && Paths.Under(e.path, a) ensures IsDirectory(walk, a) {
        assert e in m.raw && IsDirectory(m.raw, a);
      }
    }

    /** What the first pass has prepared for the copies among the first n instructions:
        executable plans of exactly the selected entries, for the working directory that
        the instructions before each copy leave. */
    ghost predicate PreparedFor(instructions: seq<Instruction>, prepared: map<nat, PreparedCopy>, n: nat)
      requires n <= |instructions|
    {
      forall i: nat :: i < n && instructions[i].Copy? ==> i in prepared && PreparedAt(instructions, prepared[i], i)
    }

    ghost predicate PreparedAt(instructions: seq<Instruction>, p: PreparedCopy, i: nat)
      requires i < |instructions| && instructions[i].Copy?
    {
      && p.index == i && p.ins == instructions[i].copy
      && p.workdir == WorkdirAfter(instructions[..i])
      && ExecutablePlan(p.plans)
      && exists m :: ManifestOf(m) && PreparesTo(m, p.ins, p.workdir, files, Prepared(p.dest, p.plans, p.archive))
    }

    /** The failure of the first pass is the case, for the copy at some index. */
    ghost predicate FailureAt(instructions: seq<Instruction>, failure: ApplyOutcome, i: nat)
      requires i < |instructions|
    {
      && instructions[i].Copy?
      && var ins, workdir := instructions[i].copy, WorkdirAfter(instructions[..i]);
         if CopyDestination(ins.dest, workdir) == None then failure == PrepareFailed(i, InvalidDestination)
         else
           match failure
           case BadContext => !WellFormedWalk(walk)
           case PrepareFailed(at, error) =>
             at == i && exists m :: ManifestOf(m) && PreparesTo(m, ins, workdir, files, Failed(error))
           case PrepareHangs => exists m :: ManifestOf(m) && EndlessCopy(m, ins, workdir)
           case _ => false
    }

    /** Preparing one copy in the working directory planned for it. */
    method PrepareAt(instructions: seq<Instruction>, i: nat, workdir: string)
        returns (failure: Option<ApplyOutcome>, prepared: Option<PreparedCopy>)
      requires Valid() && i < |instructions| && instructions[i].Copy? && Executable(instructions[i])
      requires workdir == WorkdirAfter(instructions[..i])
      modifies this`manifest
      ensures Valid()
      ensures failure == None <==> prepared.Some?
      ensures failure.Some? ==> FailureAt(instructions, failure.value, i)
      ensures prepared.Some? ==> PreparedAt(instructions, prepared.value, i)
    {
      var ins := instructions[i].copy;
      if CopyDestination(ins.dest, workdir) == None {
        return Some(PrepareFailed(i, InvalidDestination)), None;
      }
      var m := ContextManifest();
      if m == None {
        return Some(BadContext), None;
      }
      var outcome := PrepareCopy(m.value, ins, workdir, files);
      if outcome.Hangs? {
        return Some(PrepareHangs), None;
      }
      if outcome.Failed? {
        return Some(PrepareFailed(i, outcome.error)), None;
      }
      return None, Some(PreparedCopy(i, ins, workdir, outcome.dest, outcome.plans, outcome.archive));
    }

    /** First pass. It touches nothing but the cached manifest. */
    method PrepareAll(instructions: seq<Instruction>) returns (failure: Option<ApplyOutcome>, prepared: map<nat, PreparedCopy>)
      requires Valid() && AllExecutable(instructions)
      modifies this`manifest
      ensures Valid()
      ensures failure.Some? ==> exists i :: 0 <= i < |instructions| && FailureAt(instructions, failure.value, i)
                                            && PreparedFor(instructions, prepared, i)
      ensures failure == None ==> PreparedFor(instructions, prepared, |instructions|)
    {
      prepared := map[];
      var plannedWorkdir := "/";
      for i := 0 to |instructions|
        invariant Valid()
        invariant plannedWorkdir == WorkdirAfter(instructions[..i])
        invariant PreparedFor(instructions, prepared, i)
      {
        assert Executable(instructions[i]);
        StateNext(instructions, i);
        if instructions[i].Workdir? {
          plannedWorkdir := instructions[i].path;
        } else if instructions[i].Copy? {
          var one;
          failure, one := PrepareAt(instructions, i, plannedWorkdir);
          if failure.Some? {
            return;
          }
          prepared := prepared[i := one.value];
        }
      }
      failure := None;
    }

    lemma OpsInState(instructions: seq<Instruction>, prepared: map<nat, PreparedCopy>, i: nat,
                     envs: map<string, string>, workdir: string, user: Option<string>)
      requires i < |instructions| && InState(instructions, i, envs, workdir, user)
      ensures OpsAt(instructions, prepared, i) == OpsOf(instructions[i], prepared, i, envs, workdir, user)
    {
    }

    /** One instruction: the operation it attempts and the state it leaves. */
    method Interpret(instructions: seq<Instruction>, prepared: map<nat, PreparedCopy>, i: nat,
                     envs: map<string, string>, workdir: string, user: Option<string>)
        returns (attempted: seq<Op>, envs': map<string, string>, workdir': string, user': Option<string>)
      requires i < |instructions| && PreparedFor(instructions, prepared, |instructions|)
      requires InState(instructions, i, envs, workdir, user)
      ensures attempted == OpsAt(instructions, prepared, i)
      ensures InState(instructions, i + 1, envs', workdir', user')
    {
      StateNext(instructions, i);
      OpsInState(instructions, prepared, i, envs, workdir, user);
      assert instructions[i].Copy? ==> i in prepared;
      attempted, envs', workdir', user' := InterpretOne(instructions[i], prepared, i, envs, workdir, user);
    }

    method InterpretOne(instruction: Instruction, prepared: map<nat, PreparedCopy>, i: nat,
                        envs: map<string, string>, workdir: string, user: Option<string>)
        returns (attempted: seq<Op>, envs': map<string, string>, workdir': string, user': Option<string>)
      requires instruction.Copy? ==> i in prepared
      ensures attempted == OpsOf(instruction, prepared, i, envs, workdir, user)
      ensures envs' == if instruction.Env? then envs + instruction.envs else envs
      ensures workdir' == if instruction.Workdir? then instruction.path else workdir
      ensures user' == if instruction.User? then Some(instruction.user) else user
    {
      attempted, envs', workdir', user' := [], envs, workdir, user;
      match instruction {
        case Run(command) =>
          attempted := [RunCommand(command, envs, workdir, user)];
        case Copy(_) =>
          attempted := [ExecuteCopy(prepared[i], envs)];
        case Env(e) =>
          envs' := envs + e;
        case Workdir(path) =>
          workdir' := path;
          if path != "" && path != "/" {
            attempted := [MakeDirectory(path)];
          }
        case User(u) =>
          user' := Some(u);
        case _ =>
      }
    }

    /** Second pass: the operations in order, each in the state the instructions before
        it leave, until one fails. `fails` says at which instructions. */
    method ReplayAll(instructions: seq<Instruction>, prepared: map<nat, PreparedCopy>, fails: nat -> bool)
        returns (failedAt: Option<nat>, envs: map<string, string>, workdir: string, user: Option<string>)
      requires PreparedFor(instructions, prepared, |instructions|)
      modifies this`ops
      ensures failedAt == None ==>
                && Succeeded(instructions, prepared, fails, |instructions|)
                && ops == old(ops) + Replay(instructions, prepared, |instructions|)
                && InState(instructions, |instructions|, envs, workdir, user)
      ensures failedAt.Some? ==>
                && failedAt.value < |instructions| && fails(failedAt.value)
                && Succeeded(instructions, prepared, fails, failedAt.value)
                && OpsAt(instructions, prepared, failedAt.value) != []
                && ops == old(ops) + Replay(instructions, prepared, failedAt.value + 1)
    {
      ghost var before := ops;
      envs, workdir, user := map[], "/", None;
      for i := 0 to |instructions|
        invariant ops == before + Replay(instructions, prepared, i)
        invariant InState(instructions, i, envs, workdir, user)
        invariant Succeeded(instructions, prepared, fails, i)
      {
        var attempted;
        attempted, envs, workdir, user := Interpret(instructions, prepared, i, envs, workdir, user);
        ReplayNext(instructions, prepared, i, before);
        ops := ops + attempted;
        if attempted != [] && fails(i) {
          return Some(i), envs, workdir, user;
        }
        SucceededNext(instructions, prepared, fails, i);
      }
      assert instructions[..|instructions|] == instructions;
      failedAt := None;
    }

    /** All instructions were replayed without a failure, and then `started` was asked of
        the sandbox. */
    ghost predicate Completed(before: seq<Op>, instructions: seq<Instruction>, fails: nat -> bool, started: seq<Op>, after: seq<Op>) {
      exists prepared ::
        && PreparedFor(instructions, prepared, |instructions|)
        && Succeeded(instructions, prepared, fails, |instructions|)
        && after == before + Replay(instructions, prepared, |instructions|) + started
    }

    /** The instruction at the index was the first to fail and the last to be attempted. */
    ghost predicate Stopped(before: seq<Op>, instructions: seq<Instruction>, fails: nat -> bool, i: nat, after: seq<Op>) {
      i < |instructions| && fails(i) && exists prepared ::
        && PreparedFor(instructions, prepared, |instructions|)
        && Succeeded(instructions, prepared, fails, i) && OpsAt(instructions, prepared, i) != []
        && after == before + Replay(instructions, prepared, i + 1)
    }

    /** The start command the parsed file asks for. */
    function StartOps(parsed: Parsed): seq<Op>
      requires AllExecutable(parsed.instructions)
    {
      var start := ResolveStart(parsed.instructions);
      if start.Some? then [StartCommand(start.value, parsed.envs, parsed.workdir, parsed.user)] else []
    }

    /** What the application comes to: a refused file or a failed first pass leaves the
        sandbox untouched, a failed instruction is the last one attempted, and otherwise
        everything is replayed and a start command is dispatched, when it is asked for, in
        the environment, directory and user that the parser computed. */
    ghost predicate AppliedAs(before: seq<Op>, parsed: Parsed, autoStart: bool, ready: bool, fails: nat -> bool,
                              r: ApplyOutcome, after: seq<Op>)
      requires AllExecutable(parsed.instructions)
    {
      var instructions := parsed.instructions;
      var n := |instructions|;
      var starts := autoStart && ResolveStart(instructions).Some?;
      match r
      case HasUnsupported => parsed.unsupported != [] && after == before
      case NoBaseImage => parsed.unsupported == [] && parsed.baseImage == "" && after == before
      case InstructionFailed(i) => Stopped(before, instructions, fails, i, after)
      case NotReady => starts && !ready && Completed(before, instructions, fails, [], after)
      case StartFailed => starts && ready && fails(n) && Completed(before, instructions, fails, StartOps(parsed), after)
      case Applied(start) =>
        && start == ResolveStart(instructions)
        && (starts ==> ready && !fails(n))
        && Completed(before, instructions, fails, if starts then StartOps(parsed) else [], after)
      case _ =>
        && after == before
        && exists i, prepared :: 0 <= i < n && FailureAt(instructions, r, i) && PreparedFor(instructions, prepared, i)
    }

    // -----------------------------------------------------------------
    // The outcome, told from the instructions and the context
    // -----------------------------------------------------------------

    /** The copy stands for its instruction, in the directory in force before it: it
        carries what its sources name to where its destination lies. */
    ghost predicate CopyStands(instructions: seq<Instruction>, p: PreparedCopy, i: nat)
      requires i < |instructions| && instructions[i].Copy?
    {
      && p.index == i && p.ins == instructions[i].copy && WorkdirInForce(instructions[..i], p.workdir)
      && exists m, selections ::
           && ManifestOf(m)
           && PreparedAsWritten(m, p.ins, p.workdir, files, selections, p.dest, p.plans)
           && ArchiveAsWritten(p.ins, selections, files, p.archive)
    }

    ghost predicate CopiesStand(instructions: seq<Instruction>, prepared: map<nat, PreparedCopy>, n: nat)
      requires n <= |instructions|
    {
      forall i: nat :: i < n && instructions[i].Copy? ==> i in prepared && CopyStands(instructions, prepared[i], i)
    }

    /** The copy at the index can not be prepared: there is no context, or its instruction
        fails or never comes to an end in the directory in force before it. */
    ghost predicate CopyFails(instructions: seq<Instruction>, failure: ApplyOutcome, i: nat)
      requires i < |instructions|
    {
      instructions[i].Copy? && exists workdir ::
        WorkdirInForce(instructions[..i], workdir) && CopyFailsIn(instructions[i].copy, workdir, failure, i)
    }

    ghost predicate CopyFailsIn(ins: CopyInstruction, workdir: string, failure: ApplyOutcome, i: nat) {
      if Climbs(ins.dest, workdir) then failure == PrepareFailed(i, InvalidDestination)
      else
        match failure
        case BadContext => !WellFormedWalk(walk)
        case PrepareFailed(at, error) => at == i && exists m :: ManifestOf(m) && FailsFor(m, ins, workdir, files, error)
        case PrepareHangs => exists m :: ManifestOf(m) && HangsFor(m, ins, workdir)
        case _ => false
    }

    /** The sandbox saw the operations of the first n instructions and then `started`, and
        none of the first k failed. */
    ghost predicate Saw(before: seq<Op>, instructions: seq<Instruction>, fails: nat -> bool, n: nat, k: nat, started: seq<Op>, after: seq<Op>)
      requires k <= n <= |instructions|
    {
      exists prepared, trace ::
        && CopiesStand(instructions, prepared, |instructions|) && TraceOf(instructions, prepared, n, trace)
        && after == before + trace + started
        && forall j: nat :: j < k && AsksSomething(instructions[j]) ==> !fails(j)
    }

    /** The start command, in what is in force at the end. */
    ghost predicate Starts(instructions: seq<Instruction>, started: seq<Op>)
      requires AllExecutable(instructions)
    {
      var start := ResolveStart(instructions);
      && start.Some? && |started| == 1 && started[0].StartCommand?
      && started[0].argv == start.value && InForce(instructions, started[0].envs, started[0].cwd, started[0].user)
    }

    ghost predicate Means(before: seq<Op>, parsed: Parsed, autoStart: bool, ready: bool, fails: nat -> bool,
                          r: ApplyOutcome, after: seq<Op>)
      requires AllExecutable(parsed.instructions)
    {
      var instructions := parsed.instructions;
      var n := |instructions|;
      var start := ResolveStart(instructions);
      match r
      case HasUnsupported => parsed.unsupported != [] && after == before
      case NoBaseImage => parsed.unsupported == [] && parsed.baseImage == "" && after == before
      case InstructionFailed(i) =>
        i < n && AsksSomething(instructions[i]) && fails(i) && Saw(before, instructions, fails, i + 1, i, [], after)
      case NotReady => autoStart && start.Some? && !ready && Saw(before, instructions, fails, n, n, [], after)
      case StartFailed =>
        autoStart && ready && fails(n)
        && exists started :: Starts(instructions, started) && Saw(before, instructions, fails, n, n, started, after)
      case Applied(argv) =>
        argv == start &&
        if !autoStart || start == None then Saw(before, instructions, fails, n, n, [], after)
        else
          ready && !fails(n)
          && exists started :: Starts(instructions, started) && Saw(before, instructions, fails, n, n, started, after)
      case _ => after == before && FirstCopyFails(instructions, r)
    }

    /** Some copy can not be prepared, and all copies before it can. */
    ghost predicate FirstCopyFails(instructions: seq<Instruction>, failure: ApplyOutcome) {
      exists i, prepared :: 0 <= i < |instructions| && CopyFails(instructions, failure, i) && CopiesStand(instructions, prepared, i)
    }

    lemma PreparedStands(instructions: seq<Instruction>, p: PreparedCopy, i: nat)
      requires AllExecutable(instructions) && i < |instructions| && instructions[i].Copy? && PreparedAt(instructions, p, i)
      ensures CopyStands(instructions, p, i)
    {
      AfterInForce(instructions[..i]);
      WorkdirAbsolute(instructions, i);
      var m :| ManifestOf(m) && PreparesTo(m, p.ins, p.workdir, files, Prepared(p.dest, p.plans, p.archive));
      var selections := PreparedMeaning(m, p.ins, p.workdir, files, p.dest, p.plans, p.archive);
    }

    lemma AllStand(instructions: seq<Instruction>, prepared: map<nat, PreparedCopy>, n: nat)
      requires AllExecutable(instructions) && n <= |instructions| && PreparedFor(instructions, prepared, n)
      ensures CopiesStand(instructions, prepared, n)
    {
      forall i: nat | i < n && instructions[i].Copy? ensures i in prepared && CopyStands(instructions, prepared[i], i) {
        PreparedStands(instructions, prepared[i], i);
      }
    }

    lemma FailureStands(instructions: seq<Instruction>, failure: ApplyOutcome, i: nat)
      requires AllExecutable(instructions) && i < |instructions| && FailureAt(instructions, failure, i)
      ensures CopyFails(instructions, failure, i)
    {
      var ins, workdir := instructions[i].copy, WorkdirAfter(instructions[..i]);
      AfterInForce(instructions[..i]);
      WorkdirAbsolute(instructions, i);
      assert Executable(instructions[i]);
      DestinationMeaning(ins.dest, workdir);
      if !Climbs(ins.dest, workdir) {
        match failure {
          case PrepareFailed(_, error) =>
            var m :| ManifestOf(m) && PreparesTo(m, ins, workdir, files, Failed(error));
            FailureMeaning(m, ins, workdir, files, error);
          case PrepareHangs =>
            var m :| ManifestOf(m) && EndlessCopy(m, ins, workdir);
            EndlessMeaning(m, ins, workdir);
          case _ =>
        }
      }
      assert CopyFailsIn(ins, workdir, failure, i);
    }

    lemma SawReplay(before: seq<Op>, instructions: seq<Instruction>, fails: nat -> bool, n: nat, k: nat, started: seq<Op>, after: seq<Op>,
                    prepared: map<nat, PreparedCopy>)
      requires AllExecutable(instructions) && k <= n <= |instructions|
      requires PreparedFor(instructions, prepared, |instructions|) && Succeeded(instructions, prepared, fails, k)
      requires after == before + Replay(instructions, prepared, n) + started
      ensures Saw(before, instructions, fails, n, k, started, after)
    {
      AllStand(instructions, prepared, |instructions|);
      var positions := ReplayTrace(instructions, prepared, n);
      assert TraceOf(instructions, prepared, n, Replay(instructions, prepared, n));
      forall j: nat | j < k && AsksSomething(instructions[j]) ensures !fails(j) {
        OpsAsked(instructions, prepared, j);
      }
    }

    lemma CompletedMeans(before: seq<Op>, instructions: seq<Instruction>, fails: nat -> bool, started: seq<Op>, after: seq<Op>)
      requires AllExecutable(instructions) && Completed(before, instructions, fails, started, after)
      ensures Saw(before, instructions, fails, |instructions|, |instructions|, started, after)
    {
      var n := |instructions|;
      var prepared :| PreparedFor(instructions, prepared, n) && Succeeded(instructions, prepared, fails, n)
                      && after == before + Replay(instructions, prepared, n) + started;
      SawReplay(before, instructions, fails, n, n, started, after, prepared);
    }

    lemma StoppedMeans(before: seq<Op>, instructions: seq<Instruction>, fails: nat -> bool, i: nat, after: seq<Op>)
      requires AllExecutable(instructions) && Stopped(before, instructions, fails, i, after)
      ensures i < |instructions| && AsksSomething(instructions[i]) && fails(i)
      ensures Saw(before, instructions, fails, i + 1, i, [], after)
    {
      var prepared :| PreparedFor(instructions, prepared, |instructions|) && Succeeded(instructions, prepared, fails, i)
                      && OpsAt(instructions, prepared, i) != [] && after == before + Replay(instructions, prepared, i + 1);
      AllStand(instructions, prepared, |instructions|);
      OpsAsked(instructions, prepared, i);
      assert after == before + Replay(instructions, prepared, i + 1) + [];
      SawReplay(before, instructions, fails, i + 1, i, [], after, prepared);
    }

    lemma StartedMeans(before: seq<Op>, parsed: Parsed, fails: nat -> bool, after: seq<Op>)
      requires Consistent(parsed) && ResolveStart(parsed.instructions).Some?
      requires Completed(before, parsed.instructions, fails, StartOps(parsed), after)
      ensures exists started ::
                && Starts(parsed.instructions, started)
                && Saw(before, parsed.instructions, fails, |parsed.instructions|, |parsed.instructions|, started, after)
    {
      AfterInForce(parsed.instructions);
      CompletedMeans(before, parsed.instructions, fails, StartOps(parsed), after);
      assert Starts(parsed.instructions, StartOps(parsed));
    }

    lemma UnpreparedMeans(instructions: seq<Instruction>, failure: ApplyOutcome)
      requires AllExecutable(instructions)
      requires exists i, prepared :: 0 <= i < |instructions| && FailureAt(instructions, failure, i) && PreparedFor(instructions, prepared, i)
      ensures FirstCopyFails(instructions, failure)
    {
      var i, prepared :| 0 <= i < |instructions| && FailureAt(instructions, failure, i) && PreparedFor(instructions, prepared, i);
      FailureStands(instructions, failure, i);
      AllStand(instructions, prepared, i);
    }

    /** Whatever the application comes to, the sandbox saw what the instructions say. */
    lemma AppliedMeans(before: seq<Op>, parsed: Parsed, autoStart: bool, ready: bool, fails: nat -> bool,
                       r: ApplyOutcome, after: seq<Op>)
      requires Consistent(parsed) && AppliedAs(before, parsed, autoStart, ready, fails, r, after)
      ensures Means(before, parsed, autoStart, ready, fails, r, after)
    {
      var instructions := parsed.instructions;
      match r {
        case HasUnsupported =>
        case NoBaseImage =>
        case InstructionFailed(i) => StoppedMeans(before, instructions, fails, i, after);
        case NotReady => CompletedMeans(before, instructions, fails, [], after);
        case StartFailed => StartedMeans(before, parsed, fails, after);
        case Applied(start) =>
          if autoStart && start.Some? {
            StartedMeans(before, parsed, fails, after);
          } else {
            CompletedMeans(before, instructions, fails, [], after);
          }
        case _ => UnpreparedMeans(instructions, r);
      }
    }

    /** The whole application, in two passes. */
    method Apply(parsed: Parsed, autoStart: bool, ready: bool, fails: nat -> bool) returns (r: ApplyOutcome)
      requires Valid() && Consistent(parsed)
      modifies this
      ensures Valid()
      ensures r == HasUnsupported <==> parsed.unsupported != []
      ensures r == NoBaseImage <==> parsed.unsupported == [] && parsed.baseImage == ""
      ensures AppliedAs(old(ops), parsed, autoStart, ready, fails, r, ops)
      ensures Means(old(ops), parsed, autoStart, ready, fails, r, ops)
    {
      r := RunBoth(parsed, autoStart, ready, fails);
      AppliedMeans(old(ops), parsed, autoStart, ready, fails, r, ops);
    }

    method RunBoth(parsed: Parsed, autoStart: bool, ready: bool, fails: nat -> bool) returns (r: ApplyOutcome)
      requires Valid() && Consistent(parsed)
      modifies this
      ensures Valid()
      ensures r == HasUnsupported <==> parsed.unsupported != []
      ensures r == NoBaseImage <==> parsed.unsupported == [] && parsed.baseImage == ""
      ensures AppliedAs(old(ops), parsed, autoStart, ready, fails, r, ops)
    {
      if parsed.unsupported != [] {
        return HasUnsupported;
      }
      if parsed.baseImage == "" {
        return NoBaseImage;
      }
      ghost var before := ops;
      var failure, prepared := PrepareAll(parsed.instructions);
      if failure.Some? {
        return failure.value;
      }
      var failedAt, envs, workdir, user := ReplayAll(parsed.instructions, prepared, fails);
      if failedAt.Some? {
        return InstructionFailed(failedAt.value);
      }
      assert before + Replay(parsed.instructions, prepared, |parsed.instructions|) + [] == ops;
      r := Dispatch(parsed, autoStart, ready, fails, envs, workdir, user, before);
    }

    /** The start command, once everything is replayed. */
    method Dispatch(parsed: Parsed, autoStart: bool, ready: bool, fails: nat -> bool,
                    envs: map<string, string>, workdir: string, user: Option<string>, ghost before: seq<Op>) returns (r: ApplyOutcome)
      requires Consistent(parsed) && InState(parsed.instructions, |parsed.instructions|, envs, workdir, user)
      requires Completed(before, parsed.instructions, fails, [], ops)
      modifies this`ops
      ensures r.NotReady? || r.StartFailed? || r.Applied?
      ensures AppliedAs(before, parsed, autoStart, ready, fails, r, ops)
    {
      assert parsed.instructions[..|parsed.instructions|] == parsed.instructions;
      var start := ResolveStart(parsed.instructions);
      if autoStart && start.Some? {
        if !ready {
          return NotReady;
        }
        var started := [StartCommand(start.value, envs, workdir, user)];
        CompletedThen(before, parsed.instructions, fails, ops, started);
        ops := ops + started;
        if fails(|parsed.instructions|) {
          return StartFailed;
        }
      }
      r := Applied(start);
    }

    lemma CompletedThen(before: seq<Op>, instructions: seq<Instruction>, fails: nat -> bool, after: seq<Op>, started: seq<Op>)
      requires Completed(before, instructions, fails, [], after)
      ensures Completed(before, instructions, fails, started, after + started)
    {
      var n := |instructions|;
      var prepared :| PreparedFor(instructions, prepared, n) && Succeeded(instructions, prepared, fails, n)
                      && after == before + Replay(instructions, prepared, n) + [];
      ThenStarted(before, Replay(instructions, prepared, n), after, started);
    }
  }
}
