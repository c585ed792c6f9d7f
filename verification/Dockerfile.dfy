/** Parsing of tokenised Dockerfile instructions for direct launch. */
module Dockerfile {
  import opened Options
  import opened CopyPlan

  datatype Node = Node(kind: string, value: string)

  /** The library functions applied to instruction text: shlex.split, the JSON array
      reader (None for an element that is no string), str.strip, str.split, folding of
      continuation lines, and the regular expressions. */
  datatype Text = Text(
    split: string -> Option<seq<string>>,
    jsonArray: string -> Option<seq<Option<string>>>,
    strip: string -> string,
    words: string -> seq<string>,
    fold: string -> string,
    hasVariable: string -> bool,
    isChown: string -> bool,
    isNamedUser: string -> bool,
    isRemoteUrl: string -> bool)

  /** Text that is not blank splits into at least one token. */
  ghost predicate Sound(lib: Text) {
    forall v :: lib.strip(v) != "" && lib.split(lib.strip(v)).Some? ==> lib.split(lib.strip(v)).value != []
  }

  datatype Instruction =
    | From(image: string)
    | Run(command: string)
    | Copy(copy: CopyInstruction)
    | Env(envs: map<string, string>)
    | Workdir(path: string)
    | User(user: string)
    | Cmd(cmd: seq<string>, shellForm: bool)
    | Entrypoint(cmd: seq<string>, shellForm: bool)
    | Expose(ports: seq<string>)

  datatype Reason = NoFrom | MultiStage | UnsupportedSyntax | UnsupportedInstruction | RemoteAdd

  datatype Unsupported = Unsupported(kind: string, value: string, reason: Reason)

  /** What one instruction comes to: at most one refusal, and then no instruction. */
  datatype NodeResult = Skip | Emit(instruction: Instruction) | Refuse(unsupported: Unsupported)

  predicate StartsWith(s: string, prefix: string) {
    prefix <= s
  }

  // ---------------------------------------------------------------------
  // Instructions
  // ---------------------------------------------------------------------

  function ParseRun(lib: Text, value: string): NodeResult {
    if lib.jsonArray(value).Some? then Refuse(Unsupported("RUN", value, UnsupportedSyntax))
    else
      var command := if lib.strip(value) == "" then "" else lib.fold(value);
      if command == "" then Skip
      else match lib.split(value)
        case None => Refuse(Unsupported("RUN", value, UnsupportedSyntax))
        case Some(args) =>
          if args != [] && StartsWith(args[0], "--") then Refuse(Unsupported("RUN", value, UnsupportedSyntax))
          else Emit(Run(command))
  }

  /** Flags and paths of COPY and ADD, argument by argument. */
  datatype CopyArgs = CopyArgs(chown: Option<string>, paths: seq<string>) | BadArgs(reason: Reason)

  function ScanCopyArgs(lib: Text, args: seq<string>, chown: Option<string>, paths: seq<string>): CopyArgs
    decreases |args|
  {
    if args == [] then CopyArgs(chown, paths)
    else
      var arg := args[0];
      if StartsWith(arg, "--from") then BadArgs(MultiStage)
      else if StartsWith(arg, "--chown=") then
        if !lib.isChown(arg[8..]) || lib.hasVariable(arg[8..]) then BadArgs(UnsupportedSyntax)
        else ScanCopyArgs(lib, args[1..], Some(arg[8..]), paths)
      else if StartsWith(arg, "--") then BadArgs(UnsupportedSyntax)
      else ScanCopyArgs(lib, args[1..], chown, paths + [arg])
  }

  function CopyOf(lib: Text, kind: string, chown: Option<string>, paths: seq<string>): Option<CopyInstruction> {
    if |paths| < 2 then None
    else
      var srcs, dest := paths[..|paths| - 1], paths[|paths| - 1];
      if |srcs| > 1 && !EndsInSlash(dest) then None
      else Some(CopyInstruction(srcs, dest, chown, kind == "ADD"))
  }

  function ParseCopyAdd(lib: Text, kind: string, value: string): NodeResult {
    if lib.strip(value) == "" || lib.jsonArray(value).Some? then Refuse(Unsupported(kind, value, UnsupportedSyntax))
    else match lib.split(value)
      case None => Refuse(Unsupported(kind, value, UnsupportedSyntax))
      case Some(args) =>
        match ScanCopyArgs(lib, args, None, [])
        case BadArgs(reason) => Refuse(Unsupported(kind, value, reason))
        case CopyArgs(chown, paths) => JudgeCopy(lib, kind, value, chown, paths)
  }

  function JudgeCopy(lib: Text, kind: string, value: string, chown: Option<string>, paths: seq<string>): NodeResult {
    if |paths| < 2 then Refuse(Unsupported(kind, value, UnsupportedSyntax))
    else if exists i :: 0 <= i < |paths| && lib.hasVariable(paths[i]) then Refuse(Unsupported(kind, value, UnsupportedSyntax))
    else if kind == "ADD" && exists i :: 0 <= i < |paths| - 1 && lib.isRemoteUrl(paths[i]) then Refuse(Unsupported(kind, value, RemoteAdd))
    else match CopyOf(lib, kind, chown, paths)
      case None => Refuse(Unsupported(kind, value, UnsupportedSyntax))
      case Some(copy) => Emit(Copy(copy))
  }

  function FirstEquals(s: string): (i: nat)
    ensures i <= |s|
  {
    if s == "" || s[0] == '=' then 0 else FirstEquals(s[1..]) + 1
  }

  /** `dict(token.split("=", 1) for token in tokens)`. */
  function Assignments(tokens: seq<string>): map<string, string> {
    if tokens == [] then map[]
    else
      var last := tokens[|tokens| - 1];
      var i := FirstEquals(last);
      Assignments(tokens[..|tokens| - 1])[last[..i] := if i < |last| then last[i + 1..] else ""]
  }

  function JoinSpaces(tokens: seq<string>): string {
    if tokens == [] then ""
    else if |tokens| == 1 then tokens[0]
    else tokens[0] + " " + JoinSpaces(tokens[1..])
  }

  function ParseEnv(lib: Text, raw: string): NodeResult
    requires Sound(lib)
  {
    var value := lib.strip(raw);
    var bad := Refuse(Unsupported("ENV", value, UnsupportedSyntax));
    if value == "" then bad
    else match lib.split(value)
      case None => bad
      case Some(tokens) =>
        if '=' in tokens[0] && exists i :: 0 <= i < |tokens| && '=' !in tokens[i] then bad
        else if '=' !in tokens[0] && |tokens| < 2 then bad
        else
          var envs := if '=' in tokens[0] then Assignments(tokens) else map[tokens[0] := JoinSpaces(tokens[1..])];
          if exists k :: k in envs && lib.hasVariable(envs[k]) then bad else Emit(Env(envs))
  }

  function ParseWorkdir(lib: Text, value: string): NodeResult {
    var path := lib.strip(value);
    if !IsAbsolute(path) || lib.hasVariable(path) then Refuse(Unsupported("WORKDIR", value, UnsupportedSyntax))
    else Emit(Workdir(path))
  }

  function ParseUser(lib: Text, value: string): NodeResult {
    var user := lib.strip(value);
    if lib.hasVariable(user) || !lib.isNamedUser(user) then Refuse(Unsupported("USER", value, UnsupportedSyntax))
    else Emit(User(user))
  }

  function Strings(items: seq<Option<string>>): seq<string>
    requires forall i :: 0 <= i < |items| ==> items[i].Some?
  {
    seq(|items|, i requires 0 <= i < |items| => items[i].value)
  }

  function StartOf(kind: string, cmd: seq<string>, shellForm: bool): Instruction {
    if kind == "CMD" then Cmd(cmd, shellForm) else Entrypoint(cmd, shellForm)
  }

  function ParseStart(lib: Text, kind: string, raw: string): NodeResult {
    var value := lib.strip(raw);
    var bad := Refuse(Unsupported(kind, value, UnsupportedSyntax));
    if value == "" then bad
    else match lib.jsonArray(value)
      case Some(items) =>
        if exists i :: 0 <= i < |items| && items[i].None? then bad
        else
          var cmd := Strings(items);
          if cmd == [] || cmd[0] == "" then bad else Emit(StartOf(kind, cmd, false))
      case None => Emit(StartOf(kind, [lib.fold(value)], true))
  }

  function ParseNode(lib: Text, node: Node): NodeResult
    requires Sound(lib)
  {
    var kind, value := node.kind, node.value;
    if kind == "COMMENT" || kind == "FROM" then Skip
    else if kind == "RUN" then ParseRun(lib, value)
    else if kind == "COPY" || kind == "ADD" then ParseCopyAdd(lib, kind, value)
    else if kind == "ENV" then ParseEnv(lib, value)
    else if kind == "WORKDIR" then ParseWorkdir(lib, value)
    else if kind == "USER" then ParseUser(lib, value)
    else if kind == "CMD" || kind == "ENTRYPOINT" then ParseStart(lib, kind, value)
    else if kind == "EXPOSE" then
      (var ports := lib.words(value); if ports == [] then Skip else Emit(Expose(ports)))
    else Refuse(Unsupported(kind, value, UnsupportedInstruction))
  }

  function FirstNonFlag(args: seq<string>): string {
    if args == [] then ""
    else if !StartsWith(args[0], "--") then args[0]
    else FirstNonFlag(args[1..])
  }

  /** The base image, and the refusal of the FROM line if there is one. */
  function ParseFrom(lib: Text, value: string): (string, Option<Unsupported>) {
    var bad := Some(Unsupported("FROM", value, UnsupportedSyntax));
    match lib.split(value)
    case None => ("", bad)
    case Some(args) =>
      if args == [] then ("", bad)
      else if StartsWith(args[0], "--") then (FirstNonFlag(args), bad)
      else if lib.hasVariable(args[0]) then (args[0], bad)
      else if |args| != 1 && !(|args| == 3 && IsAs(args[1])) then (args[0], bad)
      else (args[0], None)
  }

  predicate IsAs(s: string) {
    s == "as" || s == "AS" || s == "As" || s == "aS"
  }

  // ---------------------------------------------------------------------
  // The whole file
  // ---------------------------------------------------------------------

  datatype Parsed = Parsed(
    baseImage: string,
    instructions: seq<Instruction>,
    unsupported: seq<Unsupported>,
    envs: map<string, string>,
    workdir: string,
    user: Option<string>,
    ports: seq<string>)

  datatype ParseResult = Success(parsed: Parsed) | ParseError(reason: Reason)

  /** One instruction: in strict mode a refusal ends the parse, otherwise it is noted. */
  function Absorb(p: Parsed, r: NodeResult, strict: bool): ParseResult {
    match r
    case Skip => Success(p)
    case Refuse(u) => if strict then ParseError(u.reason) else Success(p.(unsupported := p.unsupported + [u]))
    case Emit(i) =>
      var q := p.(instructions := p.instructions + [i]);
      Success(match i
              case Env(envs) => q.(envs := p.envs + envs)
              case Workdir(path) => q.(workdir := path)
              case User(user) => q.(user := Some(user))
              case Expose(ports) => q.(ports := p.ports + ports)
              case _ => q)
  }

  function ParseNodes(lib: Text, nodes: seq<Node>, p: Parsed, strict: bool): ParseResult
    requires Sound(lib)
    decreases |nodes|
  {
    if nodes == [] then Success(p)
    else match Absorb(p, ParseNode(lib, nodes[0]), strict)
      case ParseError(reason) => ParseError(reason)
      case Success(q) => ParseNodes(lib, nodes[1..], q, strict)
  }

  function Froms(nodes: seq<Node>): seq<Node> {
    if nodes == [] then []
    else if nodes[0].kind == "FROM" then [nodes[0]] + Froms(nodes[1..])
    else Froms(nodes[1..])
  }

  function StartState(image: string, unsupported: seq<Unsupported>): Parsed {
    Parsed(image, [From(image)], unsupported, map[], "/", None, [])
  }

  function Parse(lib: Text, nodes: seq<Node>, strict: bool): ParseResult
    requires Sound(lib)
  {
    var froms := Froms(nodes);
    if froms == [] then ParseError(NoFrom)
    else if |froms| > 1 then ParseError(MultiStage)
    else
      var (image, refusal) := ParseFrom(lib, froms[0].value);
      if refusal.Some? && strict then ParseError(refusal.value.reason)
      else ParseNodes(lib, nodes, StartState(image, if refusal.Some? then [refusal.value] else []), strict)
  }

  /** The next instruction, and what it does to the result of parsing the rest. */
  method NextNode(lib: Text, nodes: seq<Node>, i: nat, ghost p: Parsed, ghost strict: bool) returns (r: NodeResult)
    requires Sound(lib) && i < |nodes|
    ensures var absorbed := Absorb(p, r, strict);
            ParseNodes(lib, nodes[i..], p, strict) ==
            if absorbed.Success? then ParseNodes(lib, nodes[i + 1..], absorbed.parsed, strict) else absorbed
  {
    assert nodes[i..][1..] == nodes[i + 1..];
    r := ParseNode(lib, nodes[i]);
  }

  /** The runtime fields after an emitted instruction. */
  method UpdateFields(instruction: Instruction, envs: map<string, string>, workdir: string, user: Option<string>, ports: seq<string>)
      returns (envs': map<string, string>, workdir': string, user': Option<string>, ports': seq<string>)
    ensures envs' == if instruction.Env? then envs + instruction.envs else envs
    ensures workdir' == if instruction.Workdir? then instruction.path else workdir
    ensures user' == if instruction.User? then Some(instruction.user) else user
    ensures ports' == if instruction.Expose? then ports + instruction.ports else ports
  {
    envs', workdir', user', ports' := envs, workdir, user, ports;
    match instruction {
      case Env(e) => envs' := envs + e;
      case Workdir(path) => workdir' := path;
      case User(u) => user' := Some(u);
      case Expose(p) => ports' := ports + p;
      case _ =>
    }
  }

  /** The parser: the lists and the runtime fields are updated instruction by
      instruction. */
  method ParseDockerfile(lib: Text, nodes: seq<Node>, strict: bool) returns (r: ParseResult)
    requires Sound(lib)
    ensures r == Parse(lib, nodes, strict)
  {
    var froms := Froms(nodes);
    if froms == [] {
      return ParseError(NoFrom);
    }
    if |froms| > 1 {
      return ParseError(MultiStage);
    }
    var (image, refusal) := ParseFrom(lib, froms[0].value);
    if refusal.Some? && strict {
      return ParseError(refusal.value.reason);
    }
    r := ParseInstructions(lib, nodes, strict, image, if refusal.Some? then [refusal.value] else []);
  }

  /** The loop over the instructions. */
  method ParseInstructions(lib: Text, nodes: seq<Node>, strict: bool, image: string, refused: seq<Unsupported>)
      returns (r: ParseResult)
    requires Sound(lib)
    ensures r == ParseNodes(lib, nodes, StartState(image, refused), strict)
  {
    var unsupported := refused;
    var instructions := [From(image)];
    var envs: map<string, string> := map[];
    var workdir := "/";
    var user: Option<string> := None;
    var ports: seq<string> := [];
    assert nodes[0..] == nodes;
    ghost var state := StartState(image, refused);
    for i := 0 to |nodes|
      invariant state == Parsed(image, instructions, unsupported, envs, workdir, user, ports)
      invariant ParseNodes(lib, nodes, StartState(image, refused), strict) == ParseNodes(lib, nodes[i..], state, strict)
    {
      var result := NextNode(lib, nodes, i, state, strict);
      match result {
        case Skip =>
        case Refuse(u) =>
          if strict {
            return ParseError(u.reason);
          }
          unsupported := unsupported + [u];
        case Emit(instruction) =>
          envs, workdir, user, ports := UpdateFields(instruction, envs, workdir, user, ports);
          instructions := instructions + [instruction];
      }
      state := Parsed(image, instructions, unsupported, envs, workdir, user, ports);
    }
    return Success(Parsed(image, instructions, unsupported, envs, workdir, user, ports));
  }

  lemma {:induction false} NodesStrictly(lib: Text, nodes: seq<Node>, p: Parsed)
    requires Sound(lib)
    ensures ParseNodes(lib, nodes, p, false).Success?
    ensures var lax := ParseNodes(lib, nodes, p, false).parsed;
            && p.unsupported <= lax.unsupported
            && ParseNodes(lib, nodes, p, true) ==
               if lax.unsupported == p.unsupported then Success(lax)
               else ParseError(lax.unsupported[|p.unsupported|].reason)
    decreases |nodes|
  {
    if nodes != [] {
      var r := ParseNode(lib, nodes[0]);
      NodesStrictly(lib, nodes[1..], Absorb(p, r, false).parsed);
    }
  }

  /** Strict parsing succeeds exactly when diagnostic parsing finds nothing unsupported,
      with the same result; otherwise it stops with the first reason. */
  lemma StrictExactly(lib: Text, nodes: seq<Node>)
    requires Sound(lib)
    ensures var strict, lax := Parse(lib, nodes, true), Parse(lib, nodes, false);
            strict == if lax.Success? && lax.parsed.unsupported != [] then ParseError(lax.parsed.unsupported[0].reason)
                      else lax
  {
    var froms := Froms(nodes);
    if |froms| == 1 {
      var (image, refusal) := ParseFrom(lib, froms[0].value);
      NodesStrictly(lib, nodes, StartState(image, if refusal.Some? then [refusal.value] else []));
    }
  }

  datatype CheckResult = CheckResult(launchable: bool, baseImage: Option<string>, reasons: seq<Reason>, hasBuild: bool)

  /** `tuple(dict.fromkeys(reasons))`. */
  function Distinct(reasons: seq<Reason>): seq<Reason> {
    if reasons == [] then []
    else
      var last := reasons[|reasons| - 1];
      var front := Distinct(reasons[..|reasons| - 1]);
      if last in front then front else front + [last]
  }

  /** Each reason once, in the order in which they first occur. */
  lemma {:induction false} DistinctExactly(reasons: seq<Reason>)
    ensures var r := Distinct(reasons);
            && (forall x :: x in r <==> x in reasons)
            && (forall i, j :: 0 <= i < j < |r| ==> r[i] != r[j])
            && (forall i, j :: 0 <= i < j < |r| ==> OccursBefore(reasons, r[i], r[j]))
    decreases |reasons|
  {
    if reasons != [] {
      var n := |reasons| - 1;
      var front := reasons[..n];
      DistinctExactly(front);
      var d, r := Distinct(front), Distinct(reasons);
      assert forall x :: x in reasons <==> x in front || x == reasons[n];
      forall i, j | 0 <= i < j < |r| ensures r[i] != r[j] && OccursBefore(reasons, r[i], r[j]) {
        if j < |d| { LaterOccurs(reasons, r[i], r[j]); } else { assert r[i] in front; }
      }
    }
  }

  /** The first occurrence of one reason comes before any of the other. */
  ghost predicate OccursBefore(reasons: seq<Reason>, a: Reason, b: Reason) {
    exists k :: 0 <= k < |reasons| && reasons[k] == a && b !in reasons[..k]
  }

  lemma LaterOccurs(reasons: seq<Reason>, a: Reason, b: Reason)
    requires reasons != [] && OccursBefore(reasons[..|reasons| - 1], a, b)
    ensures OccursBefore(reasons, a, b)
  {
    var front := reasons[..|reasons| - 1];
    var k :| 0 <= k < |front| && front[k] == a && b !in front[..k];
    assert front[..k] == reasons[..k];
  }

  function Reasons(unsupported: seq<Unsupported>): seq<Reason> {
    seq(|unsupported|, i requires 0 <= i < |unsupported| => unsupported[i].reason)
  }

  function CheckDirectLaunch(lib: Text, nodes: seq<Node>, strict: bool): CheckResult
    requires Sound(lib)
  {
    match Parse(lib, nodes, strict)
    case ParseError(reason) => CheckResult(false, None, [reason], false)
    case Success(p) =>
      CheckResult(p.unsupported == [], if p.unsupported == [] then Some(p.baseImage) else None,
                  Distinct(Reasons(p.unsupported)),
                  exists i :: 0 <= i < |p.instructions| && (p.instructions[i].Run? || p.instructions[i].Copy?))
  }

  lemma {:induction false} DistinctFirst(reasons: seq<Reason>)
    requires reasons != []
    ensures Distinct(reasons) != [] && Distinct(reasons)[0] == reasons[0]
    decreases |reasons|
  {
    if |reasons| > 1 {
      DistinctFirst(reasons[..|reasons| - 1]);
    }
  }

  /** The verdict is the same in both modes. A launchable file gets the same result; for
      any other, strict mode reports the first of the diagnostic reasons. */
  lemma CheckModesAgree(lib: Text, nodes: seq<Node>)
    requires Sound(lib)
    ensures var strict, lax := CheckDirectLaunch(lib, nodes, true), CheckDirectLaunch(lib, nodes, false);
            && strict.launchable == lax.launchable
            && (lax.launchable ==> strict == lax)
            && (!lax.launchable ==> lax.reasons != [] && strict.reasons == [lax.reasons[0]])
  {
    StrictExactly(lib, nodes);
    match Parse(lib, nodes, false)
    case ParseError(_) =>
    case Success(p) =>
      if p.unsupported != [] {
        DistinctFirst(Reasons(p.unsupported));
      }
  }

  // ---------------------------------------------------------------------
  // The runtime fields are a replay of the instructions
  // ---------------------------------------------------------------------

  function EnvsAfter(instructions: seq<Instruction>): map<string, string> {
    if instructions == [] then map[]
    else
      var last := instructions[|instructions| - 1];
      EnvsAfter(instructions[..|instructions| - 1]) + if last.Env? then last.envs else map[]
  }

  function WorkdirAfter(instructions: seq<Instruction>): string {
    if instructions == [] then "/"
    else
      var last := instructions[|instructions| - 1];
      if last.Workdir? then last.path else WorkdirAfter(instructions[..|instructions| - 1])
  }

  function UserAfter(instructions: seq<Instruction>): Option<string> {
    if instructions == [] then None
    else
      var last := instructions[|instructions| - 1];
      if last.User? then Some(last.user) else UserAfter(instructions[..|instructions| - 1])
  }

  function PortsAfter(instructions: seq<Instruction>): seq<string> {
    if instructions == [] then []
    else
      var last := instructions[|instructions| - 1];
      PortsAfter(instructions[..|instructions| - 1]) + if last.Expose? then last.ports else []
  }

  /** What the runner relies on in a single parsed instruction. */
  predicate Executable(i: Instruction) {
    match i
    case Copy(c) => c.srcs != [] && (|c.srcs| > 1 ==> EndsInSlash(c.dest))
    case Workdir(path) => IsAbsolute(path)
    case Cmd(cmd, shellForm) => cmd != [] && (shellForm ==> |cmd| == 1) && (!shellForm ==> cmd[0] != "")
    case Entrypoint(cmd, shellForm) => cmd != [] && (shellForm ==> |cmd| == 1) && (!shellForm ==> cmd[0] != "")
    case _ => true
  }

  ghost predicate AllExecutable(instructions: seq<Instruction>) {
    forall i :: 0 <= i < |instructions| ==> Executable(instructions[i])
  }

  ghost predicate Consistent(p: Parsed) {
    && p.envs == EnvsAfter(p.instructions)
    && p.workdir == WorkdirAfter(p.instructions)
    && p.user == UserAfter(p.instructions)
    && p.ports == PortsAfter(p.instructions)
    && AllExecutable(p.instructions)
  }

  /** Replaying one more instruction. */
  lemma AfterAppend(instructions: seq<Instruction>, i: Instruction)
    ensures var all := instructions + [i];
            && EnvsAfter(all) == EnvsAfter(instructions) + (if i.Env? then i.envs else map[])
            && WorkdirAfter(all) == (if i.Workdir? then i.path else WorkdirAfter(instructions))
            && UserAfter(all) == (if i.User? then Some(i.user) else UserAfter(instructions))
            && PortsAfter(all) == PortsAfter(instructions) + (if i.Expose? then i.ports else [])
            && (AllExecutable(all) <==> AllExecutable(instructions) && Executable(i))
  {
    var all := instructions + [i];
    assert all[..|instructions|] == instructions;
    assert forall k :: 0 <= k < |instructions| ==> all[k] == instructions[k];
    if AllExecutable(all) {
      assert all[|instructions|] == i;
      assert forall k :: 0 <= k < |instructions| ==> Executable(all[k]);
    }
  }

  lemma EmittedExecutable(lib: Text, node: Node)
    requires Sound(lib) && ParseNode(lib, node).Emit?
    ensures Executable(ParseNode(lib, node).instruction)
  {
  }

  lemma AbsorbConsistent(p: Parsed, r: NodeResult, strict: bool)
    requires Consistent(p) && (r.Emit? ==> Executable(r.instruction))
    ensures Absorb(p, r, strict).Success? ==> Consistent(Absorb(p, r, strict).parsed)
  {
    if r.Emit? {
      AfterAppend(p.instructions, r.instruction);
      assert p.envs + map[] == p.envs;
    }
  }

  lemma {:induction false} NodesConsistent(lib: Text, nodes: seq<Node>, p: Parsed, strict: bool)
    requires Sound(lib) && Consistent(p)
    ensures ParseNodes(lib, nodes, p, strict).Success? ==> Consistent(ParseNodes(lib, nodes, p, strict).parsed)
    decreases |nodes|
  {
    if nodes != [] {
      if ParseNode(lib, nodes[0]).Emit? {
        EmittedExecutable(lib, nodes[0]);
      }
      AbsorbConsistent(p, ParseNode(lib, nodes[0]), strict);
      if Absorb(p, ParseNode(lib, nodes[0]), strict).Success? {
        NodesConsistent(lib, nodes[1..], Absorb(p, ParseNode(lib, nodes[0]), strict).parsed, strict);
      }
    }
  }

  /** The fields of a parse are what replaying its instructions gives, and each
      instruction is one the runner can execute. */
  lemma ParsedConsistent(lib: Text, nodes: seq<Node>, strict: bool)
    requires Sound(lib)
    ensures Parse(lib, nodes, strict).Success? ==> Consistent(Parse(lib, nodes, strict).parsed)
  {
    var froms := Froms(nodes);
    if |froms| == 1 {
      var (image, refusal) := ParseFrom(lib, froms[0].value);
      var start := StartState(image, if refusal.Some? then [refusal.value] else []);
      assert start.instructions[..0] == [];
      NodesConsistent(lib, nodes, start, strict);
    }
  }

  // ---------------------------------------------------------------------
  // What is in force after some instructions
  // ---------------------------------------------------------------------

  /** The directory of the last WORKDIR, or the root. */
  ghost predicate WorkdirInForce(instructions: seq<Instruction>, workdir: string) {
    || (workdir == "/" && forall j :: 0 <= j < |instructions| ==> !instructions[j].Workdir?)
    || (exists i :: 0 <= i < |instructions| && instructions[i] == Workdir(workdir)
                    && forall j :: i < j < |instructions| ==> !instructions[j].Workdir?)
  }

  /** The user of the last USER, if there is one. */
  ghost predicate UserInForce(instructions: seq<Instruction>, user: Option<string>) {
    match user
    case None => forall j :: 0 <= j < |instructions| ==> !instructions[j].User?
    case Some(name) =>
      exists i :: 0 <= i < |instructions| && instructions[i] == User(name)
                  && forall j :: i < j < |instructions| ==> !instructions[j].User?
  }

  predicate SetsName(instruction: Instruction, k: string) {
    instruction.Env? && k in instruction.envs
  }

  /** The last ENV that names the variable gives it the value. */
  ghost predicate LastSets(instructions: seq<Instruction>, i: nat, k: string, v: string)
    requires i < |instructions|
  {
    && SetsName(instructions[i], k) && instructions[i].envs[k] == v
    && forall j :: i < j < |instructions| ==> !SetsName(instructions[j], k)
  }

  ghost predicate FinallySets(instructions: seq<Instruction>, k: string, v: string) {
    exists i :: 0 <= i < |instructions| && LastSets(instructions, i, k, v)
  }

  predicate MapsTo(envs: map<string, string>, k: string, v: string) {
    k in envs && envs[k] == v
  }

  ghost predicate EnvsInForce(instructions: seq<Instruction>, envs: map<string, string>) {
    forall k, v :: MapsTo(envs, k, v) <==> FinallySets(instructions, k, v)
  }

  /** Environment, directory and user after the instructions. */
  ghost predicate InForce(instructions: seq<Instruction>, envs: map<string, string>, workdir: string, user: Option<string>) {
    EnvsInForce(instructions, envs) && WorkdirInForce(instructions, workdir) && UserInForce(instructions, user)
  }

  /** The replayed state is the one in force, in terms of the last instruction of each
      kind. */
  lemma {:induction false} AfterInForce(instructions: seq<Instruction>)
    ensures InForce(instructions, EnvsAfter(instructions), WorkdirAfter(instructions), UserAfter(instructions))
  {
    if instructions != [] {
      var n := |instructions| - 1;
      var front := instructions[..n];
      AfterInForce(front);
      assert front + [instructions[n]] == instructions;
      EnvsNext(front, instructions[n], EnvsAfter(front));
      WorkdirNext(front, instructions[n], WorkdirAfter(front));
      UserNext(front, instructions[n], UserAfter(front));
    }
  }

  /** What is in force is determined. */
  lemma EnvsOnce(instructions: seq<Instruction>, a: map<string, string>, b: map<string, string>)
    requires EnvsInForce(instructions, a) && EnvsInForce(instructions, b)
    ensures a == b
  {
    forall k ensures k in a <==> k in b {
      if k in a { assert MapsTo(a, k, a[k]); }
      if k in b { assert MapsTo(b, k, b[k]); }
    }
    forall k | k in a ensures a[k] == b[k] { assert MapsTo(a, k, a[k]); }
    assert a.Keys == b.Keys;
  }

  lemma EnvsNext(front: seq<Instruction>, last: Instruction, envs: map<string, string>)
    requires EnvsInForce(front, envs)
    ensures EnvsInForce(front + [last], envs + if last.Env? then last.envs else map[])
  {
    var all, after := front + [last], envs + if last.Env? then last.envs else map[];
    forall k, v ensures MapsTo(after, k, v) <==> FinallySets(all, k, v) {
      FinallySetsNext(front, last, k, v);
      assert MapsTo(envs, k, v) <==> FinallySets(front, k, v);
    }
  }

  lemma FinallySetsNext(front: seq<Instruction>, last: Instruction, k: string, v: string)
    ensures FinallySets(front + [last], k, v) <==>
            if SetsName(last, k) then last.envs[k] == v else FinallySets(front, k, v)
  {
    var n, all := |front|, front + [last];
    assert all[n] == last && forall j :: 0 <= j < n ==> all[j] == front[j];
    if SetsName(last, k) {
      if i :| 0 <= i < |all| && LastSets(all, i, k, v) { assert i == n; }
      if last.envs[k] == v { assert LastSets(all, n, k, v); }
    } else {
      if i :| 0 <= i < |all| && LastSets(all, i, k, v) { assert LastSets(front, i, k, v); }
      if i :| 0 <= i < |front| && LastSets(front, i, k, v) { assert LastSets(all, i, k, v); }
    }
  }

  lemma WorkdirNext(front: seq<Instruction>, last: Instruction, workdir: string)
    requires WorkdirInForce(front, workdir)
    ensures WorkdirInForce(front + [last], if last.Workdir? then last.path else workdir)
  {
    var all := front + [last];
    assert all[|front|] == last && forall j :: 0 <= j < |front| ==> all[j] == front[j];
  }

  lemma UserNext(front: seq<Instruction>, last: Instruction, user: Option<string>)
    requires UserInForce(front, user)
    ensures UserInForce(front + [last], if last.User? then Some(last.user) else user)
  {
    var all := front + [last];
    assert all[|front|] == last && forall j :: 0 <= j < |front| ==> all[j] == front[j];
  }

  /** So the fields of a parse are those in force at its end. */
  lemma ParsedInForce(lib: Text, nodes: seq<Node>, strict: bool)
    requires Sound(lib)
    ensures Parse(lib, nodes, strict).Success? ==>
              var p := Parse(lib, nodes, strict).parsed;
              InForce(p.instructions, p.envs, p.workdir, p.user) && AllExecutable(p.instructions)
  {
    ParsedConsistent(lib, nodes, strict);
    if Parse(lib, nodes, strict).Success? { AfterInForce(Parse(lib, nodes, strict).parsed.instructions); }
  }

  // ---------------------------------------------------------------------
  // The start command
  // ---------------------------------------------------------------------

  function LastEntrypoint(instructions: seq<Instruction>): Option<Instruction> {
    if instructions == [] then None
    else if instructions[|instructions| - 1].Entrypoint? then Some(instructions[|instructions| - 1])
    else LastEntrypoint(instructions[..|instructions| - 1])
  }

  function LastCmd(instructions: seq<Instruction>): Option<Instruction> {
    if instructions == [] then None
    else if instructions[|instructions| - 1].Cmd? then Some(instructions[|instructions| - 1])
    else LastCmd(instructions[..|instructions| - 1])
  }

  method LastStartInstructions(instructions: seq<Instruction>) returns (entrypoint: Option<Instruction>, cmd: Option<Instruction>)
    ensures entrypoint == LastEntrypoint(instructions) && cmd == LastCmd(instructions)
  {
    entrypoint, cmd := None, None;
    for i := 0 to |instructions|
      invariant entrypoint == LastEntrypoint(instructions[..i]) && cmd == LastCmd(instructions[..i])
    {
      assert instructions[..i + 1][..i] == instructions[..i];
      if instructions[i].Entrypoint? {
        entrypoint := Some(instructions[i]);
      } else if instructions[i].Cmd? {
        cmd := Some(instructions[i]);
      }
    }
    assert instructions[..|instructions|] == instructions;
  }

  function AsArgv(cmd: seq<string>, shellForm: bool): seq<string>
    requires shellForm ==> cmd != []
  {
    if shellForm then ["/bin/sh", "-c", cmd[0]] else cmd
  }

  lemma {:induction false} LastOnes(instructions: seq<Instruction>)
    requires AllExecutable(instructions)
    ensures LastEntrypoint(instructions).Some? ==>
              LastEntrypoint(instructions).value.Entrypoint? && Executable(LastEntrypoint(instructions).value)
    ensures LastCmd(instructions).Some? ==> LastCmd(instructions).value.Cmd? && Executable(LastCmd(instructions).value)
  {
    if instructions != [] { LastOnes(instructions[..|instructions| - 1]); }
  }

  function ResolveStart(instructions: seq<Instruction>): (r: Option<seq<string>>)
    requires AllExecutable(instructions)
  {
    LastOnes(instructions);
    match (LastEntrypoint(instructions), LastCmd(instructions))
    case (Some(e), c) =>
      if e.shellForm then Some(AsArgv(e.cmd, true))
      else if c == None then Some(e.cmd)
      else Some(e.cmd + AsArgv(c.value.cmd, c.value.shellForm))
    case (None, Some(c)) => Some(AsArgv(c.cmd, c.shellForm))
    case (None, None) => None
  }

  /** A command is started exactly when one is declared. */
  lemma StartDeclared(instructions: seq<Instruction>)
    requires AllExecutable(instructions)
    ensures ResolveStart(instructions).Some? <==>
            exists i :: 0 <= i < |instructions| && (instructions[i].Entrypoint? || instructions[i].Cmd?)
  {
    DeclaredExactly(instructions);
  }

  /** The start command names a program, and a shell-form ENTRYPOINT makes CMD
      irrelevant. */
  lemma StartNamesProgram(instructions: seq<Instruction>)
    requires AllExecutable(instructions)
    ensures ResolveStart(instructions).Some? ==>
              ResolveStart(instructions).value != [] && ResolveStart(instructions).value[0] != ""
    ensures var entrypoint := LastEntrypoint(instructions);
            entrypoint.Some? && entrypoint.value.Entrypoint? && entrypoint.value.shellForm ==>
              ResolveStart(instructions) == Some(["/bin/sh", "-c"] + entrypoint.value.cmd)
  {
    LastOnes(instructions);
    match LastEntrypoint(instructions)
    case Some(Entrypoint(cmd, true)) =>
      assert ["/bin/sh", "-c", cmd[0]] == ["/bin/sh", "-c"] + cmd;
    case _ =>
  }

  // The last of each, by position.

  ghost predicate LastEntrypointAt(instructions: seq<Instruction>, i: nat)
    requires i < |instructions|
  {
    instructions[i].Entrypoint? && forall j :: i < j < |instructions| ==> !instructions[j].Entrypoint?
  }

  ghost predicate LastCmdAt(instructions: seq<Instruction>, i: nat)
    requires i < |instructions|
  {
    instructions[i].Cmd? && forall j :: i < j < |instructions| ==> !instructions[j].Cmd?
  }

  lemma {:induction false} LastByPosition(instructions: seq<Instruction>)
    ensures forall i: nat :: i < |instructions| && LastEntrypointAt(instructions, i) ==> LastEntrypoint(instructions) == Some(instructions[i])
    ensures forall i: nat :: i < |instructions| && LastCmdAt(instructions, i) ==> LastCmd(instructions) == Some(instructions[i])
    ensures LastEntrypoint(instructions) == None ==> forall j :: 0 <= j < |instructions| ==> !instructions[j].Entrypoint?
    ensures LastCmd(instructions) == None ==> forall j :: 0 <= j < |instructions| ==> !instructions[j].Cmd?
  {
    if instructions != [] {
      var n := |instructions| - 1;
      var front := instructions[..n];
      LastByPosition(front);
      assert forall j :: 0 <= j < n ==> front[j] == instructions[j];
      forall i: nat | i < n && LastEntrypointAt(instructions, i) ensures LastEntrypointAt(front, i) {}
      forall i: nat | i < n && LastCmdAt(instructions, i) ensures LastCmdAt(front, i) {}
    }
  }

  /** The words of a command: a shell command is handed to the shell. */
  predicate WordsOf(instruction: Instruction, words: seq<string>)
    requires instruction.Cmd? || instruction.Entrypoint?
  {
    if instruction.shellForm then |instruction.cmd| == 1 && words == ["/bin/sh", "-c", instruction.cmd[0]]
    else words == instruction.cmd
  }

  /** The start command, told from the last ENTRYPOINT and the last CMD: the words of the
      entrypoint, followed by those of the command unless the entrypoint is a shell
      command; the words of the command without an entrypoint; nothing without either. */
  lemma StartExactly(instructions: seq<Instruction>)
    requires AllExecutable(instructions)
    ensures ResolveStart(instructions) == None <==>
            forall j :: 0 <= j < |instructions| ==> !instructions[j].Entrypoint? && !instructions[j].Cmd?
    ensures forall i: nat :: i < |instructions| && LastEntrypointAt(instructions, i) ==> StartsFrom(instructions, i)
    ensures forall c: nat :: c < |instructions| && LastCmdAt(instructions, c)
                             && (forall j :: 0 <= j < |instructions| ==> !instructions[j].Entrypoint?) ==>
              ResolveStart(instructions).Some? && WordsOf(instructions[c], ResolveStart(instructions).value)
  {
    LastByPosition(instructions);
    DeclaredExactly(instructions);
    forall i: nat | i < |instructions| && LastEntrypointAt(instructions, i) ensures StartsFrom(instructions, i) {
      assert Executable(instructions[i]);
      StartsAfter(instructions, i);
    }
    forall c: nat | c < |instructions| && LastCmdAt(instructions, c) ensures Executable(instructions[c]) {
    }
  }

  /** The start command of an entrypoint. */
  ghost predicate StartsFrom(instructions: seq<Instruction>, i: nat)
    requires AllExecutable(instructions) && i < |instructions| && instructions[i].Entrypoint?
  {
    var start := ResolveStart(instructions);
    start.Some? && exists own, more ::
      WordsOf(instructions[i], own) && start.value == own + more && Follow(instructions, instructions[i].shellForm, more)
  }

  /** The words of the last CMD, unless a shell command takes none. */
  ghost predicate Follow(instructions: seq<Instruction>, shellForm: bool, words: seq<string>) {
    if shellForm || forall j :: 0 <= j < |instructions| ==> !instructions[j].Cmd? then words == []
    else exists c: nat :: c < |instructions| && LastCmdAt(instructions, c) && WordsOf(instructions[c], words)
  }

  lemma StartsAfter(instructions: seq<Instruction>, i: nat)
    requires AllExecutable(instructions) && i < |instructions| && LastEntrypointAt(instructions, i) && Executable(instructions[i])
    ensures StartsFrom(instructions, i)
  {
    LastByPosition(instructions);
    var own, start := AsArgv(instructions[i].cmd, instructions[i].shellForm), ResolveStart(instructions).value;
    if instructions[i].shellForm || LastCmd(instructions) == None {
      if LastCmd(instructions).Some? { var c := LastCmdPosition(instructions); }
      assert start == own + [];
    } else {
      var c := LastCmdPosition(instructions);
      assert Executable(instructions[c]);
      var more := AsArgv(instructions[c].cmd, instructions[c].shellForm);
      assert start == own + more && WordsOf(instructions[c], more);
    }
  }

  lemma {:induction false} LastCmdPosition(instructions: seq<Instruction>) returns (c: nat)
    requires LastCmd(instructions).Some?
    ensures c < |instructions| && LastCmdAt(instructions, c) && LastCmd(instructions) == Some(instructions[c])
  {
    var n := |instructions| - 1;
    if instructions[n].Cmd? {
      c := n;
    } else {
      c := LastCmdPosition(instructions[..n]);
    }
  }

  lemma {:induction false} DeclaredExactly(instructions: seq<Instruction>)
    ensures LastEntrypoint(instructions).Some? <==> exists i :: 0 <= i < |instructions| && instructions[i].Entrypoint?
    ensures LastCmd(instructions).Some? <==> exists i :: 0 <= i < |instructions| && instructions[i].Cmd?
  {
    if instructions != [] {
      var front := instructions[..|instructions| - 1];
      DeclaredExactly(front);
      assert forall i :: 0 <= i < |front| ==> front[i] == instructions[i];
      assert forall i :: 0 <= i < |instructions| ==> i == |front| || instructions[i] == front[i];
    }
  }
}
