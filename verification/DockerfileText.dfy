/** What parsed instructions say about the text they were parsed from. */
module DockerfileText {
  import opened Options
  import opened Sequences
  import opened CopyPlan
  import opened Dockerfile

  // ---------------------------------------------------------------------
  // COPY and ADD
  // ---------------------------------------------------------------------

  predicate IsPath(arg: string) {
    !("--" <= arg)
  }

  predicate IsChown(arg: string) {
    "--chown=" <= arg
  }

  /** A path, or an owner spelled out. */
  predicate ArgumentOk(lib: Text, arg: string) {
    IsPath(arg) || (IsChown(arg) && lib.isChown(arg[8..]) && !lib.hasVariable(arg[8..]))
  }

  ghost predicate ArgumentsOk(lib: Text, args: seq<string>) {
    forall k :: 0 <= k < |args| ==> ArgumentOk(lib, args[k])
  }

  /** The value of the last `--chown=`, or what it was before the arguments. */
  ghost predicate LastChown(args: seq<string>, before: Option<string>, chown: Option<string>) {
    || (chown == before && forall k :: 0 <= k < |args| ==> !IsChown(args[k]))
    || (chown.Some? && exists k :: 0 <= k < |args| && ChownAt(args, k, chown.value))
  }

  ghost predicate ChownAt(args: seq<string>, k: nat, value: string)
    requires k < |args|
  {
    args[k] == "--chown=" + value && forall l :: k < l < |args| ==> !IsChown(args[l])
  }

  /** The first argument that is not acceptable decides about the reason. */
  ghost predicate FirstBad(lib: Text, args: seq<string>, k: nat, reason: Reason)
    requires k < |args|
  {
    && !ArgumentOk(lib, args[k]) && (forall j :: 0 <= j < k ==> ArgumentOk(lib, args[j]))
    && reason == if "--from" <= args[k] then MultiStage else UnsupportedSyntax
  }

  /** What the scan of some arguments comes to, given what stood before them. */
  ghost predicate ScanResult(lib: Text, args: seq<string>, chown: Option<string>, paths: seq<string>, r: CopyArgs) {
    && (r.CopyArgs? <==> ArgumentsOk(lib, args))
    && (r.CopyArgs? ==> r.paths == paths + Filter(args, IsPath) && LastChown(args, chown, r.chown))
    && (r.BadArgs? ==> exists k :: 0 <= k < |args| && FirstBad(lib, args, k, r.reason))
  }

  lemma {:induction false} ScanExactly(lib: Text, args: seq<string>, chown: Option<string>, paths: seq<string>)
    ensures ScanResult(lib, args, chown, paths, ScanCopyArgs(lib, args, chown, paths))
    decreases |args|
  {
    if args == [] {
      assert paths + [] == paths;
    } else {
      var arg, rest := args[0], args[1..];
      if ArgumentOk(lib, arg) {
        var chown', paths' := ScanNext(lib, args, chown, paths);
        ScanExactly(lib, rest, chown', paths');
        ScanStep(lib, args, chown, paths, chown', paths', ScanCopyArgs(lib, rest, chown', paths'));
      } else {
        ScanStops(lib, args, chown, paths);
      }
    }
  }

  lemma ScanNext(lib: Text, args: seq<string>, chown: Option<string>, paths: seq<string>)
      returns (chown': Option<string>, paths': seq<string>)
    requires args != [] && ArgumentOk(lib, args[0])
    ensures chown' == if IsChown(args[0]) then Some(args[0][8..]) else chown
    ensures paths' == if IsPath(args[0]) then paths + [args[0]] else paths
    ensures ScanCopyArgs(lib, args, chown, paths) == ScanCopyArgs(lib, args[1..], chown', paths')
  {
    PrefixOfFlag(args[0]);
    chown' := if IsChown(args[0]) then Some(args[0][8..]) else chown;
    paths' := if IsPath(args[0]) then paths + [args[0]] else paths;
  }

  lemma ScanStops(lib: Text, args: seq<string>, chown: Option<string>, paths: seq<string>)
    requires args != [] && !ArgumentOk(lib, args[0])
    ensures ScanResult(lib, args, chown, paths, ScanCopyArgs(lib, args, chown, paths))
  {
    PrefixOfFlag(args[0]);
    assert FirstBad(lib, args, 0, if "--from" <= args[0] then MultiStage else UnsupportedSyntax);
  }

  lemma PrefixOfFlag(arg: string)
    ensures IsChown(arg) ==> !IsPath(arg) && !("--from" <= arg)
    ensures "--from" <= arg ==> !IsPath(arg)
  {
    if IsChown(arg) { assert arg[2] == "--chown="[2] && arg[..2] == "--chown="[..2]; }
    if "--from" <= arg { assert arg[..2] == "--from"[..2] && arg[2] == "--from"[2]; }
  }

  lemma ScanStep(lib: Text, args: seq<string>, chown: Option<string>, paths: seq<string>,
                 chown': Option<string>, paths': seq<string>, r: CopyArgs)
    requires args != [] && ArgumentOk(lib, args[0])
    requires chown' == if IsChown(args[0]) then Some(args[0][8..]) else chown
    requires paths' == if IsPath(args[0]) then paths + [args[0]] else paths
    requires ScanResult(lib, args[1..], chown', paths', r)
    ensures ScanResult(lib, args, chown, paths, r)
  {
    PrefixOfFlag(args[0]);
    var rest := args[1..];
    assert forall k :: 0 <= k < |rest| ==> rest[k] == args[k + 1];
    if r.CopyArgs? {
      ChownStep(args, chown, chown', r.chown);
      assert paths + ([args[0]] + Filter(rest, IsPath)) == paths + [args[0]] + Filter(rest, IsPath);
    } else {
      var k :| 0 <= k < |rest| && FirstBad(lib, rest, k, r.reason);
      assert FirstBad(lib, args, k + 1, r.reason);
    }
  }

  lemma ChownStep(args: seq<string>, chown: Option<string>, chown': Option<string>, result: Option<string>)
    requires args != [] && LastChown(args[1..], chown', result)
    requires chown' == if IsChown(args[0]) then Some(args[0][8..]) else chown
    ensures LastChown(args, chown, result)
  {
    var rest := args[1..];
    if k :| 0 <= k < |rest| && result.Some? && ChownAt(rest, k, result.value) {
      assert ChownAt(args, k + 1, result.value);
    } else if IsChown(args[0]) {
      assert args[0] == "--chown=" + args[0][8..];
      assert ChownAt(args, 0, result.value);
    }
  }

  /** The text of COPY or ADD is shell words. */
  predicate PlainArguments(lib: Text, value: string) {
    lib.strip(value) != "" && lib.jsonArray(value) == None && lib.split(value).Some?
  }

  ghost predicate NoVariables(lib: Text, paths: seq<string>) {
    forall i :: 0 <= i < |paths| ==> !lib.hasVariable(paths[i])
  }

  ghost predicate SomeRemote(lib: Text, srcs: seq<string>) {
    exists i :: 0 <= i < |srcs| && lib.isRemoteUrl(srcs[i])
  }

  /** The sources and, last, the destination of an instruction. */
  ghost predicate PathsWritten(lib: Text, kind: string, paths: seq<string>, copy: CopyInstruction) {
    && copy.srcs + [copy.dest] == paths && copy.srcs != []
    && (copy.isAdd <==> kind == "ADD")
    && NoVariables(lib, paths)
    && (kind == "ADD" ==> !SomeRemote(lib, copy.srcs))
    && (|copy.srcs| > 1 ==> EndsInSlash(copy.dest))
  }

  /** The arguments that are not flags are the sources and the destination, and the last
      owner counts. */
  ghost predicate CopyWritten(lib: Text, kind: string, value: string, copy: CopyInstruction) {
    PlainArguments(lib, value) &&
    var args := lib.split(value).value;
    ArgumentsOk(lib, args) && LastChown(args, None, copy.chown) && PathsWritten(lib, kind, Filter(args, IsPath), copy)
  }

  /** The only thing wrong is a remote source of ADD, whatever the destination. */
  ghost predicate RemoteOnly(lib: Text, kind: string, value: string) {
    PlainArguments(lib, value) &&
    var args := lib.split(value).value;
    ArgumentsOk(lib, args) && RemotePaths(lib, kind, Filter(args, IsPath))
  }

  ghost predicate RemotePaths(lib: Text, kind: string, paths: seq<string>) {
    kind == "ADD" && |paths| >= 2 && NoVariables(lib, paths) && SomeRemote(lib, paths[..|paths| - 1])
  }

  /** A bad argument comes first that asks for another stage. */
  ghost predicate OtherStage(lib: Text, value: string) {
    PlainArguments(lib, value) && exists k :: 0 <= k < |lib.split(value).value| && FirstBad(lib, lib.split(value).value, k, MultiStage)
  }

  lemma JudgedPaths(lib: Text, kind: string, value: string, chown: Option<string>, paths: seq<string>, copy: CopyInstruction)
    ensures JudgeCopy(lib, kind, value, chown, paths) == Emit(Copy(copy)) <==>
            copy.chown == chown && PathsWritten(lib, kind, paths, copy)
  {
    if copy.srcs + [copy.dest] == paths && copy.srcs != [] {
      assert copy.srcs == paths[..|paths| - 1] && copy.dest == paths[|paths| - 1];
    }
    if |paths| >= 2 {
      assert paths == paths[..|paths| - 1] + [paths[|paths| - 1]];
      assert SomeRemote(lib, paths[..|paths| - 1]) <==> exists i :: 0 <= i < |paths| - 1 && lib.isRemoteUrl(paths[i]);
    }
  }

  lemma JudgedRefusal(lib: Text, kind: string, value: string, chown: Option<string>, paths: seq<string>)
    ensures var r := JudgeCopy(lib, kind, value, chown, paths);
            if r.Emit? then r.instruction.Copy?
            else r == Refuse(Unsupported(kind, value, if RemotePaths(lib, kind, paths) then RemoteAdd else UnsupportedSyntax))
  {
    if |paths| >= 2 {
      assert SomeRemote(lib, paths[..|paths| - 1]) <==> exists i :: 0 <= i < |paths| - 1 && lib.isRemoteUrl(paths[i]);
    }
  }

  /** The scanned arguments. */
  lemma Scanned(lib: Text, args: seq<string>) returns (r: CopyArgs)
    ensures r == ScanCopyArgs(lib, args, None, [])
    ensures r.CopyArgs? <==> ArgumentsOk(lib, args)
    ensures r.CopyArgs? ==> r.paths == Filter(args, IsPath) && LastChown(args, None, r.chown)
    ensures r.BadArgs? ==> exists k :: 0 <= k < |args| && FirstBad(lib, args, k, r.reason)
  {
    ScanExactly(lib, args, None, []);
    r := ScanCopyArgs(lib, args, None, []);
    assert [] + Filter(args, IsPath) == Filter(args, IsPath);
  }

  lemma ParseScanned(lib: Text, kind: string, value: string, r: CopyArgs)
    requires PlainArguments(lib, value) && r == ScanCopyArgs(lib, lib.split(value).value, None, [])
    ensures ParseCopyAdd(lib, kind, value) ==
            if r.BadArgs? then Refuse(Unsupported(kind, value, r.reason)) else JudgeCopy(lib, kind, value, r.chown, r.paths)
  {
  }

  lemma NotPlain(lib: Text, kind: string, value: string)
    requires !PlainArguments(lib, value)
    ensures ParseCopyAdd(lib, kind, value) == Refuse(Unsupported(kind, value, UnsupportedSyntax))
  {
  }

  /** An instruction is emitted exactly when the text is its text. */
  lemma CopyExactly(lib: Text, kind: string, value: string, copy: CopyInstruction)
    ensures ParseCopyAdd(lib, kind, value) == Emit(Copy(copy)) <==> CopyWritten(lib, kind, value, copy)
  {
    if PlainArguments(lib, value) {
      var args := lib.split(value).value;
      var r := Scanned(lib, args);
      ParseScanned(lib, kind, value, r);
      if r.CopyArgs? {
        JudgedPaths(lib, kind, value, r.chown, r.paths, copy);
        if LastChown(args, None, copy.chown) { OneChown(args, r.chown, copy.chown); }
      }
    } else {
      NotPlain(lib, kind, value);
    }
  }

  /** What is refused is refused for the first reason found: another stage, a remote
      source, or the syntax. */
  lemma CopyRefused(lib: Text, kind: string, value: string)
    ensures var r := ParseCopyAdd(lib, kind, value);
            if r.Emit? then r.instruction.Copy?
            else r == Refuse(Unsupported(kind, value, if OtherStage(lib, value) then MultiStage
                                                      else if RemoteOnly(lib, kind, value) then RemoteAdd
                                                      else UnsupportedSyntax))
  {
    if PlainArguments(lib, value) {
      var args := lib.split(value).value;
      var r := Scanned(lib, args);
      ParseScanned(lib, kind, value, r);
      if r.CopyArgs? {
        JudgedRefusal(lib, kind, value, r.chown, r.paths);
      } else {
        OneReason(lib, args, r.reason);
      }
    } else {
      NotPlain(lib, kind, value);
    }
  }

  lemma OneReason(lib: Text, args: seq<string>, reason: Reason)
    requires exists k :: 0 <= k < |args| && FirstBad(lib, args, k, reason)
    ensures reason == MultiStage <==> exists k :: 0 <= k < |args| && FirstBad(lib, args, k, MultiStage)
    ensures reason == MultiStage || reason == UnsupportedSyntax
  {
    var k :| 0 <= k < |args| && FirstBad(lib, args, k, reason);
    if l :| 0 <= l < |args| && FirstBad(lib, args, l, MultiStage) {
      assert k == l;
    }
  }

  lemma OneChown(args: seq<string>, a: Option<string>, b: Option<string>)
    requires LastChown(args, None, a) && LastChown(args, None, b)
    ensures a == b
  {
    if a.Some? && b.Some? {
      var k :| 0 <= k < |args| && ChownAt(args, k, a.value);
      var l :| 0 <= l < |args| && ChownAt(args, l, b.value);
      assert IsChown(args[k]) && IsChown(args[l]);
      assert args[k][8..] == a.value && args[l][8..] == b.value;
    }
  }

  // ---------------------------------------------------------------------
  // ENV
  // ---------------------------------------------------------------------

  /** The token is `k=v`, cut at its first equals sign. */
  predicate Assigns(token: string, k: string, v: string) {
    '=' !in k && token == k + "=" + v
  }

  ghost predicate AssignsName(token: string, k: string) {
    exists v :: Assigns(token, k, v)
  }

  ghost predicate LastAssigns(tokens: seq<string>, i: nat, k: string, v: string)
    requires i < |tokens|
  {
    Assigns(tokens[i], k, v) && forall j :: i < j < |tokens| ==> !AssignsName(tokens[j], k)
  }

  ghost predicate FinallyAssigns(tokens: seq<string>, k: string, v: string) {
    exists i :: 0 <= i < |tokens| && LastAssigns(tokens, i, k, v)
  }

  /** Each name has the value of the last token that assigns it. */
  ghost predicate EnvOf(tokens: seq<string>, envs: map<string, string>) {
    forall k, v :: MapsTo(envs, k, v) <==> FinallyAssigns(tokens, k, v)
  }

  lemma {:induction false} FirstEqualsAt(s: string)
    requires '=' in s
    ensures var i := FirstEquals(s); i < |s| && s[i] == '=' && '=' !in s[..i]
  {
    if s[0] != '=' {
      FirstEqualsAt(s[1..]);
      var i := FirstEquals(s);
      assert s[..i] == [s[0]] + s[1..][..i - 1];
    }
  }

  /** A token with an equals sign is one assignment. */
  lemma TokenAssigns(token: string) returns (name: string, value: string)
    requires '=' in token
    ensures name == token[..FirstEquals(token)] && FirstEquals(token) < |token| && value == token[FirstEquals(token) + 1..]
    ensures forall k, v :: Assigns(token, k, v) <==> k == name && v == value
  {
    FirstEqualsAt(token);
    var i := FirstEquals(token);
    name, value := token[..i], token[i + 1..];
    assert token == name + "=" + value;
    forall k, v | Assigns(token, k, v) ensures k == name && v == value {
      CutOnce(token, k, v, name, value);
    }
  }

  lemma CutOnce(token: string, k: string, v: string, name: string, value: string)
    requires Assigns(token, k, v) && Assigns(token, name, value)
    ensures k == name && v == value
  {
    assert token[|k|] == '=' && token[|name|] == '=';
    assert token[..|k|] == k && token[..|name|] == name;
    assert token[|k| + 1..] == v && token[|name| + 1..] == value;
  }

  lemma {:induction false} AssignmentsExactly(tokens: seq<string>)
    requires forall i :: 0 <= i < |tokens| ==> '=' in tokens[i]
    ensures EnvOf(tokens, Assignments(tokens))
  {
    if tokens != [] {
      var front, last := tokens[..|tokens| - 1], tokens[|tokens| - 1];
      AssignmentsExactly(front);
      var name, value := TokenAssigns(last);
      var envs := Assignments(front)[name := value];
      assert Assignments(tokens) == envs;
      forall k, v ensures MapsTo(envs, k, v) <==> FinallyAssigns(tokens, k, v) {
        LastOfTokens(front, last, name, value, k, v);
        assert front + [last] == tokens;
        assert MapsTo(Assignments(front), k, v) <==> FinallyAssigns(front, k, v);
      }
    }
  }

  lemma LastOfTokens(front: seq<string>, last: string, name: string, value: string, k: string, v: string)
    requires forall a, b :: Assigns(last, a, b) <==> a == name && b == value
    ensures FinallyAssigns(front + [last], k, v) <==> if k == name then v == value else FinallyAssigns(front, k, v)
  {
    var n, tokens := |front|, front + [last];
    assert tokens[n] == last && forall j :: 0 <= j < n ==> tokens[j] == front[j];
    assert AssignsName(last, k) <==> k == name by {
      if k == name { assert Assigns(last, k, value); }
    }
    if k == name {
      if i :| 0 <= i < |tokens| && LastAssigns(tokens, i, k, v) { assert i == n; }
      if v == value { assert LastAssigns(tokens, n, k, v); }
    } else {
      if i :| 0 <= i < |tokens| && LastAssigns(tokens, i, k, v) { assert LastAssigns(front, i, k, v); }
      if i :| 0 <= i < |front| && LastAssigns(front, i, k, v) { assert LastAssigns(tokens, i, k, v); }
    }
  }

  /** The words with single spaces between them. */
  ghost predicate Spaced(words: seq<string>, text: string) {
    words != [] &&
    var n := |words| - 1;
    if n == 0 then text == words[0] else exists front :: Spaced(words[..n], front) && text == front + " " + words[n]
  }

  lemma {:induction false} JoinSpacesAppend(words: seq<string>, last: string)
    requires words != []
    ensures JoinSpaces(words + [last]) == JoinSpaces(words) + " " + last
  {
    if |words| > 1 {
      JoinSpacesAppend(words[1..], last);
      assert (words + [last])[1..] == words[1..] + [last];
      assert JoinSpaces(words) + " " + last == words[0] + " " + (JoinSpaces(words[1..]) + " " + last);
    } else {
      assert (words + [last])[1..] == [last];
    }
  }

  lemma {:induction false} SpacedExactly(words: seq<string>, text: string)
    requires words != []
    ensures Spaced(words, text) <==> text == JoinSpaces(words)
  {
    var n := |words| - 1;
    if n > 0 {
      var front := words[..n];
      SpacedExactly(front, JoinSpaces(front));
      JoinSpacesAppend(front, words[n]);
      assert words == front + [words[n]];
      if other :| Spaced(front, other) && text == other + " " + words[n] {
        SpacedExactly(front, other);
      }
    }
  }

  /** `k=v` tokens, or one name and the words after it; no value uses a variable. */
  ghost predicate EnvWritten(lib: Text, raw: string, envs: map<string, string>) {
    lib.strip(raw) != "" && lib.split(lib.strip(raw)).Some? &&
    var tokens := lib.split(lib.strip(raw)).value;
    && (forall k :: k in envs ==> !lib.hasVariable(envs[k]))
    && tokens != []
    && if '=' in tokens[0] then AllAssign(tokens) && EnvOf(tokens, envs) else NamedWords(tokens, envs)
  }

  ghost predicate AllAssign(tokens: seq<string>) {
    forall i :: 0 <= i < |tokens| ==> '=' in tokens[i]
  }

  ghost predicate NamedWords(tokens: seq<string>, envs: map<string, string>) {
    |tokens| >= 2 && exists text :: Spaced(tokens[1..], text) && envs == map[tokens[0] := text]
  }

  lemma NamedWordsExactly(tokens: seq<string>, envs: map<string, string>)
    ensures NamedWords(tokens, envs) <==> |tokens| >= 2 && envs == map[tokens[0] := JoinSpaces(tokens[1..])]
  {
    if |tokens| >= 2 {
      SpacedExactly(tokens[1..], JoinSpaces(tokens[1..]));
      if text :| Spaced(tokens[1..], text) && envs == map[tokens[0] := text] { SpacedExactly(tokens[1..], text); }
    }
  }

  lemma EnvOnce(tokens: seq<string>, a: map<string, string>, b: map<string, string>)
    requires EnvOf(tokens, a) && EnvOf(tokens, b)
    ensures a == b
  {
    forall k ensures k in a <==> k in b {
      if k in a { assert MapsTo(a, k, a[k]); }
      if k in b { assert MapsTo(b, k, b[k]); }
    }
    forall k | k in a ensures a[k] == b[k] {
      assert MapsTo(a, k, a[k]);
    }
    assert a.Keys == b.Keys;
  }

  lemma EnvExactly(lib: Text, raw: string, envs: map<string, string>)
    requires Sound(lib)
    ensures ParseEnv(lib, raw) == Emit(Env(envs)) <==> EnvWritten(lib, raw, envs)
    ensures var r := ParseEnv(lib, raw);
            if r.Emit? then r.instruction.Env? else r == Refuse(Unsupported("ENV", lib.strip(raw), UnsupportedSyntax))
  {
    var value := lib.strip(raw);
    if value != "" && lib.split(value).Some? {
      var tokens := lib.split(value).value;
      NamedWordsExactly(tokens, envs);
      if AllAssign(tokens) {
        AssignmentsExactly(tokens);
        if EnvOf(tokens, envs) { EnvOnce(tokens, envs, Assignments(tokens)); }
      }
    }
  }

  // ---------------------------------------------------------------------
  // CMD and ENTRYPOINT
  // ---------------------------------------------------------------------

  /** An array of strings whose first is not empty, or the folded text as one command. */
  ghost predicate StartWritten(lib: Text, raw: string, cmd: seq<string>, shellForm: bool) {
    var text := lib.strip(raw);
    && text != ""
    && match lib.jsonArray(text)
       case None => shellForm && cmd == [lib.fold(text)]
       case Some(items) =>
         && !shellForm && cmd != [] && cmd[0] != ""
         && |items| == |cmd| && forall i :: 0 <= i < |cmd| ==> items[i] == Some(cmd[i])
  }

  lemma StartExactly(lib: Text, kind: string, raw: string, cmd: seq<string>, shellForm: bool)
    ensures ParseStart(lib, kind, raw) == Emit(StartOf(kind, cmd, shellForm)) <==> StartWritten(lib, raw, cmd, shellForm)
    ensures var r := ParseStart(lib, kind, raw);
            if r.Emit? then (if kind == "CMD" then r.instruction.Cmd? else r.instruction.Entrypoint?)
            else r == Refuse(Unsupported(kind, lib.strip(raw), UnsupportedSyntax))
  {
    var text := lib.strip(raw);
    if text != "" && lib.jsonArray(text).Some? {
      var items := lib.jsonArray(text).value;
      if StartWritten(lib, raw, cmd, shellForm) { assert Strings(items) == cmd; }
    }
  }

  // ---------------------------------------------------------------------
  // Any instruction
  // ---------------------------------------------------------------------

  ghost predicate RunWritten(lib: Text, value: string, command: string) {
    && lib.jsonArray(value) == None && lib.strip(value) != ""
    && command != "" && command == lib.fold(value)
    && lib.split(value).Some?
    && (lib.split(value).value != [] ==> IsPath(lib.split(value).value[0]))
  }

  /** The instruction is the one that the text asks for. */
  ghost predicate WrittenAs(lib: Text, node: Node, instruction: Instruction) {
    var kind, value := node.kind, node.value;
    match instruction
    case From(_) => false
    case Run(command) => kind == "RUN" && RunWritten(lib, value, command)
    case Copy(copy) => (kind == "COPY" || kind == "ADD") && CopyWritten(lib, kind, value, copy)
    case Env(envs) => kind == "ENV" && EnvWritten(lib, value, envs)
    case Workdir(path) => kind == "WORKDIR" && path == lib.strip(value) && path != "" && path[0] == '/' && !lib.hasVariable(path)
    case User(user) => kind == "USER" && user == lib.strip(value) && lib.isNamedUser(user) && !lib.hasVariable(user)
    case Cmd(cmd, shellForm) => kind == "CMD" && StartWritten(lib, value, cmd, shellForm)
    case Entrypoint(cmd, shellForm) => kind == "ENTRYPOINT" && StartWritten(lib, value, cmd, shellForm)
    case Expose(ports) => kind == "EXPOSE" && ports == lib.words(value) && ports != []
  }

  /** The text asks for nothing: a comment, the FROM line, a blank RUN, no ports. */
  predicate AsksNothing(lib: Text, node: Node) {
    || node.kind == "COMMENT" || node.kind == "FROM"
    || (node.kind == "RUN" && lib.jsonArray(node.value) == None && (lib.strip(node.value) == "" || lib.fold(node.value) == ""))
    || (node.kind == "EXPOSE" && lib.words(node.value) == [])
  }

  const KINDS := ["COMMENT", "FROM", "RUN", "COPY", "ADD", "ENV", "WORKDIR", "USER", "CMD", "ENTRYPOINT", "EXPOSE"]

  /** The refusal that the text calls for when it is refused. */
  ghost function RefusalOf(lib: Text, node: Node): Unsupported {
    var kind, value := node.kind, node.value;
    if kind !in KINDS then Unsupported(kind, value, UnsupportedInstruction)
    else if (kind == "COPY" || kind == "ADD") && OtherStage(lib, value) then Unsupported(kind, value, MultiStage)
    else if kind == "ADD" && RemoteOnly(lib, kind, value) then Unsupported(kind, value, RemoteAdd)
    else Unsupported(kind, if kind in ["ENV", "CMD", "ENTRYPOINT"] then lib.strip(value) else value, UnsupportedSyntax)
  }

  /** Every node comes to exactly one of three things, told from its text: the instruction
      it is written as, nothing, or the refusal it calls for. */
  lemma NodeExactly(lib: Text, node: Node, instruction: Instruction)
    requires Sound(lib)
    ensures ParseNode(lib, node) == Emit(instruction) <==> WrittenAs(lib, node, instruction)
    ensures ParseNode(lib, node) == Skip <==> AsksNothing(lib, node)
    ensures ParseNode(lib, node).Refuse? ==> ParseNode(lib, node).unsupported == RefusalOf(lib, node)
  {
    var kind, value := node.kind, node.value;
    if kind == "COPY" || kind == "ADD" {
      CopyNode(lib, node, instruction);
    } else if kind == "ENV" {
      EnvNode(lib, node, instruction);
    } else if kind == "CMD" || kind == "ENTRYPOINT" {
      StartNode(lib, node, instruction);
    } else if kind == "RUN" {
      RunNode(lib, node, instruction);
    } else {
      OtherNode(lib, node, instruction);
    }
  }

  lemma CopyNode(lib: Text, node: Node, instruction: Instruction)
    requires Sound(lib) && (node.kind == "COPY" || node.kind == "ADD")
    ensures ParseNode(lib, node) == Emit(instruction) <==> WrittenAs(lib, node, instruction)
    ensures ParseNode(lib, node) == Skip <==> AsksNothing(lib, node)
    ensures ParseNode(lib, node).Refuse? ==> ParseNode(lib, node).unsupported == RefusalOf(lib, node)
  {
    CopyRefused(lib, node.kind, node.value);
    if instruction.Copy? { CopyExactly(lib, node.kind, node.value, instruction.copy); }
  }

  lemma EnvNode(lib: Text, node: Node, instruction: Instruction)
    requires Sound(lib) && node.kind == "ENV"
    ensures ParseNode(lib, node) == Emit(instruction) <==> WrittenAs(lib, node, instruction)
    ensures ParseNode(lib, node) == Skip <==> AsksNothing(lib, node)
    ensures ParseNode(lib, node).Refuse? ==> ParseNode(lib, node).unsupported == RefusalOf(lib, node)
  {
    var r := ParseEnv(lib, node.value);
    var envs := if instruction.Env? then instruction.envs else map[];
    EnvExactly(lib, node.value, envs);
    assert ParseNode(lib, node) == r;
    EnvResult(lib, node, instruction, r, envs);
  }

  lemma EnvResult(lib: Text, node: Node, instruction: Instruction, r: NodeResult, envs: map<string, string>)
    requires node.kind == "ENV" && (instruction.Env? ==> envs == instruction.envs)
    requires r == Emit(Env(envs)) <==> EnvWritten(lib, node.value, envs)
    requires if r.Emit? then r.instruction.Env? else r == Refuse(Unsupported("ENV", lib.strip(node.value), UnsupportedSyntax))
    ensures r == Emit(instruction) <==> WrittenAs(lib, node, instruction)
    ensures r == Skip <==> AsksNothing(lib, node)
    ensures r.Refuse? ==> r.unsupported == RefusalOf(lib, node)
  {
  }

  lemma StartNode(lib: Text, node: Node, instruction: Instruction)
    requires Sound(lib) && (node.kind == "CMD" || node.kind == "ENTRYPOINT")
    ensures ParseNode(lib, node) == Emit(instruction) <==> WrittenAs(lib, node, instruction)
    ensures ParseNode(lib, node) == Skip <==> AsksNothing(lib, node)
    ensures ParseNode(lib, node).Refuse? ==> ParseNode(lib, node).unsupported == RefusalOf(lib, node)
  {
    var starts := instruction.Cmd? || instruction.Entrypoint?;
    StartExactly(lib, node.kind, node.value, if starts then instruction.cmd else [], if starts then instruction.shellForm else false);
  }

  lemma RunNode(lib: Text, node: Node, instruction: Instruction)
    requires Sound(lib) && node.kind == "RUN"
    ensures ParseNode(lib, node) == Emit(instruction) <==> WrittenAs(lib, node, instruction)
    ensures ParseNode(lib, node) == Skip <==> AsksNothing(lib, node)
    ensures ParseNode(lib, node).Refuse? ==> ParseNode(lib, node).unsupported == RefusalOf(lib, node)
  {
  }

  lemma OtherNode(lib: Text, node: Node, instruction: Instruction)
    requires Sound(lib) && node.kind !in ["RUN", "COPY", "ADD", "ENV", "CMD", "ENTRYPOINT"]
    ensures ParseNode(lib, node) == Emit(instruction) <==> WrittenAs(lib, node, instruction)
    ensures ParseNode(lib, node) == Skip <==> AsksNothing(lib, node)
    ensures ParseNode(lib, node).Refuse? ==> ParseNode(lib, node).unsupported == RefusalOf(lib, node)
  {
  }

  // ---------------------------------------------------------------------
  // The whole file
  // ---------------------------------------------------------------------

  ghost predicate Ascending(positions: seq<nat>, n: nat) {
    && (forall a :: 0 <= a < |positions| ==> positions[a] < n)
    && forall a, b :: 0 <= a < b < |positions| ==> positions[a] < positions[b]
  }

  /** The items are those of the nodes at the positions, and no other node has one. */
  ghost predicate TakenAt<T>(nodes: seq<Node>, item: Node -> Option<T>, positions: seq<nat>, items: seq<T>) {
    && Ascending(positions, |nodes|) && |items| == |positions|
    && (forall k :: 0 <= k < |positions| ==> item(nodes[positions[k]]) == Some(items[k]))
    && forall j: nat :: j < |nodes| && item(nodes[j]).Some? ==> j in positions
  }

  /** The items of the nodes that have one. */
  ghost function Taken<T>(nodes: seq<Node>, item: Node -> Option<T>): seq<T> {
    if nodes == [] then []
    else
      var first := item(nodes[0]);
      (if first.Some? then [first.value] else []) + Taken(nodes[1..], item)
  }

  lemma {:induction false} TakenAppend<T>(front: seq<Node>, last: Node, item: Node -> Option<T>)
    ensures Taken(front + [last], item) == Taken(front, item) + if item(last).Some? then [item(last).value] else []
  {
    var all, one := front + [last], if item(last).Some? then [item(last).value] else [];
    if front == [] {
      assert all == [last] && all[1..] == [];
      assert Taken([], item) == [] && one + [] == one && [] + one == one;
    } else {
      var rest, head := front[1..], if item(front[0]).Some? then [item(front[0]).value] else [];
      assert all[0] == front[0] && all[1..] == rest + [last];
      TakenAppend(rest, last, item);
      assert head + (Taken(rest, item) + one) == (head + Taken(rest, item)) + one;
    }
  }

  lemma {:induction false} TakenInOrder<T>(nodes: seq<Node>, item: Node -> Option<T>) returns (positions: seq<nat>)
    ensures TakenAt(nodes, item, positions, Taken(nodes, item))
  {
    positions := [];
    if nodes != [] {
      var n := |nodes| - 1;
      var front, last := nodes[..n], nodes[n];
      assert nodes == front + [last];
      TakenAppend(front, last, item);
      positions := TakenInOrder(front, item);
      positions := TakenNext(front, last, item, positions, Taken(front, item));
    }
  }

  lemma TakenNext<T>(front: seq<Node>, last: Node, item: Node -> Option<T>, before: seq<nat>, items: seq<T>) returns (positions: seq<nat>)
    requires TakenAt(front, item, before, items)
    ensures TakenAt(front + [last], item, positions, items + if item(last).Some? then [item(last).value] else [])
  {
    var n, nodes := |front|, front + [last];
    positions := before + if item(last).Some? then [n] else [];
    assert forall j :: 0 <= j < n ==> nodes[j] == front[j];
    forall j: nat | j < |nodes| && item(nodes[j]).Some? ensures j in positions {
      if j == n { assert positions[|before|] == n; }
    }
    assert items + [] == items;
  }

  ghost function Emits(lib: Text): Node -> Option<Instruction>
    requires Sound(lib)
  {
    (node: Node) => var r := ParseNode(lib, node); if r.Emit? then Some(r.instruction) else None
  }

  ghost function Refuses(lib: Text): Node -> Option<Unsupported>
    requires Sound(lib)
  {
    (node: Node) => var r := ParseNode(lib, node); if r.Refuse? then Some(r.unsupported) else None
  }

  lemma AbsorbAdds(p: Parsed, r: NodeResult, strict: bool)
    requires Absorb(p, r, strict).Success?
    ensures var q := Absorb(p, r, strict).parsed;
            && q.baseImage == p.baseImage
            && q.instructions == p.instructions + (if r.Emit? then [r.instruction] else [])
            && q.unsupported == p.unsupported + (if r.Refuse? then [r.unsupported] else [])
  {
  }

  /** One node of a parse that succeeds. */
  lemma NodeAdds(lib: Text, nodes: seq<Node>, p: Parsed, strict: bool) returns (q: Parsed, front: seq<Instruction>, fore: seq<Unsupported>)
    requires Sound(lib) && nodes != [] && ParseNodes(lib, nodes, p, strict).Success?
    ensures ParseNodes(lib, nodes, p, strict) == ParseNodes(lib, nodes[1..], q, strict)
    ensures q.baseImage == p.baseImage && q.instructions == p.instructions + front && q.unsupported == p.unsupported + fore
    ensures Taken(nodes, Emits(lib)) == front + Taken(nodes[1..], Emits(lib))
    ensures Taken(nodes, Refuses(lib)) == fore + Taken(nodes[1..], Refuses(lib))
  {
    var r := ParseNode(lib, nodes[0]);
    q := Absorb(p, r, strict).parsed;
    front, fore := if r.Emit? then [r.instruction] else [], if r.Refuse? then [r.unsupported] else [];
    AbsorbAdds(p, r, strict);
    var emitted, refused := Emits(lib)(nodes[0]), Refuses(lib)(nodes[0]);
    assert front == if emitted.Some? then [emitted.value] else [];
    assert fore == if refused.Some? then [refused.value] else [];
  }

  /** What the nodes add to a parse. */
  lemma {:induction false} NodesAdd(lib: Text, nodes: seq<Node>, p: Parsed, strict: bool) returns (q: Parsed)
    requires Sound(lib) && ParseNodes(lib, nodes, p, strict).Success?
    ensures q == ParseNodes(lib, nodes, p, strict).parsed && q.baseImage == p.baseImage
    ensures q.instructions == p.instructions + Taken(nodes, Emits(lib))
    ensures q.unsupported == p.unsupported + Taken(nodes, Refuses(lib))
    decreases |nodes|
  {
    if nodes == [] {
      q := p;
    } else {
      var next, front, fore := NodeAdds(lib, nodes, p, strict);
      q := NodesAdd(lib, nodes[1..], next, strict);
    }
  }

  // ---------------------------------------------------------------------
  // FROM
  // ---------------------------------------------------------------------

  /** The first argument that is no flag. */
  ghost predicate FirstPath(args: seq<string>, image: string) {
    || (exists k :: 0 <= k < |args| && args[k] == image && IsPath(image) && forall j :: 0 <= j < k ==> !IsPath(args[j]))
    || (image == "" && forall k :: 0 <= k < |args| ==> !IsPath(args[k]))
  }

  /** An image, by itself or with an alias. */
  ghost predicate FromSupported(lib: Text, value: string, image: string) {
    lib.split(value).Some? &&
    var args := lib.split(value).value;
    && args != [] && image == args[0] && IsPath(image) && !lib.hasVariable(image)
    && (|args| == 1 || (|args| == 3 && IsAs(args[1])))
  }

  lemma {:induction false} FirstNonFlagExactly(args: seq<string>)
    ensures FirstPath(args, FirstNonFlag(args))
  {
    if args != [] && !IsPath(args[0]) {
      FirstNonFlagExactly(args[1..]);
      var image := FirstNonFlag(args);
      if k :| 0 <= k < |args[1..]| && args[1..][k] == image && IsPath(image) && forall j :: 0 <= j < k ==> !IsPath(args[1..][j]) {
        assert args[k + 1] == image;
        assert forall j :: 0 < j <= k ==> args[j] == args[1..][j - 1];
      } else {
        assert forall j :: 0 < j < |args| ==> args[j] == args[1..][j - 1];
      }
    }
  }

  lemma FromExactly(lib: Text, value: string)
    ensures var (image, refusal) := ParseFrom(lib, value);
            && (refusal == None <==> FromSupported(lib, value, image))
            && (refusal.Some? ==> refusal.value == Unsupported("FROM", value, UnsupportedSyntax))
            && FirstPath(if lib.split(value).Some? then lib.split(value).value else [], image)
  {
    if lib.split(value).Some? {
      var args := lib.split(value).value;
      FirstNonFlagExactly(args);
      if args != [] && IsPath(args[0]) { assert FirstNonFlag(args) == args[0]; }
    }
  }

  /** The one FROM line. */
  ghost predicate OnlyFrom(nodes: seq<Node>, at: nat) {
    at < |nodes| && nodes[at].kind == "FROM" && forall j :: 0 <= j < |nodes| && nodes[j].kind == "FROM" ==> j == at
  }

  ghost predicate NoFromLine(nodes: seq<Node>) {
    forall j :: 0 <= j < |nodes| ==> nodes[j].kind != "FROM"
  }

  lemma {:induction false} FromsExactly(nodes: seq<Node>)
    ensures Froms(nodes) == [] <==> NoFromLine(nodes)
    ensures |Froms(nodes)| == 1 <==> exists at: nat :: OnlyFrom(nodes, at)
    ensures forall at: nat :: OnlyFrom(nodes, at) ==> Froms(nodes) == [nodes[at]]
  {
    if nodes != [] {
      var rest := nodes[1..];
      FromsExactly(rest);
      assert forall j :: 0 < j < |nodes| ==> nodes[j] == rest[j - 1];
      assert forall j :: 0 <= j < |rest| ==> rest[j] == nodes[j + 1];
      if nodes[0].kind == "FROM" {
        if Froms(rest) == [] { assert OnlyFrom(nodes, 0); }
      } else {
        if at: nat :| OnlyFrom(rest, at) {
          OnlyFromShift(nodes, at);
          assert OnlyFrom(nodes, at + 1);
        }
        forall at: nat | OnlyFrom(nodes, at) ensures at > 0 && OnlyFrom(rest, at - 1) {
          OnlyFromShift(nodes, at - 1);
        }
      }
    }
  }

  lemma OnlyFromShift(nodes: seq<Node>, at: nat)
    requires nodes != [] && nodes[0].kind != "FROM"
    ensures OnlyFrom(nodes, at + 1) <==> OnlyFrom(nodes[1..], at)
  {
    var rest := nodes[1..];
    if OnlyFrom(rest, at) {
      forall j | 0 <= j < |nodes| && nodes[j].kind == "FROM" ensures j == at + 1 { assert rest[j - 1] == nodes[j]; }
    }
    if OnlyFrom(nodes, at + 1) {
      forall j | 0 <= j < |rest| && rest[j].kind == "FROM" ensures j == at { assert nodes[j + 1] == rest[j]; }
    }
  }

  // ---------------------------------------------------------------------
  // What a parse says about the file
  // ---------------------------------------------------------------------

  /** The base image, and then the instructions of the nodes that have one, in node
      order. */
  ghost predicate InstructionsRead(lib: Text, nodes: seq<Node>, positions: seq<nat>, p: Parsed) {
    && Ascending(positions, |nodes|) && |p.instructions| == |positions| + 1
    && p.instructions[0] == From(p.baseImage)
    && (forall k :: 0 <= k < |positions| ==> WrittenAs(lib, nodes[positions[k]], p.instructions[k + 1]))
    && forall j: nat, i :: j < |nodes| && WrittenAs(lib, nodes[j], i) ==> j in positions
  }

  /** Neither an instruction nor nothing. */
  ghost predicate Unreadable(lib: Text, node: Node) {
    !AsksNothing(lib, node) && forall i :: !WrittenAs(lib, node, i)
  }

  /** The refusal of the FROM line, if it is refused, and then those of the nodes that can
      not be read, in node order. */
  ghost predicate RefusalsRead(lib: Text, nodes: seq<Node>, own: seq<Unsupported>, positions: seq<nat>, p: Parsed) {
    && Ascending(positions, |nodes|) && |p.unsupported| == |own| + |positions| && own <= p.unsupported
    && (forall k :: 0 <= k < |positions| ==> p.unsupported[|own| + k] == RefusalOf(lib, nodes[positions[k]]))
    && forall j: nat :: j < |nodes| ==> (j in positions <==> Unreadable(lib, nodes[j]))
  }

  ghost predicate FromRead(lib: Text, value: string, image: string, own: seq<Unsupported>) {
    && FirstPath(if lib.split(value).Some? then lib.split(value).value else [], image)
    && own == if FromSupported(lib, value, image) then [] else [Unsupported("FROM", value, UnsupportedSyntax)]
  }

  lemma EmittedRead(lib: Text, nodes: seq<Node>, p: Parsed) returns (positions: seq<nat>)
    requires Sound(lib) && p.instructions == [From(p.baseImage)] + Taken(nodes, Emits(lib))
    ensures InstructionsRead(lib, nodes, positions, p)
  {
    var emits := Emits(lib);
    positions := TakenInOrder(nodes, emits);
    forall k | 0 <= k < |positions| ensures WrittenAs(lib, nodes[positions[k]], p.instructions[k + 1]) {
      assert emits(nodes[positions[k]]) == Some(p.instructions[k + 1]);
      NodeExactly(lib, nodes[positions[k]], p.instructions[k + 1]);
    }
    forall j: nat, i | j < |nodes| && WrittenAs(lib, nodes[j], i) ensures j in positions {
      NodeExactly(lib, nodes[j], i);
      assert emits(nodes[j]).Some?;
    }
  }

  lemma RefusedRead(lib: Text, nodes: seq<Node>, own: seq<Unsupported>, p: Parsed) returns (positions: seq<nat>)
    requires Sound(lib) && p.unsupported == own + Taken(nodes, Refuses(lib))
    ensures RefusalsRead(lib, nodes, own, positions, p)
  {
    var refuses := Refuses(lib);
    positions := TakenInOrder(nodes, refuses);
    forall k | 0 <= k < |positions| ensures p.unsupported[|own| + k] == RefusalOf(lib, nodes[positions[k]]) {
      assert refuses(nodes[positions[k]]) == Some(p.unsupported[|own| + k]);
      UnreadableExactly(lib, nodes[positions[k]]);
    }
    forall j: nat | j < |nodes| ensures j in positions <==> Unreadable(lib, nodes[j]) {
      UnreadableExactly(lib, nodes[j]);
      if j in positions {
        var k :| 0 <= k < |positions| && positions[k] == j;
        assert refuses(nodes[positions[k]]).Some?;
      }
      assert refuses(nodes[j]).Some? ==> j in positions;
    }
  }

  lemma UnreadableExactly(lib: Text, node: Node)
    requires Sound(lib)
    ensures Refuses(lib)(node) == if Unreadable(lib, node) then Some(RefusalOf(lib, node)) else None
  {
    var r := ParseNode(lib, node);
    forall i ensures r == Emit(i) <==> WrittenAs(lib, node, i) { NodeExactly(lib, node, i); }
    NodeExactly(lib, node, if r.Emit? then r.instruction else From(""));
  }

  /** A parse that succeeds reads the file: there is one FROM line, the base image is its
      first argument that is no flag, and instructions and refusals are those of the
      nodes' texts, in their order. */
  lemma ParsedReads(lib: Text, nodes: seq<Node>, strict: bool)
      returns (at: nat, own: seq<Unsupported>, emitted: seq<nat>, refused: seq<nat>)
    requires Sound(lib) && Parse(lib, nodes, strict).Success?
    ensures OnlyFrom(nodes, at)
    ensures var p := Parse(lib, nodes, strict).parsed;
            && FromRead(lib, nodes[at].value, p.baseImage, own)
            && InstructionsRead(lib, nodes, emitted, p)
            && RefusalsRead(lib, nodes, own, refused, p)
  {
    FromsExactly(nodes);
    at :| OnlyFrom(nodes, at);
    var (image, refusal) := ParseFrom(lib, nodes[at].value);
    FromExactly(lib, nodes[at].value);
    own := if refusal.Some? then [refusal.value] else [];
    var p := NodesAdd(lib, nodes, StartState(image, own), strict);
    emitted := EmittedRead(lib, nodes, p);
    refused := RefusedRead(lib, nodes, own, p);
  }

  /** In diagnostic mode a file is refused as a whole only for its FROM lines: when it has
      none, or more than one. */
  lemma ParseFails(lib: Text, nodes: seq<Node>)
    requires Sound(lib)
    ensures Parse(lib, nodes, false).Success? <==> exists at: nat :: OnlyFrom(nodes, at)
    ensures Parse(lib, nodes, false).ParseError? ==>
              Parse(lib, nodes, false).reason == if NoFromLine(nodes) then NoFrom else MultiStage
  {
    FromsExactly(nodes);
    var froms := Froms(nodes);
    if |froms| == 1 {
      var (image, refusal) := ParseFrom(lib, froms[0].value);
      NodesStrictly(lib, nodes, StartState(image, if refusal.Some? then [refusal.value] else []));
    }
  }

  // ---------------------------------------------------------------------
  // check_direct_launch
  // ---------------------------------------------------------------------

  /** One supported FROM line, and nothing else that can not be read. */
  ghost predicate Launchable(lib: Text, nodes: seq<Node>, image: string) {
    && (exists at: nat :: OnlyFrom(nodes, at) && FromSupported(lib, nodes[at].value, image))
    && forall j: nat :: j < |nodes| ==> !Unreadable(lib, nodes[j])
  }

  /** The node runs a command or copies files. */
  ghost predicate Builds(lib: Text, node: Node) {
    exists i: Instruction :: WrittenAs(lib, node, i) && (i.Run? || i.Copy?)
  }

  /** In either mode the verdict is that of the file's text, with its image; and whether
      there is something to build is told from the nodes. */
  lemma LaunchableExactly(lib: Text, nodes: seq<Node>, strict: bool)
    requires Sound(lib)
    ensures var r := CheckDirectLaunch(lib, nodes, strict);
            && (r.launchable <==> exists image :: Launchable(lib, nodes, image))
            && (forall image :: Launchable(lib, nodes, image) ==> r.baseImage == Some(image))
            && (r.launchable ==> (r.hasBuild <==> exists j: nat :: j < |nodes| && Builds(lib, nodes[j])))
  {
    CheckModesAgree(lib, nodes);
    if strict && CheckDirectLaunch(lib, nodes, false).launchable {
      assert CheckDirectLaunch(lib, nodes, true) == CheckDirectLaunch(lib, nodes, false);
    }
    ParseFails(lib, nodes);
    if Parse(lib, nodes, false).Success? {
      var at, own, emitted, refused := ParsedReads(lib, nodes, false);
      LaunchableParse(lib, nodes, Parse(lib, nodes, false).parsed, at, own, refused);
      BuildsParse(lib, nodes, Parse(lib, nodes, false).parsed, emitted);
    }
  }

  lemma LaunchableParse(lib: Text, nodes: seq<Node>, p: Parsed, at: nat, own: seq<Unsupported>, refused: seq<nat>)
    requires OnlyFrom(nodes, at) && FromRead(lib, nodes[at].value, p.baseImage, own) && RefusalsRead(lib, nodes, own, refused, p)
    ensures p.unsupported == [] <==> exists image :: Launchable(lib, nodes, image)
    ensures forall image :: Launchable(lib, nodes, image) ==> image == p.baseImage
  {
    if refused != [] {
      assert refused[0] in refused;
      assert Unreadable(lib, nodes[refused[0]]);
    }
    forall image | Launchable(lib, nodes, image) ensures image == p.baseImage && p.unsupported == [] {
      var other: nat :| OnlyFrom(nodes, other) && FromSupported(lib, nodes[other].value, image);
      assert other == at;
    }
    if p.unsupported == [] {
      assert own == [] && refused == [];
      assert Launchable(lib, nodes, p.baseImage);
    }
  }

  lemma BuildsParse(lib: Text, nodes: seq<Node>, p: Parsed, emitted: seq<nat>)
    requires InstructionsRead(lib, nodes, emitted, p)
    ensures (exists i :: 0 <= i < |p.instructions| && (p.instructions[i].Run? || p.instructions[i].Copy?)) <==>
            exists j: nat :: j < |nodes| && Builds(lib, nodes[j])
  {
    if i :| 0 <= i < |p.instructions| && (p.instructions[i].Run? || p.instructions[i].Copy?) {
      assert WrittenAs(lib, nodes[emitted[i - 1]], p.instructions[i]);
      assert Builds(lib, nodes[emitted[i - 1]]);
    }
    if j: nat :| j < |nodes| && Builds(lib, nodes[j]) {
      var instruction: Instruction :| WrittenAs(lib, nodes[j], instruction) && (instruction.Run? || instruction.Copy?);
      var k :| 0 <= k < |emitted| && emitted[k] == j;
      WrittenKind(lib, nodes[j], instruction, p.instructions[k + 1]);
    }
  }

  /** One text asks for one kind of instruction. */
  lemma WrittenKind(lib: Text, node: Node, a: Instruction, b: Instruction)
    requires WrittenAs(lib, node, a) && WrittenAs(lib, node, b)
    ensures a.Run? <==> b.Run?
    ensures a.Copy? <==> b.Copy?
  {
  }
}
