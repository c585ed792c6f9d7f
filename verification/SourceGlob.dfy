/** COPY source patterns: the segment compiler, its printer, and the greedy
    backtracking matcher proved against the declarative glob meaning. */
module SourceGlob {
  import opened Paths
  import opened Sequences
  import opened CharacterClasses

  /** A character of the pattern, where '*' and '?' are wildcards, or a class. */
  datatype GlobToken = Ch(c: char) | Cls(cls: CharClass)

  type Glob = seq<GlobToken>

  const STAR := Ch('*')

  /** The token accepts one character. '*' is not such a token. */
  predicate AcceptsOne(token: GlobToken, c: char) {
    match token
    case Ch(d) => d == '?' || d == c
    case Cls(cls) => cls.Matches(c)
  }

  // ---------------------------------------------------------------------
  // Meaning
  // ---------------------------------------------------------------------

  /** '*' stands for any run, every other token for one character it accepts. */
  ghost predicate GlobMatch(pattern: Glob, s: string) {
    if pattern == [] then s == ""
    else if pattern[0] == STAR then exists k :: 0 <= k <= |s| && GlobMatch(pattern[1..], s[k..])
    else s != "" && AcceptsOne(pattern[0], s[0]) && GlobMatch(pattern[1..], s[1..])
  }

  predicate StarFree(pattern: Glob) {
    forall k :: 0 <= k < |pattern| ==> pattern[k] != STAR
  }

  /** A star absorbs any text in front of a match. */
  lemma StarAbsorbs(pattern: Glob, s: string, i: nat)
    requires i <= |s| && pattern != [] && pattern[0] == STAR && GlobMatch(pattern, s[i..])
    ensures GlobMatch(pattern, s)
  {
    var k :| 0 <= k <= |s[i..]| && GlobMatch(pattern[1..], s[i..][k..]);
    assert s[i..][k..] == s[i + k..];
  }

  /** A star-free run of tokens consumes exactly as many characters. */
  lemma {:induction false} StarFreeRun(front: Glob, back: Glob, s: string)
    requires StarFree(front) && GlobMatch(front + back, s)
    ensures |front| <= |s| && GlobMatch(back, s[|front|..])
  {
    if front == [] {
      assert front + back == back;
    } else {
      assert (front + back)[1..] == front[1..] + back;
      StarFreeRun(front[1..], back, s[1..]);
      assert s[1..][|front| - 1..] == s[|front|..];
    }
  }

  lemma {:induction false} OnlyStarsMatchEmpty(pattern: Glob)
    ensures GlobMatch(pattern, "") <==> forall k :: 0 <= k < |pattern| ==> pattern[k] == STAR
  {
    if pattern != [] {
      OnlyStarsMatchEmpty(pattern[1..]);
      assert ""[0..] == "";
      if pattern[0] == STAR {
        assert GlobMatch(pattern, "") <==> GlobMatch(pattern[1..], "");
      }
    }
  }

  // ---------------------------------------------------------------------
  // _glob_segment_matches
  // ---------------------------------------------------------------------

  /** Giving the last star one more start position: the pattern after it, matched
      somewhere strictly to the right of the current start. */
  ghost predicate Later(pattern: Glob, path: string, star: nat, start: nat)
    requires star < |pattern| && start <= |path|
  {
    exists k :: start < k <= |path| && GlobMatch(pattern[star + 1..], path[k..])
  }

  /** When a new star is reached, restarting the previous one cannot help. */
  lemma NewStarSubsumes(pattern: Glob, path: string, star: nat, start: nat, p: nat, i: nat)
    requires star < p < |pattern| && start <= i <= |path| && pattern[p] == STAR
    requires StarFree(pattern[star + 1..p]) && i - start == p - (star + 1)
    requires Later(pattern, path, star, start)
    ensures GlobMatch(pattern[p..], path[i..])
  {
    var k :| start < k <= |path| && GlobMatch(pattern[star + 1..], path[k..]);
    var run := pattern[star + 1..p];
    assert pattern[star + 1..] == run + pattern[p..];
    StarFreeRun(run, pattern[p..], path[k..]);
    assert path[k..][|run|..] == path[i..][k - start..];
    StarAbsorbs(pattern[p..], path[i..], k - start);
  }

  /** Advancing the restart position by one unfolds `Later`. */
  lemma LaterStep(pattern: Glob, path: string, star: nat, start: nat)
    requires star < |pattern| && start < |path|
    ensures Later(pattern, path, star, start) <==>
            GlobMatch(pattern[star + 1..], path[start + 1..]) || Later(pattern, path, star, start + 1)
  {
  }

  lemma StarUnfolds(pattern: Glob, path: string, p: nat, i: nat)
    requires p < |pattern| && i <= |path| && pattern[p] == STAR
    ensures GlobMatch(pattern[p..], path[i..]) <==>
            GlobMatch(pattern[p + 1..], path[i..]) || Later(pattern, path, p, i)
  {
    assert pattern[p..][1..] == pattern[p + 1..];
    forall k | 0 <= k <= |path| - i ensures path[i..][k..] == path[i + k..] {
    }
    if GlobMatch(pattern[p + 1..], path[i..]) {
      assert path[i..][0..] == path[i..];
    }
    if Later(pattern, path, p, i) {
      var k :| i < k <= |path| && GlobMatch(pattern[p + 1..], path[k..]);
      assert path[i..][k - i..] == path[k..];
    }
  }

  lemma TokenUnfolds(pattern: Glob, path: string, p: nat, i: nat)
    requires p < |pattern| && i < |path| && pattern[p] != STAR
    ensures GlobMatch(pattern[p..], path[i..]) <==>
            AcceptsOne(pattern[p], path[i]) && GlobMatch(pattern[p + 1..], path[i + 1..])
  {
    assert pattern[p..][1..] == pattern[p + 1..] && path[i..][1..] == path[i + 1..];
  }

  /** The matcher's position: a remembered star, where its run starts again, and how
      far pattern and path have been matched in step since. */
  datatype Position = Position(star: int, start: nat, p: nat, i: nat) {
    ghost predicate Valid(pattern: Glob, path: string) {
      && p <= |pattern| && i <= |path| && start <= |path| && -1 <= star < |pattern|
      && (star >= 0 ==>
            && star < p && start <= i && i - start == p - (star + 1)
            && pattern[star] == STAR && StarFree(pattern[star + 1..p]))
    }

    /** The text still matches from here, or from a later restart. */
    ghost predicate Matches(pattern: Glob, path: string)
      requires Valid(pattern, path)
    {
      GlobMatch(pattern[p..], path[i..]) || (star >= 0 && Later(pattern, path, star, start))
    }
  }

  lemma OnStar(pattern: Glob, path: string, at: Position) returns (next: Position)
    requires at.Valid(pattern, path) && at.p < |pattern| && pattern[at.p] == STAR
    ensures next == Position(at.p, at.i, at.p + 1, at.i)
    ensures next.Valid(pattern, path) && (next.Matches(pattern, path) <==> at.Matches(pattern, path))
  {
    next := Position(at.p, at.i, at.p + 1, at.i);
    StarUnfolds(pattern, path, at.p, at.i);
    if at.star >= 0 && Later(pattern, path, at.star, at.start) {
      NewStarSubsumes(pattern, path, at.star, at.start, at.p, at.i);
    }
    assert pattern[at.p + 1..at.p + 1] == [];
  }

  lemma RunGrows(pattern: Glob, from: nat, to: nat)
    requires from <= to < |pattern| && StarFree(pattern[from..to]) && pattern[to] != STAR
    ensures StarFree(pattern[from..to + 1])
  {
    assert pattern[from..to + 1] == pattern[from..to] + [pattern[to]];
  }

  lemma OnAccept(pattern: Glob, path: string, at: Position) returns (next: Position)
    requires at.Valid(pattern, path) && at.p < |pattern| && at.i < |path|
    requires pattern[at.p] != STAR && AcceptsOne(pattern[at.p], path[at.i])
    ensures next == Position(at.star, at.start, at.p + 1, at.i + 1)
    ensures next.Valid(pattern, path) && (next.Matches(pattern, path) <==> at.Matches(pattern, path))
  {
    next := Position(at.star, at.start, at.p + 1, at.i + 1);
    TokenUnfolds(pattern, path, at.p, at.i);
    if at.star >= 0 {
      RunGrows(pattern, at.star + 1, at.p);
    }
  }

  lemma OnMismatch(pattern: Glob, path: string, at: Position)
    requires at.Valid(pattern, path) && at.i < |path|
    requires at.p < |pattern| ==> pattern[at.p] != STAR && !AcceptsOne(pattern[at.p], path[at.i])
    ensures !GlobMatch(pattern[at.p..], path[at.i..])
    ensures at.star < 0 ==> !at.Matches(pattern, path)
  {
    if at.p < |pattern| { TokenUnfolds(pattern, path, at.p, at.i); }
  }

  /** After a mismatch the last star's run starts again one character further. */
  lemma OnRestart(pattern: Glob, path: string, at: Position) returns (next: Position)
    requires at.Valid(pattern, path) && at.i < |path| && at.star >= 0
    requires !GlobMatch(pattern[at.p..], path[at.i..])
    ensures next == Position(at.star, at.start + 1, at.star + 1, at.start + 1)
    ensures next.Valid(pattern, path) && (next.Matches(pattern, path) <==> at.Matches(pattern, path))
  {
    next := Position(at.star, at.start + 1, at.star + 1, at.start + 1);
    LaterStep(pattern, path, at.star, at.start);
    assert pattern[at.star + 1..at.star + 1] == [];
  }

  lemma AtPathEnd(pattern: Glob, path: string, at: Position)
    requires at.Valid(pattern, path) && at.i == |path|
    ensures at.Matches(pattern, path) <==> forall k :: at.p <= k < |pattern| ==> pattern[k] == STAR
  {
    var rest := pattern[at.p..];
    assert path[at.i..] == "";
    OnlyStarsMatchEmpty(rest);
    assert forall k :: at.p <= k < |pattern| ==> pattern[k] == rest[k - at.p];
    assert forall k :: 0 <= k < |rest| ==> rest[k] == pattern[at.p + k];
    if at.star >= 0 {
      LaterAtEnd(pattern, path, at.star, at.start, at.p);
    }
  }

  lemma AtBeginning(pattern: Glob, path: string) returns (at: Position)
    ensures at == Position(-1, 0, 0, 0) && at.Valid(pattern, path)
    ensures at.Matches(pattern, path) <==> GlobMatch(pattern, path)
  {
    at := Position(-1, 0, 0, 0);
    assert pattern[0..] == pattern && path[0..] == path;
  }

  /** Greedy matching with one remembered star decides the declarative meaning, and
      terminates: each step advances the star, or its restart, or the path. */
  method GlobSegmentMatches(pattern: Glob, path: string) returns (matched: bool)
    ensures matched <==> GlobMatch(pattern, path)
  {
    var patternIndex, pathIndex := 0, 0;
    var starIndex, starPathIndex := -1, 0;
    ghost var at := AtBeginning(pattern, path);
    while pathIndex < |path|
      invariant 0 <= starPathIndex && 0 <= patternIndex && 0 <= pathIndex
      invariant at == Position(starIndex, starPathIndex, patternIndex, pathIndex)
      invariant at.Valid(pattern, path) && (at.Matches(pattern, path) <==> GlobMatch(pattern, path))
      decreases |pattern| - starIndex, |path| - starPathIndex, |path| - pathIndex
    {
      if patternIndex < |pattern| {
        var token := pattern[patternIndex];
        if token == STAR {
          at := OnStar(pattern, path, at);
          starIndex := patternIndex;
          starPathIndex := pathIndex;
          patternIndex := patternIndex + 1;
          continue;
        }
        if AcceptsOne(token, path[pathIndex]) {
          at := OnAccept(pattern, path, at);
          patternIndex := patternIndex + 1;
          pathIndex := pathIndex + 1;
          continue;
        }
      }
      OnMismatch(pattern, path, at);
      if starIndex < 0 {
        return false;
      }
      at := OnRestart(pattern, path, at);
      starPathIndex := starPathIndex + 1;
      pathIndex := starPathIndex;
      patternIndex := starIndex + 1;
    }
    AtPathEnd(pattern, path, at);
    matched := forall k :: patternIndex <= k < |pattern| ==> pattern[k] == STAR;
  }

  /** At the end of the path no restart leaves room for the tokens after the star. */
  lemma LaterAtEnd(pattern: Glob, path: string, star: nat, start: nat, p: nat)
    requires star < p <= |pattern| && start <= |path|
    requires StarFree(pattern[star + 1..p]) && |path| - start == p - (star + 1)
    ensures !Later(pattern, path, star, start)
  {
    if Later(pattern, path, star, start) {
      var k :| start < k <= |path| && GlobMatch(pattern[star + 1..], path[k..]);
      var run := pattern[star + 1..p];
      assert pattern[star + 1..] == run + pattern[p..];
      StarFreeRun(run, pattern[p..], path[k..]);
      assert false;
    }
  }

  // ---------------------------------------------------------------------
  // Whole paths, one segment at a time
  // ---------------------------------------------------------------------

  ghost predicate PathMatches(pattern: seq<Glob>, path: string) {
    && |pattern| == |Split(path)|
    && forall k :: 0 <= k < |pattern| ==> GlobMatch(pattern[k], Split(path)[k])
  }

  method GlobMatches(pattern: seq<Glob>, path: string) returns (matched: bool)
    ensures matched <==> PathMatches(pattern, path)
  {
    var segments := Split(path);
    if |pattern| != |segments| {
      return false;
    }
    for k := 0 to |segments|
      invariant forall l :: 0 <= l < k ==> GlobMatch(pattern[l], segments[l])
    {
      var m := GlobSegmentMatches(pattern[k], segments[k]);
      if !m {
        return false;
      }
    }
    matched := true;
  }

  // ---------------------------------------------------------------------
  // The segment compiler
  // ---------------------------------------------------------------------

  datatype Parsed<T> = Ok(value: T, next: nat) | MalformedPattern

  /** The ranges of a class from an index on, up to the closing bracket. */
  function ParseRanges(segment: string, index: nat, ranges: seq<(char, char)>): (r: Parsed<seq<(char, char)>>)
    requires index <= |segment|
    ensures r.Ok? ==> index < r.next <= |segment| && segment[r.next - 1] == ']' && |r.value| >= 1
    decreases |segment| - index
  {
    if index >= |segment| then MalformedPattern
    else if segment[index] == ']' then if ranges == [] then MalformedPattern else Ok(ranges, index + 1)
    else if segment[index] == '-' then MalformedPattern
    else if index + 1 < |segment| && segment[index + 1] == '-' then
      if index + 2 >= |segment| || segment[index + 2] == '-' || segment[index + 2] == ']' then MalformedPattern
      else ParseRanges(segment, index + 3, ranges + [(segment[index], segment[index + 2])])
    else ParseRanges(segment, index + 1, ranges + [(segment[index], segment[index])])
  }

  function ParseClass(segment: string, index: nat): (r: Parsed<CharClass>)
    requires index < |segment|
    ensures r.Ok? ==> index + 1 < r.next <= |segment| && segment[r.next - 1] == ']' && |r.value.ranges| >= 1
  {
    var negated := index + 1 < |segment| && segment[index + 1] == '^';
    match ParseRanges(segment, if negated then index + 2 else index + 1, [])
    case MalformedPattern => MalformedPattern
    case Ok(ranges, next) => Ok(CharClass(negated, ranges), next)
  }

  function CompileFrom(segment: string, index: nat, tokens: Glob): (r: Parsed<Glob>)
    requires index <= |segment|
    decreases |segment| - index
  {
    if index == |segment| then Ok(tokens, index)
    else if segment[index] == '[' then
      match ParseClass(segment, index)
      case MalformedPattern => MalformedPattern
      case Ok(cls, next) => CompileFrom(segment, next, tokens + [Cls(cls)])
    else CompileFrom(segment, index + 1, tokens + [Ch(segment[index])])
  }

  /** Every successful class parse advances, ends just past a ']', and has a range. */
  method ParseCharacterClass(segment: string, start: nat) returns (r: Parsed<CharClass>)
    requires start < |segment|
    ensures r == ParseClass(segment, start)
    ensures r.Ok? ==> start + 1 < r.next <= |segment| && segment[r.next - 1] == ']' && |r.value.ranges| >= 1
  {
    var index := start + 1;
    var negated := index < |segment| && segment[index] == '^';
    if negated {
      index := index + 1;
    }
    ghost var first := index;
    var ranges: seq<(char, char)> := [];
    while true
      invariant first <= index <= |segment|
      invariant ParseRanges(segment, first, []) == ParseRanges(segment, index, ranges)
      decreases |segment| - index
    {
      if index >= |segment| {
        return MalformedPattern;
      }
      if segment[index] == ']' {
        if ranges == [] {
          return MalformedPattern;
        }
        return Ok(CharClass(negated, ranges), index + 1);
      }
      var low := segment[index];
      if low == '-' {
        return MalformedPattern;
      }
      index := index + 1;
      var high := low;
      if index < |segment| && segment[index] == '-' {
        index := index + 1;
        if index >= |segment| || segment[index] == '-' || segment[index] == ']' {
          return MalformedPattern;
        }
        high := segment[index];
        index := index + 1;
      }
      ranges := ranges + [(low, high)];
    }
  }

  method CompileGlobSegment(segment: string) returns (r: Parsed<Glob>)
    ensures r == CompileFrom(segment, 0, [])
  {
    var tokens: Glob := [];
    var index := 0;
    while index < |segment|
      invariant index <= |segment|
      invariant CompileFrom(segment, 0, []) == CompileFrom(segment, index, tokens)
    {
      if segment[index] == '[' {
        var cls := ParseCharacterClass(segment, index);
        if cls.MalformedPattern? {
          return MalformedPattern;
        }
        tokens, index := tokens + [Cls(cls.value)], cls.next;
        continue;
      }
      tokens := tokens + [Ch(segment[index])];
      index := index + 1;
    }
    return Ok(tokens, index);
  }

  // ---------------------------------------------------------------------
  // Round trip
  // ---------------------------------------------------------------------

  function PrintRange(range: (char, char)): string {
    if range.0 == range.1 then [range.0] else [range.0, '-', range.1]
  }

  function PrintRanges(ranges: seq<(char, char)>): string {
    if ranges == [] then "" else PrintRange(ranges[0]) + PrintRanges(ranges[1..])
  }

  function PrintToken(token: GlobToken): string {
    match token
    case Ch(c) => [c]
    case Cls(cls) => "[" + (if cls.negated then "^" else "") + PrintRanges(cls.ranges) + "]"
  }

  function PrintGlob(tokens: Glob): string {
    if tokens == [] then "" else PrintToken(tokens[0]) + PrintGlob(tokens[1..])
  }

  predicate PrintableRange(range: (char, char)) {
    && range.0 != '-' && range.0 != ']'
    && (range.0 != range.1 ==> range.1 != '-' && range.1 != ']')
  }

  predicate AllPrintable(ranges: seq<(char, char)>) {
    forall k :: 0 <= k < |ranges| ==> PrintableRange(ranges[k])
  }

  predicate PrintableToken(token: GlobToken) {
    match token
    case Ch(c) => c != '['
    case Cls(cls) =>
      && cls.ranges != [] && AllPrintable(cls.ranges)
      && (!cls.negated ==> cls.ranges[0].0 != '^')
  }

  predicate Printable(tokens: Glob) {
    forall k :: 0 <= k < |tokens| ==> PrintableToken(tokens[k])
  }

  /** One printed range, not followed by a dash, is read back. */
  lemma RangeReadBack(segment: string, index: nat, done: seq<(char, char)>, range: (char, char))
      returns (next: nat, after: seq<(char, char)>)
    requires PrintableRange(range) && At(segment, index, PrintRange(range))
    requires index + |PrintRange(range)| < |segment| && segment[index + |PrintRange(range)|] != '-'
    ensures next == index + |PrintRange(range)| && after == done + [range]
    ensures ParseRanges(segment, index, done) == ParseRanges(segment, next, after)
  {
    var text := PrintRange(range);
    next := index + |text|;
    after := done + [range];
    AtChar(segment, index, text, 0);
    if range.0 != range.1 {
      AtChar(segment, index, text, 1);
      AtChar(segment, index, text, 2);
    }
  }

  lemma RangesHead(segment: string, index: nat, done: seq<(char, char)>, ranges: seq<(char, char)>)
      returns (next: nat, after: seq<(char, char)>, rest: seq<(char, char)>)
    requires ranges != [] && AllPrintable(ranges)
    requires At(segment, index, PrintRanges(ranges) + "]")
    ensures rest == ranges[1..] && AllPrintable(rest)
    ensures after != [] && after + rest == done + ranges
    ensures next + |PrintRanges(rest)| == index + |PrintRanges(ranges)|
    ensures At(segment, next, PrintRanges(rest) + "]")
    ensures ParseRanges(segment, index, done) == ParseRanges(segment, next, after)
  {
    rest := ranges[1..];
    var head, tail := PrintRange(ranges[0]), PrintRanges(rest) + "]";
    assert PrintRanges(ranges) + "]" == head + tail;
    AtSplit(segment, index, head, tail);
    RestStartsPlain(rest);
    next, after := RangeReadBack(segment, index, done, ranges[0]);
    MoveHead(done, ranges);
  }

  lemma RangesEnd(segment: string, index: nat, done: seq<(char, char)>, ranges: seq<(char, char)>)
    requires ranges == [] && done != [] && At(segment, index, PrintRanges(ranges) + "]")
    ensures done + ranges == done
    ensures ParseRanges(segment, index, done) == Ok(done, index + |PrintRanges(ranges)| + 1)
  {
    AtSplit(segment, index, "", "]");
  }

  /** Printed ranges, wherever they stand, are read back as they were. */
  lemma {:induction false} RangesReadBack(segment: string, index: nat, done: seq<(char, char)>, ranges: seq<(char, char)>)
      returns (all: seq<(char, char)>)
    requires done + ranges != [] && AllPrintable(ranges)
    requires At(segment, index, PrintRanges(ranges) + "]")
    ensures all == done + ranges
    ensures ParseRanges(segment, index, done) == Ok(all, index + |PrintRanges(ranges)| + 1)
    decreases |ranges|
  {
    if ranges == [] {
      RangesEnd(segment, index, done, ranges);
      all := done;
    } else {
      var next, after, rest := RangesHead(segment, index, done, ranges);
      all := RangesReadBack(segment, next, after, rest);
    }
  }

  lemma RestStartsPlain(ranges: seq<(char, char)>)
    requires AllPrintable(ranges)
    ensures (PrintRanges(ranges) + "]")[0] != '-'
    ensures ranges != [] ==> (PrintRanges(ranges) + "]")[0] == ranges[0].0
  {
    assert ranges != [] ==> PrintableRange(ranges[0]);
  }

  /** The opening of a printed class tells whether it is negated. */
  lemma ClassOpening(segment: string, index: nat, cls: CharClass) returns (start: nat)
    requires PrintableToken(Cls(cls)) && At(segment, index, PrintToken(Cls(cls)))
    ensures index < |segment| && segment[index] == '['
    ensures cls.negated <==> index + 1 < |segment| && segment[index + 1] == '^'
    ensures start == if cls.negated then index + 2 else index + 1
    ensures At(segment, start, PrintRanges(cls.ranges) + "]")
    ensures start + |PrintRanges(cls.ranges)| + 1 == index + |PrintToken(Cls(cls))|
  {
    var body := PrintRanges(cls.ranges) + "]";
    var open := if cls.negated then "[^" else "[";
    assert PrintToken(Cls(cls)) == open + body;
    AtSplit(segment, index, open, body);
    start := index + |open|;
    RestStartsPlain(cls.ranges);
    AtChar(segment, index, open, |open| - 1);
  }

  lemma ClassReadBack(segment: string, index: nat, cls: CharClass) returns (next: nat)
    requires PrintableToken(Cls(cls)) && At(segment, index, PrintToken(Cls(cls)))
    ensures next == index + |PrintToken(Cls(cls))|
    ensures index < |segment| && segment[index] == '['
    ensures ParseClass(segment, index) == Ok(cls, next)
  {
    var start := ClassOpening(segment, index, cls);
    var all := RangesReadBack(segment, start, [], cls.ranges);
    assert all == cls.ranges;
    next := index + |PrintToken(Cls(cls))|;
  }

  /** The compiler reads one printed token. */
  lemma TokenReadBack(segment: string, index: nat, done: Glob, token: GlobToken, next: nat, after: Glob)
    requires PrintableToken(token) && At(segment, index, PrintToken(token))
    requires next == index + |PrintToken(token)| && after == done + [token]
    ensures CompileFrom(segment, index, done) == CompileFrom(segment, next, after)
  {
    if token.Cls? {
      var end := ClassReadBack(segment, index, token.cls);
    } else {
      AtChar(segment, index, PrintToken(token), 0);
    }
  }

  lemma CompileEnd(segment: string, index: nat, done: Glob)
    requires index == |segment|
    ensures done + [] == done
    ensures CompileFrom(segment, index, done) == Ok(done, index)
  {
  }

  lemma PrintableTail(tokens: Glob)
    requires tokens != [] && Printable(tokens)
    ensures PrintableToken(tokens[0]) && Printable(tokens[1..])
  {
  }

  lemma PrintHead(segment: string, index: nat, tokens: Glob) returns (middle: nat, rest: Glob)
    requires tokens != []
    requires At(segment, index, PrintGlob(tokens)) && index + |PrintGlob(tokens)| == |segment|
    ensures rest == tokens[1..]
    ensures At(segment, index, PrintToken(tokens[0])) && middle == index + |PrintToken(tokens[0])|
    ensures At(segment, middle, PrintGlob(rest)) && middle + |PrintGlob(rest)| == |segment|
  {
    rest := tokens[1..];
    middle := AtPieces(segment, index, PrintGlob(tokens), PrintToken(tokens[0]), PrintGlob(rest));
  }

  lemma TokensHead(segment: string, index: nat, done: Glob, tokens: Glob) returns (next: nat, after: Glob, rest: Glob)
    requires tokens != [] && Printable(tokens)
    requires At(segment, index, PrintGlob(tokens)) && index + |PrintGlob(tokens)| == |segment|
    ensures rest == tokens[1..] && Printable(rest)
    ensures after + rest == done + tokens
    ensures At(segment, next, PrintGlob(rest)) && next + |PrintGlob(rest)| == |segment|
    ensures CompileFrom(segment, index, done) == CompileFrom(segment, next, after)
  {
    next, rest := PrintHead(segment, index, tokens);
    PrintableTail(tokens);
    after := done + [tokens[0]];
    TokenReadBack(segment, index, done, tokens[0], next, after);
    MoveHead(done, tokens);
  }

  lemma {:induction false} TokensReadBack(segment: string, index: nat, done: Glob, tokens: Glob) returns (all: Glob)
    requires Printable(tokens)
    requires At(segment, index, PrintGlob(tokens)) && index + |PrintGlob(tokens)| == |segment|
    ensures all == done + tokens
    ensures CompileFrom(segment, index, done) == Ok(all, |segment|)
    decreases |tokens|
  {
    if tokens == [] {
      CompileEnd(segment, index, done);
      all := done;
    } else {
      var next, after, rest := TokensHead(segment, index, done, tokens);
      all := TokensReadBack(segment, next, after, rest);
    }
  }

  /** Printing well-formed tokens and compiling the text gives the tokens back. */
  lemma CompilePrint(tokens: Glob)
    requires Printable(tokens)
    ensures CompileFrom(PrintGlob(tokens), 0, []) == Ok(tokens, |PrintGlob(tokens)|)
  {
    var all := TokensReadBack(PrintGlob(tokens), 0, [], tokens);
    assert all == tokens;
  }

  lemma {:induction false} ParsedRangesPrintable(segment: string, index: nat, done: seq<(char, char)>)
    requires index <= |segment| && ParseRanges(segment, index, done).Ok?
    requires AllPrintable(done)
    ensures var r := ParseRanges(segment, index, done).value;
            && AllPrintable(r)
            && (if done != [] then r[0] == done[0] else r[0].0 == segment[index])
    decreases |segment| - index
  {
    if segment[index] != ']' {
      if index + 1 < |segment| && segment[index + 1] == '-' {
        ParsedRangesPrintable(segment, index + 3, done + [(segment[index], segment[index + 2])]);
      } else {
        ParsedRangesPrintable(segment, index + 1, done + [(segment[index], segment[index])]);
      }
    }
  }

  /** Conversely the compiler produces well-formed tokens only, so they print to a
      pattern with the same meaning. */
  lemma {:induction false} CompiledPrintable(segment: string, index: nat, done: Glob)
    requires index <= |segment| && Printable(done) && CompileFrom(segment, index, done).Ok?
    ensures Printable(CompileFrom(segment, index, done).value)
    decreases |segment| - index
  {
    if index < |segment| {
      if segment[index] == '[' {
        var negated := index + 1 < |segment| && segment[index + 1] == '^';
        ParsedRangesPrintable(segment, if negated then index + 2 else index + 1, []);
        var cls := ParseClass(segment, index);
        assert PrintableToken(Cls(cls.value));
        CompiledPrintable(segment, cls.next, done + [Cls(cls.value)]);
      } else {
        CompiledPrintable(segment, index + 1, done + [Ch(segment[index])]);
      }
    }
  }
}
