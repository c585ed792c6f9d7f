/** The compiler from ignore lines to patterns, and the agreement of its optimised
    match forms with the token matcher. */
module IgnoreCompile {
  import opened Paths
  import opened CharacterClasses
  import opened IgnoreTokens
  import opened IgnorePatterns

  datatype CompileError = Malformed | UnsupportedEscape | UnsupportedClass
  datatype Scanned<T> = Ok(value: T, next: nat) | Err(error: CompileError)

  // ---------------------------------------------------------------------
  // Trimming and cleaning
  // ---------------------------------------------------------------------

  predicate IsSpace(c: char) {
    || '\t' <= c <= '\r' || c == ' ' || c == '\U{85}' || c == '\U{a0}' || c == '\U{1680}'
    || '\U{2000}' <= c <= '\U{200a}' || c == '\U{2028}' || c == '\U{2029}' || c == '\U{202f}'
    || c == '\U{205f}' || c == '\U{3000}'
  }

  function TrimSpace(s: string): string {
    if s == "" then s
    else if IsSpace(s[0]) then TrimSpace(s[1..])
    else if IsSpace(s[|s| - 1]) then TrimSpace(s[..|s| - 1])
    else s
  }

  function StripLeading(s: string): string {
    if s != "" && s[0] == '/' then StripLeading(s[1..]) else s
  }

  /** The Unix filepath.Clean equivalent: normpath with one leading slash at most. */
  function CleanPattern(p: string): string {
    OneLeading(NormPath(p))
  }

  lemma {:induction false} StripLeadingStart(s: string)
    ensures var r := StripLeading(s);
            if AllSlashes(s) then r == "" else r != "" && r[|r| - 1] == s[|s| - 1]
  {
    if s != "" && s[0] == '/' { StripLeadingStart(s[1..]); }
  }

  function OneLeading(n: string): string {
    if |n| >= 2 && n[..2] == "//" then "/" + StripLeading(n) else n
  }

  lemma OneLeadingTrailing(n: string)
    requires n != "" && (n[|n| - 1] == '/' ==> n == "/" || n == "//")
    ensures var c := OneLeading(n); c != "" && (c[|c| - 1] == '/' ==> c == "/")
  {
    StripLeadingStart(n);
  }

  /** Cleaning never leaves a trailing slash, except on the root itself. */
  lemma CleanPatternTrailing(p: string)
    ensures var c := CleanPattern(p); c != "" && (c[|c| - 1] == '/' ==> c == "/")
  {
    NormPathTrailing(p);
    OneLeadingTrailing(NormPath(p));
  }

  // ---------------------------------------------------------------------
  // Character classes
  // ---------------------------------------------------------------------

  /** One literal or escaped character inside a class, and whether it was escaped.
      `alnum` is str.isalnum. */
  function ReadClassCharacter(pattern: string, index: nat, alnum: char -> bool): (r: Scanned<(char, bool)>)
    requires index < |pattern|
    ensures r.Ok? ==> index < r.next <= |pattern|
  {
    var escaped := pattern[index] == '\\';
    var at := if escaped then index + 1 else index;
    if at >= |pattern| then Err(Malformed)
    else
      var c := pattern[at];
      if c == '[' || (escaped && (alnum(c) || c == '_' || c == '/')) then Err(UnsupportedClass)
      else Ok((c, escaped), at + 1)
  }

  /** The next range of a class, after the closing bracket has been ruled out. */
  function ScanRange(pattern: string, index: nat, alnum: char -> bool): (r: Scanned<(char, char)>)
    requires index < |pattern|
    ensures r.Ok? ==> index < r.next <= |pattern|
  {
    match ReadClassCharacter(pattern, index, alnum)
    case Err(e) => Err(e)
    case Ok(low, next) =>
      if low.0 == '-' && !low.1 then Err(Malformed)
      else if next < |pattern| && pattern[next] == '-' then
        if next + 1 >= |pattern| || pattern[next + 1] == ']' then Err(Malformed)
        else
          match ReadClassCharacter(pattern, next + 1, alnum)
          case Err(e) => Err(e)
          case Ok(high, after) => if high.0 < low.0 then Err(Malformed) else Ok((low.0, high.0), after)
      else Ok((low.0, low.0), next)
  }

  function ScanRanges(pattern: string, index: nat, ranges: seq<(char, char)>, alnum: char -> bool)
      : (r: Scanned<seq<(char, char)>>)
    requires index <= |pattern|
    ensures r.Ok? ==> index < r.next <= |pattern|
    decreases |pattern| - index
  {
    if index >= |pattern| || pattern[index] == ']' then
      if index < |pattern| && ranges != [] then Ok(ranges, index + 1) else Err(Malformed)
    else
      match ScanRange(pattern, index, alnum)
      case Err(e) => Err(e)
      case Ok(range, next) => ScanRanges(pattern, next, ranges + [range], alnum)
  }

  function ScanClass(pattern: string, index: nat, alnum: char -> bool): (r: Scanned<CharClass>)
    requires index < |pattern|
    ensures r.Ok? ==> index + 1 < r.next <= |pattern|
  {
    var negated := index + 1 < |pattern| && pattern[index + 1] == '^';
    match ScanRanges(pattern, if negated then index + 2 else index + 1, [], alnum)
    case Err(e) => Err(e)
    case Ok(ranges, next) => Ok(CharClass(negated, ranges), next)
  }

  method CompileIgnoreCharacterClass(pattern: string, start: nat, alnum: char -> bool) returns (r: Scanned<CharClass>)
    requires start < |pattern|
    ensures r == ScanClass(pattern, start, alnum)
  {
    var index := start + 1;
    var negated := index < |pattern| && pattern[index] == '^';
    if negated {
      index := index + 1;
    }
    ghost var first := index;
    var ranges: seq<(char, char)> := [];
    while true
      invariant first <= index <= |pattern|
      invariant ScanRanges(pattern, first, [], alnum) == ScanRanges(pattern, index, ranges, alnum)
      decreases |pattern| - index
    {
      if index >= |pattern| || pattern[index] == ']' {
        if index < |pattern| && ranges != [] {
          return Ok(CharClass(negated, ranges), index + 1);
        }
        return Err(Malformed);
      }
      var l := ReadClassCharacter(pattern, index, alnum);
      if l.Err? {
        return Err(l.error);
      }
      var (low, lowEscaped) := l.value;
      if low == '-' && !lowEscaped {
        return Err(Malformed);
      }
      ghost var from := index;
      index := l.next;
      var high := low;
      if index < |pattern| && pattern[index] == '-' {
        index := index + 1;
        if index >= |pattern| || pattern[index] == ']' {
          return Err(Malformed);
        }
        var h := ReadClassCharacter(pattern, index, alnum);
        if h.Err? {
          return Err(h.error);
        }
        high, index := h.value.0, h.next;
        if high < low {
          return Err(Malformed);
        }
      }
      assert ScanRange(pattern, from, alnum) == Ok((low, high), index);
      ranges := ranges + [(low, high)];
    }
  }

  // ---------------------------------------------------------------------
  // Patterns
  // ---------------------------------------------------------------------

  /** What the scanner has when it stands at an index: the tokens so far, the match
      form so far, and whether it is still at the first token. */
  datatype Progress = Progress(tokens: seq<Token>, form: MatchType, first: bool)

  /** One step of the compiler at value[index]. */
  function Step(value: string, index: nat, s: Progress, alnum: char -> bool): (r: Scanned<Progress>)
    requires index < |value|
    ensures r.Ok? ==> index < r.next <= |value|
  {
    var c := value[index];
    if c == '*' then
      if index + 1 < |value| && value[index + 1] == '*' then
        var next := if index + 2 < |value| && value[index + 2] == '/' then index + 3 else index + 2;
        var t :=
          if next == |value| then
            if s.form == Exact then Progress(s.tokens, Prefix, false)
            else Progress(s.tokens + [Globstar], Tokens, false)
          else Progress(s.tokens + [GlobstarDirectory], Tokens, false);
        Ok(if s.first then t.(form := Suffix) else t, next)
      else Ok(Progress(s.tokens + [Star], Tokens, false), index + 1)
    else if c == '?' then Ok(Progress(s.tokens + [Question], Tokens, false), index + 1)
    else if c == '[' then
      match ScanClass(value, index, alnum)
      case Err(e) => Err(e)
      case Ok(cls, next) => Ok(Progress(s.tokens + [Class(cls)], Tokens, false), next)
    else if c == '\\' then
      if index + 1 >= |value| then Err(Malformed)
      else
        var d := value[index + 1];
        if d == '/' || alnum(d) || d == '_' then Err(UnsupportedEscape)
        else Ok(Progress(s.tokens + [Literal(d)], Tokens, false), index + 2)
    else Ok(Progress(s.tokens + [if c == '^' then Anchor else Literal(c)], s.form, false), index + 1)
  }

  function Scan(value: string, index: nat, s: Progress, alnum: char -> bool): (r: Scanned<Progress>)
    requires index <= |value|
    decreases |value| - index
  {
    if index == |value| then Ok(s, index)
    else
      match Step(value, index, s, alnum)
      case Err(e) => Err(e)
      case Ok(t, next) => Scan(value, next, t, alnum)
  }

  const START := Progress([], Exact, true)

  datatype Compiled = Accepted(pattern: Pattern) | Rejected(error: CompileError)

  /** The value a line denotes, cleaned and without its `!`, and its polarity. */
  function LineValue(line: string): (string, bool) {
    var cleaned := CleanPattern(TrimSpace(line));
    var exclusion := cleaned != "" && cleaned[0] == '!';
    (if exclusion then cleaned[1..] else cleaned, exclusion)
  }

  /** A line whose text is already trimmed and clean stands for itself. */
  lemma CleanLine(line: string)
    requires Clean(line) && line != "" && !IsSpace(line[0]) && !IsSpace(line[|line| - 1])
    ensures CleanPattern(TrimSpace(line)) == line
  {
    assert TrimSpace(line) == line;
    NormPathOfClean(line);
    CleanStart(line);
  }

  lemma CleanStart(line: string)
    requires Clean(line)
    ensures line != "" && line[0] != '/' && OneLeading(line) == line
  {
    SplitSlashFree(line);
    JoinSplit(line);
    JoinCleanEnds(Split(line));
    assert |line| >= 2 ==> line[..2][0] == line[0];
  }

  /** What the compiler makes of a line. */
  function Compile(line: string, alnum: char -> bool): Compiled {
    var (value, exclusion) := LineValue(line);
    if value == "" || '\0' in value then Rejected(Malformed)
    else
      match Scan(value, 0, START, alnum)
      case Err(e) => Rejected(e)
      case Ok(s, _) => Accepted(Pattern(value, exclusion, s.form, s.tokens))
  }

  lemma LineValueTrailing(line: string)
    ensures var v := LineValue(line).0; v != "" && v[|v| - 1] == '/' ==> v == "/"
  {
    CleanPatternTrailing(TrimSpace(line));
    var cleaned := CleanPattern(TrimSpace(line));
    if cleaned != "" && cleaned[0] == '!' { AfterMark(cleaned); }
  }

  /** Taking off the mark leaves the end as it is. */
  lemma AfterMark(cleaned: string)
    requires cleaned != "" && cleaned[0] == '!'
    ensures cleaned != "/"
    ensures var v := cleaned[1..]; v != "" ==> v[|v| - 1] == cleaned[|cleaned| - 1]
  {
  }

  /** One round of the loop: the token appended, the form it leads to, and where the
      next token starts. */
  method CompileToken(value: string, start: nat, before: seq<Token>, form: MatchType, first: bool, alnum: char -> bool)
      returns (r: Scanned<Progress>)
    requires start < |value|
    ensures r == Step(value, start, Progress(before, form, first), alnum)
  {
    var tokens, matchType, index, character := before, form, start, value[start];
    if character == '*' {
      if index + 1 < |value| && value[index + 1] == '*' {
        index := index + 2;
        if index < |value| && value[index] == '/' {
          index := index + 1;
        }
        if index == |value| {
          if matchType == Exact {
            matchType := Prefix;
          } else {
            tokens := tokens + [Globstar];
            matchType := Tokens;
          }
        } else {
          tokens := tokens + [GlobstarDirectory];
          matchType := Tokens;
        }
        if first {
          matchType := Suffix;
        }
      } else {
        tokens := tokens + [Star];
        matchType := Tokens;
        index := index + 1;
      }
    } else if character == '?' {
      tokens := tokens + [Question];
      matchType := Tokens;
      index := index + 1;
    } else if character == '[' {
      var cls := CompileIgnoreCharacterClass(value, index, alnum);
      if cls.Err? {
        return Err(cls.error);
      }
      tokens := tokens + [Class(cls.value)];
      matchType := Tokens;
      index := cls.next;
    } else if character == '\\' {
      index := index + 1;
      if index >= |value| {
        return Err(Malformed);
      }
      if value[index] == '/' || alnum(value[index]) || value[index] == '_' {
        return Err(UnsupportedEscape);
      }
      tokens := tokens + [Literal(value[index])];
      matchType := Tokens;
      index := index + 1;
    } else {
      tokens := tokens + [if character == '^' then Anchor else Literal(character)];
      index := index + 1;
    }
    return Ok(Progress(tokens, matchType, false), index);
  }

  method CompileIgnorePattern(line: string, alnum: char -> bool) returns (r: Compiled)
    ensures r == Compile(line, alnum)
    ensures r.Accepted? ==> WellFormed(r.pattern)
  {
    var (value, exclusion) := LineValue(line);
    if value == "" || '\0' in value {
      return Rejected(Malformed);
    }
    LineValueTrailing(line);
    var tokens: seq<Token> := [];
    var matchType := Exact;
    var index, tokenIndex := 0, 0;
    while index < |value|
      invariant index <= |value|
      invariant Scan(value, 0, START, alnum) == Scan(value, index, Progress(tokens, matchType, tokenIndex == 0), alnum)
      invariant Shape(value, index, Progress(tokens, matchType, tokenIndex == 0))
    {
      StepShape(value, index, Progress(tokens, matchType, tokenIndex == 0), alnum);
      var step := CompileToken(value, index, tokens, matchType, tokenIndex == 0, alnum);
      if step.Err? {
        return Rejected(step.error);
      }
      tokens, matchType, index := step.value.tokens, step.value.form, step.next;
      tokenIndex := tokenIndex + 1;
    }
    return Accepted(Pattern(value, exclusion, matchType, tokens));
  }

  // ---------------------------------------------------------------------
  // The shape behind each optimised form
  // ---------------------------------------------------------------------

  /** Plain characters as tokens. */
  function Plain(s: string): seq<Token> {
    seq(|s|, i requires 0 <= i < |s| => if s[i] == '^' then Anchor else Literal(s[i]))
  }

  ghost predicate Shape(value: string, index: nat, s: Progress)
    requires index <= |value|
  {
    && (s.first <==> index == 0)
    && (s.first ==> s == START)
    && match s.form
       case Exact => s.tokens == Plain(value[..index])
       case Prefix =>
         && index == |value| && |value| > 2 && value[|value| - 2..] == "**"
         && s.tokens == Plain(value[..|value| - 2])
       case Suffix =>
         && |value| >= 2 && index >= 2 && value[..2] == "**"
         && if |value| == 2 then s.tokens == []
            else if value[2] == '/' then index >= 3 && |value| > 3 && s.tokens == [GlobstarDirectory] + Plain(value[3..index])
            else s.tokens == [GlobstarDirectory] + Plain(value[2..index])
       case Tokens => true
  }

  ghost predicate WellFormed(p: Pattern) {
    p.value != "" && Shape(p.value, |p.value|, Progress(p.tokens, p.matchType, false))
  }

  lemma PlainAppend(s: string, from: nat, to: nat)
    requires from <= to < |s|
    ensures Plain(s[from..to + 1]) == Plain(s[from..to]) + [if s[to] == '^' then Anchor else Literal(s[to])]
  {
    assert s[from..to + 1] == s[from..to] + [s[to]];
  }

  /** Every step keeps the shape, because a cleaned value has no trailing slash. */
  lemma StepShape(value: string, index: nat, s: Progress, alnum: char -> bool)
    requires index < |value| && Shape(value, index, s)
    requires value[|value| - 1] == '/' ==> value == "/"
    ensures Step(value, index, s, alnum).Ok? ==>
              Shape(value, Step(value, index, s, alnum).next, Step(value, index, s, alnum).value)
  {
    if Step(value, index, s, alnum).Ok? {
      if value[index] == '*' && index + 1 < |value| && value[index + 1] == '*' {
        DoubleStarShape(value, index, s, alnum);
      } else if value[index] !in "*?[\\" {
        PlainShape(value, index, s, alnum);
      }
    }
  }

  lemma DoubleStarShape(value: string, index: nat, s: Progress, alnum: char -> bool)
    requires index + 1 < |value| && value[index] == '*' && value[index + 1] == '*' && Shape(value, index, s)
    requires value[|value| - 1] == '/' ==> value == "/"
    ensures var r := Step(value, index, s, alnum); r.Ok? && Shape(value, r.next, r.value)
  {
    assert value[index..index + 2] == "**";
    if index == 0 {
      FirstStarsShape(value, s, alnum);
    } else {
      LaterStarsShape(value, index, s, alnum);
    }
  }

  lemma FirstStarsShape(value: string, s: Progress, alnum: char -> bool)
    requires |value| >= 2 && value[0] == '*' && value[1] == '*' && s == START
    requires value[|value| - 1] == '/' ==> value == "/"
    ensures var r := Step(value, 0, s, alnum); r.Ok? && Shape(value, r.next, r.value)
  {
    assert value[..2] == "**" && Plain("") == [];
    if |value| > 2 {
      var next := if value[2] == '/' then 3 else 2;
      assert value[next..next] == "" && [] + [GlobstarDirectory] == [GlobstarDirectory] + Plain("");
    }
  }

  lemma LaterStarsShape(value: string, index: nat, s: Progress, alnum: char -> bool)
    requires 0 < index && index + 1 < |value| && value[index] == '*' && value[index + 1] == '*' && Shape(value, index, s)
    requires value[|value| - 1] == '/' ==> value == "/"
    ensures var r := Step(value, index, s, alnum); r.Ok? && Shape(value, r.next, r.value)
  {
    if index + 2 == |value| {
      assert value[|value| - 2..] == "**" && value[..|value| - 2] == value[..index];
    }
  }

  lemma PlainShape(value: string, index: nat, s: Progress, alnum: char -> bool)
    requires index < |value| && value[index] !in "*?[\\" && Shape(value, index, s)
    ensures var r := Step(value, index, s, alnum); r.Ok? && Shape(value, r.next, r.value)
  {
    PlainAppend(value, 0, index);
    assert value[..index] == value[0..index] && value[..index + 1] == value[0..index + 1];
    if s.form == Suffix && |value| > 2 {
      if value[2] == '/' { PlainAppend(value, 3, index); } else { PlainAppend(value, 2, index); }
    }
  }

  lemma {:induction false} ScanShape(value: string, index: nat, s: Progress, alnum: char -> bool)
    requires index <= |value| && Shape(value, index, s)
    requires value != "" && (value[|value| - 1] == '/' ==> value == "/")
    ensures Scan(value, index, s, alnum).Ok? ==> Shape(value, |value|, Scan(value, index, s, alnum).value)
    decreases |value| - index
  {
    if index < |value| {
      StepShape(value, index, s, alnum);
      var r := Step(value, index, s, alnum);
      if r.Ok? { ScanShape(value, r.next, r.value, alnum); }
    }
  }

  /** Every compiled pattern has the shape its match form presupposes. */
  lemma CompiledWellFormed(line: string, alnum: char -> bool)
    requires Compile(line, alnum).Accepted?
    ensures WellFormed(Compile(line, alnum).pattern)
  {
    LineValueTrailing(line);
    ScanShape(LineValue(line).0, 0, START, alnum);
  }

  /** The tokens recorded by the compiler, with the globstar that a prefix form and the
      form of a bare `**` leave implicit. */
  function Recorded(p: Pattern): seq<Token> {
    match p.matchType
    case Prefix => p.tokens + [Globstar]
    case Suffix => if p.Tail() == "" then [Globstar] else p.tokens
    case _ => p.tokens
  }

  // ---------------------------------------------------------------------
  // Plain characters against the token matcher
  // ---------------------------------------------------------------------

  lemma {:induction false} PlainMatch(s: string, back: seq<Token>, path: string, i: nat)
    requires i <= |path| && '^' !in s
    ensures MatchFrom(Plain(s) + back, path, i) <==>
            i + |s| <= |path| && path[i..i + |s|] == s && MatchFrom(back, path, i + |s|)
  {
    if s == "" {
      assert Plain(s) + back == back;
    } else {
      var all := Plain(s) + back;
      assert all[0] == Literal(s[0]);
      assert all[1..] == Plain(s[1..]) + back;
      if i < |path| {
        PlainMatch(s[1..], back, path, i + 1);
        if i + |s| <= |path| {
          assert path[i..i + |s|] == [path[i]] + path[i + 1..i + 1 + |s[1..]|];
          assert s == [s[0]] + s[1..];
        }
        assert all[0].Accepts(path, i, i + 1) <==> path[i] == s[0];
      }
    }
  }

  /** An anchor past offset 0 never matches. */
  lemma {:induction false} LateAnchor(s: string, back: seq<Token>, path: string, i: nat)
    requires 0 < i <= |path| && '^' in s
    ensures !MatchFrom(Plain(s) + back, path, i)
  {
    var all := Plain(s) + back;
    assert all[1..] == Plain(s[1..]) + back;
    assert s == [s[0]] + s[1..];
    if s[0] != '^' && i < |path| {
      LateAnchor(s[1..], back, path, i + 1);
    }
  }

  /** Anchors consume nothing, so text with carets cannot match itself. */
  lemma {:induction false} PlainTooShort(s: string, path: string, i: nat)
    requires i <= |path| && MatchFrom(Plain(s), path, i)
    ensures |path| - i <= |s| && ('^' in s ==> |path| - i < |s|)
  {
    if s != "" {
      assert Plain(s)[1..] == Plain(s[1..]);
      assert s == [s[0]] + s[1..];
      var j: nat :| i <= j <= |path| && Plain(s)[0].Accepts(path, i, j) && MatchFrom(Plain(s)[1..], path, j);
      PlainTooShort(s[1..], path, j);
    }
  }

  predicate AllCarets(s: string) {
    forall k :: 0 <= k < |s| ==> s[k] == '^'
  }

  lemma {:induction false} CaretThenOther(s: string, back: seq<Token>, path: string)
    requires path != "" && path[0] == '^' && !AllCarets(s)
    ensures !MatchFrom(Plain(s) + back, path, 0)
  {
    var all := Plain(s) + back;
    assert all[1..] == Plain(s[1..]) + back;
    if s[0] == '^' {
      CaretThenOther(s[1..], back, path);
    }
  }

  lemma {:induction false} CaretsMatchEmpty(s: string, back: seq<Token>)
    requires AllCarets(s)
    ensures MatchFrom(Plain(s) + back, "", 0) <==> MatchFrom(back, "", 0)
  {
    var all := Plain(s) + back;
    if s == "" {
      assert all == back;
    } else {
      assert all[1..] == Plain(s[1..]) + back;
      CaretsMatchEmpty(s[1..], back);
      assert all[0].Accepts("", 0, 0);
    }
  }

  // ---------------------------------------------------------------------
  // When the optimised forms agree with the recorded tokens
  // ---------------------------------------------------------------------

  /** A suffix form whose text does not start with a slash, as for `**foo`. */
  predicate Unslashed(p: Pattern) {
    p.matchType == Suffix && p.Tail() != "" && p.Tail()[0] != '/'
  }

  ghost predicate FormAgrees(p: Pattern, path: string) {
    p.Matches(path) <==> TokensMatch(Recorded(p), path)
  }

  lemma ExactAgrees(p: Pattern, path: string)
    requires WellFormed(p) && p.matchType == Exact && '^' !in p.value
    ensures FormAgrees(p, path)
  {
    assert p.value[..|p.value|] == p.value;
    assert Plain(p.value) + [] == Plain(p.value);
    PlainMatch(p.value, [], path, 0);
    TokensMatchFrom(p.tokens, path);
    assert |p.value| <= |path| ==> path[0..|p.value|] == path[..|p.value|];
  }

  lemma GlobstarMatchesRest(path: string, i: nat)
    requires i <= |path|
    ensures MatchFrom([Globstar], path, i)
  {
    assert Globstar.Accepts(path, i, |path|);
    assert MatchFrom([Globstar][1..], path, |path|);
  }

  lemma PrefixAgrees(p: Pattern, path: string)
    requires WellFormed(p) && p.matchType == Prefix && '^' !in p.value
    ensures FormAgrees(p, path)
  {
    var stem := p.Stem();
    PlainMatch(stem, [Globstar], path, 0);
    TokensMatchFrom(Recorded(p), path);
    if |stem| <= |path| {
      GlobstarMatchesRest(path, |stem|);
      assert path[0..|stem|] == path[..|stem|];
    }
  }

  lemma PlainToEnd(text: string, path: string, j: nat)
    requires j <= |path| && '^' !in text
    ensures MatchFrom(Plain(text), path, j) <==> j + |text| == |path| && EndsWith(path, text)
  {
    assert Plain(text) + [] == Plain(text);
    PlainMatch(text, [], path, j);
    if j + |text| == |path| {
      assert path[j..j + |text|] == path[|path| - |text|..];
    }
  }

  /** A leading token followed by plain text: the text is the end of the path and the
      token accepts what stands before it. */
  lemma LeadMatch(lead: Token, text: string, path: string)
    requires '^' !in text
    ensures TokensMatch([lead] + Plain(text), path) <==>
            |text| <= |path| && EndsWith(path, text) && lead.Accepts(path, 0, |path| - |text|)
  {
    var all := [lead] + Plain(text);
    TokensMatchFrom(all, path);
    assert all[1..] == Plain(text);
    if MatchFrom(all, path, 0) {
      var j: nat :| j <= |path| && lead.Accepts(path, 0, j) && MatchFrom(all[1..], path, j);
      PlainToEnd(text, path, j);
    }
    if |text| <= |path| {
      PlainToEnd(text, path, |path| - |text|);
    }
  }

  lemma EndsWithSlash(path: string, text: string, tail: string)
    requires tail == "/" + text
    ensures EndsWith(path, tail) <==> |text| < |path| && EndsWith(path, text) && path[|path| - |text| - 1] == '/'
  {
    if |text| < |path| {
      assert path[|path| - |tail|..] == [path[|path| - |tail|]] + path[|path| - |text|..];
    }
  }

  lemma SuffixAgrees(p: Pattern, path: string)
    requires WellFormed(p) && p.matchType == Suffix && '^' !in p.value && !Unslashed(p)
    ensures FormAgrees(p, path)
  {
    var tail := p.Tail();
    if tail == "" {
      TokensMatchFrom([Globstar], path);
      GlobstarMatchesRest(path, 0);
    } else {
      var text := p.value[3..];
      assert p.value[3..|p.value|] == text && tail == "/" + text;
      LeadMatch(GlobstarDirectory, text, path);
      EndsWithSlash(path, text, tail);
    }
  }

  /** An unslashed suffix form matches as if its leading token were a plain globstar. */
  lemma UnslashedMeaning(p: Pattern, path: string)
    requires WellFormed(p) && Unslashed(p) && '^' !in p.value
    ensures p.tokens != [] && p.tokens[0] == GlobstarDirectory
    ensures p.Matches(path) <==> TokensMatch([Globstar] + p.tokens[1..], path)
  {
    assert p.value[2..|p.value|] == p.Tail();
    LeadMatch(Globstar, p.Tail(), path);
  }

  /** So it differs from the recorded tokens, on the text after any other text that does
      not end in a slash. */
  lemma UnslashedDisagrees(p: Pattern, front: string)
    requires WellFormed(p) && Unslashed(p) && '^' !in p.value
    requires front != "" && front[|front| - 1] != '/'
    ensures p.Matches(front + p.Tail()) && !TokensMatch(Recorded(p), front + p.Tail())
  {
    var tail := p.Tail();
    var path := front + tail;
    assert p.value[2..|p.value|] == tail;
    assert path[|path| - |tail|..] == tail;
    LeadMatch(GlobstarDirectory, tail, path);
  }

  lemma CaretInSuffix(p: Pattern) returns (path: string)
    requires WellFormed(p) && p.matchType == Suffix && '^' in p.value
    ensures !FormAgrees(p, path)
  {
    var slash := p.Tail()[0] == '/';
    var text := if slash then p.value[3..] else p.Tail();
    assert p.value == "**" + (if slash then "/" else "") + text;
    assert text == p.value[if slash then 3 else 2..|p.value|];
    path := text;
    var all := Recorded(p);
    TokensMatchFrom(all, path);
    CaretNeverReached(all, text);
  }

  /** A plain text with a caret is not matched after any lead. */
  lemma CaretNeverReached(all: seq<Token>, text: string)
    requires all != [] && all[1..] == Plain(text) && '^' in text
    ensures !MatchFrom(all, text, 0)
  {
    assert Plain(text) + [] == Plain(text);
    forall j: nat | j <= |text| ensures !MatchFrom(all[1..], text, j) {
      if j > 0 {
        LateAnchor(text, [], text, j);
      } else if MatchFrom(Plain(text), text, 0) {
        PlainTooShort(text, text, 0);
      }
    }
  }

  /** A caret breaks every optimised form: some path tells it from the tokens. */
  lemma CaretDisagrees(p: Pattern) returns (path: string)
    requires WellFormed(p) && p.matchType != Tokens && '^' in p.value
    ensures !FormAgrees(p, path)
  {
    match p.matchType {
      case Exact =>
        path := p.value;
        assert p.value[..|p.value|] == p.value;
        TokensMatchFrom(p.tokens, path);
        if MatchFrom(p.tokens, path, 0) { PlainTooShort(p.value, path, 0); }
      case Prefix =>
        var stem := p.Stem();
        assert p.value == stem + "**";
        if AllCarets(stem) {
          path := "";
          CaretsMatchEmpty(stem, [Globstar]);
          GlobstarMatchesRest("", 0);
        } else {
          path := stem;
          if stem[0] == '^' {
            CaretThenOther(stem, [Globstar], path);
          } else {
            var all := Plain(stem) + [Globstar];
            assert all[1..] == Plain(stem[1..]) + [Globstar] && stem == [stem[0]] + stem[1..];
            LateAnchor(stem[1..], [Globstar], path, 1);
          }
        }
        TokensMatchFrom(Recorded(p), path);
      case Suffix =>
        path := CaretInSuffix(p);
    }
  }

  /** A pattern's match form gives, on every path, the verdict of its recorded tokens
      exactly when it is the token form, or its value has no '^' and it is not an
      unslashed suffix form. */
  lemma OptimisedFormsExactly(p: Pattern)
    requires WellFormed(p)
    ensures (forall path :: FormAgrees(p, path)) <==>
            (p.matchType == Tokens || ('^' !in p.value && !Unslashed(p)))
  {
    if p.matchType != Tokens && '^' in p.value {
      var path := CaretDisagrees(p);
    } else if Unslashed(p) {
      UnslashedDisagrees(p, "x");
      assert !FormAgrees(p, "x" + p.Tail());
    } else {
      forall path ensures FormAgrees(p, path) {
        match p.matchType
        case Exact => ExactAgrees(p, path);
        case Prefix => PrefixAgrees(p, path);
        case Suffix => SuffixAgrees(p, path);
        case Tokens =>
      }
    }
  }

  lemma ScanUnfolds(value: string, index: nat, s: Progress, next: nat, after: Progress, alnum: char -> bool)
    requires index < |value| && Step(value, index, s, alnum) == Ok(after, next)
    ensures Scan(value, index, s, alnum) == Scan(value, next, after, alnum)
  {
  }

  lemma ScanEnd(value: string, index: nat, s: Progress, alnum: char -> bool)
    requires index == |value|
    ensures Scan(value, index, s, alnum) == Ok(s, |value|)
  {
  }

  /** A character without a meaning of its own is scanned as a literal. */
  lemma ScanLiteral(value: string, index: nat, s: Progress, alnum: char -> bool) returns (after: Progress)
    requires index < |value| && value[index] !in "*?[\\^" && !s.first
    ensures after == Progress(s.tokens + [Literal(value[index])], s.form, false)
    ensures Scan(value, index, s, alnum) == Scan(value, index + 1, after, alnum)
  {
    after := Progress(s.tokens + [Literal(value[index])], s.form, false);
    ScanUnfolds(value, index, s, index + 1, after, alnum);
  }

  lemma ScanDoubleStarFoo(alnum: char -> bool)
    ensures Scan("**foo", 0, START, alnum) == Ok(Progress(DOUBLE_STAR_FOO.tokens, Suffix, false), 5)
  {
    var v := "**foo";
    var s := Progress([GlobstarDirectory], Suffix, false);
    assert START.tokens + [GlobstarDirectory] == s.tokens;
    ScanUnfolds(v, 0, START, 2, s, alnum);
    s := ScanLiteral(v, 2, s, alnum);
    s := ScanLiteral(v, 3, s, alnum);
    s := ScanLiteral(v, 4, s, alnum);
    assert s.tokens == DOUBLE_STAR_FOO.tokens;
    ScanEnd(v, 5, s, alnum);
  }

  const DOUBLE_STAR_FOO :=
    Pattern("**foo", false, Suffix, [GlobstarDirectory, Literal('f'), Literal('o'), Literal('o')])

  lemma DoubleStarFooLine()
    ensures LineValue("**foo") == ("**foo", false)
  {
    SplitAtom("**foo");
    CleanLine("**foo");
  }

  lemma CompileLine(line: string, value: string, exclusion: bool, s: Progress, n: nat, alnum: char -> bool)
    requires LineValue(line) == (value, exclusion) && value != "" && '\0' !in value
    requires Scan(value, 0, START, alnum) == Ok(s, n)
    ensures Compile(line, alnum) == Accepted(Pattern(value, exclusion, s.form, s.tokens))
  {
  }

  /** The line `**foo` compiles to such a form: it matches `barfoo`, its tokens do not. */
  lemma DoubleStarFoo(alnum: char -> bool)
    ensures Compile("**foo", alnum) == Accepted(DOUBLE_STAR_FOO)
    ensures DOUBLE_STAR_FOO.Matches("barfoo") && !TokensMatch(DOUBLE_STAR_FOO.tokens, "barfoo")
  {
    DoubleStarFooLine();
    ScanDoubleStarFoo(alnum);
    CompileLine("**foo", "**foo", false, Progress(DOUBLE_STAR_FOO.tokens, Suffix, false), 5, alnum);
    CompiledWellFormed("**foo", alnum);
    DoubleStarFooDiffers();
  }

  lemma DoubleStarFooDiffers()
    requires WellFormed(DOUBLE_STAR_FOO)
    ensures DOUBLE_STAR_FOO.Matches("barfoo") && !TokensMatch(DOUBLE_STAR_FOO.tokens, "barfoo")
  {
    assert DOUBLE_STAR_FOO.Tail() == "foo" && "bar" + "foo" == "barfoo";
    UnslashedDisagrees(DOUBLE_STAR_FOO, "bar");
  }

  /** The line `^` compiles to the exact form: it matches `^`, its anchor does not. */
  lemma CaretLine(alnum: char -> bool)
    ensures var p := Pattern("^", false, Exact, [Anchor]);
            && Compile("^", alnum) == Accepted(p)
            && p.Matches("^") && !TokensMatch(Recorded(p), "^")
  {
    SplitAtom("^");
    CleanLine("^");
    CaretScan(alnum);
    CompileLine("^", "^", false, Progress([Anchor], Exact, false), 1, alnum);
    AnchorAlone();
  }

  lemma CaretScan(alnum: char -> bool)
    ensures Scan("^", 0, START, alnum) == Ok(Progress([Anchor], Exact, false), 1)
  {
    assert START.tokens + [Anchor] == [Anchor];
    ScanUnfolds("^", 0, START, 1, Progress([Anchor], Exact, false), alnum);
    ScanEnd("^", 1, Progress([Anchor], Exact, false), alnum);
  }

  lemma AnchorAlone()
    ensures !TokensMatch([Anchor], "^")
  {
    TokensMatchFrom([Anchor], "^");
    assert [Anchor][1..] == [];
  }
}
