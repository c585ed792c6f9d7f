/** The language of ignore lines: which texts spell which tokens, and that the compiler
    reads exactly this language. */
module IgnoreSpelling {
  import opened Paths
  import opened Sequences
  import opened CharacterClasses
  import opened IgnoreTokens
  import opened IgnorePatterns
  import opened IgnoreCompile

  // ---------------------------------------------------------------------
  // Classes
  // ---------------------------------------------------------------------

  /** An escape that stands for the character itself. */
  predicate EscapesTo(text: string, c: char, alnum: char -> bool) {
    text == ['\\', c] && !alnum(c) && c != '_' && c != '/'
  }

  /** A character of a class, by itself or escaped; an opening bracket never. */
  predicate SpellsEnd(text: string, c: char, alnum: char -> bool) {
    c != '[' && ((text == [c] && c != '\\') || EscapesTo(text, c, alnum))
  }

  /** `c`, or `a-b` with a no greater than b. */
  ghost predicate SpellsRange(text: string, range: (char, char), alnum: char -> bool) {
    range.0 <= range.1 && exists low, high :: RangeText(text, low, high, range, alnum)
  }

  predicate RangeText(text: string, low: string, high: string, range: (char, char), alnum: char -> bool) {
    && SpellsEnd(low, range.0, alnum) && low != "-" && low != "]"
    && if high == "" then text == low && range.1 == range.0
       else text == low + "-" + high && SpellsEnd(high, range.1, alnum) && high != "]"
  }

  ghost predicate SpellsRanges(text: string, ranges: seq<(char, char)>, alnum: char -> bool) {
    if ranges == [] then text == ""
    else exists i :: 0 <= i <= |text| && SpellsRange(text[..i], ranges[0], alnum) && SpellsRanges(text[i..], ranges[1..], alnum)
  }

  ghost predicate SpellsClass(text: string, cls: CharClass, alnum: char -> bool) {
    cls.ranges != [] && exists body ::
      && text == (if cls.negated then "[^" else "[") + body + "]"
      && SpellsRanges(body, cls.ranges, alnum)
      && (!cls.negated ==> body != "" && body[0] != '^')
  }

  // ---------------------------------------------------------------------
  // Tokens
  // ---------------------------------------------------------------------

  /** The text spells the token in front of the rest: a double star at the end is a
      globstar, and before the end, with the slash after it, a globstar directory. */
  ghost predicate SpellsToken(text: string, rest: string, token: Token, alnum: char -> bool) {
    match token
    case Literal(c) => (text == [c] && c !in "*?[\\^") || EscapesTo(text, c, alnum)
    case Anchor => text == "^"
    case Star => text == "*" && (rest == "" || rest[0] != '*')
    case Question => text == "?"
    case Globstar => text == "**" && rest == ""
    case GlobstarDirectory => rest != "" && (text == "**/" || (text == "**" && rest[0] != '/'))
    case Class(cls) => SpellsClass(text, cls, alnum)
  }

  ghost predicate Spells(text: string, tokens: seq<Token>, alnum: char -> bool) {
    if tokens == [] then text == ""
    else exists i :: 0 <= i <= |text| && SpellsToken(text[..i], text[i..], tokens[0], alnum) && Spells(text[i..], tokens[1..], alnum)
  }

  // ---------------------------------------------------------------------
  // What is read is spelled
  // ---------------------------------------------------------------------

  lemma EndIsSpelled(value: string, index: nat, alnum: char -> bool) returns (next: nat, c: char, text: string)
    requires index < |value| && ReadClassCharacter(value, index, alnum).Ok?
    ensures ReadClassCharacter(value, index, alnum) == Ok((c, value[index] == '\\'), next)
    ensures text == value[index..next] && SpellsEnd(text, c, alnum) && |text| == if value[index] == '\\' then 2 else 1
  {
    var r := ReadClassCharacter(value, index, alnum);
    next, c := r.next, r.value.0;
    text := value[index..next];
    assert text == if value[index] == '\\' then ['\\', c] else [c];
  }

  lemma RangeIsSpelled(value: string, index: nat, alnum: char -> bool) returns (next: nat, range: (char, char))
    requires index < |value| && value[index] != ']' && ScanRange(value, index, alnum).Ok?
    ensures ScanRange(value, index, alnum) == Ok(range, next) && index < next <= |value|
    ensures SpellsRange(value[index..next], range, alnum)
  {
    next, range := ScanRange(value, index, alnum).next, ScanRange(value, index, alnum).value;
    var middle, a, low := EndIsSpelled(value, index, alnum);
    assert low[0] == value[index];
    if middle < |value| && value[middle] == '-' {
      var end, b, high := EndIsSpelled(value, middle + 1, alnum);
      assert high[0] == value[middle + 1];
      assert value[index..end] == low + "-" + high;
      assert RangeText(value[index..end], low, high, (a, b), alnum);
    } else {
      assert RangeText(value[index..middle], low, "", (a, a), alnum);
    }
  }

  lemma SpellsFirst(first: string, rest: string, text: string, range: (char, char), ranges: seq<(char, char)>,
                    all: seq<(char, char)>, alnum: char -> bool)
    requires text == first + rest && all == [range] + ranges
    requires SpellsRange(first, range, alnum) && SpellsRanges(rest, ranges, alnum)
    ensures SpellsRanges(text, all, alnum)
  {
    assert text[..|first|] == first && text[|first|..] == rest && all[1..] == ranges;
  }

  lemma Regroup<T>(done: seq<T>, first: T, rest: seq<T>)
    ensures (done + [first]) + rest == done + ([first] + rest)
  {
  }

  lemma Pieces(text: string, from: nat, middle: nat, to: nat)
    requires from <= middle <= to <= |text|
    ensures text[from..to] == text[from..middle] + text[middle..to]
  {
  }

  lemma {:induction false} RangesAreSpelled(value: string, index: nat, done: seq<(char, char)>, alnum: char -> bool)
      returns (end: nat, ranges: seq<(char, char)>)
    requires index <= |value| && ScanRanges(value, index, done, alnum).Ok?
    ensures index <= end < |value| && value[end] == ']'
    ensures ScanRanges(value, index, done, alnum) == Ok(done + ranges, end + 1)
    ensures SpellsRanges(value[index..end], ranges, alnum)
    decreases |value| - index
  {
    if value[index] == ']' {
      end, ranges := index, [];
      assert done + [] == done;
    } else {
      var next, range := RangeIsSpelled(value, index, alnum);
      var rest;
      end, rest := RangesAreSpelled(value, next, done + [range], alnum);
      ranges := [range] + rest;
      Regroup(done, range, rest);
      Pieces(value, index, next, end);
      SpellsFirst(value[index..next], value[next..end], value[index..end], range, rest, ranges, alnum);
    }
  }

  lemma ClassIsSpelled(value: string, index: nat, alnum: char -> bool) returns (next: nat, cls: CharClass)
    requires index < |value| && value[index] == '[' && ScanClass(value, index, alnum).Ok?
    ensures ScanClass(value, index, alnum) == Ok(cls, next) && index < next <= |value|
    ensures SpellsClass(value[index..next], cls, alnum)
  {
    var start, end, negated, ranges := ScannedClass(value, index, alnum);
    next, cls := end + 1, CharClass(negated, ranges);
    var open, body := if negated then "[^" else "[", value[start..end];
    RestStart(body, ranges, alnum);
    assert body[0] == value[start];
    ClassText(value, index, start, end, open, body);
    assert value[index..next] == open + body + "]";
  }

  /** The parts of a scanned class. */
  lemma ScannedClass(value: string, index: nat, alnum: char -> bool)
      returns (start: nat, end: nat, negated: bool, ranges: seq<(char, char)>)
    requires index < |value| && value[index] == '[' && ScanClass(value, index, alnum).Ok?
    ensures negated <==> index + 1 < |value| && value[index + 1] == '^'
    ensures start == (if negated then index + 2 else index + 1) && start <= end < |value| && value[end] == ']'
    ensures ScanClass(value, index, alnum) == Ok(CharClass(negated, ranges), end + 1)
    ensures ranges != [] && SpellsRanges(value[start..end], ranges, alnum)
  {
    negated := index + 1 < |value| && value[index + 1] == '^';
    start := if negated then index + 2 else index + 1;
    end, ranges := RangesAreSpelled(value, start, [], alnum);
    assert [] + ranges == ranges;
    SomeRange(value, start, [], alnum);
  }

  lemma {:induction false} SomeRange(value: string, index: nat, done: seq<(char, char)>, alnum: char -> bool)
    requires index <= |value| && ScanRanges(value, index, done, alnum).Ok?
    ensures ScanRanges(value, index, done, alnum).value != []
    decreases |value| - index
  {
    if value[index] != ']' {
      var range := ScanRange(value, index, alnum);
      SomeRange(value, range.next, done + [range.value], alnum);
    }
  }

  lemma ClassText(value: string, index: nat, start: nat, end: nat, open: string, body: string)
    requires index + 1 <= start <= index + 2 && start <= end < |value| && value[end] == ']'
    requires |open| == start - index && open[0] == value[index] && (|open| == 2 ==> open[1] == value[index + 1])
    requires body == value[start..end]
    ensures value[index..end + 1] == open + body + "]"
  {
    assert value[index..start] == open;
    Pieces(value, index, start, end);
    Pieces(value, index, end, end + 1);
    assert value[end..end + 1] == "]";
  }

  /** What follows a range is another one, or the end. */
  lemma RestStart(body: string, ranges: seq<(char, char)>, alnum: char -> bool)
    requires SpellsRanges(body, ranges, alnum)
    ensures (body + "]")[0] != '-'
    ensures ranges != [] ==> body != "" && body[0] != ']'
  {
    if ranges != [] {
      var i :| 0 <= i <= |body| && SpellsRange(body[..i], ranges[0], alnum) && SpellsRanges(body[i..], ranges[1..], alnum);
      var low, high :| RangeText(body[..i], low, high, ranges[0], alnum);
      assert body[..i][0] == low[0];
    }
  }

  /** The tokens read so far, with the globstar that a form leaves implicit at the end. */
  function Full(value: string, index: nat, s: Progress): seq<Token> {
    if index < |value| then s.tokens
    else
      match s.form
      case Prefix => s.tokens + [Globstar]
      case Suffix => if |value| == 2 then [Globstar] else s.tokens
      case _ => s.tokens
  }

  /** Whatever a step reads is the spelling of one token. */
  lemma StepIsSpelled(value: string, index: nat, s: Progress, alnum: char -> bool) returns (next: nat, t: Progress, token: Token)
    requires index < |value| && Shape(value, index, s) && Step(value, index, s, alnum).Ok?
    requires value[|value| - 1] != '/' || value == "/"
    ensures Step(value, index, s, alnum) == Ok(t, next) && index < next <= |value|
    ensures SpellsToken(value[index..next], value[next..], token, alnum)
    ensures Full(value, next, t) == Full(value, index, s) + [token]
  {
    next, t := Step(value, index, s, alnum).next, Step(value, index, s, alnum).value;
    var c := value[index];
    if c == '*' {
      token := StarsAreSpelled(value, index, s, alnum);
    } else if c == '[' {
      var cls;
      next, cls := ClassIsSpelled(value, index, alnum);
      token := Class(cls);
    } else {
      token := CharacterIsSpelled(value, index, s, alnum);
    }
  }

  lemma StarsAreSpelled(value: string, index: nat, s: Progress, alnum: char -> bool) returns (token: Token)
    requires index < |value| && Shape(value, index, s) && value[index] == '*'
    requires value[|value| - 1] != '/' || value == "/"
    ensures Step(value, index, s, alnum).Ok?
    ensures var t, next := Step(value, index, s, alnum).value, Step(value, index, s, alnum).next;
            && SpellsToken(value[index..next], value[next..], token, alnum)
            && Full(value, next, t) == Full(value, index, s) + [token]
  {
    var next := Step(value, index, s, alnum).next;
    if index + 1 < |value| && value[index + 1] == '*' {
      token := if next == |value| then Globstar else GlobstarDirectory;
      assert value[index..next] == if next == index + 3 then "**/" else "**";
    } else {
      token := Star;
      assert value[index..next] == "*";
    }
  }

  lemma CharacterIsSpelled(value: string, index: nat, s: Progress, alnum: char -> bool) returns (token: Token)
    requires index < |value| && Shape(value, index, s) && value[index] != '*' && value[index] != '['
    requires Step(value, index, s, alnum).Ok?
    ensures var t, next := Step(value, index, s, alnum).value, Step(value, index, s, alnum).next;
            && SpellsToken(value[index..next], value[next..], token, alnum)
            && Full(value, next, t) == Full(value, index, s) + [token]
  {
    var c, next := value[index], Step(value, index, s, alnum).next;
    if c == '\\' {
      token := Literal(value[index + 1]);
      assert value[index..next] == ['\\', value[index + 1]];
    } else {
      token := if c == '?' then Question else if c == '^' then Anchor else Literal(c);
      assert value[index..next] == [c];
    }
  }

  lemma SpellsTokenFirst(first: string, rest: string, text: string, token: Token, more: seq<Token>, tokens: seq<Token>,
                         alnum: char -> bool)
    requires text == first + rest && tokens == [token] + more
    requires SpellsToken(first, rest, token, alnum) && Spells(rest, more, alnum)
    ensures Spells(text, tokens, alnum)
  {
    assert text[..|first|] == first && text[|first|..] == rest && tokens[1..] == more;
  }

  lemma {:induction false} ScanIsSpelled(value: string, index: nat, s: Progress, done: seq<Token>, alnum: char -> bool)
      returns (tokens: seq<Token>, end: Progress, all: seq<Token>)
    requires index <= |value| && Shape(value, index, s) && Scan(value, index, s, alnum).Ok? && done == Full(value, index, s)
    requires value != "" && (value[|value| - 1] != '/' || value == "/")
    ensures Scan(value, index, s, alnum).value == end && all == Full(value, |value|, end) && all == done + tokens
    ensures Spells(value[index..], tokens, alnum)
    decreases |value| - index
  {
    if index == |value| {
      tokens, end, all := [], s, done;
      assert done + [] == done;
    } else {
      var next, t, token, after := SpelledByStep(value, index, s, done, alnum);
      var rest;
      rest, end, all := ScanIsSpelled(value, next, t, after, alnum);
      tokens := SpellsBoth(value, index, next, token, rest, alnum);
      Regroup(done, token, rest);
    }
  }

  lemma SpelledByStep(value: string, index: nat, s: Progress, done: seq<Token>, alnum: char -> bool)
      returns (next: nat, t: Progress, token: Token, after: seq<Token>)
    requires index < |value| && Shape(value, index, s) && Scan(value, index, s, alnum).Ok? && done == Full(value, index, s)
    requires value[|value| - 1] != '/' || value == "/"
    ensures index < next <= |value| && Shape(value, next, t) && Scan(value, index, s, alnum) == Scan(value, next, t, alnum)
    ensures after == Full(value, next, t) && after == done + [token]
    ensures SpellsToken(value[index..next], value[next..], token, alnum)
  {
    next, t, token := StepIsSpelled(value, index, s, alnum);
    StepShape(value, index, s, alnum);
    ScanUnfolds(value, index, s, next, t, alnum);
    after := Full(value, next, t);
  }

  lemma SpellsBoth(value: string, index: nat, next: nat, token: Token, rest: seq<Token>, alnum: char -> bool) returns (tokens: seq<Token>)
    requires index <= next <= |value|
    requires SpellsToken(value[index..next], value[next..], token, alnum) && Spells(value[next..], rest, alnum)
    ensures tokens == [token] + rest && Spells(value[index..], tokens, alnum)
  {
    tokens := [token] + rest;
    Pieces(value, index, next, |value|);
    SpellsTokenFirst(value[index..next], value[next..], value[index..], token, rest, tokens, alnum);
  }

  // ---------------------------------------------------------------------
  // What is spelled is read
  // ---------------------------------------------------------------------

  lemma SpelledEndRead(value: string, index: nat, text: string, c: char, alnum: char -> bool)
    requires At(value, index, text) && SpellsEnd(text, c, alnum)
    ensures index < |value| && value[index] == text[0]
    ensures ReadClassCharacter(value, index, alnum) == Ok((c, value[index] == '\\'), index + |text|)
    ensures value[index] == '-' ==> text == "-"
    ensures value[index] == ']' ==> text == "]"
  {
    AtChar(value, index, text, 0);
    if |text| == 2 { AtChar(value, index, text, 1); }
  }

  lemma SpelledRangeRead(value: string, index: nat, text: string, range: (char, char), alnum: char -> bool)
    requires SpellsRange(text, range, alnum) && At(value, index, text)
    requires index + |text| < |value| && value[index + |text|] != '-'
    ensures index < |value| && value[index] != ']' && ScanRange(value, index, alnum) == Ok(range, index + |text|)
  {
    var low, high :| RangeText(text, low, high, range, alnum);
    if high == "" {
      SpelledEndRead(value, index, low, range.0, alnum);
    } else {
      assert text == low + ("-" + high);
      AtSplit(value, index, low, "-" + high);
      AtSplit(value, index + |low|, "-", high);
      SpelledEndRead(value, index, low, range.0, alnum);
      SpelledEndRead(value, index + |low| + 1, high, range.1, alnum);
    }
  }

  lemma SpelledRangesHead(value: string, index: nat, body: string, ranges: seq<(char, char)>, done: seq<(char, char)>, alnum: char -> bool)
      returns (next: nat, tail: string, rest: seq<(char, char)>, after: seq<(char, char)>)
    requires At(value, index, body + "]") && SpellsRanges(body, ranges, alnum) && ranges != []
    ensures rest == ranges[1..] && after != [] && after + rest == done + ranges
    ensures At(value, next, tail + "]") && SpellsRanges(tail, rest, alnum) && next + |tail| == index + |body|
    ensures ScanRanges(value, index, done, alnum) == ScanRanges(value, next, after, alnum)
  {
    var first;
    first, tail, rest := FirstSpelledRange(body, ranges, alnum);
    after := done + [ranges[0]];
    MoveHead(done, ranges);
    RestStart(tail, rest, alnum);
    next := AtPieces(value, index, body + "]", first, tail + "]");
    AtChar(value, next, tail + "]", 0);
    SpelledRangeRead(value, index, first, ranges[0], alnum);
  }

  lemma FirstSpelledRange(body: string, ranges: seq<(char, char)>, alnum: char -> bool)
      returns (first: string, tail: string, rest: seq<(char, char)>)
    requires SpellsRanges(body, ranges, alnum) && ranges != []
    ensures body + "]" == first + (tail + "]") && |first| + |tail| == |body| && rest == ranges[1..]
    ensures SpellsRange(first, ranges[0], alnum) && SpellsRanges(tail, rest, alnum)
  {
    var i :| 0 <= i <= |body| && SpellsRange(body[..i], ranges[0], alnum) && SpellsRanges(body[i..], ranges[1..], alnum);
    first, tail, rest := body[..i], body[i..], ranges[1..];
  }

  lemma {:induction false} SpelledRangesRead(value: string, index: nat, body: string, ranges: seq<(char, char)>,
                                             done: seq<(char, char)>, alnum: char -> bool) returns (all: seq<(char, char)>)
    requires At(value, index, body + "]") && SpellsRanges(body, ranges, alnum) && done + ranges != []
    ensures all == done + ranges && ScanRanges(value, index, done, alnum) == Ok(all, index + |body| + 1)
    decreases |ranges|
  {
    if ranges == [] {
      AtChar(value, index, body + "]", 0);
      all := done;
      assert done + ranges == done;
    } else {
      var next, tail, rest, after := SpelledRangesHead(value, index, body, ranges, done, alnum);
      all := SpelledRangesRead(value, next, tail, rest, after, alnum);
    }
  }

  lemma SpelledClassRead(value: string, index: nat, text: string, cls: CharClass, alnum: char -> bool)
    requires At(value, index, text) && SpellsClass(text, cls, alnum)
    ensures index < |value| && value[index] == '['
    ensures ScanClass(value, index, alnum) == Ok(cls, index + |text|)
  {
    var open, body := ClassBody(text, cls, alnum);
    var start := AtPieces(value, index, text, open, body + "]");
    ClassOpens(value, index, open, start, body, cls.negated);
    SpelledBodyRead(value, start, body, cls.ranges, alnum);
  }

  lemma ClassOpens(value: string, index: nat, open: string, start: nat, body: string, negated: bool)
    requires At(value, index, open) && start == index + |open| && At(value, start, body + "]")
    requires open == (if negated then "[^" else "[") && (!negated ==> body != "" && body[0] != '^')
    ensures value[index] == '[' && (negated <==> index + 1 < |value| && value[index + 1] == '^')
    ensures start == if negated then index + 2 else index + 1
  {
    AtChar(value, index, open, 0);
    if negated { AtChar(value, index, open, 1); } else { AtChar(value, start, body + "]", 0); }
  }

  lemma ClassBody(text: string, cls: CharClass, alnum: char -> bool) returns (open: string, body: string)
    requires SpellsClass(text, cls, alnum)
    ensures open == (if cls.negated then "[^" else "[") && text == open + (body + "]")
    ensures SpellsRanges(body, cls.ranges, alnum) && (!cls.negated ==> body != "" && body[0] != '^')
  {
    open := if cls.negated then "[^" else "[";
    body :| text == open + body + "]" && SpellsRanges(body, cls.ranges, alnum) && (!cls.negated ==> body != "" && body[0] != '^');
  }

  lemma SpelledBodyRead(value: string, index: nat, body: string, ranges: seq<(char, char)>, alnum: char -> bool)
    requires At(value, index, body + "]") && SpellsRanges(body, ranges, alnum) && ranges != []
    ensures ScanRanges(value, index, [], alnum) == Ok(ranges, index + |body| + 1)
  {
    var all := SpelledRangesRead(value, index, body, ranges, [], alnum);
    assert all == ranges;
  }

  /** The step reads the spelling, all of it and nothing more. */
  lemma SpelledTokenRead(value: string, index: nat, text: string, rest: string, token: Token, s: Progress, alnum: char -> bool)
      returns (t: Progress)
    requires At(value, index, text) && At(value, index + |text|, rest) && index + |text| + |rest| == |value|
    requires SpellsToken(text, rest, token, alnum) && index < |value| && Shape(value, index, s)
    ensures Step(value, index, s, alnum) == Ok(t, index + |text|)
    ensures Full(value, index + |text|, t) == Full(value, index, s) + [token]
  {
    match token {
      case Class(cls) => SpelledClassRead(value, index, text, cls, alnum);
      case Literal(c) =>
        AtChar(value, index, text, 0);
        if |text| == 2 { AtChar(value, index, text, 1); }
      case Anchor => AtChar(value, index, text, 0);
      case Question => AtChar(value, index, text, 0);
      case _ => SpelledStarsRead(value, index, text, rest, token, s, alnum);
    }
    t := Step(value, index, s, alnum).value;
  }

  lemma SpelledStarsRead(value: string, index: nat, text: string, rest: string, token: Token, s: Progress, alnum: char -> bool)
    requires At(value, index, text) && At(value, index + |text|, rest) && index + |text| + |rest| == |value|
    requires SpellsToken(text, rest, token, alnum) && index < |value| && Shape(value, index, s)
    requires token.Star? || token.Globstar? || token.GlobstarDirectory?
    ensures Step(value, index, s, alnum).Ok? && Step(value, index, s, alnum).next == index + |text|
    ensures Full(value, index + |text|, Step(value, index, s, alnum).value) == Full(value, index, s) + [token]
  {
    AtChar(value, index, text, 0);
    if |text| >= 2 { AtChar(value, index, text, 1); }
    if |text| == 3 { AtChar(value, index, text, 2); }
    if rest != "" { AtChar(value, index + |text|, rest, 0); }
  }

  lemma SpelledHead(value: string, index: nat, text: string, tokens: seq<Token>, s: Progress, done: seq<Token>, alnum: char -> bool)
      returns (next: nat, t: Progress, tail: string, rest: seq<Token>, after: seq<Token>)
    requires index < |value| && At(value, index, text) && index + |text| == |value| && Shape(value, index, s)
    requires Spells(text, tokens, alnum) && tokens != [] && done == Full(value, index, s)
    ensures rest == tokens[1..] && after + rest == done + tokens
    ensures At(value, next, tail) && Spells(tail, rest, alnum) && next + |tail| == |value|
    ensures Step(value, index, s, alnum) == Ok(t, next) && after == Full(value, next, t)
  {
    var first;
    first, tail, rest := FirstSpelledToken(text, tokens, alnum);
    next := AtPieces(value, index, text, first, tail);
    t, after := SpelledStep(value, index, first, next, tail, tokens[0], s, done, alnum);
    Regrouped(done, tokens, rest, after);
  }

  lemma SpelledStep(value: string, index: nat, text: string, next: nat, rest: string, token: Token, s: Progress, done: seq<Token>,
                    alnum: char -> bool) returns (t: Progress, after: seq<Token>)
    requires At(value, index, text) && next == index + |text| && At(value, next, rest) && next + |rest| == |value|
    requires SpellsToken(text, rest, token, alnum) && index < |value| && Shape(value, index, s) && done == Full(value, index, s)
    ensures Step(value, index, s, alnum) == Ok(t, next) && after == Full(value, next, t) && after == done + [token]
  {
    t := SpelledTokenRead(value, index, text, rest, token, s, alnum);
    after := Full(value, next, t);
  }

  lemma Regrouped<T>(before: seq<T>, items: seq<T>, rest: seq<T>, after: seq<T>)
    requires items != [] && rest == items[1..] && after == before + [items[0]]
    ensures after + rest == before + items
  {
  }

  lemma FirstSpelledToken(text: string, tokens: seq<Token>, alnum: char -> bool) returns (first: string, tail: string, rest: seq<Token>)
    requires Spells(text, tokens, alnum) && tokens != []
    ensures text == first + tail && rest == tokens[1..]
    ensures SpellsToken(first, tail, tokens[0], alnum) && Spells(tail, rest, alnum)
  {
    var i :| 0 <= i <= |text| && SpellsToken(text[..i], text[i..], tokens[0], alnum) && Spells(text[i..], tokens[1..], alnum);
    first, tail, rest := text[..i], text[i..], tokens[1..];
  }

  lemma {:induction false} SpelledIsScanned(value: string, index: nat, text: string, tokens: seq<Token>, s: Progress, done: seq<Token>,
                                            alnum: char -> bool) returns (end: Progress, all: seq<Token>)
    requires At(value, index, text) && index + |text| == |value| && Shape(value, index, s) && done == Full(value, index, s)
    requires value != "" && (value[|value| - 1] != '/' || value == "/")
    requires Spells(text, tokens, alnum)
    ensures Scan(value, index, s, alnum) == Ok(end, |value|) && all == Full(value, |value|, end) && all == done + tokens
    decreases |tokens|
  {
    if tokens == [] {
      end, all := s, done;
      assert done + [] == done;
    } else {
      SpelledNotEmpty(text, tokens, alnum);
      var next, t, tail, rest, after := SpelledHead(value, index, text, tokens, s, done, alnum);
      StepShape(value, index, s, alnum);
      ScanUnfolds(value, index, s, next, t, alnum);
      end, all := SpelledIsScanned(value, next, tail, rest, t, after, alnum);
    }
  }

  lemma SpelledNotEmpty(text: string, tokens: seq<Token>, alnum: char -> bool)
    requires Spells(text, tokens, alnum) && tokens != []
    ensures text != ""
  {
    var i :| 0 <= i <= |text| && SpellsToken(text[..i], text[i..], tokens[0], alnum) && Spells(text[i..], tokens[1..], alnum);
  }

  // ---------------------------------------------------------------------
  // The compiler
  // ---------------------------------------------------------------------

  /** No character has a meaning of its own, apart from the caret. */
  predicate PlainText(text: string) {
    forall k :: 0 <= k < |text| ==> text[k] !in "*?[\\"
  }

  /** The form that a value gets: exact for plain text, prefix when a double star follows
      some, suffix when it follows a double star, and otherwise the tokens. */
  function FormOf(value: string): MatchType {
    if PlainText(value) then Exact
    else if |value| > 2 && value[|value| - 2..] == "**" && PlainText(value[..|value| - 2]) then Prefix
    else if |value| >= 2 && value[..2] == "**" && PlainText(value[2..]) then Suffix
    else Tokens
  }

  /** The form while the value is read; and a star read by itself is not followed by one. */
  ghost predicate FormAt(value: string, index: nat, s: Progress)
    requires index <= |value|
  {
    && (s.form == Exact <==> PlainText(value[..index]))
    && (s.form == Prefix <==> EndsInStars(value, index))
    && (s.form == Suffix <==> StartsWithStars(value, index))
    && !(0 < index < |value| && value[index - 1] == '*' && value[index] == '*' && PlainText(value[..index - 1]))
  }

  /** All of the value is read, and a double star ends it after some plain text. */
  predicate EndsInStars(value: string, index: nat)
    requires index <= |value|
  {
    index == |value| && |value| > 2 && value[|value| - 2..] == "**" && PlainText(value[..|value| - 2])
  }

  /** A double star is read, and plain text after it. */
  predicate StartsWithStars(value: string, index: nat)
    requires index <= |value|
  {
    index >= 2 && value[..2] == "**" && PlainText(value[2..index])
  }

  lemma FormDecided(value: string, s: Progress)
    requires FormAt(value, |value|, s)
    ensures s.form == FormOf(value)
  {
    assert value[..|value|] == value;
    assert |value| >= 2 ==> value[2..|value|] == value[2..];
  }

  lemma PlainWith(text: string, c: char, longer: string)
    requires longer == text + [c] && c !in "*?[\\"
    ensures PlainText(longer) <==> PlainText(text)
  {
    assert forall k :: 0 <= k < |text| ==> longer[k] == text[k];
  }

  /** One more plain character. */
  lemma PlainStepForm(value: string, index: nat, s: Progress, t: Progress)
    requires index < |value| && FormAt(value, index, s) && value[index] !in "*?[\\" && t.form == s.form
    ensures FormAt(value, index + 1, t)
  {
    PlainWith(value[..index], value[index], value[..index + 1]);
    if index >= 2 { PlainWith(value[2..index], value[index], value[2..index + 1]); }
    if index + 1 == |value| && |value| > 2 { assert value[|value| - 2..][1] == value[index]; }
    if index + 1 == 2 { assert value[..2][1] == value[1]; }
  }

  /** A character with a meaning, anywhere in a text. */
  lemma NotPlain(text: string, k: nat)
    requires k < |text| && text[k] in "*?[\\"
    ensures !PlainText(text)
  {
  }

  /** A character with a meaning is read, and not two stars with plain text around them. */
  lemma NotStarsAround(value: string, index: nat, next: nat)
    requires index < next <= |value| && value[index] in "*?[\\"
    requires value[index] == '*' ==> next == index + 1 && (next == |value| || value[next] != '*')
    requires !(0 < index && value[index - 1] == '*' && value[index] == '*' && PlainText(value[..index - 1]))
    ensures !EndsInStars(value, next) && !StartsWithStars(value, next)
  {
    if |value| >= 2 {
      var n := |value| - 2;
      assert value[..2][0] == value[0] && value[..2][1] == value[1];
      assert value[n..][0] == value[n] && value[n..][1] == value[n + 1];
      assert value[..0] == "";
      if index < n { NotPlain(value[..n], index); }
      if index >= 2 { NotPlain(value[2..next], index - 2); }
    }
  }

  /** A character with a meaning of its own, and what belongs to it; not two stars. */
  lemma SpecialStepForm(value: string, index: nat, next: nat, s: Progress, t: Progress)
    requires index < next <= |value| && FormAt(value, index, s) && t.form == Tokens
    requires value[index] in "*?[\\"
    requires value[index] == '*' ==> next == index + 1 && (next == |value| || value[next] != '*')
    ensures FormAt(value, next, t)
  {
    NotPlain(value[..next], index);
    NotStarsAround(value, index, next);
    if next - 1 > index { NotPlain(value[..next - 1], index); }
  }

  /** A double star that is not the first. */
  lemma LaterStars(value: string, index: nat, next: nat)
    requires 0 < index && index + 2 <= next <= |value| && value[index] == '*' && value[index + 1] == '*'
    requires !(value[index - 1] == '*' && PlainText(value[..index - 1]))
    ensures !StartsWithStars(value, next)
  {
    assert value[..2][0] == value[0] && value[..2][1] == value[1];
    assert value[..0] == "";
    if index >= 2 { NotPlain(value[2..next], index - 2); }
  }

  lemma FirstStars(value: string, next: nat, t: Progress)
    requires 2 <= next <= |value| && value[0] == '*' && value[1] == '*' && t.form == Suffix
    requires next == (if 2 < |value| && value[2] == '/' then 3 else 2)
    requires value[|value| - 1] != '/'
    ensures FormAt(value, next, t)
  {
    NotPlain(value[..next], 0);
    NotPlain(value[..next - 1], 0);
    assert value[..2] == "**" && (next == 2 || value[2..next] == "/");
  }

  /** A double star, with the slash after it. */
  lemma StarsStepForm(value: string, index: nat, next: nat, s: Progress, t: Progress)
    requires 0 < index && index + 2 <= next <= |value| && FormAt(value, index, s) && value[index] == '*' && value[index + 1] == '*'
    requires next == (if index + 2 < |value| && value[index + 2] == '/' then index + 3 else index + 2)
    requires value[|value| - 1] != '/'
    requires t.form == if next == |value| && s.form == Exact then Prefix else Tokens
    ensures FormAt(value, next, t)
  {
    NotPlain(value[..next], index);
    NotPlain(value[..next - 1], index);
    LaterStars(value, index, next);
    if next == |value| {
      assert value[|value| - 2..] == "**" && value[..|value| - 2] == value[..index];
    }
  }

  lemma StepForm(value: string, index: nat, s: Progress, alnum: char -> bool)
    requires index < |value| && Shape(value, index, s) && FormAt(value, index, s) && Step(value, index, s, alnum).Ok?
    requires value[|value| - 1] != '/' || value == "/"
    ensures FormAt(value, Step(value, index, s, alnum).next, Step(value, index, s, alnum).value)
  {
    var next, t := Step(value, index, s, alnum).next, Step(value, index, s, alnum).value;
    if value[index] == '*' && index + 1 < |value| && value[index + 1] == '*' {
      if index == 0 { FirstStars(value, next, t); } else { StarsStepForm(value, index, next, s, t); }
    } else if value[index] in "*?[\\" {
      SpecialStepForm(value, index, next, s, t);
    } else {
      PlainStepForm(value, index, s, t);
    }
  }

  lemma {:induction false} ScanForm(value: string, index: nat, s: Progress, alnum: char -> bool)
    requires index <= |value| && Shape(value, index, s) && FormAt(value, index, s) && Scan(value, index, s, alnum).Ok?
    requires value != "" && (value[|value| - 1] != '/' || value == "/")
    ensures Scan(value, index, s, alnum).value.form == FormOf(value)
    decreases |value| - index
  {
    if index == |value| {
      FormDecided(value, s);
    } else {
      StepShape(value, index, s, alnum);
      StepForm(value, index, s, alnum);
      var r := Step(value, index, s, alnum);
      ScanUnfolds(value, index, s, r.next, r.value, alnum);
      ScanForm(value, r.next, r.value, alnum);
    }
  }

  /** The value belongs to the language. */
  ghost predicate Readable(value: string, alnum: char -> bool) {
    exists tokens :: Spells(value, tokens, alnum)
  }

  lemma FullAtEnd(value: string, exclusion: bool, s: Progress)
    requires s.form == Suffix ==> |value| >= 2
    ensures Full(value, |value|, s) == Recorded(Pattern(value, exclusion, s.form, s.tokens))
  {
  }

  lemma ScanExactly(value: string, tokens: seq<Token>, alnum: char -> bool)
    requires value != "" && (value[|value| - 1] != '/' || value == "/")
    ensures Scan(value, 0, START, alnum).Ok? <==> Readable(value, alnum)
    ensures Spells(value, tokens, alnum) <==>
            Scan(value, 0, START, alnum).Ok? && Full(value, |value|, Scan(value, 0, START, alnum).value) == tokens
    ensures Scan(value, 0, START, alnum).Ok? ==> Scan(value, 0, START, alnum).value.form == FormOf(value)
  {
    assert value[0..] == value && value[..0] == "";
    assert Full(value, 0, START) == [];
    if Scan(value, 0, START, alnum).Ok? {
      var read, end, all := ScanIsSpelled(value, 0, START, [], alnum);
      assert all == read;
      ScanForm(value, 0, START, alnum);
    }
    if Spells(value, tokens, alnum) { SpelledWhole(value, tokens, alnum); }
    if Readable(value, alnum) {
      var other :| Spells(value, other, alnum);
      SpelledWhole(value, other, alnum);
    }
  }

  lemma SpelledWhole(value: string, tokens: seq<Token>, alnum: char -> bool)
    requires value != "" && (value[|value| - 1] != '/' || value == "/") && Spells(value, tokens, alnum)
    ensures Scan(value, 0, START, alnum).Ok? && Full(value, |value|, Scan(value, 0, START, alnum).value) == tokens
  {
    assert value[..0] == "";
    assert Full(value, 0, START) == [];
    var end, all := SpelledIsScanned(value, 0, value, tokens, START, [], alnum);
    assert all == tokens;
  }

  /** A line is accepted exactly when its value is not empty, has no NUL and belongs to the
      language. Then the recorded tokens are those that the value spells, and no others
      are; the form is the one its text calls for; and the polarity is that of the line. */
  lemma CompiledExactly(line: string, tokens: seq<Token>, alnum: char -> bool)
    ensures var (value, exclusion) := LineValue(line);
            var r := Compile(line, alnum);
            && (r.Accepted? <==> value != "" && '\0' !in value && Readable(value, alnum))
            && (r.Accepted? ==>
                  && r.pattern.value == value && r.pattern.exclusion == exclusion && r.pattern.matchType == FormOf(value)
                  && (Spells(value, tokens, alnum) <==> tokens == Recorded(r.pattern)))
  {
    var (value, exclusion) := LineValue(line);
    LineValueTrailing(line);
    if value != "" {
      ScanExactly(value, tokens, alnum);
      if Scan(value, 0, START, alnum).Ok? { FullAtEnd(value, exclusion, Scan(value, 0, START, alnum).value); }
    }
  }

  // ---------------------------------------------------------------------
  // Lines
  // ---------------------------------------------------------------------

  ghost predicate AllSpace(s: string) {
    forall k :: 0 <= k < |s| ==> IsSpace(s[k])
  }

  /** Trimming takes spaces off both ends and leaves none there. */
  lemma {:induction false} TrimExactly(s: string) returns (front: string, back: string)
    ensures s == front + TrimSpace(s) + back && AllSpace(front) && AllSpace(back)
    ensures var t := TrimSpace(s); t != "" ==> !IsSpace(t[0]) && !IsSpace(t[|t| - 1])
    decreases |s|
  {
    if s == "" {
      front, back := "", "";
    } else if IsSpace(s[0]) {
      front, back := TrimExactly(s[1..]);
      front := SpaceBefore(s, front, TrimSpace(s[1..]), back);
    } else if IsSpace(s[|s| - 1]) {
      front, back := TrimExactly(s[..|s| - 1]);
      back := SpaceAfter(s, front, TrimSpace(s[..|s| - 1]), back);
    } else {
      front, back := "", "";
    }
  }

  lemma SpaceBefore(s: string, front: string, middle: string, back: string) returns (all: string)
    requires s != "" && IsSpace(s[0]) && s[1..] == front + middle + back && AllSpace(front)
    ensures AllSpace(all) && s == all + middle + back
  {
    all := [s[0]] + front;
    assert s == [s[0]] + s[1..];
    assert [s[0]] + (front + middle + back) == all + middle + back;
  }

  lemma SpaceAfter(s: string, front: string, middle: string, back: string) returns (all: string)
    requires s != "" && IsSpace(s[|s| - 1]) && s[..|s| - 1] == front + middle + back && AllSpace(back)
    ensures AllSpace(all) && s == front + middle + all
  {
    var n := |s| - 1;
    all := back + [s[n]];
    assert s == s[..n] + [s[n]];
    assert (front + middle + back) + [s[n]] == front + middle + all;
  }

  /** Cleaning collapses the segments and keeps at most one slash in front. */
  lemma CleanExactly(p: string)
    ensures var rooted := p != "" && p[0] == '/';
            var text := (if rooted then "/" else "") + Join(Collapse(Split(p), rooted, []));
            CleanPattern(p) == if text == "" then "." else text
  {
    var rooted := p != "" && p[0] == '/';
    var comps := Collapse(Split(p), rooted, []);
    if p == "" {
      assert Split("") == [""] && [""][1..] == [];
    } else {
      SplitSlashFree(p);
      CollapseKeeps(Split(p), rooted, []);
      var lead, text := LeadingSlashes(p), Join(comps);
      if comps != [] { JoinCleanEnds(comps); }
      OneSlash(lead, text);
    }
  }

  lemma OneSlash(lead: string, text: string)
    requires lead == "" || lead == "/" || lead == "//"
    requires text != "" ==> text[0] != '/'
    ensures var n := if lead + text == "" then "." else lead + text;
            OneLeading(n) == if lead + text == "" then "." else (if lead == "" then "" else "/") + text
  {
    var n := lead + text;
    if lead == "//" {
      assert n[..2] == "//" && n[1..] == "/" + text && n[1..][1..] == text;
      assert StripLeading(text) == text;
      assert StripLeading("/" + text) == text;
    } else if |n| >= 2 {
      assert n[..2][0] == n[0] && n[..2][1] == n[1];
      assert lead == "/" ==> n[1] == text[0];
    }
  }
}
