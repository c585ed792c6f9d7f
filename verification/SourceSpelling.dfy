/** The language of COPY source patterns: which texts spell which tokens, and that the
    segment compiler reads exactly this language. */
module SourceSpelling {
  import opened Sequences
  import opened CharacterClasses
  import opened SourceGlob

  // ---------------------------------------------------------------------
  // The language
  // ---------------------------------------------------------------------

  /** A character that can begin or end a range. */
  predicate RangeCharacter(c: char) {
    c != '-' && c != ']'
  }

  /** `c`, or `a-b`. */
  predicate SpellsRange(text: string, range: (char, char)) {
    && RangeCharacter(range.0) && RangeCharacter(range.1)
    && (text == [range.0, '-', range.1] || (text == [range.0] && range.0 == range.1))
  }

  ghost predicate SpellsRanges(text: string, ranges: seq<(char, char)>) {
    if ranges == [] then text == ""
    else exists i :: 0 <= i <= |text| && SpellsRange(text[..i], ranges[0]) && SpellsRanges(text[i..], ranges[1..])
  }

  /** `[ranges]` or `[^ranges]`, with at least one range; a caret in front of the ranges
      always negates. */
  ghost predicate SpellsClass(text: string, cls: CharClass) {
    cls.ranges != [] && exists body ::
      && text == (if cls.negated then "[^" else "[") + body + "]"
      && SpellsRanges(body, cls.ranges)
      && (!cls.negated ==> body != "" && body[0] != '^')
  }

  ghost predicate SpellsToken(text: string, token: GlobToken) {
    match token
    case Ch(c) => text == [c] && c != '['
    case Cls(cls) => SpellsClass(text, cls)
  }

  /** The text is the tokens' spellings, one after the other. */
  ghost predicate Spells(text: string, tokens: Glob) {
    if tokens == [] then text == ""
    else exists i :: 0 <= i <= |text| && SpellsToken(text[..i], tokens[0]) && Spells(text[i..], tokens[1..])
  }

  // ---------------------------------------------------------------------
  // What is read is spelled
  // ---------------------------------------------------------------------

  lemma SpellsFirst(first: string, rest: string, text: string, range: (char, char), ranges: seq<(char, char)>,
                    all: seq<(char, char)>)
    requires text == first + rest && all == [range] + ranges
    requires SpellsRange(first, range) && SpellsRanges(rest, ranges)
    ensures SpellsRanges(text, all)
  {
    assert text[..|first|] == first && text[|first|..] == rest && all[1..] == ranges;
  }

  lemma Regroup<T>(done: seq<T>, first: T, rest: seq<T>)
    ensures (done + [first]) + rest == done + ([first] + rest)
  {
  }

  lemma Pieces(text: string, from: nat, middle: nat, to: nat)
    requires from <= middle <= to <= |text|
    ensures text[from..to] == text[from..middle] + text[middle..to]
  {
  }

  /** The first range read. */
  lemma FirstRange(segment: string, index: nat, done: seq<(char, char)>)
      returns (next: nat, range: (char, char), after: seq<(char, char)>)
    requires index <= |segment| && ParseRanges(segment, index, done).Ok? && segment[index] != ']'
    ensures index < next <= |segment| && after == done + [range] && SpellsRange(segment[index..next], range)
    ensures ParseRanges(segment, index, done) == ParseRanges(segment, next, after)
  {
    var wide := segment[index + 1] == '-';
    next := if wide then index + 3 else index + 1;
    range := (segment[index], if wide then segment[index + 2] else segment[index]);
    after := done + [range];
    assert segment[index..next] == if wide then [range.0, '-', range.1] else [range.0];
  }

  /** The ranges read between an index and the closing bracket. */
  lemma {:induction false} RangesAreSpelled(segment: string, index: nat, done: seq<(char, char)>)
      returns (end: nat, ranges: seq<(char, char)>)
    requires index <= |segment| && ParseRanges(segment, index, done).Ok?
    ensures index <= end < |segment| && ParseRanges(segment, index, done) == Ok(done + ranges, end + 1)
    ensures SpellsRanges(segment[index..end], ranges)
    decreases |segment| - index
  {
    if segment[index] == ']' {
      end, ranges := index, [];
      assert done + [] == done;
    } else {
      var next, range, after := FirstRange(segment, index, done);
      var rest;
      end, rest := RangesAreSpelled(segment, next, after);
      ranges := [range] + rest;
      Regroup(done, range, rest);
      Pieces(segment, index, next, end);
      SpellsFirst(segment[index..next], segment[next..end], segment[index..end], range, rest, ranges);
    }
  }

  lemma ClassIsSpelled(segment: string, index: nat) returns (next: nat, cls: CharClass)
    requires index < |segment| && segment[index] == '[' && ParseClass(segment, index).Ok?
    ensures ParseClass(segment, index) == Ok(cls, next) && index < next <= |segment|
    ensures SpellsClass(segment[index..next], cls)
  {
    next, cls := ParseClass(segment, index).next, ParseClass(segment, index).value;
    var start := if cls.negated then index + 2 else index + 1;
    var end, ranges := RangesAreSpelled(segment, start, []);
    assert [] + ranges == ranges;
    var open, body := if cls.negated then "[^" else "[", segment[start..end];
    RestStart(body, ranges);
    assert body != "" && body[0] == segment[start];
    ClassText(segment, index, start, next, open, body);
  }

  lemma ClassText(segment: string, index: nat, start: nat, next: nat, open: string, body: string)
    requires index <= start < next <= |segment| && segment[next - 1] == ']'
    requires segment[index..start] == open && segment[start..next - 1] == body
    ensures segment[index..next] == open + body + "]"
  {
  }

  /** The first token read. */
  lemma FirstToken(segment: string, index: nat, done: Glob) returns (next: nat, token: GlobToken, after: Glob)
    requires index < |segment| && CompileFrom(segment, index, done).Ok?
    ensures index < next <= |segment| && after == done + [token] && SpellsToken(segment[index..next], token)
    ensures CompileFrom(segment, index, done) == CompileFrom(segment, next, after)
  {
    if segment[index] == '[' {
      var cls;
      next, cls := ClassIsSpelled(segment, index);
      token := Cls(cls);
    } else {
      next, token := index + 1, Ch(segment[index]);
      assert segment[index..next] == [segment[index]];
    }
    after := done + [token];
  }

  lemma SpellsTokenFirst(first: string, rest: string, text: string, token: GlobToken, more: Glob, tokens: Glob)
    requires text == first + rest && tokens == [token] + more
    requires SpellsToken(first, token) && Spells(rest, more)
    ensures Spells(text, tokens)
  {
    assert text[..|first|] == first && text[|first|..] == rest && tokens[1..] == more;
  }

  lemma {:induction false} CompiledIsSpelled(segment: string, index: nat, done: Glob) returns (tokens: Glob)
    requires index <= |segment| && CompileFrom(segment, index, done).Ok?
    ensures CompileFrom(segment, index, done) == Ok(done + tokens, |segment|)
    ensures Spells(segment[index..], tokens)
    decreases |segment| - index
  {
    if index == |segment| {
      tokens := [];
      assert done + [] == done;
    } else {
      var next, token, after := FirstToken(segment, index, done);
      var rest := CompiledIsSpelled(segment, next, after);
      tokens := [token] + rest;
      Regroup(done, token, rest);
      Pieces(segment, index, next, |segment|);
      SpellsTokenFirst(segment[index..next], segment[next..], segment[index..], token, rest, tokens);
    }
  }

  // ---------------------------------------------------------------------
  // What is spelled is read
  // ---------------------------------------------------------------------

  /** The first of several spelled ranges. */
  lemma SpelledRangesHead(segment: string, index: nat, body: string, ranges: seq<(char, char)>, done: seq<(char, char)>)
      returns (next: nat, tail: string, rest: seq<(char, char)>, after: seq<(char, char)>)
    requires At(segment, index, body + "]") && SpellsRanges(body, ranges) && ranges != []
    ensures rest == ranges[1..] && after != [] && after + rest == done + ranges
    ensures At(segment, next, tail + "]") && SpellsRanges(tail, rest) && next + |tail| == index + |body|
    ensures ParseRanges(segment, index, done) == ParseRanges(segment, next, after)
  {
    var first;
    first, tail, rest := FirstSpelledRange(body, ranges);
    after := done + [ranges[0]];
    MoveHead(done, ranges);
    RestStart(tail, rest);
    next := AtPieces(segment, index, body + "]", first, tail + "]");
    SpelledRangeRead(segment, index, first, ranges[0], done, after);
  }

  lemma FirstSpelledRange(body: string, ranges: seq<(char, char)>) returns (first: string, tail: string, rest: seq<(char, char)>)
    requires SpellsRanges(body, ranges) && ranges != []
    ensures body + "]" == first + (tail + "]") && |first| + |tail| == |body| && rest == ranges[1..]
    ensures SpellsRange(first, ranges[0]) && SpellsRanges(tail, rest)
  {
    var i :| 0 <= i <= |body| && SpellsRange(body[..i], ranges[0]) && SpellsRanges(body[i..], ranges[1..]);
    first, tail, rest := body[..i], body[i..], ranges[1..];
  }

  lemma SpelledRangeRead(segment: string, index: nat, text: string, range: (char, char), done: seq<(char, char)>,
                         after: seq<(char, char)>)
    requires SpellsRange(text, range) && At(segment, index, text) && after == done + [range]
    requires index + |text| < |segment| && segment[index + |text|] != '-'
    ensures ParseRanges(segment, index, done) == ParseRanges(segment, index + |text|, after)
  {
    AtChar(segment, index, text, 0);
    if |text| == 3 {
      AtChar(segment, index, text, 1);
      AtChar(segment, index, text, 2);
    }
  }

  lemma {:induction false} SpelledRangesRead(segment: string, index: nat, body: string, ranges: seq<(char, char)>,
                                             done: seq<(char, char)>) returns (all: seq<(char, char)>)
    requires At(segment, index, body + "]") && SpellsRanges(body, ranges) && done + ranges != []
    ensures all == done + ranges && ParseRanges(segment, index, done) == Ok(all, index + |body| + 1)
    decreases |ranges|
  {
    if ranges == [] {
      AtChar(segment, index, body + "]", 0);
      all := done;
      assert done + ranges == done;
    } else {
      var next, tail, rest, after := SpelledRangesHead(segment, index, body, ranges, done);
      all := SpelledRangesRead(segment, next, tail, rest, after);
    }
  }

  /** What follows a range is another one, or the end. */
  lemma RestStart(body: string, ranges: seq<(char, char)>)
    requires SpellsRanges(body, ranges)
    ensures (body + "]")[0] != '-'
    ensures ranges != [] ==> body != ""
  {
    if ranges != [] {
      var i :| 0 <= i <= |body| && SpellsRange(body[..i], ranges[0]) && SpellsRanges(body[i..], ranges[1..]);
      assert body[..i][0] == body[0];
    }
  }

  lemma SpelledClassRead(segment: string, index: nat, text: string, cls: CharClass)
    requires At(segment, index, text) && SpellsClass(text, cls)
    ensures index < |segment| && segment[index] == '['
    ensures ParseClass(segment, index) == Ok(cls, index + |text|)
  {
    var open, body := ClassBody(text, cls);
    var start := AtPieces(segment, index, text, open, body + "]");
    AtChar(segment, index, open, 0);
    if cls.negated { AtChar(segment, index, open, 1); } else { AtChar(segment, start, body + "]", 0); }
    SpelledBodyRead(segment, start, body, cls.ranges);
  }

  lemma ClassBody(text: string, cls: CharClass) returns (open: string, body: string)
    requires SpellsClass(text, cls)
    ensures open == (if cls.negated then "[^" else "[") && text == open + (body + "]")
    ensures SpellsRanges(body, cls.ranges) && (!cls.negated ==> body != "" && body[0] != '^')
  {
    open := if cls.negated then "[^" else "[";
    body :| text == open + body + "]" && SpellsRanges(body, cls.ranges) && (!cls.negated ==> body != "" && body[0] != '^');
  }

  lemma SpelledBodyRead(segment: string, index: nat, body: string, ranges: seq<(char, char)>)
    requires At(segment, index, body + "]") && SpellsRanges(body, ranges) && ranges != []
    ensures ParseRanges(segment, index, []) == Ok(ranges, index + |body| + 1)
  {
    var all := SpelledRangesRead(segment, index, body, ranges, []);
    assert all == ranges;
  }

  lemma SpelledTokenRead(segment: string, index: nat, text: string, token: GlobToken, done: Glob, after: Glob)
    requires At(segment, index, text) && SpellsToken(text, token) && after == done + [token]
    ensures CompileFrom(segment, index, done) == CompileFrom(segment, index + |text|, after)
  {
    match token
    case Ch(c) => AtChar(segment, index, text, 0);
    case Cls(cls) => SpelledClassRead(segment, index, text, cls);
  }

  lemma SpelledHead(segment: string, index: nat, text: string, tokens: Glob, done: Glob)
      returns (next: nat, tail: string, rest: Glob, after: Glob)
    requires At(segment, index, text) && Spells(text, tokens) && tokens != []
    ensures rest == tokens[1..] && after + rest == done + tokens
    ensures At(segment, next, tail) && Spells(tail, rest) && next + |tail| == index + |text|
    ensures CompileFrom(segment, index, done) == CompileFrom(segment, next, after)
  {
    var first;
    first, tail, rest := FirstSpelledToken(text, tokens);
    after := done + [tokens[0]];
    MoveHead(done, tokens);
    next := AtPieces(segment, index, text, first, tail);
    SpelledTokenRead(segment, index, first, tokens[0], done, after);
  }

  lemma FirstSpelledToken(text: string, tokens: Glob) returns (first: string, tail: string, rest: Glob)
    requires Spells(text, tokens) && tokens != []
    ensures text == first + tail && rest == tokens[1..] && SpellsToken(first, tokens[0]) && Spells(tail, rest)
  {
    var i :| 0 <= i <= |text| && SpellsToken(text[..i], tokens[0]) && Spells(text[i..], tokens[1..]);
    first, tail, rest := text[..i], text[i..], tokens[1..];
  }

  lemma {:induction false} SpelledIsCompiled(segment: string, index: nat, text: string, tokens: Glob, done: Glob)
      returns (all: Glob)
    requires At(segment, index, text) && index + |text| == |segment| && Spells(text, tokens)
    ensures all == done + tokens && CompileFrom(segment, index, done) == Ok(all, |segment|)
    decreases |tokens|
  {
    if tokens == [] {
      all := done;
      assert done + tokens == done;
    } else {
      var next, tail, rest, after := SpelledHead(segment, index, text, tokens, done);
      all := SpelledIsCompiled(segment, next, tail, rest, after);
    }
  }

  // ---------------------------------------------------------------------
  // The compiler
  // ---------------------------------------------------------------------

  lemma SpelledWhole(segment: string, tokens: Glob)
    requires Spells(segment, tokens)
    ensures CompileFrom(segment, 0, []) == Ok(tokens, |segment|)
  {
    var all := SpelledIsCompiled(segment, 0, segment, tokens, []);
    assert all == tokens;
  }

  lemma CompiledWhole(segment: string) returns (tokens: Glob)
    requires CompileFrom(segment, 0, []).Ok?
    ensures Spells(segment, tokens)
  {
    tokens := CompiledIsSpelled(segment, 0, []);
    assert segment[0..] == segment;
  }

  /** The text belongs to the language. */
  ghost predicate Readable(segment: string) {
    exists tokens :: Spells(segment, tokens)
  }

  /** The compiler accepts exactly the texts of the language, each as the tokens it
      spells. */
  lemma CompiledExactly(segment: string, tokens: Glob)
    ensures CompileFrom(segment, 0, []) == Ok(tokens, |segment|) <==> Spells(segment, tokens)
    ensures CompileFrom(segment, 0, []).Ok? <==> Readable(segment)
  {
    if CompileFrom(segment, 0, []).Ok? {
      var read := CompiledWhole(segment);
      SpelledWhole(segment, read);
      assert Readable(segment);
    }
    if Readable(segment) {
      var other :| Spells(segment, other);
      SpelledWhole(segment, other);
    }
    if Spells(segment, tokens) { SpelledWhole(segment, tokens); }
  }
}
