/** Round trip for ignore patterns: printing a token list and compiling the text gives a
    pattern that means those tokens. */
module IgnorePrint {
  import opened Sequences
  import opened Paths
  import opened CharacterClasses
  import opened IgnoreTokens
  import opened IgnorePatterns
  import opened IgnoreCompile

  // ---------------------------------------------------------------------
  // Printing
  // ---------------------------------------------------------------------

  predicate Special(c: char) {
    c in "*?[\\^"
  }

  predicate ClassSpecial(c: char) {
    c in "]\\-^"
  }

  function PrintClassChar(c: char): string {
    if ClassSpecial(c) then ['\\', c] else [c]
  }

  function PrintRange(range: (char, char)): string {
    PrintClassChar(range.0) + if range.0 == range.1 then "" else "-" + PrintClassChar(range.1)
  }

  function PrintRanges(ranges: seq<(char, char)>): string {
    if ranges == [] then "" else PrintRange(ranges[0]) + PrintRanges(ranges[1..])
  }

  function PrintToken(t: Token): string {
    match t
    case Literal(c) => if Special(c) then ['\\', c] else [c]
    case Star => "*"
    case Question => "?"
    case Globstar => "**"
    case GlobstarDirectory => "**/"
    case Class(cls) => "[" + (if cls.negated then "^" else "") + PrintRanges(cls.ranges) + "]"
    case Anchor => "^"
  }

  function Print(tokens: seq<Token>): string {
    if tokens == [] then "" else PrintToken(tokens[0]) + Print(tokens[1..])
  }

  /** Punctuation is not alphanumeric. */
  ghost predicate PlainPunctuation(alnum: char -> bool) {
    forall c :: Special(c) || ClassSpecial(c) ==> !alnum(c)
  }

  predicate PrintableRange(range: (char, char)) {
    range.0 <= range.1 && range.0 != '[' && range.1 != '['
  }

  predicate Starry(t: Token) {
    t.Star? || t.Globstar? || t.GlobstarDirectory?
  }

  /** The token can be written in front of the rest: a globstar only at the end, a
      globstar directory not there, and no star in front of another. */
  predicate Writable(t: Token, rest: seq<Token>) {
    match t
    case Star => rest == [] || !Starry(rest[0])
    case Globstar => rest == []
    case GlobstarDirectory => rest != []
    case Class(cls) => cls.ranges != [] && forall k :: 0 <= k < |cls.ranges| ==> PrintableRange(cls.ranges[k])
    case _ => true
  }

  predicate Printable(tokens: seq<Token>) {
    tokens != [] ==> Writable(tokens[0], tokens[1..]) && Printable(tokens[1..])
  }

  // ---------------------------------------------------------------------
  // Classes are read back
  // ---------------------------------------------------------------------

  lemma ClassCharReadBack(value: string, index: nat, c: char, alnum: char -> bool)
    requires PlainPunctuation(alnum) && c != '[' && At(value, index, PrintClassChar(c))
    ensures index < |value|
    ensures ReadClassCharacter(value, index, alnum) == Ok((c, ClassSpecial(c)), index + |PrintClassChar(c)|)
    ensures value[index] != ']' && value[index] != '-' && value[index] != '^'
  {
    var text := PrintClassChar(c);
    AtChar(value, index, text, 0);
    AtChar(value, index, text, |text| - 1);
  }

  lemma RangeReadBack(value: string, index: nat, range: (char, char), alnum: char -> bool)
    requires PlainPunctuation(alnum) && PrintableRange(range) && At(value, index, PrintRange(range))
    requires index + |PrintRange(range)| < |value| && value[index + |PrintRange(range)|] != '-'
    ensures value[index] != ']' && value[index] != '-' && value[index] != '^'
    ensures ScanRange(value, index, alnum) == Ok(range, index + |PrintRange(range)|)
  {
    var low := PrintClassChar(range.0);
    if range.0 == range.1 {
      assert PrintRange(range) == low;
      ClassCharReadBack(value, index, range.0, alnum);
    } else {
      var high := PrintClassChar(range.1);
      AtSplit(value, index, low, "-" + high);
      AtSplit(value, index + |low|, "-", high);
      ClassCharReadBack(value, index, range.0, alnum);
      ClassCharReadBack(value, index + |low| + 1, range.1, alnum);
    }
  }

  lemma RangesStart(value: string, index: nat, ranges: seq<(char, char)>)
    requires At(value, index, PrintRanges(ranges) + "]")
    ensures value[index] != '-' && (ranges != [] ==> value[index] != '^')
  {
    AtSplit(value, index, "", PrintRanges(ranges) + "]");
  }

  lemma RangeStep(value: string, index: nat, done: seq<(char, char)>, range: (char, char), alnum: char -> bool)
    requires PlainPunctuation(alnum) && PrintableRange(range) && At(value, index, PrintRange(range))
    requires index + |PrintRange(range)| < |value| && value[index + |PrintRange(range)|] != '-'
    ensures ScanRanges(value, index, done, alnum) ==
            ScanRanges(value, index + |PrintRange(range)|, done + [range], alnum)
  {
    RangeReadBack(value, index, range, alnum);
  }

  lemma RangesEnd(value: string, index: nat, done: seq<(char, char)>, ranges: seq<(char, char)>, alnum: char -> bool)
    requires ranges == [] && done + ranges != [] && At(value, index, PrintRanges(ranges) + "]")
    ensures ScanRanges(value, index, done, alnum) == Ok(done + ranges, index + |PrintRanges(ranges)| + 1)
  {
    assert done + ranges == done;
    AtSplit(value, index, "", "]");
  }

  lemma RangesHead(value: string, index: nat, done: seq<(char, char)>, ranges: seq<(char, char)>, alnum: char -> bool)
      returns (next: nat)
    requires PlainPunctuation(alnum) && At(value, index, PrintRanges(ranges) + "]")
    requires ranges != [] && PrintableRange(ranges[0])
    ensures next + |PrintRanges(ranges[1..])| == index + |PrintRanges(ranges)|
    ensures At(value, next, PrintRanges(ranges[1..]) + "]")
    ensures ScanRanges(value, index, done, alnum) == ScanRanges(value, next, done + [ranges[0]], alnum)
  {
    var head, rest := PrintRange(ranges[0]), PrintRanges(ranges[1..]) + "]";
    assert PrintRanges(ranges) + "]" == head + rest;
    next := AtPieces(value, index, PrintRanges(ranges) + "]", head, rest);
    RangesStart(value, next, ranges[1..]);
    RangeStep(value, index, done, ranges[0], alnum);
  }

  lemma {:induction false} RangesReadBack(value: string, index: nat, done: seq<(char, char)>, ranges: seq<(char, char)>,
                                          alnum: char -> bool)
    requires PlainPunctuation(alnum) && At(value, index, PrintRanges(ranges) + "]") && done + ranges != []
    requires forall k :: 0 <= k < |ranges| ==> PrintableRange(ranges[k])
    ensures ScanRanges(value, index, done, alnum) == Ok(done + ranges, index + |PrintRanges(ranges)| + 1)
    decreases |ranges|
  {
    if ranges == [] {
      RangesEnd(value, index, done, ranges, alnum);
    } else {
      var next := RangesHead(value, index, done, ranges, alnum);
      MoveHead(done, ranges);
      RangesReadBack(value, next, done + [ranges[0]], ranges[1..], alnum);
    }
  }

  /** The opening of a printed class tells whether it is negated. */
  lemma ClassOpening(value: string, index: nat, cls: CharClass) returns (start: nat)
    requires cls.ranges != [] && At(value, index, PrintToken(Class(cls)))
    ensures index < |value| && value[index] == '['
    ensures cls.negated <==> index + 1 < |value| && value[index + 1] == '^'
    ensures start == if cls.negated then index + 2 else index + 1
    ensures At(value, start, PrintRanges(cls.ranges) + "]")
    ensures start + |PrintRanges(cls.ranges)| + 1 == index + |PrintToken(Class(cls))|
  {
    var body := PrintRanges(cls.ranges) + "]";
    var open := if cls.negated then "[^" else "[";
    assert PrintToken(Class(cls)) == open + body;
    AtSplit(value, index, open, body);
    start := index + |open|;
    RangesStart(value, start, cls.ranges);
    AtChar(value, index, open, |open| - 1);
  }

  lemma ClassReadBack(value: string, index: nat, cls: CharClass, alnum: char -> bool)
    requires PlainPunctuation(alnum) && Writable(Class(cls), []) && At(value, index, PrintToken(Class(cls)))
    ensures index < |value| && ScanClass(value, index, alnum) == Ok(cls, index + |PrintToken(Class(cls))|)
    ensures value[index] == '['
  {
    var start := ClassOpening(value, index, cls);
    assert [] + cls.ranges == cls.ranges;
    RangesReadBack(value, start, [], cls.ranges, alnum);
  }

  // ---------------------------------------------------------------------
  // Tokens are read back
  // ---------------------------------------------------------------------

  /** The compiler's progress over one printed token. */
  function Advance(s: Progress, t: Token): Progress {
    match t
    case Literal(c) => Progress(s.tokens + [t], if Special(c) then Tokens else s.form, false)
    case Anchor => Progress(s.tokens + [t], s.form, false)
    case Globstar =>
      if s.first then Progress(if s.form == Exact then s.tokens else s.tokens + [t], Suffix, false)
      else if s.form == Exact then Progress(s.tokens, Prefix, false)
      else Progress(s.tokens + [t], Tokens, false)
    case GlobstarDirectory => Progress(s.tokens + [t], if s.first then Suffix else Tokens, false)
    case _ => Progress(s.tokens + [t], Tokens, false)
  }

  function AdvanceAll(s: Progress, tokens: seq<Token>): Progress
    decreases |tokens|
  {
    if tokens == [] then s else AdvanceAll(Advance(s, tokens[0]), tokens[1..])
  }

  lemma PrintNonEmpty(t: Token)
    ensures PrintToken(t) != "" && (PrintToken(t)[0] == '*' <==> Starry(t))
  {
  }

  lemma StarReadBack(value: string, index: nat, s: Progress, t: Token, alnum: char -> bool)
    requires Starry(t) && At(value, index, PrintToken(t))
    requires t.Globstar? ==> index + 2 == |value|
    requires t.GlobstarDirectory? ==> index + 3 < |value|
    requires t.Star? && index + 1 < |value| ==> value[index + 1] != '*'
    ensures index < |value| && Step(value, index, s, alnum) == Ok(Advance(s, t), index + |PrintToken(t)|)
  {
    var text := PrintToken(t);
    AtChar(value, index, text, 0);
    AtChar(value, index, text, |text| - 1);
    assert t.GlobstarDirectory? ==> text == "**/" && text[1] == '*';
    if t.GlobstarDirectory? { AtChar(value, index, text, 1); }
  }

  lemma OneReadBack(value: string, index: nat, s: Progress, t: Token, alnum: char -> bool)
    requires PlainPunctuation(alnum) && !Starry(t) && Writable(t, []) && At(value, index, PrintToken(t))
    ensures index < |value| && Step(value, index, s, alnum) == Ok(Advance(s, t), index + |PrintToken(t)|)
  {
    if t.Class? {
      ClassReadBack(value, index, t.cls, alnum);
    } else {
      var text := PrintToken(t);
      AtChar(value, index, text, 0);
      AtChar(value, index, text, |text| - 1);
    }
  }

  lemma AfterToken(value: string, next: nat, rest: seq<Token>)
    requires At(value, next, Print(rest)) && next + |Print(rest)| == |value|
    ensures rest == [] <==> next == |value|
    ensures rest != [] && !Starry(rest[0]) ==> value[next] != '*'
  {
    if rest != [] {
      PrintNonEmpty(rest[0]);
      AtChar(value, next, Print(rest), 0);
    }
  }

  lemma StepReadBack(value: string, index: nat, s: Progress, t: Token, rest: seq<Token>, alnum: char -> bool)
      returns (next: nat, after: Progress)
    requires PlainPunctuation(alnum) && Writable(t, rest)
    requires At(value, index, PrintToken(t) + Print(rest)) && index + |PrintToken(t) + Print(rest)| == |value|
    ensures next + |Print(rest)| == |value|
    ensures At(value, next, Print(rest))
    ensures after == Advance(s, t)
    ensures index < |value| && Step(value, index, s, alnum) == Ok(after, next)
  {
    next := AtPieces(value, index, PrintToken(t) + Print(rest), PrintToken(t), Print(rest));
    after := Advance(s, t);
    AfterToken(value, next, rest);
    if Starry(t) {
      StarReadBack(value, index, s, t, alnum);
    } else {
      OneReadBack(value, index, s, t, alnum);
    }
  }

  lemma {:induction false} ScanReadBack(value: string, index: nat, s: Progress, tokens: seq<Token>, alnum: char -> bool)
      returns (end: Progress)
    requires PlainPunctuation(alnum) && Printable(tokens)
    requires At(value, index, Print(tokens)) && index + |Print(tokens)| == |value|
    ensures Scan(value, index, s, alnum) == Ok(end, |value|)
    ensures end == AdvanceAll(s, tokens)
    decreases |tokens|
  {
    if tokens == [] {
      ScanEnd(value, index, s, alnum);
      end := s;
    } else {
      var t, rest := tokens[0], tokens[1..];
      var next, after := StepReadBack(value, index, s, t, rest, alnum);
      ScanUnfolds(value, index, s, next, after, alnum);
      end := ScanReadBack(value, next, after, rest, alnum);
    }
  }

  /** Past the first token the list is kept, but for a globstar that ends plain text. */
  lemma {:induction false} AdvanceAllTokens(s: Progress, tokens: seq<Token>)
    requires Printable(tokens) && !s.first && (s.form == Prefix ==> tokens == [])
    ensures var r := AdvanceAll(s, tokens);
            && !r.first
            && (tokens == [] ==> r == s)
            && (r.form == Prefix && tokens != [] ==> r.tokens + [Globstar] == s.tokens + tokens)
            && (r.form != Prefix ==> r.tokens == s.tokens + tokens)
            && (r.form == Suffix ==> s.form == Suffix)
            && (r.form == Prefix && tokens != [] ==> s.form == Exact)
    decreases |tokens|
  {
    if tokens == [] {
      assert s.tokens + tokens == s.tokens;
    } else {
      AdvanceAllTokens(Advance(s, tokens[0]), tokens[1..]);
      MoveHead(s.tokens, tokens);
      assert tokens[0].Globstar? ==> tokens == [Globstar];
    }
  }

  /** The progress after all printed tokens stands for them. */
  lemma ProgressMeansTokens(tokens: seq<Token>, exclusion: bool)
    requires Printable(tokens) && tokens != []
    ensures var s := AdvanceAll(START, tokens);
            var p := Pattern(Print(tokens), exclusion, s.form, s.tokens);
            Recorded(p) == tokens && !Unslashed(p)
  {
    var first := Advance(START, tokens[0]);
    AdvanceAllTokens(first, tokens[1..]);
    assert [tokens[0]] + tokens[1..] == tokens;
    var s := AdvanceAll(first, tokens[1..]);
    var p := Pattern(Print(tokens), exclusion, s.form, s.tokens);
    if tokens[0].Globstar? {
      assert tokens == [Globstar] && p.value == "**" + "";
      assert p.Tail() == "";
    } else if tokens[0].GlobstarDirectory? {
      assert p.value == "**/" + Print(tokens[1..]);
      assert p.Tail()[0] == '/';
    }
  }

  /** A line that denotes the printed text compiles to a pattern whose recorded tokens
      are exactly the printed ones. */
  lemma CompilePrint(tokens: seq<Token>, exclusion: bool, line: string, alnum: char -> bool)
    requires PlainPunctuation(alnum) && Printable(tokens) && tokens != []
    requires LineValue(line) == (Print(tokens), exclusion) && '\0' !in Print(tokens)
    ensures var r := Compile(line, alnum);
            && r.Accepted? && r.pattern.value == Print(tokens) && r.pattern.exclusion == exclusion
            && Recorded(r.pattern) == tokens && !Unslashed(r.pattern)
  {
    var end := ScanReadBack(Print(tokens), 0, START, tokens, alnum);
    PrintNonEmpty(tokens[0]);
    ProgressMeansTokens(tokens, exclusion);
  }

  /** Through whichever match form it got, the compiled line matches on every path what
      the printed tokens match, exactly when it got the token form or its text has no
      '^'. */
  lemma PrintedMeaning(tokens: seq<Token>, exclusion: bool, line: string, alnum: char -> bool)
    requires PlainPunctuation(alnum) && Printable(tokens) && tokens != []
    requires LineValue(line) == (Print(tokens), exclusion) && '\0' !in Print(tokens)
    ensures Compile(line, alnum).Accepted?
    ensures var p := Compile(line, alnum).pattern;
            (forall path :: p.Matches(path) <==> TokensMatch(tokens, path)) <==>
            (p.matchType == Tokens || '^' !in Print(tokens))
  {
    CompilePrint(tokens, exclusion, line, alnum);
    CompiledWellFormed(line, alnum);
    var p := Compile(line, alnum).pattern;
    OptimisedFormsExactly(p);
    assert forall path :: FormAgrees(p, path) <==> (p.Matches(path) <==> TokensMatch(tokens, path));
  }

  /** A trimmed, clean text that is not an exclusion is such a line itself, and an
      exclusion is written with a leading '!'. */
  lemma PrintedLine(tokens: seq<Token>, exclusion: bool)
    requires var line := if exclusion then "!" + Print(tokens) else Print(tokens);
             && Clean(line) && line != "" && !IsSpace(line[0]) && !IsSpace(line[|line| - 1])
             && (line[0] == '!' ==> exclusion)
    ensures LineValue(if exclusion then "!" + Print(tokens) else Print(tokens)) == (Print(tokens), exclusion)
  {
    CleanLine(if exclusion then "!" + Print(tokens) else Print(tokens));
  }

  // ---------------------------------------------------------------------
  // Everything compiled can be printed
  // ---------------------------------------------------------------------

  ghost predicate ClassPrintable(t: Token) {
    t.Class? ==> t.cls.ranges != [] && AllRangesPrintable(t.cls.ranges)
  }

  ghost predicate AllRangesPrintable(ranges: seq<(char, char)>) {
    forall k :: 0 <= k < |ranges| ==> PrintableRange(ranges[k])
  }

  /** A globstar stands only at the end, and no star in front of another. */
  ghost predicate Ordered(tokens: seq<Token>) {
    && (forall k :: 0 <= k < |tokens| ==> ClassPrintable(tokens[k]))
    && forall k :: 0 <= k < |tokens| - 1 ==> MayPrecede(tokens[k], tokens[k + 1])
  }

  predicate MayPrecede(t: Token, u: Token) {
    !t.Globstar? && (t.Star? ==> !Starry(u))
  }

  lemma {:induction false} OrderedPrintable(tokens: seq<Token>)
    requires Ordered(tokens) && (tokens != [] ==> !tokens[|tokens| - 1].GlobstarDirectory?)
    ensures Printable(tokens)
  {
    if tokens != [] {
      var rest := tokens[1..];
      assert ClassPrintable(tokens[0]) && (rest != [] ==> MayPrecede(tokens[0], rest[0]));
      forall k | 0 <= k < |rest| - 1 ensures MayPrecede(rest[k], rest[k + 1]) {
        assert MayPrecede(tokens[k + 1], tokens[k + 2]);
      }
      OrderedPrintable(rest);
    }
  }

  lemma OrderedAppend(tokens: seq<Token>, t: Token)
    requires Ordered(tokens) && ClassPrintable(t)
    requires tokens != [] ==> MayPrecede(tokens[|tokens| - 1], t)
    ensures Ordered(tokens + [t])
  {
    var all := tokens + [t];
    forall k | 0 <= k < |all| - 1 ensures MayPrecede(all[k], all[k + 1]) {
      if k < |tokens| - 1 { assert MayPrecede(tokens[k], tokens[k + 1]); }
    }
  }

  /** The text after the last token can follow it. */
  ghost predicate Goes(t: Token, value: string, index: nat)
    requires index <= |value|
  {
    match t
    case Star => index == |value| || value[index] != '*'
    case Globstar => index == |value|
    case GlobstarDirectory => index < |value|
    case _ => true
  }

  ghost predicate Readied(value: string, index: nat, tokens: seq<Token>)
    requires index <= |value|
  {
    Ordered(tokens) && (tokens != [] ==> Goes(tokens[|tokens| - 1], value, index))
  }

  lemma {:induction false} RangesCompiled(pattern: string, index: nat, ranges: seq<(char, char)>, alnum: char -> bool)
    requires index <= |pattern| && AllRangesPrintable(ranges) && ScanRanges(pattern, index, ranges, alnum).Ok?
    ensures var r := ScanRanges(pattern, index, ranges, alnum).value; r != [] && AllRangesPrintable(r)
    decreases |pattern| - index
  {
    if index < |pattern| && pattern[index] != ']' {
      var range := ScanRange(pattern, index, alnum);
      assert PrintableRange(range.value);
      RangesCompiled(pattern, range.next, ranges + [range.value], alnum);
    }
  }

  lemma ClassCompiled(value: string, index: nat, alnum: char -> bool)
    requires index < |value| && ScanClass(value, index, alnum).Ok?
    ensures ClassPrintable(Class(ScanClass(value, index, alnum).value))
  {
    var negated := index + 1 < |value| && value[index + 1] == '^';
    RangesCompiled(value, if negated then index + 2 else index + 1, [], alnum);
  }

  /** The token a step appends can follow the last one, and the text goes on after it. */
  lemma Appended(value: string, index: nat, tokens: seq<Token>, t: Token, next: nat)
    requires index < |value| && next <= |value| && Readied(value, index, tokens)
    requires ClassPrintable(t) && (Starry(t) ==> value[index] == '*') && Goes(t, value, next)
    ensures Readied(value, next, tokens + [t])
  {
    if tokens != [] {
      assert Goes(tokens[|tokens| - 1], value, index);
      assert MayPrecede(tokens[|tokens| - 1], t);
    }
    OrderedAppend(tokens, t);
  }

  lemma StepReadied(value: string, index: nat, s: Progress, alnum: char -> bool)
    requires index < |value| && Shape(value, index, s) && Readied(value, index, s.tokens)
    requires value[|value| - 1] == '/' ==> value == "/"
    ensures var r := Step(value, index, s, alnum); r.Ok? ==> Readied(value, r.next, r.value.tokens)
  {
    var r := Step(value, index, s, alnum);
    if r.Ok? {
      if value[index] == '[' { ClassCompiled(value, index, alnum); }
      if r.value.tokens == s.tokens {
        PlainReadied(value, index, s, r.next);
      } else {
        var t := r.value.tokens[|s.tokens|];
        StepToken(value, index, s, alnum);
        Appended(value, index, s.tokens, t, r.next);
      }
    }
  }

  /** A step that appends nothing has only plain text behind it. */
  lemma PlainReadied(value: string, index: nat, s: Progress, next: nat)
    requires index < |value| && next <= |value| && Shape(value, index, s) && s.form == Exact
    requires Ordered(s.tokens)
    ensures Readied(value, next, s.tokens)
  {
  }

  lemma StepToken(value: string, index: nat, s: Progress, alnum: char -> bool)
    requires index < |value|
    requires value[|value| - 1] == '/' ==> value == "/"
    requires value[index] == '[' && ScanClass(value, index, alnum).Ok? ==>
               ClassPrintable(Class(ScanClass(value, index, alnum).value))
    ensures var r := Step(value, index, s, alnum);
            r.Ok? && r.value.tokens != s.tokens ==>
              && |r.value.tokens| == |s.tokens| + 1
              && var t := r.value.tokens[|s.tokens|];
                 && r.value.tokens == s.tokens + [t]
                 && ClassPrintable(t) && (Starry(t) ==> value[index] == '*') && Goes(t, value, r.next)
    ensures Step(value, index, s, alnum).Ok? && Step(value, index, s, alnum).value.tokens == s.tokens ==> s.form == Exact
  {
  }

  lemma {:induction false} ScanReadied(value: string, index: nat, s: Progress, alnum: char -> bool)
    requires index <= |value| && Shape(value, index, s) && Readied(value, index, s.tokens)
    requires value != "" && (value[|value| - 1] == '/' ==> value == "/")
    ensures var r := Scan(value, index, s, alnum); r.Ok? ==> Readied(value, |value|, r.value.tokens)
    decreases |value| - index
  {
    if index < |value| {
      var r := Step(value, index, s, alnum);
      if r.Ok? {
        StepShape(value, index, s, alnum);
        StepReadied(value, index, s, alnum);
        ScanReadied(value, r.next, r.value, alnum);
      }
    }
  }

  lemma {:induction false} ScanNonEmpty(value: string, index: nat, s: Progress, alnum: char -> bool)
    requires index <= |value| && (s.form == Tokens ==> s.tokens != [])
    ensures var r := Scan(value, index, s, alnum); r.Ok? && r.value.form == Tokens ==> r.value.tokens != []
    decreases |value| - index
  {
    if index < |value| {
      var r := Step(value, index, s, alnum);
      if r.Ok? { ScanNonEmpty(value, r.next, r.value, alnum); }
    }
  }

  lemma RecordedPrintable(p: Pattern)
    requires WellFormed(p) && Readied(p.value, |p.value|, p.tokens) && (p.matchType == Tokens ==> p.tokens != [])
    ensures Printable(Recorded(p)) && Recorded(p) != []
  {
    if p.matchType == Prefix { OrderedAppend(p.tokens, Globstar); }
    OrderedPrintable(Recorded(p));
  }

  /** A compiled pattern is what the scan of its value ends with. */
  lemma CompiledScan(line: string, alnum: char -> bool) returns (value: string, p: Pattern)
    requires Compile(line, alnum).Accepted?
    ensures p == Compile(line, alnum).pattern && p.value == value == LineValue(line).0 && value != ""
    ensures var r := Scan(value, 0, START, alnum); r.Ok? && r.value.form == p.matchType && r.value.tokens == p.tokens
  {
    value := LineValue(line).0;
    p := Compile(line, alnum).pattern;
  }

  /** Conversely the recorded tokens of every compiled line are canonical, so the round
      trip covers all compiler outputs. */
  lemma CompiledPrintable(line: string, alnum: char -> bool)
    requires Compile(line, alnum).Accepted?
    ensures Printable(Recorded(Compile(line, alnum).pattern)) && Recorded(Compile(line, alnum).pattern) != []
  {
    CompiledWellFormed(line, alnum);
    LineValueTrailing(line);
    var value, p := CompiledScan(line, alnum);
    ScanReadied(value, 0, START, alnum);
    ScanNonEmpty(value, 0, START, alnum);
    RecordedPrintable(p);
  }
}
