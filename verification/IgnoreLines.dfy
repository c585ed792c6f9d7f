/** Ignore files as lists of lines: which arrangements of polarities keep the incremental
    verdict and the direct verdict together on every ignore file. */
module IgnoreLines {
  import opened Paths
  import opened IgnorePatterns
  import opened IgnoreRules
  import opened IgnoreCompile

  /** Every line compiles, to the pattern in its place. */
  ghost predicate CompiledFrom(lines: seq<string>, patterns: seq<Pattern>, alnum: char -> bool) {
    && |lines| == |patterns|
    && forall k :: 0 <= k < |lines| ==> Compile(lines[k], alnum) == Accepted(patterns[k])
  }

  // ---------------------------------------------------------------------
  // Lines of ordinary characters
  // ---------------------------------------------------------------------

  predicate Ordinary(value: string) {
    forall k :: 0 <= k < |value| ==> value[k] !in "*?[\\^"
  }

  /** Ordinary characters are scanned to literals, in the exact form. */
  lemma {:induction false} ScanOrdinary(value: string, index: nat, s: Progress, alnum: char -> bool) returns (end: Progress)
    requires index <= |value| && Ordinary(value) && s == Progress(Plain(value[..index]), Exact, index == 0)
    ensures end == Progress(Plain(value), Exact, value == "")
    ensures Scan(value, index, s, alnum) == Ok(end, |value|)
    decreases |value| - index
  {
    if index == |value| {
      assert value[..index] == value;
      ScanEnd(value, index, s, alnum);
      end := s;
    } else {
      var after := Progress(Plain(value[..index + 1]), Exact, false);
      PlainAppend(value, 0, index);
      assert value[..index] == value[0..index] && value[..index + 1] == value[0..index + 1];
      ScanUnfolds(value, index, s, index + 1, after, alnum);
      end := ScanOrdinary(value, index + 1, after, alnum);
    }
  }

  /** A trimmed, clean line of ordinary characters compiles to the exact form. */
  lemma CompileOrdinary(line: string, value: string, exclusion: bool, alnum: char -> bool)
    requires Clean(line) && line != "" && !IsSpace(line[0]) && !IsSpace(line[|line| - 1])
    requires line == (if exclusion then "!" + value else value)
    requires value != "" && '\0' !in value && Ordinary(value) && (!exclusion ==> value[0] != '!')
    ensures Compile(line, alnum) == Accepted(Pattern(value, exclusion, Exact, Plain(value)))
  {
    CleanLine(line);
    assert exclusion ==> line[1..] == value;
    assert value[..0] == "" && Plain("") == [];
    var end := ScanOrdinary(value, 0, START, alnum);
    CompileLine(line, value, exclusion, end, |value|, alnum);
  }

  // ---------------------------------------------------------------------
  // Ignore files that tell the two verdicts apart
  // ---------------------------------------------------------------------

  /** Inclusion i is `a/b`, exclusion j is `!a`, every other pattern is `z` or `!z`. */
  function SeparatingValue(i: nat, j: nat, k: nat): string {
    if k == i then "a/b" else if k == j then "a" else "z"
  }

  function SeparatingLines(flags: seq<bool>, i: nat, j: nat): (lines: seq<string>) {
    seq(|flags|, k requires 0 <= k < |flags| =>
      if flags[k] then "!" + SeparatingValue(i, j, k) else SeparatingValue(i, j, k))
  }

  /** The patterns these lines compile to. */
  function Separating(flags: seq<bool>, i: nat, j: nat): (patterns: seq<Pattern>) {
    seq(|flags|, k requires 0 <= k < |flags| =>
      Pattern(SeparatingValue(i, j, k), flags[k], Exact, Plain(SeparatingValue(i, j, k))))
  }

  lemma SeparatingCompiled(flags: seq<bool>, i: nat, j: nat, alnum: char -> bool)
    requires i < j < |flags| && !flags[i] && flags[j]
    ensures CompiledFrom(SeparatingLines(flags, i, j), Separating(flags, i, j), alnum)
  {
    var lines, patterns := SeparatingLines(flags, i, j), Separating(flags, i, j);
    forall k | 0 <= k < |flags| ensures Compile(lines[k], alnum) == Accepted(patterns[k]) {
      if k == i {
        CompileAB(alnum);
      } else {
        CompileAtom(SeparatingValue(i, j, k), flags[k], alnum);
      }
    }
  }

  lemma CompileAB(alnum: char -> bool)
    ensures Compile("a/b", alnum) == Accepted(Pattern("a/b", false, Exact, Plain("a/b")))
  {
    SplitAB();
    CompileOrdinary("a/b", "a/b", false, alnum);
  }

  lemma CompileAtom(value: string, exclusion: bool, alnum: char -> bool)
    requires value == "a" || value == "z"
    ensures Compile(if exclusion then "!" + value else value, alnum) ==
            Accepted(Pattern(value, exclusion, Exact, Plain(value)))
  {
    var line := if exclusion then "!" + value else value;
    SplitAtom(line);
    CompileOrdinary(line, value, exclusion, alnum);
  }

  lemma {:induction false} SeparatingAtA(flags: seq<bool>, i: nat, j: nat, n: nat)
    requires i < j < |flags| && !flags[i] && flags[j] && n <= |flags|
    ensures var v := Evaluate(Separating(flags, i, j), "a", [], n);
            !v.ignored && forall k :: 0 <= k < n ==> !v.results[k]
  {
    if n > 0 { SeparatingAtA(flags, i, j, n - 1); }
  }

  lemma {:induction false} SeparatingAtAB(flags: seq<bool>, i: nat, j: nat, parent: seq<bool>, n: nat)
    requires i < j < |flags| && !flags[i] && flags[j] && n <= |flags|
    requires forall k :: 0 <= k < |parent| ==> !parent[k]
    ensures Evaluate(Separating(flags, i, j), "a/b", parent, n).ignored <==> i < n
  {
    if n > 0 { SeparatingAtAB(flags, i, j, parent, n - 1); }
  }

  lemma SplitAB()
    ensures Split("a/b") == ["a", "b"] && Join(["a", "b"]) == "a/b" && Join(["a"]) == "a"
  {
    assert Join(["b"]) == "b" && ["a", "b"][1..] == ["b"];
    SplitJoin(["a", "b"]);
  }

  lemma HitsAB(p: Pattern)
    ensures Hits(p, "a/b") <==> p.Matches("a") || p.Matches("a/b")
  {
    SplitAB();
    var xs := ["a", "b"];
    assert xs[..1] == ["a"] && xs[..2] == xs;
    assert p.Matches("a") ==> p.Matches(Join(xs[..1]));
    assert p.Matches("a/b") ==> p.Matches(Join(xs[..2]));
  }

  lemma SeparatingIgnored(flags: seq<bool>, i: nat, j: nat)
    requires i < j < |flags| && !flags[i] && flags[j]
    ensures !Ignored(Separating(flags, i, j), "a/b")
  {
    var ps := Separating(flags, i, j);
    forall k | j <= k < |ps| ensures Hits(ps[k], "a/b") <==> k == j {
      HitsAB(ps[k]);
    }
    LastHitUnique(ps, "a/b", j);
  }

  lemma SeparatingFolded(flags: seq<bool>, i: nat, j: nat)
    requires i < j < |flags| && !flags[i] && flags[j]
    ensures Fold(Separating(flags, i, j), ["a", "b"]).ignored
  {
    var ps := Separating(flags, i, j);
    SplitAB();
    assert ["a"][..0] == [] && ["a", "b"][..1] == ["a"];
    FoldUnfolds(ps, ["a"]);
    SeparatingAtA(flags, i, j, |flags|);
    FoldUnfolds(ps, ["a", "b"]);
    SeparatingAtAB(flags, i, j, Fold(ps, ["a"]).results, |flags|);
  }

  /** An inclusion before an exclusion: `a/b` is reported ignored by the walk, and not
      by the direct verdict. For `["a/b", "!a"]` this is flags == [false, true]. */
  lemma SeparatingDiverges(flags: seq<bool>, i: nat, j: nat)
    requires i < j < |flags| && !flags[i] && flags[j]
    ensures HasPolarity(Separating(flags, i, j), flags)
    ensures Fold(Separating(flags, i, j), Split("a/b")).ignored
    ensures !Ignored(Separating(flags, i, j), "a/b")
  {
    SplitAB();
    SeparatingFolded(flags, i, j);
    SeparatingIgnored(flags, i, j);
  }

  /** The polarity vectors for which the incremental walk gives the direct verdict on
      every ignore file and every path are exactly those without an inclusion before an
      exclusion. */
  lemma AgreementExactly(flags: seq<bool>, alnum: char -> bool)
    ensures (forall lines, patterns, path: string ::
               CompiledFrom(lines, patterns, alnum) && HasPolarity(patterns, flags) ==> Agrees(patterns, path))
            <==> ExclusionsFirst(flags)
  {
    if ExclusionsFirst(flags) {
      forall lines, patterns, path: string | CompiledFrom(lines, patterns, alnum) && HasPolarity(patterns, flags)
        ensures Agrees(patterns, path)
      {
        ExclusionsFirstAgree(patterns, flags, path);
      }
    } else {
      var i, j :| 0 <= i < j < |flags| && flags[j] && !flags[i];
      SeparatingDiverges(flags, i, j);
      SeparatingCompiled(flags, i, j, alnum);
      assert !Agrees(Separating(flags, i, j), "a/b");
    }
  }
}
