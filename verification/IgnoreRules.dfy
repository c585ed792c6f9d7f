/** One compiled ignore pattern and its optimised match forms. */
module IgnorePatterns {
  import opened IgnoreTokens

  datatype MatchType = Exact | Prefix | Suffix | Tokens

  datatype Pattern = Pattern(value: string, exclusion: bool, matchType: MatchType, tokens: seq<Token>) {

    /** `value[:-2]`. */
    function Stem(): string {
      if |value| < 2 then "" else value[..|value| - 2]
    }

    /** `value[2:]`. */
    function Tail(): string {
      if |value| < 2 then "" else value[2..]
    }

    ghost predicate Matches(path: string) {
      match matchType
      case Exact => path == value
      case Prefix => Stem() <= path
      case Suffix => EndsWith(path, Tail()) || (Tail() != "" && Tail()[0] == '/' && path == Tail()[1..])
      case Tokens => TokensMatch(tokens, path)
    }
  }

  predicate EndsWith(path: string, tail: string) {
    |tail| <= |path| && path[|path| - |tail|..] == tail
  }

  /** The executable matcher: fast forms where they apply, the token matcher otherwise. */
  method PatternMatches(p: Pattern, path: string) returns (matched: bool)
    ensures matched <==> p.Matches(path)
  {
    if p.matchType == Exact {
      return path == p.value;
    }
    if p.matchType == Prefix {
      return p.Stem() <= path;
    }
    if p.matchType == Suffix {
      var suffix := p.Tail();
      return EndsWith(path, suffix) || (suffix != "" && suffix[0] == '/' && path == suffix[1..]);
    }
    matched := IgnoreTokensMatch(p.tokens, path);
  }
}

/** Ordered ignore rules: the direct verdict, and the incremental verdict that reuses
    the per-pattern results of the parent directory. */
module IgnoreRules {
  import opened Paths
  import opened IgnorePatterns

  // ---------------------------------------------------------------------
  // Meaning: the last pattern that matches the path or an ancestor decides
  // ---------------------------------------------------------------------

  /** The pattern matches the path or one of its proper ancestors. */
  ghost predicate Hits(p: Pattern, path: string) {
    exists k :: 1 <= k <= |Split(path)| && p.Matches(Join(Split(path)[..k]))
  }

  /** Pattern k is the last one that hits the path. */
  ghost predicate LastHit(patterns: seq<Pattern>, path: string, k: nat) {
    && k < |patterns| && Hits(patterns[k], path)
    && forall j :: k < j < |patterns| ==> !Hits(patterns[j], path)
  }

  ghost predicate Ignored(patterns: seq<Pattern>, path: string) {
    exists k: nat :: LastHit(patterns, path, k) && !patterns[k].exclusion
  }

  lemma IgnoredAppend(patterns: seq<Pattern>, p: Pattern, path: string)
    ensures Ignored(patterns + [p], path) <==>
            if Hits(p, path) then !p.exclusion else Ignored(patterns, path)
  {
    var all := patterns + [p];
    if Hits(p, path) {
      assert LastHit(all, path, |patterns|);
    } else {
      forall k: nat ensures LastHit(all, path, k) <==> LastHit(patterns, path, k) {
        if LastHit(patterns, path, k) {
          assert forall j :: k < j < |all| ==> j == |patterns| || all[j] == patterns[j];
        }
        if LastHit(all, path, k) {
          assert forall j :: k < j < |patterns| ==> all[j] == patterns[j];
        }
      }
      assert forall k: nat :: LastHit(patterns, path, k) ==> all[k] == patterns[k];
    }
  }

  /** The test `is_ignored` makes for one pattern: the path first, then its parents. */
  method MatchesPathOrParent(pattern: Pattern, path: string) returns (matched: bool)
    ensures matched <==> Hits(pattern, path)
  {
    var segments := Split(path);
    JoinSplit(path);
    assert segments[..|segments|] == segments;
    matched := PatternMatches(pattern, path);
    var k := 1;
    while !matched && k < |segments|
      invariant 1 <= k <= |segments|
      invariant matched ==> Hits(pattern, path)
      invariant !matched ==>
                  !pattern.Matches(path) && forall l :: 1 <= l < k ==> !pattern.Matches(Join(segments[..l]))
    {
      matched := PatternMatches(pattern, Join(segments[..k]));
      k := k + 1;
    }
  }

  /** `is_ignored`: patterns of the wrong polarity are skipped without being matched,
      and the last hit still decides. */
  method IsIgnored(patterns: seq<Pattern>, path: string) returns (matched: bool)
    ensures matched <==> Ignored(patterns, path)
  {
    matched := false;
    for i := 0 to |patterns|
      invariant matched <==> Ignored(patterns[..i], path)
    {
      var pattern := patterns[i];
      assert patterns[..i + 1] == patterns[..i] + [pattern];
      IgnoredAppend(patterns[..i], pattern, path);
      if pattern.exclusion != matched {
        continue;
      }
      var patternMatched := MatchesPathOrParent(pattern, path);
      if patternMatched {
        matched := !pattern.exclusion;
      }
    }
    assert patterns[..|patterns|] == patterns;
  }

  // ---------------------------------------------------------------------
  // The incremental form
  // ---------------------------------------------------------------------

  predicate ParentFits(patterns: seq<Pattern>, parent: seq<bool>) {
    parent == [] || |parent| == |patterns|
  }

  predicate Inherited(parent: seq<bool>, i: nat) {
    i < |parent| && parent[i]
  }

  datatype Verdict = Verdict(ignored: bool, results: seq<bool>)

  /** Verdict and per-pattern results after the first n patterns. */
  ghost function Evaluate(patterns: seq<Pattern>, path: string, parent: seq<bool>, n: nat): (v: Verdict)
    requires n <= |patterns|
    ensures |v.results| == n
  {
    if n == 0 then Verdict(false, [])
    else
      var v := Evaluate(patterns, path, parent, n - 1);
      var p := patterns[n - 1];
      if Inherited(parent, n - 1) || (p.exclusion == v.ignored && p.Matches(path))
      then Verdict(!p.exclusion, v.results + [true])
      else Verdict(v.ignored, v.results + [false])
  }

  datatype MatchOutcome = Matched(verdict: Verdict) | InvalidParentResults

  method MatchWithParentResults(patterns: seq<Pattern>, path: string, parentResults: seq<bool>)
      returns (r: MatchOutcome)
    ensures !ParentFits(patterns, parentResults) ==> r == InvalidParentResults
    ensures ParentFits(patterns, parentResults) ==>
              r == Matched(Evaluate(patterns, path, parentResults, |patterns|))
  {
    if parentResults != [] && |parentResults| != |patterns| {
      return InvalidParentResults;
    }
    var matched := false;
    var results := seq(|patterns|, _ => false);
    for index := 0 to |patterns|
      invariant |results| == |patterns|
      invariant Verdict(matched, results[..index]) == Evaluate(patterns, path, parentResults, index)
      invariant forall k :: index <= k < |patterns| ==> !results[k]
    {
      var pattern := patterns[index];
      assert results[..index + 1] == results[..index] + [false];
      var patternMatched := if parentResults != [] then parentResults[index] else false;
      if !patternMatched {
        if pattern.exclusion != matched {
          continue;
        }
        patternMatched := PatternMatches(pattern, path);
      }
      ghost var before := results;
      results := results[index := patternMatched];
      assert results[..index + 1] == before[..index] + [patternMatched];
      if patternMatched {
        matched := !pattern.exclusion;
      }
    }
    assert results[..|patterns|] == results;
    return Matched(Verdict(matched, results));
  }

  /** The incremental evaluation folded down from the root, one path segment at a time. */
  ghost function Fold(patterns: seq<Pattern>, segments: seq<string>): (v: Verdict)
    ensures |v.results| == if segments == [] then 0 else |patterns|
    decreases |segments|
  {
    if segments == [] then Verdict(false, [])
    else
      var parent := Fold(patterns, segments[..|segments| - 1]);
      Evaluate(patterns, Join(segments), parent.results, |patterns|)
  }

  ghost function ParentResults(patterns: seq<Pattern>, path: string): seq<bool> {
    Fold(patterns, Split(path)[..|Split(path)| - 1]).results
  }

  lemma FoldUnfolds(patterns: seq<Pattern>, segments: seq<string>)
    requires segments != []
    ensures Fold(patterns, segments) ==
            Evaluate(patterns, Join(segments), Fold(patterns, segments[..|segments| - 1]).results, |patterns|)
  {
  }

  lemma FoldOfPath(patterns: seq<Pattern>, path: string)
    ensures Fold(patterns, Split(path)) == Evaluate(patterns, path, ParentResults(patterns, path), |patterns|)
  {
    FoldUnfolds(patterns, Split(path));
    JoinSplit(path);
  }

  // ---------------------------------------------------------------------
  // Exact parent results give the direct verdict
  // ---------------------------------------------------------------------

  lemma HitsStep(p: Pattern, path: string)
    ensures |Split(path)| == 1 ==> (Hits(p, path) <==> p.Matches(path))
    ensures |Split(path)| > 1 ==>
              (Hits(p, path) <==> Hits(p, Join(Split(path)[..|Split(path)| - 1])) || p.Matches(path))
  {
    var xs := Split(path);
    JoinSplit(path);
    assert xs[..|xs|] == xs;
    if |xs| > 1 {
      var init := xs[..|xs| - 1];
      SplitSlashFree(path);
      SplitJoin(init);
      assert forall k :: 1 <= k <= |init| ==> init[..k] == xs[..k];
    }
  }

  /** Parent results are exact for the parent of the path (absent for a top-level path). */
  ghost predicate ExactParent(patterns: seq<Pattern>, path: string, parent: seq<bool>) {
    var xs := Split(path);
    if |xs| == 1 then parent == []
    else
      && |parent| == |patterns|
      && forall i :: 0 <= i < |patterns| ==> (parent[i] <==> Hits(patterns[i], Join(xs[..|xs| - 1])))
  }

  lemma {:induction false} ExactParentGivesVerdict(patterns: seq<Pattern>, path: string, parent: seq<bool>, n: nat)
    requires n <= |patterns| && ExactParent(patterns, path, parent)
    ensures Evaluate(patterns, path, parent, n).ignored <==> Ignored(patterns[..n], path)
  {
    if n > 0 {
      ExactParentGivesVerdict(patterns, path, parent, n - 1);
      assert patterns[..n] == patterns[..n - 1] + [patterns[n - 1]];
      IgnoredAppend(patterns[..n - 1], patterns[n - 1], path);
      HitsStep(patterns[n - 1], path);
    }
  }

  // ---------------------------------------------------------------------
  // What the folded results record
  // ---------------------------------------------------------------------

  lemma {:induction false} EvaluatePrefix(patterns: seq<Pattern>, path: string, parent: seq<bool>, m: nat, n: nat)
    requires m <= n <= |patterns|
    ensures Evaluate(patterns, path, parent, n).results[..m] == Evaluate(patterns, path, parent, m).results
    decreases n
  {
    if m < n {
      EvaluatePrefix(patterns, path, parent, m, n - 1);
    }
  }

  /** When exactly pattern i is recorded: inherited, or not skipped and matching. */
  lemma EvaluateResult(patterns: seq<Pattern>, path: string, parent: seq<bool>, n: nat, i: nat)
    requires i < n <= |patterns|
    ensures Evaluate(patterns, path, parent, n).results[i] <==>
            Inherited(parent, i)
            || (patterns[i].exclusion == Evaluate(patterns, path, parent, i).ignored && patterns[i].Matches(path))
  {
    EvaluatePrefix(patterns, path, parent, i + 1, n);
    var r := Evaluate(patterns, path, parent, n).results;
    assert r[i] == r[..i + 1][i];
  }

  /** The verdict is that of the last recorded pattern. */
  lemma {:induction false} VerdictAfterLastRecord(patterns: seq<Pattern>, path: string, parent: seq<bool>, k: nat, n: nat)
    requires k <= n <= |patterns|
    requires forall j :: k <= j < n ==> !Evaluate(patterns, path, parent, n).results[j]
    ensures Evaluate(patterns, path, parent, n).ignored == Evaluate(patterns, path, parent, k).ignored
    decreases n
  {
    if k < n {
      var v := Evaluate(patterns, path, parent, n);
      var u := Evaluate(patterns, path, parent, n - 1);
      assert !v.results[n - 1];
      forall j | k <= j < n - 1 ensures !u.results[j] {
        assert v.results[j] == u.results[j];
      }
      VerdictAfterLastRecord(patterns, path, parent, k, n - 1);
    }
  }

  /** The walk records true only for patterns that match the path or an ancestor. */
  lemma {:induction false} FoldRecordsAreHits(patterns: seq<Pattern>, path: string, i: nat)
    requires i < |patterns|
    requires Fold(patterns, Split(path)).results[i]
    ensures Hits(patterns[i], path)
    decreases |Split(path)|
  {
    var xs := Split(path);
    var init := xs[..|xs| - 1];
    var parent := Fold(patterns, init).results;
    JoinSplit(path);
    EvaluateResult(patterns, path, parent, |patterns|, i);
    HitsStep(patterns[i], path);
    if |xs| > 1 && Inherited(parent, i) {
      SplitSlashFree(path);
      SplitJoin(init);
      FoldRecordsAreHits(patterns, Join(init), i);
    }
  }

  /** The verdict of the walk, seen from the last pattern that hits the path. */
  lemma VerdictFromLastHit(patterns: seq<Pattern>, path: string, k: nat)
    requires LastHit(patterns, path, k)
    ensures var v := Fold(patterns, Split(path));
            v.ignored == if v.results[k] then !patterns[k].exclusion
                         else Evaluate(patterns, path, ParentResults(patterns, path), k).ignored
  {
    var n := |patterns|;
    var parent := ParentResults(patterns, path);
    FoldOfPath(patterns, path);
    var v := Evaluate(patterns, path, parent, n);
    forall j | k < j < n ensures !v.results[j] {
      if v.results[j] { FoldRecordsAreHits(patterns, path, j); }
    }
    VerdictAfterLastRecord(patterns, path, parent, k + 1, n);
    EvaluateResult(patterns, path, parent, n, k);
  }

  lemma LastHitUnique(patterns: seq<Pattern>, path: string, k: nat)
    requires LastHit(patterns, path, k)
    ensures forall l: nat :: LastHit(patterns, path, l) ==> l == k
  {
  }

  /** Exactly when the incremental verdict differs from the direct one: the last
      pattern that hits the path was never recorded on the way down, although at the
      path itself the flag in front of it would let it act. */
  lemma DivergenceExactly(patterns: seq<Pattern>, path: string)
    ensures var v := Fold(patterns, Split(path));
            v.ignored != Ignored(patterns, path) <==>
            exists k: nat :: LastHit(patterns, path, k) && !v.results[k]
                             && Evaluate(patterns, path, ParentResults(patterns, path), k).ignored == patterns[k].exclusion
  {
    if k: nat :| LastHit(patterns, path, k) {
      LastHitUnique(patterns, path, k);
      VerdictFromLastHit(patterns, path, k);
      assert Ignored(patterns, path) == !patterns[k].exclusion;
    } else {
      NoLastHit(patterns, path);
      NoHitNotIgnored(patterns, path);
    }
  }

  lemma NoHitNotIgnored(patterns: seq<Pattern>, path: string)
    requires forall j :: 0 <= j < |patterns| ==> !Hits(patterns[j], path)
    ensures !Fold(patterns, Split(path)).ignored
  {
    var parent := ParentResults(patterns, path);
    FoldOfPath(patterns, path);
    var v := Evaluate(patterns, path, parent, |patterns|);
    forall j | 0 <= j < |patterns| ensures !v.results[j] {
      if v.results[j] { FoldRecordsAreHits(patterns, path, j); }
    }
    VerdictAfterLastRecord(patterns, path, parent, 0, |patterns|);
  }

  lemma {:induction false} NoLastHit(patterns: seq<Pattern>, path: string)
    requires !exists k: nat :: LastHit(patterns, path, k)
    ensures forall j :: 0 <= j < |patterns| ==> !Hits(patterns[j], path)
  {
    var k := |patterns|;
    while k > 0
      invariant 0 <= k <= |patterns|
      invariant forall j :: k <= j < |patterns| ==> !Hits(patterns[j], path)
    {
      assert !LastHit(patterns, path, k - 1);
      k := k - 1;
    }
  }

  // ---------------------------------------------------------------------
  // For which polarities the two verdicts always agree
  // ---------------------------------------------------------------------

  ghost predicate Agrees(patterns: seq<Pattern>, path: string) {
    Fold(patterns, Split(path)).ignored == Ignored(patterns, path)
  }

  ghost predicate HasPolarity(patterns: seq<Pattern>, flags: seq<bool>) {
    |patterns| == |flags| && forall i :: 0 <= i < |flags| ==> patterns[i].exclusion == flags[i]
  }

  /** No inclusion stands before an exclusion; in particular a list without exclusions. */
  predicate ExclusionsFirst(flags: seq<bool>) {
    forall i, j :: 0 <= i < j < |flags| && flags[j] ==> flags[i]
  }

  lemma {:induction false} ExclusionsNeverRecorded(patterns: seq<Pattern>, flags: seq<bool>, segments: seq<string>, i: nat)
    requires HasPolarity(patterns, flags) && ExclusionsFirst(flags) && segments != []
    requires i < |patterns| && flags[i]
    ensures !Fold(patterns, segments).results[i]
    decreases |segments|
  {
    var parent := Fold(patterns, segments[..|segments| - 1]).results;
    if |segments| > 1 {
      forall k | 0 <= k <= i ensures !parent[k] {
        ExclusionsNeverRecorded(patterns, flags, segments[..|segments| - 1], k);
      }
    }
    ExclusionPrefixQuiet(patterns, flags, Join(segments), parent, i);
    EvaluateResult(patterns, Join(segments), parent, |patterns|, i);
  }

  lemma {:induction false} ExclusionPrefixQuiet(patterns: seq<Pattern>, flags: seq<bool>, path: string, parent: seq<bool>, i: nat)
    requires HasPolarity(patterns, flags) && ExclusionsFirst(flags)
    requires i < |patterns| && flags[i]
    requires forall k: nat :: k <= i ==> !Inherited(parent, k)
    ensures !Evaluate(patterns, path, parent, i).ignored
  {
    if i > 0 {
      ExclusionPrefixQuiet(patterns, flags, path, parent, i - 1);
    }
  }

  /** With exclusions first, one recorded inclusion is enough, and stays enough below. */
  lemma {:induction false} RecordedInclusionDecides(patterns: seq<Pattern>, flags: seq<bool>, segments: seq<string>, i: nat, n: nat)
    requires HasPolarity(patterns, flags) && ExclusionsFirst(flags) && segments != []
    requires i < n <= |patterns| && !flags[i]
    requires Fold(patterns, segments).results[i]
    ensures Evaluate(patterns, Join(segments), Fold(patterns, segments[..|segments| - 1]).results, n).ignored
    decreases n
  {
    var parent := Fold(patterns, segments[..|segments| - 1]).results;
    EvaluateResult(patterns, Join(segments), parent, |patterns|, i);
    EvaluateResult(patterns, Join(segments), parent, n, i);
    if i < n - 1 {
      RecordedInclusionDecides(patterns, flags, segments, i, n - 1);
      assert !flags[n - 1];
    }
  }

  /** With exclusions first, a hit by an inclusion makes the walk ignore the path. */
  lemma {:induction false} InclusionHitIgnored(patterns: seq<Pattern>, flags: seq<bool>, segments: seq<string>, i: nat, k: nat)
    requires HasPolarity(patterns, flags) && ExclusionsFirst(flags)
    requires i < |patterns| && !flags[i]
    requires 1 <= k <= |segments| && patterns[i].Matches(Join(segments[..k]))
    ensures exists r :: 0 <= r < |patterns| && !flags[r] && Fold(patterns, segments).results[r]
    decreases |segments|
  {
    var init := segments[..|segments| - 1];
    var parent := Fold(patterns, init).results;
    if k < |segments| {
      assert segments[..k] == init[..k];
      InclusionHitIgnored(patterns, flags, init, i, k);
      var r :| 0 <= r < |patterns| && !flags[r] && parent[r];
      EvaluateResult(patterns, Join(segments), parent, |patterns|, r);
    } else {
      assert segments[..k] == segments;
      EvaluateResult(patterns, Join(segments), parent, |patterns|, i);
      if !Fold(patterns, segments).results[i] {
        assert Evaluate(patterns, Join(segments), parent, i).ignored;
        var r := FlagHasRecord(patterns, Join(segments), parent, i);
        EvaluatePrefix(patterns, Join(segments), parent, i, |patterns|);
        assert Fold(patterns, segments).results[..i][r];
      }
    }
  }

  lemma {:induction false} FlagHasRecord(patterns: seq<Pattern>, path: string, parent: seq<bool>, n: nat) returns (r: nat)
    requires n <= |patterns| && Evaluate(patterns, path, parent, n).ignored
    ensures r < n && !patterns[r].exclusion && Evaluate(patterns, path, parent, n).results[r]
  {
    var v := Evaluate(patterns, path, parent, n);
    if v.results[n - 1] {
      r := n - 1;
    } else {
      r := FlagHasRecord(patterns, path, parent, n - 1);
    }
  }

  /** Sufficiency: with exclusions first the walk computes the direct verdict. */
  lemma ExclusionsFirstAgree(patterns: seq<Pattern>, flags: seq<bool>, path: string)
    requires HasPolarity(patterns, flags) && ExclusionsFirst(flags)
    ensures Agrees(patterns, path)
  {
    var xs := Split(path);
    JoinSplit(path);
    if Ignored(patterns, path) {
      var k: nat :| LastHit(patterns, path, k) && !patterns[k].exclusion;
      var l :| 1 <= l <= |xs| && patterns[k].Matches(Join(xs[..l]));
      InclusionHitIgnored(patterns, flags, xs, k, l);
      var r :| 0 <= r < |patterns| && !flags[r] && Fold(patterns, xs).results[r];
      RecordedInclusionDecides(patterns, flags, xs, r, |patterns|);
    }
    if Fold(patterns, xs).ignored {
      var r := FlagHasRecord(patterns, path, Fold(patterns, xs[..|xs| - 1]).results, |patterns|);
      FoldRecordsAreHits(patterns, path, r);
      if !exists k: nat :: LastHit(patterns, path, k) {
        NoLastHit(patterns, path);
      }
      var k: nat :| LastHit(patterns, path, k);
      assert r <= k;
    }
  }
}
