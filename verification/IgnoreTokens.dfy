/** Character classes, shared by ignore patterns and COPY source patterns. */
module CharacterClasses {

  /** Inclusive codepoint ranges, possibly negated. */
  datatype CharClass = CharClass(negated: bool, ranges: seq<(char, char)>) {
    predicate Matches(c: char) {
      (exists i :: 0 <= i < |ranges| && ranges[i].0 <= c <= ranges[i].1) != negated
    }
  }
}

/** The token language of ignore patterns, its declarative meaning, and the two-row
    dynamic-programming matcher proved against it. */
module IgnoreTokens {
  import opened CharacterClasses

  datatype Token =
    | Literal(c: char)
    | Star
    | Question
    | Globstar
    | GlobstarDirectory
    | Class(cls: CharClass)
    | Anchor
  {
    /** This token accepts the piece path[i..j]. */
    predicate Accepts(path: string, i: nat, j: nat)
      requires i <= j <= |path|
    {
      match this
      case Star => '/' !in path[i..j]
      case Globstar => true
      case GlobstarDirectory => i == j || path[j - 1] == '/'
      case Anchor => i == 0 && j == 0
      case Literal(c) => j == i + 1 && path[i] == c
      case Question => j == i + 1 && path[i] != '/'
      case Class(cls) => j == i + 1 && cls.Matches(path[i])
    }
  }

  // ---------------------------------------------------------------------
  // Meaning: the path splits into consecutive pieces, one per token
  // ---------------------------------------------------------------------

  ghost predicate IsCutting(tokens: seq<Token>, path: string, j: nat, cuts: seq<nat>)
    requires j <= |path|
  {
    && |cuts| == |tokens| + 1 && cuts[0] == 0 && cuts[|tokens|] == j
    && (forall k :: 0 <= k < |tokens| ==> cuts[k] <= cuts[k + 1])
    && (forall k :: 0 <= k < |cuts| ==> cuts[k] <= |path|)
    && (forall k :: 0 <= k < |tokens| ==> tokens[k].Accepts(path, cuts[k], cuts[k + 1]))
  }

  /** The tokens match the whole path. */
  ghost predicate TokensMatch(tokens: seq<Token>, path: string) {
    exists cuts :: IsCutting(tokens, path, |path|, cuts)
  }

  // ---------------------------------------------------------------------
  // The same, one token at a time from the left
  // ---------------------------------------------------------------------

  ghost predicate Reaches(tokens: seq<Token>, path: string, j: nat)
    requires j <= |path|
    decreases |tokens|
  {
    if tokens == [] then j == 0
    else
      var n := |tokens| - 1;
      exists i: nat :: i <= j && Reaches(tokens[..n], path, i) && tokens[n].Accepts(path, i, j)
  }

  lemma {:induction false} ReachesCutting(tokens: seq<Token>, path: string, j: nat) returns (cuts: seq<nat>)
    requires j <= |path| && Reaches(tokens, path, j)
    ensures IsCutting(tokens, path, j, cuts)
    decreases |tokens|
  {
    if tokens == [] {
      cuts := [0];
    } else {
      var n := |tokens| - 1;
      var i: nat :| i <= j && Reaches(tokens[..n], path, i) && tokens[n].Accepts(path, i, j);
      var front := ReachesCutting(tokens[..n], path, i);
      cuts := front + [j];
      forall k | 0 <= k < n
        ensures cuts[k] <= cuts[k + 1] && tokens[k].Accepts(path, cuts[k], cuts[k + 1])
      {
        assert tokens[..n][k] == tokens[k] && cuts[k] == front[k] && cuts[k + 1] == front[k + 1];
      }
    }
  }

  lemma {:induction false} CuttingReaches(tokens: seq<Token>, path: string, j: nat, cuts: seq<nat>)
    requires j <= |path| && IsCutting(tokens, path, j, cuts)
    ensures Reaches(tokens, path, j)
    decreases |tokens|
  {
    if tokens != [] {
      var n := |tokens| - 1;
      var front := cuts[..n + 1];
      forall k | 0 <= k < n
        ensures front[k] <= front[k + 1] && tokens[..n][k].Accepts(path, front[k], front[k + 1])
      {
        assert cuts[k] <= cuts[k + 1] && tokens[k].Accepts(path, cuts[k], cuts[k + 1]);
      }
      CuttingReaches(tokens[..n], path, cuts[n], front);
    }
  }

  lemma TokensMatchReaches(tokens: seq<Token>, path: string)
    ensures TokensMatch(tokens, path) <==> Reaches(tokens, path, |path|)
  {
    if TokensMatch(tokens, path) {
      var cuts :| IsCutting(tokens, path, |path|, cuts);
      CuttingReaches(tokens, path, |path|, cuts);
    }
    if Reaches(tokens, path, |path|) {
      var cuts := ReachesCutting(tokens, path, |path|);
    }
  }

  // ---------------------------------------------------------------------
  // One row of the table
  // ---------------------------------------------------------------------

  /** `row` says which prefixes are reachable; the token extends one of them to j. */
  ghost predicate Extends(row: seq<bool>, token: Token, path: string, j: nat)
    requires |row| == |path| + 1 && j <= |path|
  {
    exists i: nat :: i <= j && row[i] && token.Accepts(path, i, j)
  }

  /** The recurrence the starred tokens are computed by. */
  lemma ExtendsStep(row: seq<bool>, token: Token, path: string, j: nat)
    requires |row| == |path| + 1 && 0 < j <= |path|
    ensures token.Star? ==>
              (Extends(row, token, path, j) <==> row[j] || (path[j - 1] != '/' && Extends(row, token, path, j - 1)))
    ensures token.Globstar? ==>
              (Extends(row, token, path, j) <==> row[j] || Extends(row, token, path, j - 1))
    ensures token.GlobstarDirectory? ==>
              (Extends(row, token, path, j) <==>
               row[j] || (path[j - 1] == '/' && exists i: nat :: i < j && row[i]))
    ensures token.Literal? || token.Question? || token.Class? ==>
              (Extends(row, token, path, j) <==> row[j - 1] && token.Accepts(path, j - 1, j))
    ensures token.Anchor? ==> !Extends(row, token, path, j)
  {
    assert row[j] && (token.Star? || token.Globstar? || token.GlobstarDirectory?) ==> token.Accepts(path, j, j);
    if token.Star? {
      if Extends(row, token, path, j) && !row[j] {
        var i: nat :| i <= j && row[i] && token.Accepts(path, i, j);
        assert path[j - 1] == path[i..j][j - 1 - i];
        assert forall c :: c in path[i..j - 1] ==> c in path[i..j];
        assert token.Accepts(path, i, j - 1);
      }
      if path[j - 1] != '/' && Extends(row, token, path, j - 1) {
        var i: nat :| i <= j - 1 && row[i] && token.Accepts(path, i, j - 1);
        assert path[i..j] == path[i..j - 1] + [path[j - 1]];
        assert token.Accepts(path, i, j);
      }
    } else if token.Globstar? {
      if Extends(row, token, path, j - 1) {
        var i: nat :| i <= j - 1 && row[i] && token.Accepts(path, i, j - 1);
        assert token.Accepts(path, i, j);
      }
    } else if token.GlobstarDirectory? {
      if path[j - 1] == '/' && exists i: nat :: i < j && row[i] {
        var i: nat :| i < j && row[i];
        assert token.Accepts(path, i, j);
      }
    } else if row[j - 1] && !token.Anchor? && token.Accepts(path, j - 1, j) {
      assert Extends(row, token, path, j);
    }
  }

  /** One pass over the path for one token, from the previous row to the current one. */
  method NextRow(token: Token, path: string, previous: array<bool>) returns (current: array<bool>)
    requires previous.Length == |path| + 1
    ensures fresh(current) && current.Length == |path| + 1
    ensures forall j :: 0 <= j <= |path| ==> current[j] == Extends(previous[..], token, path, j)
  {
    var n := |path|;
    current := new bool[n + 1](_ => false);
    ghost var row := previous[..];
    if token.Star? {
      current[0] := previous[0];
      for j := 1 to n + 1
        invariant forall k :: 0 <= k < j ==> current[k] == Extends(row, token, path, k)
      {
        ExtendsStep(row, token, path, j);
        current[j] := previous[j] || (path[j - 1] != '/' && current[j - 1]);
      }
    } else if token.Globstar? {
      current[0] := previous[0];
      for j := 1 to n + 1
        invariant forall k :: 0 <= k < j ==> current[k] == Extends(row, token, path, k)
      {
        ExtendsStep(row, token, path, j);
        current[j] := previous[j] || current[j - 1];
      }
    } else if token.GlobstarDirectory? {
      var previousPrefix := false;
      for j := 0 to n + 1
        invariant previousPrefix <==> exists i: nat :: i < j - 1 && row[i]
        invariant forall k :: 0 <= k < j ==> current[k] == Extends(row, token, path, k)
      {
        current[j] := previous[j];
        if j > 0 {
          ExtendsStep(row, token, path, j);
          previousPrefix := previousPrefix || previous[j - 1];
          if path[j - 1] == '/' && previousPrefix {
            current[j] := true;
          }
        }
      }
    } else if token.Anchor? {
      current[0] := previous[0];
      forall j | 0 < j <= n ensures !Extends(row, token, path, j) {
        ExtendsStep(row, token, path, j);
      }
    } else {
      for j := 1 to n + 1
        invariant forall k :: 0 <= k < j ==> current[k] == Extends(row, token, path, k)
      {
        ExtendsStep(row, token, path, j);
        var character := path[j - 1];
        var tokenMatches := false;
        if token.Question? {
          tokenMatches := character != '/';
        } else if token.Literal? {
          tokenMatches := character == token.c;
        } else if token.Class? {
          tokenMatches := token.cls.Matches(character);
        }
        current[j] := previous[j - 1] && tokenMatches;
      }
    }
  }

  /** The matcher decides exactly whether the path can be cut into one accepted piece
      per token. */
  method IgnoreTokensMatch(tokens: seq<Token>, path: string) returns (matched: bool)
    ensures matched <==> TokensMatch(tokens, path)
  {
    var previous := new bool[|path| + 1](_ => false);
    previous[0] := true;
    for k := 0 to |tokens|
      invariant previous.Length == |path| + 1
      invariant forall j :: 0 <= j <= |path| ==> previous[j] == Reaches(tokens[..k], path, j)
    {
      var current := NextRow(tokens[k], path, previous);
      assert tokens[..k + 1][..k] == tokens[..k];
      previous := current;
    }
    assert tokens[..|tokens|] == tokens;
    TokensMatchReaches(tokens, path);
    matched := previous[|path|];
  }

  // ---------------------------------------------------------------------
  // Reading a token list from the left, used to relate it to fast forms
  // ---------------------------------------------------------------------

  /** The tokens match path[i..], the pieces starting at offset i. */
  ghost predicate MatchFrom(tokens: seq<Token>, path: string, i: nat)
    requires i <= |path|
    decreases |tokens|
  {
    if tokens == [] then i == |path|
    else exists j: nat :: i <= j <= |path| && tokens[0].Accepts(path, i, j) && MatchFrom(tokens[1..], path, j)
  }

  lemma {:induction false} MatchFromCutting(tokens: seq<Token>, path: string, i: nat) returns (cuts: seq<nat>)
    requires i <= |path| && MatchFrom(tokens, path, i)
    ensures |cuts| == |tokens| + 1 && cuts[0] == i && cuts[|tokens|] == |path|
    ensures forall k :: 0 <= k < |cuts| ==> cuts[k] <= |path|
    ensures forall k :: 0 <= k < |tokens| ==> cuts[k] <= cuts[k + 1]
    ensures forall k :: 0 <= k < |tokens| ==> tokens[k].Accepts(path, cuts[k], cuts[k + 1])
    decreases |tokens|
  {
    if tokens == [] {
      cuts := [i];
    } else {
      var j: nat :| i <= j <= |path| && tokens[0].Accepts(path, i, j) && MatchFrom(tokens[1..], path, j);
      var rest := MatchFromCutting(tokens[1..], path, j);
      cuts := [i] + rest;
      forall k | 0 <= k < |tokens|
        ensures cuts[k] <= cuts[k + 1] && tokens[k].Accepts(path, cuts[k], cuts[k + 1])
      {
        if k > 0 {
          assert tokens[k] == tokens[1..][k - 1] && cuts[k] == rest[k - 1] && cuts[k + 1] == rest[k];
        }
      }
    }
  }

  lemma {:induction false} CuttingMatchFrom(tokens: seq<Token>, path: string, cuts: seq<nat>)
    requires |cuts| == |tokens| + 1 && cuts[|tokens|] == |path|
    requires forall k :: 0 <= k < |cuts| ==> cuts[k] <= |path|
    requires forall k :: 0 <= k < |tokens| ==> cuts[k] <= cuts[k + 1]
    requires forall k :: 0 <= k < |tokens| ==> tokens[k].Accepts(path, cuts[k], cuts[k + 1])
    ensures MatchFrom(tokens, path, cuts[0])
    decreases |tokens|
  {
    if tokens != [] {
      var rest := cuts[1..];
      forall k | 0 <= k < |tokens| - 1
        ensures rest[k] <= rest[k + 1] && tokens[1..][k].Accepts(path, rest[k], rest[k + 1])
      {
        assert cuts[k + 1] <= cuts[k + 2] && tokens[k + 1].Accepts(path, cuts[k + 1], cuts[k + 2]);
      }
      CuttingMatchFrom(tokens[1..], path, rest);
      assert tokens[0].Accepts(path, cuts[0], cuts[1]);
    }
  }

  lemma TokensMatchFrom(tokens: seq<Token>, path: string)
    ensures TokensMatch(tokens, path) <==> MatchFrom(tokens, path, 0)
  {
    if TokensMatch(tokens, path) {
      var cuts :| IsCutting(tokens, path, |path|, cuts);
      CuttingMatchFrom(tokens, path, cuts);
    }
    if MatchFrom(tokens, path, 0) {
      var cuts := MatchFromCutting(tokens, path, 0);
      assert IsCutting(tokens, path, |path|, cuts);
    }
  }
}
