/** What posixpath.normpath does to the segments of a path. */
module NormalPaths {
  import opened Paths
  import opened Sequences

  predicate Meaningful(segment: string) {
    segment != "" && segment != "."
  }

  /** The segments that are neither empty nor ".". */
  function Kept(path: string): seq<string> {
    Filter(Split(path), Meaningful)
  }

  // ---------------------------------------------------------------------
  // Paths that do not climb
  // ---------------------------------------------------------------------

  lemma {:induction false} CollapseKept(comps: seq<string>, rooted: bool, acc: seq<string>)
    requires ".." !in comps && ".." !in acc
    ensures Collapse(comps, rooted, acc) == acc + Filter(comps, Meaningful)
    decreases |comps|
  {
    if comps == [] {
      assert acc + [] == acc;
    } else {
      var c, rest := comps[0], comps[1..];
      assert c in comps;
      if Meaningful(c) {
        CollapseKept(rest, rooted, acc + [c]);
        assert acc + [c] + Filter(rest, Meaningful) == acc + ([c] + Filter(rest, Meaningful));
      } else {
        CollapseKept(rest, rooted, acc);
      }
    }
  }

  /** A path without ".." is normalised to its meaningful segments, after its own leading
      slashes. */
  lemma NormPathKept(path: string)
    requires path != "" && ".." !in Split(path)
    ensures NormPath(path) == (if LeadingSlashes(path) + Join(Kept(path)) == "" then "." else LeadingSlashes(path) + Join(Kept(path)))
    ensures SlashFree(Kept(path)) && CleanSegments(Kept(path))
  {
    var comps := Split(path);
    CollapseKept(comps, LeadingSlashes(path) != "", []);
    assert [] + Kept(path) == Kept(path);
    KeptSegments(path);
  }

  lemma KeptSegments(path: string)
    ensures SlashFree(Kept(path))
    ensures forall k :: 0 <= k < |Kept(path)| ==> Kept(path)[k] in Split(path) && Meaningful(Kept(path)[k])
    ensures Kept(path) == [] <==> forall i :: 0 <= i < |Split(path)| ==> !Meaningful(Split(path)[i])
  {
    var kept := Kept(path);
    SplitSlashFree(path);
    forall k | 0 <= k < |kept| ensures '/' !in kept[k] && kept[k] in Split(path) && Meaningful(kept[k]) {
      assert kept[k] in kept;
    }
    forall i | 0 <= i < |Split(path)| && kept == [] ensures !Meaningful(Split(path)[i]) {
      assert Split(path)[i] !in kept;
    }
    assert kept != [] ==> kept[0] in Split(path);
  }

  lemma {:induction false} FilterConcat<T(!new)>(a: seq<T>, b: seq<T>, keep: T -> bool)
    ensures Filter(a + b, keep) == Filter(a, keep) + Filter(b, keep)
  {
    if a == [] {
      assert a + b == b;
    } else {
      assert (a + b)[1..] == a[1..] + b;
      FilterConcat(a[1..], b, keep);
    }
  }

  /** The segments of two paths joined by a slash. */
  lemma KeptConcat(a: string, b: string)
    ensures Split(a + "/" + b) == Split(a) + Split(b)
    ensures Kept(a + "/" + b) == Kept(a) + Kept(b)
  {
    SplitConcat(a, b);
    FilterConcat(Split(a), Split(b), Meaningful);
  }

  // ---------------------------------------------------------------------
  // Paths that climb
  // ---------------------------------------------------------------------

  lemma {:induction false} CollapseConcat(a: seq<string>, b: seq<string>, rooted: bool, acc: seq<string>)
    ensures Collapse(a + b, rooted, acc) == Collapse(b, rooted, Collapse(a, rooted, acc))
    decreases |a|
  {
    if a == [] {
      assert a + b == b;
    } else {
      assert (a + b)[1..] == a[1..] + b;
      var c := a[0];
      if !Meaningful(c) {
        CollapseConcat(a[1..], b, rooted, acc);
      } else if c != ".." || (!rooted && acc == []) || (acc != [] && acc[|acc| - 1] == "..") {
        CollapseConcat(a[1..], b, rooted, acc + [c]);
      } else if acc != [] {
        CollapseConcat(a[1..], b, rooted, acc[..|acc| - 1]);
      } else {
        CollapseConcat(a[1..], b, rooted, acc);
      }
    }
  }

  /** The rewriting rules: empty segments and "." do not matter wherever they stand, a name
      followed by ".." cancels out, and at the root ".." stays there. */
  lemma CollapseRules(a: seq<string>, b: seq<string>, x: string, rooted: bool)
    ensures !Meaningful(x) ==> Collapse(a + [x] + b, rooted, []) == Collapse(a + b, rooted, [])
    ensures Meaningful(x) && x != ".." ==> Collapse(a + [x, ".."] + b, rooted, []) == Collapse(a + b, rooted, [])
    ensures Collapse([".."] + b, true, []) == Collapse(b, true, [])
  {
    var done := Collapse(a, rooted, []);
    CollapseConcat(a, b, rooted, []);
    if !Meaningful(x) {
      CollapseConcat(a + [x], b, rooted, []);
      CollapseConcat(a, [x], rooted, []);
      assert [x][1..] == [];
    } else if x != ".." {
      CollapseConcat(a + [x, ".."], b, rooted, []);
      CollapseConcat(a, [x, ".."], rooted, []);
      assert [x, ".."][1..] == [".."] && [".."][1..] == [];
      assert (done + [x])[..|done|] == done;
    }
    assert ([".."] + b)[1..] == b;
  }

  /** Names, after some ".." on a path that does not start at the root. */
  ghost predicate Normal(xs: seq<string>, rooted: bool) {
    forall i :: 0 <= i < |xs| ==>
      Meaningful(xs[i]) && (xs[i] == ".." ==> !rooted && forall j :: 0 <= j < i ==> xs[j] == "..")
  }

  /** These segments are what the rules leave unchanged, and nothing else is left. */
  lemma {:induction false} CollapseNormal(comps: seq<string>, rooted: bool, acc: seq<string>)
    requires Normal(acc, rooted)
    ensures Normal(Collapse(comps, rooted, acc), rooted)
    ensures Normal(acc + comps, rooted) ==> Collapse(comps, rooted, acc) == acc + comps
    decreases |comps|
  {
    if comps == [] {
      assert acc + comps == acc;
    } else {
      var c, rest := comps[0], comps[1..];
      assert (acc + [c]) + rest == acc + comps;
      NormalParts(acc, c, rest, rooted);
      if !Meaningful(c) {
        CollapseNormal(rest, rooted, acc);
      } else if c != ".." || (!rooted && acc == []) || (acc != [] && acc[|acc| - 1] == "..") {
        CollapseNormal(rest, rooted, acc + [c]);
      } else if acc != [] {
        CollapseNormal(rest, rooted, acc[..|acc| - 1]);
      } else {
        CollapseNormal(rest, rooted, acc);
      }
    }
  }

  lemma NormalParts(acc: seq<string>, c: string, rest: seq<string>, rooted: bool)
    requires Normal(acc, rooted)
    ensures Normal((acc + [c]) + rest, rooted) ==>
              Meaningful(c) && (c == ".." ==> !rooted && (acc != [] ==> acc[|acc| - 1] == ".."))
    ensures Meaningful(c) && (c != ".." || (!rooted && acc == []) || (acc != [] && acc[|acc| - 1] == "..")) ==>
              Normal(acc + [c], rooted)
    ensures acc != [] ==> Normal(acc[..|acc| - 1], rooted)
  {
    var all := (acc + [c]) + rest;
    assert all[|acc|] == c;
    assert acc != [] ==> all[|acc| - 1] == acc[|acc| - 1];
  }
}
