/** Normalised absolute paths, and the walk from a path up by dirname. */
module AbsolutePaths {
  import opened Paths

  /** One leading slash, or the two that normpath keeps. */
  predicate Lead(lead: string) {
    lead == "/" || lead == "//"
  }

  /** The normalised absolute path with the given segments. */
  function Abs(lead: string, xs: seq<string>): string {
    lead + Join(xs)
  }

  ghost predicate CleanParts(xs: seq<string>) {
    CleanSegments(xs) && SlashFree(xs)
  }

  ghost predicate Canonical(p: string, lead: string, xs: seq<string>) {
    Lead(lead) && CleanParts(xs) && p == Abs(lead, xs)
  }

  lemma JoinStart(xs: seq<string>)
    requires CleanParts(xs)
    ensures xs == [] <==> Join(xs) == ""
    ensures xs != [] ==> Join(xs)[0] != '/'
  {
    if xs != [] { JoinCleanEnds(xs); }
  }

  lemma SplitSlash(s: string)
    ensures Split("/" + s) == [""] + Split(s)
  {
    assert ("/" + s)[1..] == s;
  }

  lemma AbsSegments(lead: string, xs: seq<string>)
    requires Lead(lead) && CleanParts(xs)
    ensures Split(Abs(lead, xs)) ==
            (if lead == "/" then [""] else ["", ""]) + (if xs == [] then [""] else xs)
  {
    if xs != [] { SplitJoin(xs); } else { assert Split("") == [""]; }
    SplitSlash(Join(xs));
    if lead == "//" {
      SplitSlash("/" + Join(xs));
      assert "//" + Join(xs) == "/" + ("/" + Join(xs));
      assert [""] + ([""] + Split(Join(xs))) == ["", ""] + Split(Join(xs));
    }
  }

  lemma AbsInjective(lead: string, xs: seq<string>, ys: seq<string>)
    requires Lead(lead) && CleanParts(xs) && CleanParts(ys) && Abs(lead, xs) == Abs(lead, ys)
    ensures xs == ys
  {
    assert Join(xs) == Abs(lead, xs)[|lead|..] == Join(ys);
    JoinStart(xs);
    JoinStart(ys);
    if xs != [] {
      SplitJoin(xs);
      SplitJoin(ys);
    }
  }

  lemma {:induction false} CollapseSkipsEmpty(n: nat, xs: seq<string>, rooted: bool)
    ensures Collapse(seq(n, _ => "") + xs, rooted, []) == Collapse(xs, rooted, [])
  {
    var all := seq(n, _ => "") + xs;
    if n == 0 {
      assert all == xs;
    } else {
      assert all[1..] == seq(n - 1, _ => "") + xs;
      CollapseSkipsEmpty(n - 1, xs, rooted);
    }
  }

  /** Appending a clean relative path to a normalised path and normalising joins the
      segments. */
  lemma NormPathOfAbs(lead: string, xs: seq<string>)
    requires Lead(lead) && CleanParts(xs)
    ensures NormPath(Abs(lead, xs)) == Abs(lead, xs)
  {
    AbsSegments(lead, xs);
    JoinStart(xs);
    var n := if xs == [] then |lead| + 1 else |lead|;
    assert Split(Abs(lead, xs)) == seq(n, _ => "") + xs;
    CollapseSkipsEmpty(n, xs, true);
    CollapseClean(xs, true, []);
    assert [] + xs == xs;
  }

  /** Normalising an absolute path without ".." segments gives a normalised path. */
  lemma NormPathCanonical(p: string)
    requires p != "" && p[0] == '/' && ".." !in Split(p)
    ensures exists lead, xs :: Canonical(NormPath(p), lead, xs)
  {
    var xs := Collapse(Split(p), true, []);
    SplitSlashFree(p);
    CollapseKeeps(Split(p), true, []);
    CollapseNoDots(Split(p), true, []);
    assert Canonical(NormPath(p), LeadingSlashes(p), xs);
  }

  lemma {:induction false} CollapseNoDots(comps: seq<string>, rooted: bool, acc: seq<string>)
    requires ".." !in comps && ".." !in acc
    ensures ".." !in Collapse(comps, rooted, acc)
    decreases |comps|
  {
    if comps != [] {
      assert comps[0] in comps;
      CollapseNoDots(comps[1..], rooted, acc);
      CollapseNoDots(comps[1..], rooted, acc + [comps[0]]);
    }
  }

  // ---------------------------------------------------------------------
  // dirname on normalised absolute paths
  // ---------------------------------------------------------------------

  lemma DirnameAbs(lead: string, xs: seq<string>)
    requires Lead(lead) && CleanParts(xs)
    ensures Dirname(Abs(lead, xs)) == Abs(lead, if xs == [] then [] else xs[..|xs| - 1])
  {
    if xs == [] {
      assert Abs(lead, xs) == lead + "";
      DirnameOfTop(lead, "");
    } else {
      var init, last := xs[..|xs| - 1], xs[|xs| - 1];
      assert '/' !in last;
      if init == [] {
        DirnameOfTop(lead, last);
      } else {
        assert xs == init + [last];
        AbsChild(lead, init, last);
        DirnameOfChild(Abs(lead, init), last);
      }
    }
  }

  lemma AbsChild(lead: string, init: seq<string>, last: string)
    requires CleanParts(init) && init != []
    ensures Abs(lead, init + [last]) == Abs(lead, init) + "/" + last
    ensures Abs(lead, init) != "" && Abs(lead, init)[|Abs(lead, init)| - 1] != '/'
  {
    JoinConcat(init, [last]);
    JoinCleanEnds(init);
    assert Abs(lead, init)[|Abs(lead, init)| - 1] == Join(init)[|Join(init)| - 1];
  }

  lemma DirnameOfTop(lead: string, x: string)
    requires Lead(lead) && '/' !in x
    ensures Dirname(lead + x) == lead
  {
    var p := lead + x;
    var d := lead[..|lead| - 1];
    assert p == d + "/" + x;
    LastSlashOf(p, d, x);
    assert p[..|lead|] == lead;
  }

  lemma DirnameOfChild(d: string, x: string)
    requires d != "" && d[|d| - 1] != '/' && '/' !in x
    ensures Dirname(d + "/" + x) == d
  {
    var p := d + "/" + x;
    LastSlashOf(p, d, x);
    assert p[..|d| + 1] == d + "/";
    StripTrailingOne(d);
    assert (d + "/")[|d| - 1] != '/';
  }

  lemma LastSlashOf(p: string, d: string, x: string)
    requires p == d + "/" + x && '/' !in x
    ensures AfterLastSlash(p) == |d| + 1
  {
    assert p[|d|] == '/';
    assert forall k :: |d| + 1 <= k < |p| ==> p[k] == x[k - (|d| + 1)];
  }

  // ---------------------------------------------------------------------
  // while parent != "/": parent = dirname(parent)
  // ---------------------------------------------------------------------

  /** The walk that starts at `parent` visits `a` before it reaches the root. */
  ghost predicate WalkVisits(parent: string, a: string)
    decreases |parent|
  {
    parent != "/" && (a == parent || (Dirname(parent) != parent && WalkVisits(Dirname(parent), a)))
  }

  /** The walk that starts at `parent` reaches the root. A dirname that returns its
      argument is never left again. */
  ghost predicate WalkEnds(parent: string)
    decreases |parent|
  {
    parent == "/" || (Dirname(parent) != parent && WalkEnds(Dirname(parent)))
  }

  /** n steps of dirname. */
  ghost function Up(p: string, n: nat): string
    decreases n
  {
    if n == 0 then p else Up(Dirname(p), n - 1)
  }

  lemma {:induction false} StuckForever(p: string, n: nat)
    requires Dirname(p) == p
    ensures Up(p, n) == p
  {
    if n > 0 { StuckForever(p, n - 1); }
  }

  ghost predicate Arrives(p: string) {
    exists n: nat :: Up(p, n) == "/"
  }

  lemma UpNext(p: string, n: nat)
    ensures Up(p, n + 1) == Up(Dirname(p), n)
  {
  }

  lemma ArrivesNext(p: string)
    requires p != "/"
    ensures Arrives(p) <==> Arrives(Dirname(p))
  {
    if Arrives(Dirname(p)) {
      var n: nat :| Up(Dirname(p), n) == "/";
      UpNext(p, n);
    }
    if Arrives(p) {
      var n: nat :| Up(p, n) == "/";
      assert n > 0;
      UpNext(p, n - 1);
    }
  }

  /** The predicate says what it should: some number of steps arrives at "/". */
  lemma {:induction false} WalkEndsExactly(p: string)
    ensures WalkEnds(p) <==> Arrives(p)
    decreases |p|
  {
    if p == "/" {
      assert Up(p, 0) == "/";
    } else if Dirname(p) == p {
      forall n: nat ensures Up(p, n) != "/" { StuckForever(p, n); }
    } else {
      WalkEndsExactly(Dirname(p));
      ArrivesNext(p);
    }
  }

  /** On normalised absolute paths the walk ends exactly when there is one leading
      slash: under "//" it comes to rest at "//" and never reaches "/". */
  lemma {:induction false} WalkEndsForOneSlash(lead: string, xs: seq<string>)
    requires Lead(lead) && CleanParts(xs)
    ensures WalkEnds(Abs(lead, xs)) <==> lead == "/"
    decreases |xs|
  {
    DirnameAbs(lead, xs);
    JoinStart(xs);
    if xs != [] {
      var init := xs[..|xs| - 1];
      WalkEndsForOneSlash(lead, init);
      if Dirname(Abs(lead, xs)) == Abs(lead, xs) { AbsInjective(lead, init, xs); }
    }
  }

  /** The walk visits only prefixes of the segments. */
  lemma {:induction false} WalkVisitsPrefixes(lead: string, xs: seq<string>, a: string) returns (k: nat, ys: seq<string>)
    requires Lead(lead) && CleanParts(xs) && WalkVisits(Abs(lead, xs), a)
    ensures k <= |xs| && ys == xs[..k] && a == Abs(lead, ys)
    decreases |xs|
  {
    DirnameAbs(lead, xs);
    if a == Abs(lead, xs) {
      k, ys := |xs|, xs;
    } else {
      assert xs != [];
      var init := xs[..|xs| - 1];
      k, ys := WalkVisitsPrefixes(lead, init, a);
      assert init[..k] == xs[..k];
    }
  }

  /** Something the walk above a path visits has fewer segments, all of them the path's. */
  lemma VisitedAbove(lead: string, xs: seq<string>, ys: seq<string>)
    requires Lead(lead) && CleanParts(xs) && CleanParts(ys)
    requires WalkVisits(Dirname(Abs(lead, xs)), Abs(lead, ys))
    ensures ys == [] || ProperPrefix(ys, xs)
  {
    DirnameAbs(lead, xs);
    var up := if xs == [] then [] else xs[..|xs| - 1];
    var k, zs := WalkVisitsPrefixes(lead, up, Abs(lead, ys));
    AbsInjective(lead, ys, zs);
    assert up[..k] == xs[..k];
  }

  lemma PrefixClean(xs: seq<string>, k: nat)
    requires CleanParts(xs) && k <= |xs|
    ensures CleanParts(xs[..k])
  {
  }

  lemma RootAbs()
    ensures Abs("/", []) == "/"
  {
  }

  lemma VisitedCanonical(xs: seq<string>, d: string) returns (ys: seq<string>)
    requires CleanParts(xs) && WalkVisits(Dirname(Abs("/", xs)), d)
    ensures Canonical(d, "/", ys) && ys != []
  {
    DirnameAbs("/", xs);
    var up := if xs == [] then [] else xs[..|xs| - 1];
    var k;
    k, ys := WalkVisitsPrefixes("/", up, d);
    NeverVisitsRoot(Abs("/", up), d);
    PrefixClean(up, k);
    RootAbs();
  }

  lemma {:induction false} NeverVisitsRoot(parent: string, d: string)
    requires WalkVisits(parent, d)
    ensures d != "/"
    decreases |parent|
  {
    if d != parent { NeverVisitsRoot(Dirname(parent), d); }
  }

  lemma ParentDepth(xs: seq<string>)
    requires CleanParts(xs) && |xs| > 1
    ensures var d := Abs("/", xs);
            Dirname(d) != "/" && Dirname(d) != d && SlashCount(Dirname(d)) < SlashCount(d)
  {
    DirnameAbs("/", xs);
    var init := xs[..|xs| - 1];
    JoinStart(init);
    DepthOfAbs(xs);
    DepthOfAbs(init);
  }

  lemma DepthOfAbs(xs: seq<string>)
    requires CleanParts(xs) && xs != []
    ensures SlashCount(Abs("/", xs)) == |xs|
  {
    AbsSegments("/", xs);
    SlashCountSegments(Abs("/", xs));
  }

  /** And all of them, apart from the root. */
  lemma {:induction false} WalkVisitsAll(xs: seq<string>, k: nat)
    requires CleanParts(xs) && 1 <= k <= |xs|
    ensures WalkVisits(Abs("/", xs), Abs("/", xs[..k]))
    decreases |xs|
  {
    JoinStart(xs);
    if k == |xs| {
      assert xs[..k] == xs;
    } else {
      var init := xs[..|xs| - 1];
      DirnameAbs("/", xs);
      if Dirname(Abs("/", xs)) == Abs("/", xs) { AbsInjective("/", init, xs); }
      WalkVisitsAll(init, k);
      assert init[..k] == xs[..k];
    }
  }
}
