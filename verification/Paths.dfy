/** Slash-separated paths as strings and as segment sequences, and the parts of
    Python's str and posixpath that the context code uses on them. */
module Paths {

  /** `s.split("/")`. */
  function Split(s: string): (r: seq<string>)
    ensures |r| >= 1
  {
    if s == "" then [""]
    else
      var rest := Split(s[1..]);
      if s[0] == '/' then [""] + rest else [[s[0]] + rest[0]] + rest[1..]
  }

  /** `"/".join(xs)`. */
  function Join(xs: seq<string>): string {
    if |xs| == 0 then ""
    else if |xs| == 1 then xs[0]
    else xs[0] + "/" + Join(xs[1..])
  }

  ghost predicate SlashFree(xs: seq<string>) {
    forall i :: 0 <= i < |xs| ==> '/' !in xs[i]
  }

  lemma {:induction false} SplitSlashFree(s: string)
    ensures SlashFree(Split(s))
  {
    if s != "" {
      SplitSlashFree(s[1..]);
      var rest := Split(s[1..]);
      assert '/' !in rest[0];
      assert s[0] != '/' ==> Split(s) == [[s[0]] + rest[0]] + rest[1..];
    }
  }

  lemma {:induction false} JoinSplit(s: string)
    ensures Join(Split(s)) == s
  {
    if s != "" {
      JoinSplit(s[1..]);
      var rest := Split(s[1..]);
      if s[0] == '/' {
        assert Split(s)[1..] == rest;
      } else {
        assert Split(s)[1..] == rest[1..];
      }
    }
  }

  lemma {:induction false} SplitConcat(p: string, r: string)
    ensures Split(p + "/" + r) == Split(p) + Split(r)
  {
    var q := p + "/" + r;
    if p == "" {
      assert q[1..] == r;
    } else {
      assert q[1..] == p[1..] + "/" + r;
      SplitConcat(p[1..], r);
    }
  }

  lemma {:induction false} SplitAtom(s: string)
    requires '/' !in s
    ensures Split(s) == [s]
  {
    if s != "" {
      SplitAtom(s[1..]);
      assert [s[0]] + s[1..] == s;
    }
  }

  lemma {:induction false} SplitJoin(xs: seq<string>)
    requires |xs| >= 1 && SlashFree(xs)
    ensures Split(Join(xs)) == xs
  {
    SplitAtom(xs[0]);
    if |xs| > 1 {
      SplitJoin(xs[1..]);
      SplitConcat(xs[0], Join(xs[1..]));
    }
  }

  lemma {:induction false} JoinConcat(a: seq<string>, b: seq<string>)
    requires |a| >= 1 && |b| >= 1
    ensures Join(a + b) == Join(a) + "/" + Join(b)
  {
    if |a| == 1 {
      assert (a + b)[1..] == b;
    } else {
      JoinConcat(a[1..], b);
      assert (a + b)[1..] == a[1..] + b;
    }
  }

  lemma SplitInjective(a: string, b: string)
    requires Split(a) == Split(b)
    ensures a == b
  {
    JoinSplit(a);
    JoinSplit(b);
  }

  /** `q.startswith(p + "/")`. */
  predicate Under(q: string, p: string) {
    |p| < |q| && q[..|p|] == p && q[|p|] == '/'
  }

  /** a is a proper prefix of b. */
  predicate ProperPrefix<T(==)>(a: seq<T>, b: seq<T>) {
    |a| < |b| && b[..|a|] == a
  }

  /** The textual test `q.startswith(p + "/")` is the tree relation on segments,
      for all strings. */
  lemma UnderIsProperPrefix(q: string, p: string)
    ensures Under(q, p) <==> ProperPrefix(Split(p), Split(q))
  {
    if Under(q, p) {
      var r := q[|p| + 1..];
      assert q == p + "/" + r;
      SplitConcat(p, r);
    }
    if ProperPrefix(Split(p), Split(q)) {
      var rest := Split(q)[|Split(p)|..];
      assert Split(q) == Split(p) + rest;
      JoinConcat(Split(p), rest);
      JoinSplit(p);
      JoinSplit(q);
      assert q == p + "/" + Join(rest);
    }
  }

  /** `q.removeprefix(p + "/")`, used where q starts with p + "/". */
  function Strip(q: string, p: string): string
    requires Under(q, p)
  {
    q[|p| + 1..]
  }

  lemma StripSegments(q: string, p: string)
    requires Under(q, p)
    ensures q == p + "/" + Strip(q, p)
    ensures Split(q) == Split(p) + Split(Strip(q, p))
  {
    assert q == p + "/" + Strip(q, p);
    SplitConcat(p, Strip(q, p));
  }

  /** `s.count("/")`. */
  function SlashCount(s: string): nat {
    if s == "" then 0 else (if s[0] == '/' then 1 else 0) + SlashCount(s[1..])
  }

  lemma {:induction false} SlashCountSegments(s: string)
    ensures SlashCount(s) + 1 == |Split(s)|
  {
    if s != "" { SlashCountSegments(s[1..]); }
  }

  // ---------------------------------------------------------------------
  // posixpath
  // ---------------------------------------------------------------------

  /** `s.rfind("/") + 1`. */
  function AfterLastSlash(s: string): (i: nat)
    ensures i <= |s|
    ensures forall k :: i <= k < |s| ==> s[k] != '/'
    ensures i > 0 ==> s[i - 1] == '/'
  {
    if s == "" then 0
    else if s[|s| - 1] == '/' then |s|
    else AfterLastSlash(s[..|s| - 1])
  }

  predicate AllSlashes(s: string) {
    forall k :: 0 <= k < |s| ==> s[k] == '/'
  }

  /** `s.rstrip("/")`. */
  function StripTrailing(s: string): (r: string)
    ensures r <= s
  {
    if s != "" && s[|s| - 1] == '/' then StripTrailing(s[..|s| - 1]) else s
  }

  /** `posixpath.dirname`. */
  function Dirname(p: string): (r: string)
    ensures r <= p
  {
    var head := p[..AfterLastSlash(p)];
    if head != "" && !AllSlashes(head) then StripTrailing(head) else head
  }

  /** `posixpath.basename`. */
  function Basename(p: string): string {
    p[AfterLastSlash(p)..]
  }

  /** A path whose segments are non-empty and none of "." and "..". */
  predicate CleanSegments(xs: seq<string>) {
    forall i :: 0 <= i < |xs| ==> xs[i] != "" && xs[i] != "." && xs[i] != ".."
  }

  predicate Clean(p: string) {
    CleanSegments(Split(p))
  }

  lemma LastSegment(p: string, xs: seq<string>, x: string)
    requires |xs| >= 1 && '/' !in x
    requires p == Join(xs) + "/" + x
    ensures AfterLastSlash(p) == |Join(xs)| + 1
    ensures Basename(p) == x
  {
    var j := |Join(xs)|;
    assert p[j] == '/';
    assert forall k :: j + 1 <= k < |p| ==> p[k] == x[k - (j + 1)];
  }

  lemma StripTrailingOne(s: string)
    requires s != "" && s[|s| - 1] != '/'
    ensures StripTrailing(s + "/") == s
    ensures StripTrailing(s) == s
  {
    assert (s + "/")[..|s|] == s;
  }

  lemma {:induction false} JoinCleanEnds(xs: seq<string>)
    requires |xs| >= 1 && SlashFree(xs) && (forall i :: 0 <= i < |xs| ==> xs[i] != "")
    ensures Join(xs) != "" && Join(xs)[|Join(xs)| - 1] != '/' && Join(xs)[0] != '/'
  {
    assert xs[0] != "" && '/' !in xs[0];
    if |xs| > 1 {
      JoinCleanEnds(xs[1..]);
    }
  }

  /** On a relative path with non-empty segments, dirname drops the last one. */
  lemma DirnameSegments(p: string)
    requires forall i :: 0 <= i < |Split(p)| ==> Split(p)[i] != ""
    ensures |Split(p)| == 1 ==> Dirname(p) == "" && Basename(p) == p
    ensures |Split(p)| > 1 ==>
              Dirname(p) == Join(Split(p)[..|Split(p)| - 1]) && Dirname(p) != ""
              && Split(Dirname(p)) == Split(p)[..|Split(p)| - 1]
              && Under(p, Dirname(p)) && Basename(p) == Split(p)[|Split(p)| - 1]
  {
    var xs := Split(p);
    SplitSlashFree(p);
    JoinSplit(p);
    if |xs| == 1 {
      assert p == xs[0];
      assert AfterLastSlash(p) == 0;
    } else {
      var init, last := xs[..|xs| - 1], xs[|xs| - 1];
      assert xs == init + [last];
      JoinConcat(init, [last]);
      DirnameOfJoin(p, init, last);
      SplitJoin(init);
      UnderIsProperPrefix(p, Join(init));
    }
  }

  lemma DirnameOfJoin(p: string, init: seq<string>, last: string)
    requires |init| >= 1 && SlashFree(init) && (forall i :: 0 <= i < |init| ==> init[i] != "")
    requires last != "" && '/' !in last && p == Join(init) + "/" + last
    ensures Dirname(p) == Join(init) && Basename(p) == last && Join(init) != ""
  {
    var d := Join(init);
    LastSegment(p, init, last);
    JoinCleanEnds(init);
    assert p[..AfterLastSlash(p)] == d + "/";
    StripTrailingOne(d);
    assert (d + "/")[|d| - 1] != '/';
  }

  // ---------------------------------------------------------------------
  // posixpath.normpath
  // ---------------------------------------------------------------------

  /** The component loop of `posixpath.normpath`; `rooted` is whether the path
      starts with a slash. */
  function Collapse(comps: seq<string>, rooted: bool, acc: seq<string>): seq<string>
    decreases |comps|
  {
    if comps == [] then acc
    else
      var c := comps[0];
      if c == "" || c == "." then Collapse(comps[1..], rooted, acc)
      else if c != ".." || (!rooted && acc == []) || (acc != [] && acc[|acc| - 1] == "..")
      then Collapse(comps[1..], rooted, acc + [c])
      else if acc != [] then Collapse(comps[1..], rooted, acc[..|acc| - 1])
      else Collapse(comps[1..], rooted, acc)
  }

  function LeadingSlashes(p: string): string {
    if p == "" || p[0] != '/' then ""
    else if |p| >= 2 && p[1] == '/' && !(|p| >= 3 && p[2] == '/') then "//"
    else "/"
  }

  /** `posixpath.normpath`. Exactly two leading slashes are kept, as POSIX allows. */
  function NormPath(p: string): string {
    if p == "" then "."
    else
      var lead := LeadingSlashes(p);
      var out := lead + Join(Collapse(Split(p), lead != "", []));
      if out == "" then "." else out
  }

  lemma {:induction false} CollapseKeeps(comps: seq<string>, rooted: bool, acc: seq<string>)
    requires SlashFree(comps) && SlashFree(acc)
    requires forall i :: 0 <= i < |acc| ==> acc[i] != "" && acc[i] != "."
    ensures var r := Collapse(comps, rooted, acc);
            SlashFree(r) && (forall i :: 0 <= i < |r| ==> r[i] != "" && r[i] != ".")
    decreases |comps|
  {
    if comps != [] {
      var c := comps[0];
      assert SlashFree(comps[1..]);
      CollapseKeeps(comps[1..], rooted, acc);
      if c != "" && c != "." {
        if c != ".." || (!rooted && acc == []) || (acc != [] && acc[|acc| - 1] == "..") {
          CollapseKeeps(comps[1..], rooted, acc + [c]);
        } else if acc != [] {
          CollapseKeeps(comps[1..], rooted, acc[..|acc| - 1]);
        }
      }
    }
  }

  lemma {:induction false} CollapseClean(comps: seq<string>, rooted: bool, acc: seq<string>)
    requires CleanSegments(comps)
    ensures Collapse(comps, rooted, acc) == acc + comps
    decreases |comps|
  {
    if comps == [] {
      assert acc + comps == acc;
    } else {
      assert comps[0] != "";
      CollapseClean(comps[1..], rooted, acc + [comps[0]]);
      assert acc + [comps[0]] + comps[1..] == acc + comps;
    }
  }

  /** Normalising a relative path with clean segments changes nothing. */
  lemma NormPathOfClean(p: string)
    requires Clean(p)
    ensures NormPath(p) == p && p != ""
  {
    assert Split("") == [""];
    JoinSplit(p);
    SplitSlashFree(p);
    JoinCleanEnds(Split(p));
    CollapseClean(Split(p), false, []);
    assert [] + Split(p) == Split(p);
  }

  /** A normalised path ends in a slash only when it is all slashes. */
  lemma NormPathTrailing(p: string)
    ensures var n := NormPath(p);
            n != "" && (n[|n| - 1] == '/' ==> n == "/" || n == "//")
  {
    if p != "" {
      var lead := LeadingSlashes(p);
      SplitSlashFree(p);
      CollapseKeeps(Split(p), lead != "", []);
      var comps := Collapse(Split(p), lead != "", []);
      if comps != [] {
        JoinCleanEnds(comps);
      }
    }
  }
}
