/** Filtering and stable sorting of sequences, and the two orders on paths:
    Python's string order and the order of segment tuples. */
module Sequences {
  import opened Paths

  // ---------------------------------------------------------------------
  // Filter and map
  // ---------------------------------------------------------------------

  function Filter<T(!new)>(s: seq<T>, keep: T -> bool): (r: seq<T>)
    ensures forall x :: x in r <==> x in s && keep(x)
    ensures |r| <= |s|
  {
    if s == [] then []
    else
      var rest := Filter(s[1..], keep);
      assert s == [s[0]] + s[1..];
      if keep(s[0]) then [s[0]] + rest else rest
  }

  lemma {:induction false} FilterCongruent<T(!new)>(s: seq<T>, f: T -> bool, g: T -> bool)
    requires forall x :: x in s ==> f(x) == g(x)
    ensures Filter(s, f) == Filter(s, g)
  {
    if s != [] { FilterCongruent(s[1..], f, g); }
  }

  /** Whatever holds of every two positions in order holds after filtering. */
  lemma {:induction false} FilterKeepsPairs<T(!new)>(s: seq<T>, keep: T -> bool, rel: (T, T) -> bool)
    requires Pairwise(s, rel)
    ensures Pairwise(Filter(s, keep), rel)
  {
    if s != [] {
      FilterKeepsPairs(s[1..], keep, rel);
      forall x | x in Filter(s[1..], keep) ensures rel(s[0], x) {
        assert x in s[1..];
        var j :| 0 <= j < |s[1..]| && s[1..][j] == x;
        assert s[j + 1] == x;
      }
    }
  }

  ghost predicate Pairwise<T(!new)>(s: seq<T>, rel: (T, T) -> bool) {
    forall i, j :: 0 <= i < j < |s| ==> rel(s[i], s[j])
  }

  lemma PairwiseMembers<T(!new)>(s: seq<T>, rel: (T, T) -> bool, x: T, y: T)
    requires Pairwise(s, rel) && x in s && y in s
    ensures x == y || rel(x, y) || rel(y, x)
  {
    var i :| 0 <= i < |s| && s[i] == x;
    var j :| 0 <= j < |s| && s[j] == y;
  }

  // ---------------------------------------------------------------------
  // sorted(s, key=...)
  // ---------------------------------------------------------------------

  ghost predicate TotalPreorder<T(!new)>(le: (T, T) -> bool) {
    && (forall x, y :: le(x, y) || le(y, x))
    && (forall x, y, z :: le(x, y) && le(y, z) ==> le(x, z))
  }

  function Insert<T(!new)>(x: T, s: seq<T>, le: (T, T) -> bool): (r: seq<T>)
    ensures |r| == |s| + 1
    ensures forall y :: y in r <==> y == x || y in s
  {
    if s == [] || le(x, s[0]) then [x] + s
    else
      assert s == [s[0]] + s[1..];
      [s[0]] + Insert(x, s[1..], le)
  }

  /** The stable sort: equal keys keep their order. */
  function SortBy<T(!new)>(s: seq<T>, le: (T, T) -> bool): (r: seq<T>)
    ensures |r| == |s|
    ensures forall y :: y in r <==> y in s
  {
    if s == [] then []
    else
      assert s == [s[0]] + s[1..];
      Insert(s[0], SortBy(s[1..], le), le)
  }

  lemma {:induction false} InsertSorted<T(!new)>(x: T, s: seq<T>, le: (T, T) -> bool)
    requires TotalPreorder(le) && Pairwise(s, le)
    ensures Pairwise(Insert(x, s, le), le)
  {
    if s != [] && !le(x, s[0]) {
      InsertSorted(x, s[1..], le);
      var r := Insert(x, s[1..], le);
      forall j | 0 <= j < |r| ensures le(s[0], r[j]) {
        assert r[j] in r;
        if r[j] != x {
          var k :| 0 <= k < |s[1..]| && s[1..][k] == r[j];
          assert s[k + 1] == r[j];
        }
      }
    } else if s != [] {
      forall j | 0 <= j < |s| ensures le(x, s[j]) {
        assert j > 0 ==> le(s[0], s[j]);
      }
    }
  }

  lemma {:induction false} SortSorted<T(!new)>(s: seq<T>, le: (T, T) -> bool)
    requires TotalPreorder(le)
    ensures Pairwise(SortBy(s, le), le)
  {
    if s != [] {
      SortSorted(s[1..], le);
      InsertSorted(s[0], SortBy(s[1..], le), le);
    }
  }

  ghost predicate Symmetric<T(!new)>(rel: (T, T) -> bool) {
    forall x, y :: rel(x, y) ==> rel(y, x)
  }

  lemma {:induction false} InsertKeepsPairs<T(!new)>(x: T, s: seq<T>, le: (T, T) -> bool, rel: (T, T) -> bool)
    requires Symmetric(rel) && Pairwise(s, rel) && forall y :: y in s ==> rel(x, y)
    ensures Pairwise(Insert(x, s, le), rel)
  {
    if s != [] && !le(x, s[0]) {
      forall y | y in s[1..] ensures rel(x, y) && rel(s[0], y) {
        var k :| 0 <= k < |s[1..]| && s[1..][k] == y;
        assert s[k + 1] == y;
      }
      assert s[0] in s;
      InsertKeepsPairs(x, s[1..], le, rel);
    }
  }

  /** Sorting keeps a symmetric relation between all pairs, such as distinct keys. */
  lemma {:induction false} SortKeepsPairs<T(!new)>(s: seq<T>, le: (T, T) -> bool, rel: (T, T) -> bool)
    requires Symmetric(rel) && Pairwise(s, rel)
    ensures Pairwise(SortBy(s, le), rel)
  {
    if s != [] {
      SortKeepsPairs(s[1..], le, rel);
      forall y | y in SortBy(s[1..], le) ensures rel(s[0], y) {
        var k :| 0 <= k < |s[1..]| && s[1..][k] == y;
        assert s[k + 1] == y;
      }
      InsertKeepsPairs(s[0], SortBy(s[1..], le), le, rel);
    }
  }

  lemma {:induction false} InsertReflectsPairs<T(!new)>(x: T, s: seq<T>, le: (T, T) -> bool, rel: (T, T) -> bool)
    requires Symmetric(rel) && Pairwise(Insert(x, s, le), rel)
    ensures Pairwise(s, rel) && forall y :: y in s ==> rel(x, y)
  {
    var r := Insert(x, s, le);
    if s == [] || le(x, s[0]) {
      assert r == [x] + s;
      forall i, j | 0 <= i < j < |s| ensures rel(s[i], s[j]) { assert rel(r[i + 1], r[j + 1]); }
      forall y | y in s ensures rel(x, y) {
        var k :| 0 <= k < |s| && s[k] == y;
        assert rel(r[0], r[k + 1]);
      }
    } else {
      var rest := Insert(x, s[1..], le);
      assert r == [s[0]] + rest;
      forall i, j | 0 <= i < j < |rest| ensures rel(rest[i], rest[j]) { assert rel(r[i + 1], r[j + 1]); }
      InsertReflectsPairs(x, s[1..], le, rel);
      forall y | y in rest ensures rel(s[0], y) {
        var k :| 0 <= k < |rest| && rest[k] == y;
        assert rel(r[0], r[k + 1]);
      }
      assert s == [s[0]] + s[1..];
    }
  }

  /** And conversely: what holds between all pairs after sorting held before. */
  lemma {:induction false} SortReflectsPairs<T(!new)>(s: seq<T>, le: (T, T) -> bool, rel: (T, T) -> bool)
    requires Symmetric(rel) && Pairwise(SortBy(s, le), rel)
    ensures Pairwise(s, rel)
  {
    if s != [] {
      InsertReflectsPairs(s[0], SortBy(s[1..], le), le, rel);
      SortReflectsPairs(s[1..], le, rel);
    }
  }

  // ---------------------------------------------------------------------
  // Orders
  // ---------------------------------------------------------------------

  predicate StringLe(a: string, b: string) {
    a == "" || (b != "" && (a[0] < b[0] || (a[0] == b[0] && StringLe(a[1..], b[1..]))))
  }

  predicate SegmentsLe(a: seq<string>, b: seq<string>) {
    a == [] || (b != [] && if a[0] == b[0] then SegmentsLe(a[1..], b[1..]) else StringLe(a[0], b[0]))
  }

  /** Depth first, then path: the order directories are created in. */
  predicate DepthThenPath(a: string, b: string) {
    SlashCount(a) < SlashCount(b) || (SlashCount(a) == SlashCount(b) && StringLe(a, b))
  }

  lemma DepthThenPathOrder()
    ensures TotalPreorder(DepthThenPath)
  {
    forall x, y ensures DepthThenPath(x, y) || DepthThenPath(y, x) { StringLeTotal(x, y); }
    forall x, y, z | DepthThenPath(x, y) && DepthThenPath(y, z) ensures DepthThenPath(x, z) {
      if SlashCount(x) == SlashCount(y) == SlashCount(z) {
        StringLeTransitive(x, y, z);
      }
    }
  }

  lemma {:induction false} StringLeTotal(a: string, b: string)
    ensures StringLe(a, b) || StringLe(b, a)
    ensures StringLe(a, b) && StringLe(b, a) ==> a == b
    ensures a == b ==> StringLe(a, b)
  {
    if a != "" && b != "" {
      StringLeTotal(a[1..], b[1..]);
      assert a == [a[0]] + a[1..] && b == [b[0]] + b[1..];
    }
  }

  lemma {:induction false} StringLeTransitive(a: string, b: string, c: string)
    requires StringLe(a, b) && StringLe(b, c)
    ensures StringLe(a, c)
  {
    if a != "" && a[0] == b[0] && b[0] == c[0] {
      StringLeTransitive(a[1..], b[1..], c[1..]);
    }
  }

  lemma {:induction false} SegmentsLeTotal(a: seq<string>, b: seq<string>)
    ensures SegmentsLe(a, b) || SegmentsLe(b, a)
    ensures SegmentsLe(a, b) && SegmentsLe(b, a) ==> a == b
  {
    if a != [] && b != [] {
      SegmentsLeTotal(a[1..], b[1..]);
      StringLeTotal(a[0], b[0]);
      assert a == [a[0]] + a[1..] && b == [b[0]] + b[1..];
    }
  }

  lemma {:induction false} SegmentsLeTransitive(a: seq<string>, b: seq<string>, c: seq<string>)
    requires SegmentsLe(a, b) && SegmentsLe(b, c)
    ensures SegmentsLe(a, c)
  {
    if a != [] {
      if a[0] == b[0] && b[0] == c[0] {
        SegmentsLeTransitive(a[1..], b[1..], c[1..]);
      } else {
        StringLeTotal(a[0], b[0]);
        if StringLe(a[0], b[0]) && StringLe(b[0], c[0]) {
          StringLeTransitive(a[0], b[0], c[0]);
        }
        StringLeTotal(a[0], c[0]);
        StringLeTotal(b[0], c[0]);
      }
    }
  }

  lemma {:induction false} PrefixLe(a: seq<string>, b: seq<string>)
    requires ProperPrefix(a, b)
    ensures SegmentsLe(a, b)
  {
    if a != [] {
      assert a[0] == b[..|a|][0];
      assert b[1..][..|a[1..]|] == b[..|a|][1..];
      PrefixLe(a[1..], b[1..]);
    }
  }

  /** In segment order a subtree is contiguous: what lies between a directory and one
      of its descendants is the directory or another descendant. String order lacks
      this, since "a-b" lies between "a" and "a/b". */
  lemma {:induction false} SubtreeContiguous(d: seq<string>, m: seq<string>, e: seq<string>)
    requires ProperPrefix(d, e) && SegmentsLe(d, m) && SegmentsLe(m, e)
    ensures d == m || ProperPrefix(d, m)
  {
    if d != [] {
      assert d[0] == e[..|d|][0];
      if d[0] == m[0] {
        assert e[1..][..|d[1..]|] == e[..|d|][1..];
        SubtreeContiguous(d[1..], m[1..], e[1..]);
        assert d == [d[0]] + d[1..] && m == [m[0]] + m[1..];
        if ProperPrefix(d[1..], m[1..]) {
          assert m[..|d|] == [m[0]] + m[1..][..|d[1..]|];
        }
      } else {
        StringLeTotal(d[0], m[0]);
      }
    } else {
      assert m[..0] == [];
    }
  }

  /** Moving the head of the rest to the end of what is done. */
  lemma MoveHead<T>(done: seq<T>, rest: seq<T>)
    requires rest != []
    ensures (done + [rest[0]]) + rest[1..] == done + rest
  {
  }

  // ---------------------------------------------------------------------
  // Text standing inside other text
  // ---------------------------------------------------------------------

  /** The text stands in the value at the index. */
  ghost predicate At(value: string, index: nat, text: string) {
    && index + |text| <= |value|
    && forall k {:trigger text[k]} :: 0 <= k < |text| ==> value[index + k] == text[k]
  }

  lemma AtChar(value: string, index: nat, text: string, k: nat)
    requires At(value, index, text) && k < |text|
    ensures value[index + k] == text[k]
  {
  }

  lemma AtSplit(value: string, index: nat, a: string, b: string)
    requires At(value, index, a + b)
    ensures At(value, index, a) && At(value, index + |a|, b)
    ensures a != "" ==> value[index] == a[0]
    ensures b != "" ==> value[index + |a|] == b[0]
  {
    forall k | 0 <= k < |a| ensures value[index + k] == a[k] {
      assert (a + b)[k] == a[k];
    }
    forall k | 0 <= k < |b| ensures value[index + |a| + k] == b[k] {
      assert (a + b)[|a| + k] == b[k];
    }
  }

  lemma AtPieces(value: string, index: nat, text: string, a: string, b: string) returns (middle: nat)
    requires text == a + b && At(value, index, text)
    ensures middle == index + |a| && middle + |b| == index + |text|
    ensures At(value, index, a) && At(value, middle, b)
  {
    AtSplit(value, index, a, b);
    middle := index + |a|;
  }
}
