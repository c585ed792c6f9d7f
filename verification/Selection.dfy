/** COPY source selection over a context manifest. */
module Selection {
  import opened Paths
  import opened Sequences
  import opened NormalPaths
  import opened ContextEntries
  import opened IgnorePatterns
  import opened Visibility

  // ---------------------------------------------------------------------
  // Source normalisation
  // ---------------------------------------------------------------------

  datatype Normalized = Source(path: string) | RejectedSource

  function NormalizeSource(source: string): Normalized {
    if source == "" || '\0' in source || '\\' in source || source[0] == '/' || ".." in Split(source)
    then RejectedSource
    else
      var normalized := Join(Kept(source));
      if normalized != "" then Source(normalized)
      else if forall i :: 0 <= i < |Split(source)| ==> !Meaningful(Split(source)[i]) then Source(".")
      else RejectedSource
  }

  /** What normalisation keeps, when it is anything, is a safe path that is its own
      normal form. */
  lemma KeptNormal(source: string)
    requires Kept(source) != []
    requires '\0' !in source && '\\' !in source && ".." !in Split(source)
    ensures var n := Join(Kept(source));
            n != "" && n != "." && SafePath(n) && Split(n) == Kept(source) && NormalizeSource(n) == Source(n)
  {
    var kept := Kept(source);
    var n := Join(kept);
    KeptSegments(source);
    SplitJoin(kept);
    JoinCleanEnds(kept);
    JoinCharacters(source, kept);
    NormPathOfClean(n);
    assert SafePath(n);
    NormalAlready(n, kept);
  }

  lemma NormalAlready(n: string, kept: seq<string>)
    requires n != "" && n == Join(kept) && Split(n) == kept
    requires '\0' !in n && '\\' !in n && n[0] != '/' && ".." !in kept
    requires forall k :: 0 <= k < |kept| ==> Meaningful(kept[k])
    ensures NormalizeSource(n) == Source(n)
  {
    FilterAll(kept, Meaningful);
  }

  /** A normalised source is "." or a clean path whose segments are the source's
      meaningful ones, and normalising it again changes nothing. Nothing is rejected
      beyond empty, absolute, climbing, NUL and backslash sources. */
  lemma NormalizeSourceMeaning(source: string)
    ensures NormalizeSource(source).RejectedSource? <==>
            source == "" || '\0' in source || '\\' in source || source[0] == '/' || ".." in Split(source)
    ensures NormalizeSource(source).Source? ==>
              var n := NormalizeSource(source).path;
              && NormalizeSource(n) == Source(n)
              && (n == "." <==> Kept(source) == [])
              && (n != "." ==> SafePath(n) && Split(n) == Kept(source))
  {
    KeptSegments(source);
    if Kept(source) == [] {
      SplitAtom(".");
    } else {
      var n := Join(Kept(source));
      SplitJoin(Kept(source));
      JoinCleanEnds(Kept(source));
      if NormalizeSource(source).Source? {
        KeptNormal(source);
      }
    }
  }

  lemma {:induction false} FilterAll<T(!new)>(s: seq<T>, keep: T -> bool)
    requires forall x :: x in s ==> keep(x)
    ensures Filter(s, keep) == s
  {
    if s != [] {
      FilterAll(s[1..], keep);
      assert s[0] in s;
    }
  }

  lemma {:induction false} SegmentCharacters(s: string, x: string, c: char)
    requires x in Split(s) && c in x
    ensures c in s
  {
    if s != "" {
      var rest := Split(s[1..]);
      var i :| 0 <= i < |Split(s)| && Split(s)[i] == x;
      if s[0] == '/' {
        if i > 0 {
          assert rest[i - 1] == x;
          SegmentCharacters(s[1..], x, c);
        }
      } else if i == 0 {
        if c != s[0] {
          assert c in rest[0];
          SegmentCharacters(s[1..], rest[0], c);
        }
      } else {
        assert rest[i] == x;
        SegmentCharacters(s[1..], x, c);
      }
    }
  }

  lemma {:induction false} JoinCharacters(source: string, xs: seq<string>)
    requires forall k :: 0 <= k < |xs| ==> xs[k] in Split(source)
    ensures forall c :: c in Join(xs) ==> c in source || c == '/'
  {
    if |xs| > 0 {
      forall c | c in xs[0] ensures c in source {
        SegmentCharacters(source, xs[0], c);
      }
      if |xs| > 1 {
        JoinCharacters(source, xs[1..]);
      }
    }
  }

  // ---------------------------------------------------------------------
  // The manifest
  // ---------------------------------------------------------------------

  datatype Manifest = Manifest(raw: seq<Entry>, visible: seq<Entry>)

  ghost predicate ValidManifest(m: Manifest) {
    && WellFormedWalk(m.raw)
    && Pairwise(m.visible, PathsDiffer)
    && (forall e :: e in m.visible ==> e in m.raw)
    && (forall e, a :: e in m.visible && Under(e.path, a) ==> IsDirectory(m.visible, a))
  }

  datatype ManifestOutcome = Built(manifest: Manifest) | BadWalk(check: WalkCheck) | BadVisible

  /** `from_context`, the walk and the compiled ignore patterns given. */
  method FromContext(walk: seq<Entry>, patterns: seq<Pattern>) returns (r: ManifestOutcome)
    ensures r.Built? <==> WellFormedWalk(walk)
    ensures !r.BadVisible?
    ensures r.Built? ==>
              && ValidManifest(r.manifest)
              && Pairwise(r.manifest.raw, PathLe)
              && r.manifest.raw == SortBy(walk, PathLe)
              && r.manifest.visible == Filter(r.manifest.raw, (e: Entry) => IsVisible(walk, patterns, e.path))
  {
    var check := ValidateWalkEntries(walk);
    if check != Accepted {
      return BadWalk(check);
    }
    PathOrder();
    SortedWalk(walk, PathLe);
    var raw := SortBy(walk, PathLe);
    var outcome := VisibleEntriesWithAncestors(raw, patterns);
    if !outcome.Visible? {
      return BadVisible;
    }
    var visible := outcome.entries;
    FilterKeepsPairs(raw, (e: Entry) => IsVisible(raw, patterns, e.path), PathsDiffer);
    forall e, a | e in visible && Under(e.path, a) ensures IsDirectory(visible, a) {
      VisibleClosed(raw, patterns, e, a);
    }
    forall e: Entry ensures IsVisible(raw, patterns, e.path) == IsVisible(walk, patterns, e.path) {
    }
    FilterCongruent(raw, (e: Entry) => IsVisible(raw, patterns, e.path), (e: Entry) => IsVisible(walk, patterns, e.path));
    r := Built(Manifest(raw, visible));
  }

  // ---------------------------------------------------------------------
  // Selections
  // ---------------------------------------------------------------------

  datatype Selected = Selected(source: string, target: string, kind: Kind, mode: nat) {
    /** The destination itself, as a selected directory. */
    predicate IsMarker() {
      kind == Directory && target == ""
    }
  }

  datatype SelectionKind = LiteralFile | LiteralDirectory | Dot | Wildcard

  datatype Selection = Selection(source: string, kind: SelectionKind, entries: seq<Selected>, topLevel: nat) {
    predicate HasDirectories() {
      exists k :: 0 <= k < |entries| && entries[k].kind == Directory
    }
  }

  datatype SelectError =
    InvalidSource | NoMatch | IgnoredSource | BadPattern | DuplicateSources | CollidingTargets

  datatype Outcome<T> = Chosen(value: T) | Refused(error: SelectError)

  function Select1(e: Entry, target: string): Selected {
    Selected(e.path, target, e.kind, e.mode)
  }

  predicate Within(path: string, directory: string) {
    path == directory || Under(path, directory)
  }

  /** The part of the path below the directory. */
  function RelativeTo(path: string, directory: string): string
    requires Within(path, directory)
  {
    if path == directory then "" else Strip(path, directory)
  }

  predicate SourceLe(a: Selected, b: Selected) {
    StringLe(a.source, b.source)
  }

  predicate SourcesDiffer(a: Selected, b: Selected) {
    a.source != b.source
  }

  /** Distinct targets, where the destination itself may be named repeatedly. */
  predicate TargetsDiffer(a: Selected, b: Selected) {
    a.IsMarker() || b.IsMarker() || a.target != b.target
  }

  predicate AllPairs(s: seq<Selected>, rel: (Selected, Selected) -> bool) {
    forall i, j :: 0 <= i < j < |s| ==> rel(s[i], s[j])
  }

  /** `_validate_selection_entries`: sort, and reject shared sources or targets. */
  function ValidateSelectionEntries(entries: seq<Selected>): Outcome<seq<Selected>> {
    var ordered := SortBy(entries, SourceLe);
    if !AllPairs(ordered, SourcesDiffer) then Refused(DuplicateSources)
    else if !AllPairs(ordered, TargetsDiffer) then Refused(CollidingTargets)
    else Chosen(ordered)
  }

  lemma SourceOrder()
    ensures TotalPreorder(SourceLe) && Symmetric(SourcesDiffer) && Symmetric(TargetsDiffer)
  {
    forall x, y ensures SourceLe(x, y) || SourceLe(y, x) { StringLeTotal(x.source, y.source); }
    forall x, y, z | SourceLe(x, y) && SourceLe(y, z) ensures SourceLe(x, z) {
      StringLeTransitive(x.source, y.source, z.source);
    }
  }

  /** Distinct sources pass the first test, and distinct targets the second. */
  lemma ValidateDistinct(entries: seq<Selected>)
    requires Pairwise(entries, SourcesDiffer)
    ensures ValidateSelectionEntries(entries) in {Chosen(SortBy(entries, SourceLe)), Refused(CollidingTargets)}
    ensures Pairwise(entries, TargetsDiffer) <==> ValidateSelectionEntries(entries).Chosen?
  {
    SourceOrder();
    SortKeepsPairs(entries, SourceLe, SourcesDiffer);
    if Pairwise(entries, TargetsDiffer) {
      SortKeepsPairs(entries, SourceLe, TargetsDiffer);
    }
    if Pairwise(SortBy(entries, SourceLe), TargetsDiffer) {
      SortReflectsPairs(entries, SourceLe, TargetsDiffer);
    }
  }

  // ---------------------------------------------------------------------
  // The entries below one directory
  // ---------------------------------------------------------------------

  /** Every entry at or below the directory, with its relative target. */
  function SelectWithin(entries: seq<Entry>, directory: string): (r: seq<Selected>)
    ensures forall s :: s in r <==>
              exists e :: e in entries && Within(e.path, directory) && s == Select1(e, RelativeTo(e.path, directory))
  {
    if entries == [] then []
    else
      var rest := SelectWithin(entries[1..], directory);
      assert entries == [entries[0]] + entries[1..];
      if Within(entries[0].path, directory)
      then [Select1(entries[0], RelativeTo(entries[0].path, directory))] + rest
      else rest
  }

  lemma {:induction false} SelectWithinDistinct(entries: seq<Entry>, directory: string)
    requires Pairwise(entries, PathsDiffer) && forall e :: e in entries ==> Clean(e.path)
    ensures Pairwise(SelectWithin(entries, directory), SourcesDiffer)
    ensures Pairwise(SelectWithin(entries, directory), TargetsDiffer)
  {
    if entries != [] {
      var first, rest := entries[0], entries[1..];
      SelectWithinDistinct(rest, directory);
      assert first in entries;
      if Within(first.path, directory) {
        forall s | s in SelectWithin(rest, directory)
          ensures s.source != first.path && s.target != RelativeTo(first.path, directory)
        {
          FirstDiffers(entries, directory, s);
        }
      }
    }
  }

  lemma FirstDiffers(entries: seq<Entry>, directory: string, s: Selected)
    requires Pairwise(entries, PathsDiffer) && forall e :: e in entries ==> Clean(e.path)
    requires entries != [] && Within(entries[0].path, directory) && s in SelectWithin(entries[1..], directory)
    ensures s.source != entries[0].path && s.target != RelativeTo(entries[0].path, directory)
  {
    var first, rest := entries[0], entries[1..];
    var e :| e in rest && Within(e.path, directory) && s == Select1(e, RelativeTo(e.path, directory));
    var k :| 0 <= k < |rest| && rest[k] == e;
    assert PathsDiffer(entries[0], entries[k + 1]);
    assert first in entries && e in entries;
    RelativeInjective(first.path, e.path, directory);
  }

  /** Stripping one prefix is injective. */
  lemma RelativeInjective(p: string, q: string, directory: string)
    requires Within(p, directory) && Within(q, directory)
    ensures RelativeTo(p, directory) == RelativeTo(q, directory) && p != directory && q != directory ==> p == q
    ensures p != q && Clean(p) && Clean(q) ==> RelativeTo(p, directory) != RelativeTo(q, directory)
  {
    if p != directory { StripSegments(p, directory); }
    if q != directory { StripSegments(q, directory); }
    if p != directory && Clean(p) { RelativeClean(p, directory); }
    if q != directory && Clean(q) { RelativeClean(q, directory); }
  }

  lemma RelativeClean(p: string, directory: string)
    requires Under(p, directory) && Clean(p)
    ensures Clean(Strip(p, directory)) && Strip(p, directory) != ""
  {
    StripSegments(p, directory);
    var xs, ys := Split(directory), Split(Strip(p, directory));
    forall i | 0 <= i < |ys| ensures ys[i] == Split(p)[|xs| + i] {
    }
    NormPathOfClean(Strip(p, directory));
  }

  /** Ancestors of a relative target are relative targets of ancestors. */
  lemma RelativeAncestor(p: string, directory: string, a: string)
    requires Under(p, directory) && Under(Strip(p, directory), a)
    ensures var q := directory + "/" + a;
            Under(p, q) && Under(q, directory) && Strip(q, directory) == a
  {
    var q := directory + "/" + a;
    StripSegments(p, directory);
    StripSegments(Strip(p, directory), a);
    AncestorText(directory, a, Strip(Strip(p, directory), a), q, p);
  }

  lemma AncestorText(directory: string, a: string, rest: string, q: string, p: string)
    requires q == directory + "/" + a && p == directory + "/" + (a + "/" + rest)
    ensures Under(p, q) && Under(q, directory) && Strip(q, directory) == a
  {
    assert p == q + "/" + rest;
    assert p[..|q|] == q && q[..|directory|] == directory;
  }

  // ---------------------------------------------------------------------
  // What every selection satisfies
  // ---------------------------------------------------------------------

  /** Every proper ancestor of a target is itself selected, as a directory. */
  ghost predicate TargetsClosed(entries: seq<Selected>) {
    forall s, a :: s in entries && Under(s.target, a) ==>
      exists d :: d in entries && d.target == a && d.kind == Directory
  }

  ghost predicate WellFormedTargets(entries: seq<Selected>) {
    forall s :: s in entries ==> if s.target == "" then s.kind == Directory else Clean(s.target)
  }

  ghost predicate FromVisible(m: Manifest, entries: seq<Selected>) {
    forall s :: s in entries ==> exists e :: e in m.visible && s == Select1(e, s.target)
  }

  ghost predicate ValidSelection(m: Manifest, s: Selection) {
    && s.entries != []
    && FromVisible(m, s.entries)
    && WellFormedTargets(s.entries)
    && TargetsClosed(s.entries)
    && Pairwise(s.entries, SourcesDiffer)
    && Pairwise(s.entries, TargetsDiffer)
    && (s.kind == LiteralFile ==> |s.entries| == 1)
    && (s.kind == Wildcard && s.topLevel <= 1 && !s.HasDirectories() ==> |s.entries| == 1)
  }

  lemma WithinClosed(m: Manifest, directory: string)
    requires ValidManifest(m)
    ensures var r := SelectWithin(m.visible, directory);
            FromVisible(m, r) && TargetsClosed(r)
    ensures IsDirectory(m.visible, directory) ==> WellFormedTargets(SelectWithin(m.visible, directory))
  {
    var r := SelectWithin(m.visible, directory);
    forall s, a | s in r && Under(s.target, a)
      ensures exists d :: d in r && d.target == a && d.kind == Directory
    {
      var e :| e in m.visible && Within(e.path, directory) && s == Select1(e, RelativeTo(e.path, directory));
      RelativeAncestor(e.path, directory, a);
      var q := directory + "/" + a;
      assert IsDirectory(m.visible, q);
      var d :| d in m.visible && d.path == q && d.kind == Directory;
      assert Select1(d, a) in r;
    }
    if IsDirectory(m.visible, directory) {
      var top :| top in m.visible && top.path == directory && top.kind == Directory;
      forall s | s in r ensures if s.target == "" then s.kind == Directory else Clean(s.target) {
        var e :| e in m.visible && Within(e.path, directory) && s == Select1(e, RelativeTo(e.path, directory));
        if e.path == directory {
          SamePathSameEntry(m.visible, e, top);
        } else {
          RelativeClean(e.path, directory);
        }
      }
    }
  }

  // ---------------------------------------------------------------------
  // Dot and literal sources
  // ---------------------------------------------------------------------

  function SelectAll(entries: seq<Entry>): (r: seq<Selected>)
    ensures |r| == |entries| && forall i :: 0 <= i < |r| ==> r[i] == Select1(entries[i], entries[i].path)
  {
    seq(|entries|, i requires 0 <= i < |entries| => Select1(entries[i], entries[i].path))
  }

  function SelectDot(m: Manifest): Outcome<Selection> {
    if m.visible == [] then Refused(if m.raw != [] then IgnoredSource else NoMatch)
    else Chosen(Selection(".", Dot, SelectAll(m.visible), 1))
  }

  predicate Listed(entries: seq<Entry>, path: string) {
    exists i :: 0 <= i < |entries| && entries[i].path == path
  }

  function Find(entries: seq<Entry>, path: string): (e: Entry)
    requires Listed(entries, path)
    ensures e in entries && e.path == path
  {
    if entries[0].path == path then entries[0]
    else
      assert Listed(entries[1..], path) by {
        var i :| 0 <= i < |entries| && entries[i].path == path;
        assert entries[1..][i - 1].path == path;
      }
      Find(entries[1..], path)
  }

  function SelectLiteral(m: Manifest, source: string): Outcome<Selection> {
    if !Listed(m.raw, source) then Refused(NoMatch)
    else if !Listed(m.visible, source) then Refused(IgnoredSource)
    else
      var entry := Find(m.raw, source);
      if entry.kind == File then Chosen(Selection(source, LiteralFile, [Select1(entry, Basename(source))], 1))
      else
        var entries := SelectWithin(m.visible, source);
        if entries == [] then Refused(IgnoredSource)
        else match ValidateSelectionEntries(entries)
             case Refused(e) => Refused(e)
             case Chosen(ordered) => Chosen(Selection(source, LiteralDirectory, ordered, 1))
  }

  /** The entry stands in the selection under a target of its own. */
  predicate Stands(x: Selected, e: Entry, target: string) {
    x == Selected(e.path, target, e.kind, e.mode)
  }

  /** Everything visible, in manifest order, each entry under its own path. */
  ghost predicate HoldsAll(m: Manifest, entries: seq<Selected>) {
    && |entries| == |m.visible|
    && forall i :: 0 <= i < |entries| ==> Stands(entries[i], m.visible[i], m.visible[i].path)
  }

  /** A dot source selects everything visible, each entry under its own path; it fails
      exactly when nothing is. */
  lemma DotSelection(m: Manifest)
    requires ValidManifest(m)
    ensures SelectDot(m).Chosen? <==> m.visible != []
    ensures SelectDot(m).Refused? ==> SelectDot(m).error == if m.raw == [] then NoMatch else IgnoredSource
    ensures SelectDot(m).Chosen? ==>
              var s := SelectDot(m).value;
              ValidSelection(m, s) && s.kind == Dot && s.source == "." && HoldsAll(m, s.entries)
  {
    if m.visible != [] {
      var r := SelectAll(m.visible);
      forall s | s in r ensures exists e :: e in m.visible && s == Select1(e, s.target) && s.target == e.path {
        var i :| 0 <= i < |r| && r[i] == s;
        assert m.visible[i] in m.visible;
      }
      forall e | e in m.visible ensures Select1(e, e.path) in r && Clean(e.path) && e.path != "" {
        var i :| 0 <= i < |m.visible| && m.visible[i] == e;
        assert r[i] == Select1(e, e.path);
        NormPathOfClean(e.path);
      }
      forall s, a | s in r && Under(s.target, a) ensures exists d :: d in r && d.target == a && d.kind == Directory {
        var e :| e in m.visible && s == Select1(e, s.target) && s.target == e.path;
        assert IsDirectory(m.visible, a);
        var d :| d in m.visible && d.path == a && d.kind == Directory;
        assert Select1(d, d.path) in r;
      }
      forall i, j | 0 <= i < j < |r| ensures SourcesDiffer(r[i], r[j]) && TargetsDiffer(r[i], r[j]) {
        assert PathsDiffer(m.visible[i], m.visible[j]);
      }
    }
  }

  /** The target is the last segment of the path. */
  predicate LastSegmentOf(target: string, path: string) {
    target == Split(path)[|Split(path)| - 1]
  }

  /** The path is the directory and the target what follows it, segment by segment; the
      directory itself has the empty target. */
  predicate SplitsAt(path: string, directory: string, target: string) {
    if path == directory then target == "" else target != "" && Split(path) == Split(directory) + Split(target)
  }

  /** The one visible file with this path, under its last segment. */
  ghost predicate HoldsFile(m: Manifest, path: string, entries: seq<Selected>) {
    |entries| == 1 && exists e ::
      e in m.visible && e.path == path && e.kind == File && Stands(entries[0], e, entries[0].target)
      && LastSegmentOf(entries[0].target, path)
  }

  /** The visible entries at and below the directory, and nothing else, each under what
      follows the directory in its path. */
  ghost predicate HoldsDirectory(m: Manifest, directory: string, entries: seq<Selected>) {
    forall x :: x in entries <==> StandsBelow(m, directory, x)
  }

  ghost predicate StandsBelow(m: Manifest, directory: string, x: Selected) {
    exists e :: e in m.visible && Stands(x, e, x.target) && SplitsAt(e.path, directory, x.target)
  }

  /** The entries at or below a directory, told from their segments. */
  lemma WithinSegments(m: Manifest, directory: string, x: Selected)
    requires ValidManifest(m)
    ensures x in SelectWithin(m.visible, directory) <==> StandsBelow(m, directory, x)
  {
    forall e | e in m.visible
      ensures Clean(e.path)
      ensures Within(e.path, directory) ==> SplitsAt(e.path, directory, RelativeTo(e.path, directory))
      ensures SplitsAt(e.path, directory, x.target) ==> Within(e.path, directory) && RelativeTo(e.path, directory) == x.target
    {
      assert e in m.raw;
      SplitsExactly(e.path, directory, x.target);
    }
    if StandsBelow(m, directory, x) {
      var e :| e in m.visible && Stands(x, e, x.target) && SplitsAt(e.path, directory, x.target);
      assert x == Select1(e, RelativeTo(e.path, directory));
    }
  }

  lemma SplitsExactly(path: string, directory: string, target: string)
    requires Clean(path)
    ensures Within(path, directory) ==> SplitsAt(path, directory, RelativeTo(path, directory))
    ensures SplitsAt(path, directory, target) ==> Within(path, directory) && RelativeTo(path, directory) == target
  {
    if Under(path, directory) {
      RelativeClean(path, directory);
      StripSegments(path, directory);
    }
    if path != directory && SplitsAt(path, directory, target) {
      UnderIsProperPrefix(path, directory);
      StripSegments(path, directory);
      SplitInjective(target, Strip(path, directory));
    }
  }

  lemma BasenameSegment(path: string)
    requires Clean(path)
    ensures LastSegmentOf(Basename(path), path)
  {
    DirnameSegments(path);
    if |Split(path)| == 1 { JoinSplit(path); }
  }

  /** A literal source selects exactly the named file, or everything visible at and
      below the named directory; it fails only when the path is missing or ignored,
      never on a collision. */
  lemma LiteralSelection(m: Manifest, source: string)
    requires ValidManifest(m)
    ensures SelectLiteral(m, source).Chosen? <==> Listed(m.visible, source)
    ensures SelectLiteral(m, source).Refused? ==>
              SelectLiteral(m, source).error == if Listed(m.raw, source) then IgnoredSource else NoMatch
    ensures SelectLiteral(m, source).Chosen? ==>
              var s := SelectLiteral(m, source).value;
              && ValidSelection(m, s)
              && (s.kind == LiteralDirectory <==> IsDirectory(m.visible, source))
              && s.source == source && (s.kind == LiteralDirectory || s.kind == LiteralFile)
              && (s.kind == LiteralFile ==> HoldsFile(m, source, s.entries))
              && (s.kind == LiteralDirectory ==> HoldsDirectory(m, source, s.entries) && Pairwise(s.entries, SourceLe))
  {
    if Listed(m.visible, source) {
      var v := Find(m.visible, source);
      var entry := FoundInRaw(m, v);
      if entry.kind == File {
        NotADirectory(m.visible, v);
        LoneFileSelection(m, v);
        BasenameSegment(v.path);
      } else {
        DirectorySelection(m, v);
        forall x ensures x in SelectWithin(m.visible, source) <==> StandsBelow(m, source, x) { WithinSegments(m, source, x); }
      }
    }
  }

  lemma FoundInRaw(m: Manifest, v: Entry) returns (entry: Entry)
    requires ValidManifest(m) && v in m.visible
    ensures Listed(m.raw, v.path) && entry == Find(m.raw, v.path) && entry == v
  {
    var k :| 0 <= k < |m.raw| && m.raw[k] == v;
    entry := Find(m.raw, v.path);
    SamePathSameEntry(m.raw, v, entry);
  }

  lemma DirectorySelection(m: Manifest, v: Entry)
    requires ValidManifest(m) && v in m.visible && v.kind == Directory
    ensures var entries := SelectWithin(m.visible, v.path);
            var s := Selection(v.path, LiteralDirectory, SortBy(entries, SourceLe), 1);
            && entries != []
            && ValidateSelectionEntries(entries) == Chosen(s.entries)
            && ValidSelection(m, s) && Pairwise(s.entries, SourceLe)
  {
    var entries := SelectWithin(m.visible, v.path);
    SelectWithinDistinct(m.visible, v.path);
    assert IsDirectory(m.visible, v.path);
    WithinClosed(m, v.path);
    assert Select1(v, "") in entries;
    ValidateDistinct(entries);
    SortedSelection(m, entries);
    SourceOrder();
    SortKeepsPairs(entries, SourceLe, TargetsDiffer);
    SortSorted(entries, SourceLe);
  }

  lemma AtomClean(b: string)
    requires b != "" && b != "." && b != ".." && '/' !in b
    ensures Clean(b) && forall a :: !Under(b, a)
  {
    SplitAtom(b);
    forall a ensures !Under(b, a) { UnderIsProperPrefix(b, a); }
  }

  lemma BasenameClean(p: string)
    requires Clean(p)
    ensures Clean(Basename(p)) && Basename(p) != "" && (forall a :: !Under(Basename(p), a))
  {
    var xs := Split(p);
    var last := xs[|xs| - 1];
    SplitSlashFree(p);
    AtomClean(last);
    BasenameSegment(p);
  }

  lemma LoneFileSelection(m: Manifest, v: Entry)
    requires ValidManifest(m) && v in m.visible && v.kind == File && Clean(v.path)
    ensures ValidSelection(m, Selection(v.path, LiteralFile, [Select1(v, Basename(v.path))], 1))
  {
    BasenameClean(v.path);
  }

  /** Sorting does not change what a selection satisfies. */
  lemma SortedSelection(m: Manifest, entries: seq<Selected>)
    requires FromVisible(m, entries) && WellFormedTargets(entries) && TargetsClosed(entries)
    requires Pairwise(entries, SourcesDiffer)
    ensures var r := SortBy(entries, SourceLe);
            && FromVisible(m, r) && WellFormedTargets(r) && TargetsClosed(r)
            && Pairwise(r, SourcesDiffer)
  {
    SourceOrder();
    SortKeepsPairs(entries, SourceLe, SourcesDiffer);
    var r := SortBy(entries, SourceLe);
    forall s, a | s in r && Under(s.target, a) ensures exists d :: d in r && d.target == a && d.kind == Directory {
      assert s in entries;
      var d :| d in entries && d.target == a && d.kind == Directory;
      assert d in r;
    }
  }
}
