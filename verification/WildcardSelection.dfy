/** Wildcard sources, and selection as a whole. */
module WildcardSelection {
  import opened Options
  import opened Paths
  import opened Sequences
  import opened NormalPaths
  import opened ContextEntries
  import opened SourceGlob
  import SourceSpelling
  import opened Selection

  // ---------------------------------------------------------------------
  // Wildcard matches form an antichain
  // ---------------------------------------------------------------------

  /** Every match has the depth of the pattern, so no match lies below another. */
  lemma MatchesAntichain(pattern: seq<Glob>, a: string, b: string)
    requires PathMatches(pattern, a) && PathMatches(pattern, b)
    ensures !Under(a, b)
  {
    UnderIsProperPrefix(a, b);
  }

  /** A path lies at or below at most one match. */
  lemma OneMatchAbove(pattern: seq<Glob>, p: string, a: string, b: string)
    requires PathMatches(pattern, a) && PathMatches(pattern, b)
    requires Within(p, a) && Within(p, b)
    ensures a == b
  {
    if Under(p, a) && Under(p, b) {
      UnderIsProperPrefix(p, a);
      UnderIsProperPrefix(p, b);
      SplitInjective(a, b);
    } else {
      MatchesAntichain(pattern, a, b);
      MatchesAntichain(pattern, b, a);
    }
  }

  // ---------------------------------------------------------------------
  // What a wildcard selects
  // ---------------------------------------------------------------------

  ghost predicate MatchingOf(pattern: seq<Glob>, kind: Kind, e: Entry) {
    e.kind == kind && PathMatches(pattern, e.path)
  }

  /** The entry is selected for being at or below a visible matching directory. */
  ghost predicate BelowMatch(m: Manifest, pattern: seq<Glob>, s: Selected) {
    exists d, e ::
      && d in m.visible && MatchingOf(pattern, Directory, d)
      && e in m.visible && Within(e.path, d.path) && s == Select1(e, RelativeTo(e.path, d.path))
  }

  /** The entry is a visible matching file. */
  ghost predicate MatchingFile(m: Manifest, pattern: seq<Glob>, s: Selected) {
    exists e :: e in m.visible && MatchingOf(pattern, File, e) && s == Select1(e, Basename(e.path))
  }

  ghost predicate WildcardSelects(m: Manifest, pattern: seq<Glob>, s: Selected) {
    BelowMatch(m, pattern, s) || MatchingFile(m, pattern, s)
  }

  ghost predicate WildcardContents(m: Manifest, pattern: seq<Glob>, entries: seq<Selected>) {
    forall s :: s in entries <==> WildcardSelects(m, pattern, s)
  }

  // ---------------------------------------------------------------------
  // _select_wildcard
  // ---------------------------------------------------------------------

  predicate DepthLe(a: Entry, b: Entry) {
    DepthThenPath(a.path, b.path)
  }

  lemma FilterAppend<T(!new)>(s: seq<T>, x: T, keep: T -> bool)
    ensures Filter(s + [x], keep) == Filter(s, keep) + if keep(x) then [x] else []
  {
    if s == [] {
      assert s + [x] == [x];
      assert [x][1..] == [];
    } else {
      assert (s + [x])[1..] == s[1..] + [x];
      FilterAppend(s[1..], x, keep);
    }
  }

  /** The visible entries of one kind that match the pattern. */
  method MatchingEntries(entries: seq<Entry>, pattern: seq<Glob>, kind: Kind) returns (r: seq<Entry>)
    ensures r == Filter(entries, (e: Entry) => MatchingOf(pattern, kind, e))
  {
    r := [];
    ghost var keep := (e: Entry) => MatchingOf(pattern, kind, e);
    for i := 0 to |entries|
      invariant r == Filter(entries[..i], keep)
    {
      assert entries[..i + 1] == entries[..i] + [entries[i]];
      FilterAppend(entries[..i], entries[i], keep);
      if entries[i].kind == kind {
        var matches := GlobMatches(pattern, entries[i].path);
        if matches {
          r := r + [entries[i]];
        }
      }
    }
    assert entries[..|entries|] == entries;
  }

  /** The directories none of the earlier ones contains; for matches, all of them. */
  method TopDirectories(candidates: seq<Entry>, ghost pattern: seq<Glob>) returns (top: seq<string>)
    requires forall e :: e in candidates ==> PathMatches(pattern, e.path)
    ensures |top| == |candidates| && forall i :: 0 <= i < |top| ==> top[i] == candidates[i].path
  {
    top := [];
    for i := 0 to |candidates|
      invariant |top| == i && forall k :: 0 <= k < i ==> top[k] == candidates[k].path
    {
      forall k | 0 <= k < i ensures !Under(candidates[i].path, top[k]) {
        assert candidates[k] in candidates && candidates[i] in candidates;
        MatchesAntichain(pattern, candidates[i].path, candidates[k].path);
      }
      if !exists k :: 0 <= k < |top| && Under(candidates[i].path, top[k]) {
        top := top + [candidates[i].path];
      }
    }
  }

  ghost predicate BelowSome(m: Manifest, top: seq<string>, n: nat, s: Selected)
    requires n <= |top|
  {
    exists k :: 0 <= k < n && s in SelectWithin(m.visible, top[k])
  }

  /** Everything at or below the listed directories, directory by directory. */
  method CollectBelow(m: Manifest, top: seq<string>, ghost pattern: seq<Glob>) returns (entries: seq<Selected>)
    requires ValidManifest(m)
    requires forall k :: 0 <= k < |top| ==> PathMatches(pattern, top[k])
    requires forall j, k :: 0 <= j < k < |top| ==> top[j] != top[k]
    ensures forall s :: s in entries <==> BelowSome(m, top, |top|, s)
    ensures Pairwise(entries, SourcesDiffer)
  {
    entries := [];
    for i := 0 to |top|
      invariant forall s :: s in entries <==> BelowSome(m, top, i, s)
      invariant Pairwise(entries, SourcesDiffer)
    {
      var part := SelectWithin(m.visible, top[i]);
      BelowDistinct(m, top[i]);
      forall s, t | s in entries && t in part ensures SourcesDiffer(s, t) {
        BelowOthers(m, top, pattern, i, s, t);
      }
      AppendPairs(entries, part, SourcesDiffer);
      forall s ensures s in entries + part <==> BelowSome(m, top, i + 1, s) {
        BelowNext(m, top, i, s);
      }
      entries := entries + part;
    }
  }

  lemma BelowDistinct(m: Manifest, directory: string)
    requires ValidManifest(m)
    ensures Pairwise(SelectWithin(m.visible, directory), SourcesDiffer)
  {
    forall e | e in m.visible ensures Clean(e.path) { assert e in m.raw; }
    SelectWithinDistinct(m.visible, directory);
  }

  lemma BelowOthers(m: Manifest, top: seq<string>, pattern: seq<Glob>, i: nat, s: Selected, t: Selected)
    requires forall k :: 0 <= k < |top| ==> PathMatches(pattern, top[k])
    requires forall j, k :: 0 <= j < k < |top| ==> top[j] != top[k]
    requires i < |top| && BelowSome(m, top, i, s) && t in SelectWithin(m.visible, top[i])
    ensures SourcesDiffer(s, t)
  {
    var k :| 0 <= k < i && s in SelectWithin(m.visible, top[k]);
    if s.source == t.source {
      OneMatchAbove(pattern, s.source, top[k], top[i]);
    }
  }

  lemma BelowNext(m: Manifest, top: seq<string>, i: nat, s: Selected)
    requires i < |top|
    ensures BelowSome(m, top, i + 1, s) <==> BelowSome(m, top, i, s) || s in SelectWithin(m.visible, top[i])
  {
    if BelowSome(m, top, i, s) {
      var k :| 0 <= k < i && s in SelectWithin(m.visible, top[k]);
      assert 0 <= k < i + 1 && s in SelectWithin(m.visible, top[k]);
    }
  }

  lemma AppendPairs<T(!new)>(a: seq<T>, b: seq<T>, rel: (T, T) -> bool)
    requires Pairwise(a, rel) && Pairwise(b, rel)
    requires forall x, y :: x in a && y in b ==> rel(x, y)
    ensures Pairwise(a + b, rel)
  {
    forall i, j | 0 <= i < j < |a + b| ensures rel((a + b)[i], (a + b)[j]) {
      if i < |a| <= j {
        assert a[i] in a && b[j - |a|] in b;
      }
    }
  }

  /** The files as selections of their own. */
  function SelectFiles(files: seq<Entry>): (r: seq<Selected>)
    ensures |r| == |files| && forall i :: 0 <= i < |r| ==> r[i] == Select1(files[i], Basename(files[i].path))
  {
    seq(|files|, i requires 0 <= i < |files| => Select1(files[i], Basename(files[i].path)))
  }

  /** Files are not below the matched directories, so the containment test of the
      source keeps all of them. */
  method OutsideFiles(files: seq<Entry>, top: seq<string>, ghost pattern: seq<Glob>) returns (r: seq<Entry>)
    requires forall e :: e in files ==> PathMatches(pattern, e.path)
    requires forall k :: 0 <= k < |top| ==> PathMatches(pattern, top[k])
    ensures r == files
  {
    r := Filter(files, (e: Entry) => !exists k :: 0 <= k < |top| && Under(e.path, top[k]));
    forall e, k | e in files && 0 <= k < |top| ensures !Under(e.path, top[k]) {
      MatchesAntichain(pattern, e.path, top[k]);
    }
    FilterAll(files, (e: Entry) => !exists k :: 0 <= k < |top| && Under(e.path, top[k]));
  }

  function CompilePattern(segments: seq<string>): (r: Outcome<seq<Glob>>)
    ensures r.Chosen? ==> |r.value| == |segments| && forall k :: 0 <= k < |segments| ==> SegmentGlob(segments[k]) == Some(r.value[k])
    ensures r.Refused? <==> exists k :: 0 <= k < |segments| && SegmentGlob(segments[k]) == None
  {
    if segments == [] then Chosen([])
    else
      match CompileFrom(segments[0], 0, [])
      case MalformedPattern => Refused(BadPattern)
      case Ok(glob, _) =>
        match CompilePattern(segments[1..])
        case Refused(e) => Refused(e)
        case Chosen(rest) => Chosen([glob] + rest)
  }

  function SegmentGlob(segment: string): Option<Glob> {
    match CompileFrom(segment, 0, [])
    case MalformedPattern => None
    case Ok(glob, _) => Some(glob)
  }

  /** The pattern of a source: segment by segment, the tokens that the segment spells. */
  ghost predicate SpelledBy(pattern: seq<Glob>, segments: seq<string>) {
    && |pattern| == |segments|
    && forall k :: 0 <= k < |pattern| ==> SourceSpelling.Spells(segments[k], pattern[k])
  }

  ghost predicate AllReadable(segments: seq<string>) {
    forall k :: 0 <= k < |segments| ==> SourceSpelling.Readable(segments[k])
  }

  /** A source compiles to the pattern that its segments spell, and is refused exactly
      when one of them spells none. */
  lemma CompilePatternExactly(segments: seq<string>, pattern: seq<Glob>)
    ensures CompilePattern(segments) == Chosen(pattern) <==> SpelledBy(pattern, segments)
    ensures CompilePattern(segments).Chosen? <==> AllReadable(segments)
  {
    forall k, glob | 0 <= k < |segments|
      ensures SegmentGlob(segments[k]) == Some(glob) <==> SourceSpelling.Spells(segments[k], glob)
    {
      SegmentSpelled(segments[k], glob);
    }
    forall k | 0 <= k < |segments| ensures SegmentGlob(segments[k]).Some? <==> SourceSpelling.Readable(segments[k]) {
      SourceSpelling.CompiledExactly(segments[k], []);
    }
    if SpelledBy(pattern, segments) {
      forall k | 0 <= k < |segments| ensures SegmentGlob(segments[k]) == Some(pattern[k]) {
        SegmentSpelled(segments[k], pattern[k]);
      }
      assert CompilePattern(segments).value == pattern;
    }
  }

  lemma SegmentSpelled(segment: string, glob: Glob)
    ensures SegmentGlob(segment) == Some(glob) <==> SourceSpelling.Spells(segment, glob)
  {
    SourceSpelling.CompiledExactly(segment, glob);
    if SegmentGlob(segment) == Some(glob) {
      var read := SourceSpelling.CompiledIsSpelled(segment, 0, []);
    }
  }

  method CompileSourcePattern(source: string) returns (r: Outcome<seq<Glob>>)
    ensures r == CompilePattern(Split(source))
  {
    var segments := Split(source);
    var globs: seq<Glob> := [];
    assert segments[0..] == segments && forall rest: seq<Glob> :: [] + rest == rest;
    for i := 0 to |segments|
      invariant CompilePattern(segments) ==
                match CompilePattern(segments[i..])
                case Refused(e) => Refused(e)
                case Chosen(rest) => Chosen(globs + rest)
    {
      assert segments[i..][1..] == segments[i + 1..];
      var glob := CompileGlobSegment(segments[i]);
      if glob.MalformedPattern? {
        return Refused(BadPattern);
      }
      assert forall rest: seq<Glob> :: globs + ([glob.value] + rest) == globs + [glob.value] + rest;
      globs := globs + [glob.value];
    }
    assert globs + [] == globs;
    r := Chosen(globs);
  }

  method AnyMatch(entries: seq<Entry>, pattern: seq<Glob>) returns (any: bool)
    ensures any <==> exists e :: e in entries && PathMatches(pattern, e.path)
  {
    for i := 0 to |entries|
      invariant forall k :: 0 <= k < i ==> !PathMatches(pattern, entries[k].path)
    {
      any := GlobMatches(pattern, entries[i].path);
      if any {
        return;
      }
    }
    any := false;
  }

  ghost function VisibleMatches(m: Manifest, pattern: seq<Glob>): seq<Entry> {
    Filter(m.visible, (e: Entry) => PathMatches(pattern, e.path))
  }

  /** Matches are directories or files. */
  lemma {:induction false} MatchesByKind(entries: seq<Entry>, pattern: seq<Glob>)
    ensures |Filter(entries, (e: Entry) => PathMatches(pattern, e.path))| ==
            |Filter(entries, (e: Entry) => MatchingOf(pattern, Directory, e))|
            + |Filter(entries, (e: Entry) => MatchingOf(pattern, File, e))|
  {
    if entries != [] {
      MatchesByKind(entries[1..], pattern);
    }
  }

  ghost predicate SomeRawMatch(m: Manifest, pattern: seq<Glob>) {
    exists e :: e in m.raw && PathMatches(pattern, e.path)
  }

  /** Two selected entries share a target that is not the destination itself. */
  ghost predicate WildcardCollides(m: Manifest, pattern: seq<Glob>) {
    exists s, t :: WildcardSelects(m, pattern, s) && WildcardSelects(m, pattern, t)
                   && SourcesDiffer(s, t) && !TargetsDiffer(s, t)
  }

  lemma CollisionExactly(m: Manifest, pattern: seq<Glob>, entries: seq<Selected>)
    requires WildcardContents(m, pattern, entries) && Pairwise(entries, SourcesDiffer)
    ensures WildcardCollides(m, pattern) <==> !Pairwise(entries, TargetsDiffer)
  {
    if WildcardCollides(m, pattern) {
      var s, t :| WildcardSelects(m, pattern, s) && WildcardSelects(m, pattern, t)
                  && SourcesDiffer(s, t) && !TargetsDiffer(s, t);
      if Pairwise(entries, TargetsDiffer) {
        PairwiseMembers(entries, TargetsDiffer, s, t);
        assert false;
      }
    }
    if !Pairwise(entries, TargetsDiffer) {
      var i, j :| 0 <= i < j < |entries| && !TargetsDiffer(entries[i], entries[j]);
      assert entries[i] in entries && entries[j] in entries;
      assert WildcardSelects(m, pattern, entries[i]) && WildcardSelects(m, pattern, entries[j]);
    }
  }

  /** What a wildcard selection must be: nothing found, everything ignored, two targets
      in collision, or the declared contents. */
  ghost predicate WildcardOutcome(m: Manifest, pattern: seq<Glob>, source: string, r: Outcome<Selection>) {
    if !SomeRawMatch(m, pattern) then r == Refused(NoMatch)
    else if VisibleMatches(m, pattern) == [] then r == Refused(IgnoredSource)
    else if WildcardCollides(m, pattern) then r == Refused(CollidingTargets)
    else
      && r.Chosen?
      && var s := r.value;
         && s.kind == Wildcard && s.source == source
         && WildcardContents(m, pattern, s.entries)
         && Pairwise(s.entries, SourceLe)
         && s.topLevel == |VisibleMatches(m, pattern)|
         && ValidSelection(m, s)
  }

  /** The lists of the selection: everything below the visible matching directories,
      then the visible matching files. */
  method CollectMatches(m: Manifest, pattern: seq<Glob>) returns (entries: seq<Selected>, topLevel: nat)
    requires ValidManifest(m)
    ensures WildcardContents(m, pattern, entries) && Pairwise(entries, SourcesDiffer)
    ensures topLevel == |VisibleMatches(m, pattern)|
    ensures entries == [] <==> VisibleMatches(m, pattern) == []
    ensures |entries| == topLevel || exists s :: s in entries && s.kind == Directory
  {
    var directories := MatchingEntries(m.visible, pattern, Directory);
    var sorted := SortBy(directories, DepthLe);
    var top := TopDirectories(sorted, pattern);
    DistinctTops(m, pattern, directories, top);
    var below := CollectBelow(m, top, pattern);
    var matchingFiles := MatchingEntries(m.visible, pattern, File);
    var files := OutsideFiles(matchingFiles, top, pattern);
    entries := below + SelectFiles(files);
    topLevel := |top| + |files|;
    MatchesByKind(m.visible, pattern);
    WildcardEntries(m, pattern, directories, top, below, files);
  }

  /** The selection of a wildcard: each visible entry at or below a match is selected
      once, the count is the number of visible matches, and a duplicate source is never
      found. */
  method SelectWildcard(m: Manifest, source: string) returns (r: Outcome<Selection>)
    requires ValidManifest(m)
    ensures CompilePattern(Split(source)).Refused? ==> r == Refused(BadPattern)
    ensures CompilePattern(Split(source)).Chosen? ==> WildcardOutcome(m, CompilePattern(Split(source)).value, source, r)
  {
    var compiled := CompileSourcePattern(source);
    if compiled.Refused? {
      CompileRefusal(Split(source));
      return Refused(BadPattern);
    }
    var pattern := compiled.value;
    var any := AnyMatch(m.raw, pattern);
    if !any {
      return Refused(NoMatch);
    }
    var entries, topLevel := CollectMatches(m, pattern);
    if entries == [] {
      return Refused(IgnoredSource);
    }
    ValidateDistinct(entries);
    CollisionExactly(m, pattern, entries);
    var validated := ValidateSelectionEntries(entries);
    if validated.Refused? {
      return Refused(validated.error);
    }
    WildcardValid(m, pattern, entries, topLevel, source);
    r := Chosen(Selection(source, Wildcard, validated.value, topLevel));
  }

  lemma {:induction false} CompileRefusal(segments: seq<string>)
    ensures CompilePattern(segments).Refused? ==> CompilePattern(segments) == Refused(BadPattern)
  {
    if segments != [] { CompileRefusal(segments[1..]); }
  }

  lemma DistinctTops(m: Manifest, pattern: seq<Glob>, directories: seq<Entry>, top: seq<string>)
    requires ValidManifest(m)
    requires directories == Filter(m.visible, (e: Entry) => MatchingOf(pattern, Directory, e))
    requires |top| == |SortBy(directories, DepthLe)|
    requires forall i :: 0 <= i < |top| ==> top[i] == SortBy(directories, DepthLe)[i].path
    ensures forall k :: 0 <= k < |top| ==> PathMatches(pattern, top[k])
    ensures forall j, k :: 0 <= j < k < |top| ==> top[j] != top[k]
    ensures forall p :: p in top <==> exists d :: d in directories && d.path == p
  {
    PathOrder();
    FilterKeepsPairs(m.visible, (e: Entry) => MatchingOf(pattern, Directory, e), PathsDiffer);
    SortKeepsPairs(directories, DepthLe, PathsDiffer);
    var sorted := SortBy(directories, DepthLe);
    forall k | 0 <= k < |top| ensures PathMatches(pattern, top[k]) && sorted[k] in directories {
      assert sorted[k] in sorted;
    }
    forall j, k | 0 <= j < k < |top| ensures top[j] != top[k] {
      assert PathsDiffer(sorted[j], sorted[k]);
    }
    forall d | d in directories ensures d.path in top {
      var k :| 0 <= k < |sorted| && sorted[k] == d;
      assert top[k] == d.path;
    }
  }

  lemma NoElements<T(!new)>(s: seq<T>)
    ensures (forall x :: x !in s) ==> s == []
  {
    if s != [] { assert s[0] in s; }
  }

  lemma BelowContents(m: Manifest, pattern: seq<Glob>, directories: seq<Entry>, top: seq<string>, below: seq<Selected>)
    requires directories == Filter(m.visible, (e: Entry) => MatchingOf(pattern, Directory, e))
    requires forall p :: p in top <==> exists d :: d in directories && d.path == p
    requires forall s :: s in below <==> BelowSome(m, top, |top|, s)
    ensures forall s :: s in below <==> BelowMatch(m, pattern, s)
    ensures directories != [] ==> exists s :: s in below && s.kind == Directory
    ensures directories == [] ==> below == []
  {
    forall s ensures s in below <==> BelowMatch(m, pattern, s) {
      BelowTops(m, pattern, directories, top, s);
    }
    if directories != [] {
      var d := directories[0];
      assert d in directories && Within(d.path, d.path);
      assert BelowMatch(m, pattern, Select1(d, ""));
      assert Select1(d, "") in below;
    } else {
      assert forall k :: 0 <= k < |top| ==> top[k] in top;
      NoElements(below);
    }
  }

  lemma FileContents(m: Manifest, pattern: seq<Glob>, files: seq<Entry>)
    requires files == Filter(m.visible, (e: Entry) => MatchingOf(pattern, File, e))
    ensures forall s :: s in SelectFiles(files) <==> MatchingFile(m, pattern, s)
  {
    forall s ensures s in SelectFiles(files) <==> MatchingFile(m, pattern, s) {
      SelectedFile(files, s);
    }
  }

  lemma SelectedFile(files: seq<Entry>, s: Selected)
    ensures s in SelectFiles(files) <==> exists e :: e in files && s == Select1(e, Basename(e.path))
  {
    var chosen := SelectFiles(files);
    if s in chosen {
      var i :| 0 <= i < |chosen| && chosen[i] == s;
      assert files[i] in files;
    }
    if e :| e in files && s == Select1(e, Basename(e.path)) {
      var i :| 0 <= i < |files| && files[i] == e;
      assert chosen[i] == s;
    }
  }

  lemma FilesDiffer(m: Manifest, pattern: seq<Glob>, files: seq<Entry>)
    requires ValidManifest(m)
    requires files == Filter(m.visible, (e: Entry) => MatchingOf(pattern, File, e))
    ensures Pairwise(SelectFiles(files), SourcesDiffer)
  {
    var chosen := SelectFiles(files);
    FilterKeepsPairs(m.visible, (e: Entry) => MatchingOf(pattern, File, e), PathsDiffer);
    forall i, j | 0 <= i < j < |chosen| ensures SourcesDiffer(chosen[i], chosen[j]) {
      assert PathsDiffer(files[i], files[j]);
    }
  }

  /** The collected entries are the declared contents, each source once. */
  lemma WildcardEntries(m: Manifest, pattern: seq<Glob>, directories: seq<Entry>, top: seq<string>,
                        below: seq<Selected>, files: seq<Entry>)
    requires ValidManifest(m)
    requires directories == Filter(m.visible, (e: Entry) => MatchingOf(pattern, Directory, e))
    requires files == Filter(m.visible, (e: Entry) => MatchingOf(pattern, File, e))
    requires forall p :: p in top <==> exists d :: d in directories && d.path == p
    requires forall s :: s in below <==> BelowSome(m, top, |top|, s)
    requires Pairwise(below, SourcesDiffer)
    ensures WildcardContents(m, pattern, below + SelectFiles(files))
    ensures Pairwise(below + SelectFiles(files), SourcesDiffer)
    ensures directories != [] ==> exists s :: s in below && s.kind == Directory
    ensures directories == [] ==> below == []
  {
    BelowContents(m, pattern, directories, top, below);
    FileContents(m, pattern, files);
    FilesDiffer(m, pattern, files);
    forall s, t | s in below && t in SelectFiles(files) ensures SourcesDiffer(s, t) {
      FileNotBelow(m, pattern, s, t);
    }
    AppendPairs(below, SelectFiles(files), SourcesDiffer);
  }

  lemma BelowTops(m: Manifest, pattern: seq<Glob>, directories: seq<Entry>, top: seq<string>, s: Selected)
    requires directories == Filter(m.visible, (e: Entry) => MatchingOf(pattern, Directory, e))
    requires forall p :: p in top <==> exists d :: d in directories && d.path == p
    ensures BelowSome(m, top, |top|, s) <==> BelowMatch(m, pattern, s)
  {
    if k :| 0 <= k < |top| && s in SelectWithin(m.visible, top[k]) {
      assert top[k] in top;
      var d :| d in directories && d.path == top[k];
    }
    if BelowMatch(m, pattern, s) {
      var d, e :| d in m.visible && MatchingOf(pattern, Directory, d)
                  && e in m.visible && Within(e.path, d.path) && s == Select1(e, RelativeTo(e.path, d.path));
      assert d in directories && d.path in top;
      var k :| 0 <= k < |top| && top[k] == d.path;
      assert s in SelectWithin(m.visible, top[k]);
    }
  }

  lemma FileNotBelow(m: Manifest, pattern: seq<Glob>, s: Selected, t: Selected)
    requires ValidManifest(m) && BelowMatch(m, pattern, s) && MatchingFile(m, pattern, t)
    ensures s.source != t.source
  {
    var d, e :| d in m.visible && MatchingOf(pattern, Directory, d)
                && e in m.visible && Within(e.path, d.path) && s == Select1(e, RelativeTo(e.path, d.path));
    var f :| f in m.visible && MatchingOf(pattern, File, f) && t == Select1(f, Basename(f.path));
    MatchesAntichain(pattern, f.path, d.path);
    if f.path == d.path {
      SamePathSameEntry(m.visible, f, d);
    }
  }

  lemma WildcardTargets(m: Manifest, pattern: seq<Glob>, entries: seq<Selected>)
    requires ValidManifest(m) && WildcardContents(m, pattern, entries)
    ensures FromVisible(m, entries) && WellFormedTargets(entries) && TargetsClosed(entries)
  {
    forall s | s in entries
      ensures (exists e :: e in m.visible && s == Select1(e, s.target))
      ensures if s.target == "" then s.kind == Directory else Clean(s.target)
      ensures forall a :: Under(s.target, a) ==> exists d :: d in entries && d.target == a && d.kind == Directory
    {
      if BelowMatch(m, pattern, s) {
        BelowTarget(m, pattern, s);
        forall a | Under(s.target, a) ensures exists d :: d in entries && d.target == a && d.kind == Directory {
          var d := AboveBelow(m, pattern, s, a);
        }
      } else {
        FileTarget(m, pattern, s);
      }
    }
  }

  lemma FileTarget(m: Manifest, pattern: seq<Glob>, s: Selected)
    requires ValidManifest(m) && MatchingFile(m, pattern, s)
    ensures exists e :: e in m.visible && s == Select1(e, s.target)
    ensures s.target != "" && Clean(s.target) && forall a :: !Under(s.target, a)
  {
    var e :| e in m.visible && MatchingOf(pattern, File, e) && s == Select1(e, Basename(e.path));
    assert e in m.raw;
    BasenameClean(e.path);
  }

  lemma BelowTarget(m: Manifest, pattern: seq<Glob>, s: Selected)
    requires ValidManifest(m) && BelowMatch(m, pattern, s)
    ensures exists e :: e in m.visible && s == Select1(e, s.target)
    ensures if s.target == "" then s.kind == Directory else Clean(s.target)
  {
    var d, e :| d in m.visible && MatchingOf(pattern, Directory, d)
                && e in m.visible && Within(e.path, d.path) && s == Select1(e, RelativeTo(e.path, d.path));
    assert IsDirectory(m.visible, d.path);
    WithinClosed(m, d.path);
    assert s in SelectWithin(m.visible, d.path);
  }

  /** A directory for every place above a target below a match. */
  lemma AboveBelow(m: Manifest, pattern: seq<Glob>, s: Selected, a: string) returns (x: Selected)
    requires ValidManifest(m) && BelowMatch(m, pattern, s) && Under(s.target, a)
    ensures WildcardSelects(m, pattern, x) && x.target == a && x.kind == Directory
  {
    var d, e :| d in m.visible && MatchingOf(pattern, Directory, d)
                && e in m.visible && Within(e.path, d.path) && s == Select1(e, RelativeTo(e.path, d.path));
    WithinClosed(m, d.path);
    var part := SelectWithin(m.visible, d.path);
    assert s in part;
    x :| x in part && x.target == a && x.kind == Directory;
    var y :| y in m.visible && Within(y.path, d.path) && x == Select1(y, RelativeTo(y.path, d.path));
    assert BelowMatch(m, pattern, x);
  }

  lemma WildcardValid(m: Manifest, pattern: seq<Glob>, entries: seq<Selected>, topLevel: nat, source: string)
    requires ValidManifest(m)
    requires WildcardContents(m, pattern, entries) && Pairwise(entries, SourcesDiffer)
    requires entries != [] && ValidateSelectionEntries(entries).Chosen?
    requires |entries| == topLevel || exists s :: s in entries && s.kind == Directory
    ensures var sorted := SortBy(entries, SourceLe);
            && ValidSelection(m, Selection(source, Wildcard, sorted, topLevel))
            && WildcardContents(m, pattern, sorted)
            && Pairwise(sorted, SourceLe)
  {
    SourceOrder();
    SortSorted(entries, SourceLe);
    WildcardTargets(m, pattern, entries);
    SortedSelection(m, entries);
    var sorted := SortBy(entries, SourceLe);
    assert Pairwise(sorted, TargetsDiffer) by { assert AllPairs(sorted, TargetsDiffer); }
    if s :| s in entries && s.kind == Directory {
      assert s in sorted;
    }
  }

  // ---------------------------------------------------------------------
  // select
  // ---------------------------------------------------------------------

  predicate HasWildcard(path: string) {
    '*' in path || '?' in path || '[' in path
  }

  /** What becomes of a source: the outcome for each way of writing it. */
  ghost predicate SelectsTo(m: Manifest, source: string, r: Outcome<Selection>) {
    var normalized := NormalizeSource(source);
    if normalized.RejectedSource? then r == Refused(InvalidSource)
    else if normalized.path == "." then r == SelectDot(m)
    else if !HasWildcard(normalized.path) then r == SelectLiteral(m, normalized.path)
    else
      var compiled := CompilePattern(Split(normalized.path));
      if compiled.Refused? then r == Refused(BadPattern)
      else WildcardOutcome(m, compiled.value, normalized.path, r)
  }

  /** The selection is what the source denotes in the manifest. */
  ghost predicate Denotes(m: Manifest, source: string, s: Selection) {
    SelectsTo(m, source, Chosen(s))
  }

  /** The manifest and the source determine the outcome. */
  lemma SelectsOnce(m: Manifest, source: string, r: Outcome<Selection>, q: Outcome<Selection>)
    requires SelectsTo(m, source, r) && SelectsTo(m, source, q)
    ensures r == q
  {
    if r != q {
      var n := NormalizeSource(source).path;
      var pattern := CompilePattern(Split(n)).value;
      assert WildcardOutcome(m, pattern, n, r) && WildcardOutcome(m, pattern, n, q);
      ContentsDetermineOrder(r.value.entries, q.value.entries);
    }
  }

  /** Entries in source order are determined by their set. */
  lemma {:induction false} ContentsDetermineOrder(a: seq<Selected>, b: seq<Selected>)
    requires Pairwise(a, SourceLe) && Pairwise(a, SourcesDiffer)
    requires Pairwise(b, SourceLe) && Pairwise(b, SourcesDiffer)
    requires forall s :: s in a <==> s in b
    ensures a == b
  {
    if a == [] {
      NoElements(b);
    } else {
      assert a[0] in b;
      SameFirst(a, b);
      SameRest(a, b);
      ContentsDetermineOrder(a[1..], b[1..]);
    }
  }

  lemma SameFirst(a: seq<Selected>, b: seq<Selected>)
    requires Pairwise(a, SourceLe) && Pairwise(a, SourcesDiffer) && Pairwise(b, SourceLe)
    requires a != [] && b != [] && a[0] in b && b[0] in a
    ensures a[0] == b[0]
  {
    var i :| 0 <= i < |a| && a[i] == b[0];
    var j :| 0 <= j < |b| && b[j] == a[0];
    StringLeTotal(a[0].source, b[0].source);
    assert i > 0 ==> SourceLe(a[0], a[i]) && SourcesDiffer(a[0], a[i]);
    assert j > 0 ==> SourceLe(b[0], b[j]);
  }

  lemma SameRest(a: seq<Selected>, b: seq<Selected>)
    requires a != [] && b != [] && a[0] == b[0]
    requires Pairwise(a, SourcesDiffer) && Pairwise(b, SourcesDiffer)
    requires forall s :: s in a <==> s in b
    ensures forall s :: s in a[1..] <==> s in b[1..]
  {
    forall s ensures s in a[1..] <==> s in a && s != a[0] { RestOf(a, s); }
    forall s ensures s in b[1..] <==> s in b && s != b[0] { RestOf(b, s); }
  }

  lemma RestOf(a: seq<Selected>, s: Selected)
    requires a != [] && Pairwise(a, SourcesDiffer)
    ensures s in a[1..] <==> s in a && s != a[0]
  {
    if s in a[1..] {
      var i :| 0 <= i < |a[1..]| && a[1..][i] == s;
      assert SourcesDiffer(a[0], a[i + 1]);
    }
  }

  /** The entry is selected by a pattern: it is at or below a visible matching directory,
      and stands under what follows it, or it is a visible matching file and stands under
      its last segment. */
  ghost predicate StandsForPattern(m: Manifest, pattern: seq<Glob>, x: Selected) {
    || (exists d :: d in m.visible && d.kind == Directory && PathMatches(pattern, d.path) && StandsBelow(m, d.path, x))
    || (exists e :: e in m.visible && e.kind == File && PathMatches(pattern, e.path)
                    && Stands(x, e, x.target) && LastSegmentOf(x.target, e.path))
  }

  /** The contents of a selection, told from the text of its source. */
  ghost predicate HoldsWhatSourceNames(m: Manifest, source: string, s: Selection) {
    var path := Join(Kept(source));
    if Kept(source) == [] then s.kind == Dot && HoldsAll(m, s.entries)
    else
      && s.source == path && Pairwise(s.entries, SourceLe) && Pairwise(s.entries, SourcesDiffer)
      && if HasWildcard(path) then HoldsMatches(m, Kept(source), s) else HoldsPath(m, path, s)
  }

  ghost predicate HoldsPath(m: Manifest, path: string, s: Selection) {
    if IsDirectory(m.visible, path) then s.kind == LiteralDirectory && HoldsDirectory(m, path, s.entries)
    else s.kind == LiteralFile && HoldsFile(m, path, s.entries)
  }

  ghost predicate HoldsMatches(m: Manifest, segments: seq<string>, s: Selection) {
    s.kind == Wildcard && exists pattern ::
      && SpelledBy(pattern, segments)
      && (forall x :: x in s.entries <==> StandsForPattern(m, pattern, x))
      && s.topLevel == |Filter(m.visible, (e: Entry) => PathMatches(pattern, e.path))|
  }

  lemma WildcardStands(m: Manifest, pattern: seq<Glob>, x: Selected)
    requires ValidManifest(m)
    ensures WildcardSelects(m, pattern, x) <==> StandsForPattern(m, pattern, x)
  {
    BelowStands(m, pattern, x);
    FileStands(m, pattern, x);
  }

  lemma BelowStands(m: Manifest, pattern: seq<Glob>, x: Selected)
    requires ValidManifest(m)
    ensures BelowMatch(m, pattern, x) <==>
            exists d :: d in m.visible && d.kind == Directory && PathMatches(pattern, d.path) && StandsBelow(m, d.path, x)
  {
    forall d | d in m.visible ensures x in SelectWithin(m.visible, d.path) <==> StandsBelow(m, d.path, x) {
      WithinSegments(m, d.path, x);
    }
    if d :| d in m.visible && d.kind == Directory && PathMatches(pattern, d.path) && StandsBelow(m, d.path, x) {
      assert MatchingOf(pattern, Directory, d) && x in SelectWithin(m.visible, d.path);
    }
    if BelowMatch(m, pattern, x) {
      var d, e :| d in m.visible && MatchingOf(pattern, Directory, d)
                  && e in m.visible && Within(e.path, d.path) && x == Select1(e, RelativeTo(e.path, d.path));
      assert x in SelectWithin(m.visible, d.path);
    }
  }

  lemma FileStands(m: Manifest, pattern: seq<Glob>, x: Selected)
    requires ValidManifest(m)
    ensures MatchingFile(m, pattern, x) <==>
            exists e :: e in m.visible && e.kind == File && PathMatches(pattern, e.path)
                        && Stands(x, e, x.target) && LastSegmentOf(x.target, e.path)
  {
    forall e | e in m.visible ensures LastSegmentOf(Basename(e.path), e.path) {
      assert e in m.raw;
      BasenameSegment(e.path);
    }
    if e :| e in m.visible && MatchingOf(pattern, File, e) && x == Select1(e, Basename(e.path)) {
      assert LastSegmentOf(x.target, e.path);
    }
    if e :| e in m.visible && e.kind == File && PathMatches(pattern, e.path)
            && Stands(x, e, x.target) && LastSegmentOf(x.target, e.path) {
      assert MatchingOf(pattern, File, e) && x == Select1(e, Basename(e.path));
    }
  }

  /** A selection holds what the source names: everything visible for a source without
      meaningful segments; the file, or the directory and everything visible below it,
      for a path; and for a wildcard what stands for the pattern its segments spell. */
  lemma DenotedHolds(m: Manifest, source: string, s: Selection)
    requires ValidManifest(m) && Denotes(m, source, s)
    ensures HoldsWhatSourceNames(m, source, s)
  {
    SourceNames(source);
    var n := NormalizeSource(source).path;
    if n == "." {
      DotSelection(m);
    } else if HasWildcard(n) {
      DenotedPattern(m, n, s);
    } else {
      LiteralHolds(m, n, s);
    }
  }

  /** What a normalised source is. */
  lemma SourceNames(source: string)
    ensures NormalizeSource(source).Source? ==>
              var n := NormalizeSource(source).path;
              && (n == "." <==> Kept(source) == [])
              && (n != "." ==> n == Join(Kept(source)) && Split(n) == Kept(source))
  {
    NormalizeSourceMeaning(source);
    if NormalizeSource(source).Source? { JoinSplit(NormalizeSource(source).path); }
  }

  lemma LiteralHolds(m: Manifest, path: string, s: Selection)
    requires ValidManifest(m) && SelectLiteral(m, path) == Chosen(s)
    ensures s.source == path && Pairwise(s.entries, SourceLe) && Pairwise(s.entries, SourcesDiffer)
    ensures HoldsPath(m, path, s)
  {
    LiteralSelection(m, path);
  }

  lemma DenotedPattern(m: Manifest, path: string, s: Selection)
    requires ValidManifest(m) && CompilePattern(Split(path)).Chosen?
    requires WildcardOutcome(m, CompilePattern(Split(path)).value, path, Chosen(s))
    ensures s.source == path && Pairwise(s.entries, SourceLe) && Pairwise(s.entries, SourcesDiffer)
    ensures HoldsMatches(m, Split(path), s)
  {
    var pattern := CompilePattern(Split(path)).value;
    CompilePatternExactly(Split(path), pattern);
    forall x ensures x in s.entries <==> StandsForPattern(m, pattern, x) { WildcardStands(m, pattern, x); }
  }

  /** What is held is a visible entry. */
  lemma HeldVisible(m: Manifest, source: string, s: Selection, x: Selected) returns (e: Entry)
    requires HoldsWhatSourceNames(m, source, s) && x in s.entries
    ensures e in m.visible && Stands(x, e, x.target)
  {
    var i :| 0 <= i < |s.entries| && s.entries[i] == x;
    if Kept(source) == [] {
      e := m.visible[i];
    } else if HasWildcard(Join(Kept(source))) {
      e := HeldByPattern(m, Kept(source), s, x);
    } else {
      e := HeldByPath(m, Join(Kept(source)), s, x);
    }
  }

  lemma HeldByPath(m: Manifest, path: string, s: Selection, x: Selected) returns (e: Entry)
    requires HoldsPath(m, path, s) && x in s.entries
    ensures e in m.visible && Stands(x, e, x.target)
  {
    if IsDirectory(m.visible, path) {
      assert StandsBelow(m, path, x);
      e :| e in m.visible && Stands(x, e, x.target) && SplitsAt(e.path, path, x.target);
    } else {
      e :| e in m.visible && Stands(s.entries[0], e, s.entries[0].target);
    }
  }

  lemma HeldByPattern(m: Manifest, segments: seq<string>, s: Selection, x: Selected) returns (e: Entry)
    requires HoldsMatches(m, segments, s) && x in s.entries
    ensures e in m.visible && Stands(x, e, x.target)
  {
    var pattern :| SpelledBy(pattern, segments) && forall y :: y in s.entries <==> StandsForPattern(m, pattern, y);
    assert StandsForPattern(m, pattern, x);
    if d :| d in m.visible && d.kind == Directory && PathMatches(pattern, d.path) && StandsBelow(m, d.path, x) {
      e :| e in m.visible && Stands(x, e, x.target) && SplitsAt(e.path, d.path, x.target);
    } else {
      e :| e in m.visible && Stands(x, e, x.target);
    }
  }

  /** Why a source selects nothing, told from its text: it is empty, absolute or climbing,
      or has a forbidden character; nothing is listed, or nothing listed is visible; a
      segment spells no pattern, nothing matches, or nothing visible does; or two entries
      would stand at the same place. */
  ghost predicate RefusedFor(m: Manifest, source: string, error: SelectError) {
    var path := Join(Kept(source));
    if source == "" || '\0' in source || '\\' in source || source[0] == '/' || ".." in Split(source) then error == InvalidSource
    else if Kept(source) == [] then m.visible == [] && error == if m.raw == [] then NoMatch else IgnoredSource
    else if !HasWildcard(path) then
      !Listed(m.visible, path) && error == if Listed(m.raw, path) then IgnoredSource else NoMatch
    else if !AllReadable(Kept(source)) then error == BadPattern
    else exists pattern :: SpelledBy(pattern, Kept(source)) && PatternFails(m, pattern, error)
  }

  ghost predicate PatternFails(m: Manifest, pattern: seq<Glob>, error: SelectError) {
    if forall e :: e in m.raw ==> !PathMatches(pattern, e.path) then error == NoMatch
    else if forall e :: e in m.visible ==> !PathMatches(pattern, e.path) then error == IgnoredSource
    else
      && error == CollidingTargets
      && exists x, y :: StandsForPattern(m, pattern, x) && StandsForPattern(m, pattern, y)
                        && x.source != y.source && x.target == y.target && !x.IsMarker() && !y.IsMarker()
  }

  lemma RefusedExactly(m: Manifest, source: string, error: SelectError)
    requires ValidManifest(m) && SelectsTo(m, source, Refused(error))
    ensures RefusedFor(m, source, error)
  {
    NormalizeSourceMeaning(source);
    SourceNames(source);
    if NormalizeSource(source).Source? {
      var n := NormalizeSource(source).path;
      if n == "." {
        DotSelection(m);
      } else if !HasWildcard(n) {
        LiteralSelection(m, n);
      } else {
        RefusedPattern(m, n, error);
      }
    }
  }

  lemma RefusedPattern(m: Manifest, path: string, error: SelectError)
    requires ValidManifest(m)
    requires var compiled := CompilePattern(Split(path));
             if compiled.Refused? then error == BadPattern else WildcardOutcome(m, compiled.value, path, Refused(error))
    ensures if !AllReadable(Split(path)) then error == BadPattern
            else exists pattern :: SpelledBy(pattern, Split(path)) && PatternFails(m, pattern, error)
  {
    var compiled := CompilePattern(Split(path));
    if compiled.Chosen? {
      CompilePatternExactly(Split(path), compiled.value);
      OutcomeFails(m, compiled.value, path, error);
    } else {
      CompilePatternExactly(Split(path), []);
    }
  }

  lemma OutcomeFails(m: Manifest, pattern: seq<Glob>, path: string, error: SelectError)
    requires ValidManifest(m) && WildcardOutcome(m, pattern, path, Refused(error))
    ensures PatternFails(m, pattern, error)
  {
    if e :| e in m.visible && PathMatches(pattern, e.path) {
      assert e in VisibleMatches(m, pattern) && e in m.raw;
      var x, y :| WildcardSelects(m, pattern, x) && WildcardSelects(m, pattern, y)
                  && SourcesDiffer(x, y) && !TargetsDiffer(x, y);
      WildcardStands(m, pattern, x);
      WildcardStands(m, pattern, y);
    }
  }

  /** Every denoted selection is valid. */
  lemma DenotedValid(m: Manifest, source: string, s: Selection)
    requires ValidManifest(m) && Denotes(m, source, s)
    ensures ValidSelection(m, s)
  {
    var n := NormalizeSource(source).path;
    if n == "." { DotSelection(m); } else if !HasWildcard(n) { LiteralSelection(m, n); }
  }

  /** The outcome is the declared one; so a selection is made exactly when the source
      denotes one, it is valid, and a duplicate source is never reported. */
  method Select(m: Manifest, source: string) returns (r: Outcome<Selection>)
    requires ValidManifest(m)
    ensures SelectsTo(m, source, r)
    ensures r.Chosen? ==> ValidSelection(m, r.value) && HoldsWhatSourceNames(m, source, r.value)
    ensures r.Refused? ==> forall s :: !Denotes(m, source, s)
    ensures r.Refused? ==> RefusedFor(m, source, r.error)
    ensures r.Refused? ==> r.error != DuplicateSources
    ensures r == Refused(CollidingTargets) ==> HasWildcard(source)
  {
    r := SelectSource(m, source);
    if r.Chosen? {
      DenotedHolds(m, source, r.value);
    } else {
      RefusedExactly(m, source, r.error);
    }
  }

  method SelectSource(m: Manifest, source: string) returns (r: Outcome<Selection>)
    requires ValidManifest(m)
    ensures SelectsTo(m, source, r)
    ensures r.Chosen? ==> ValidSelection(m, r.value)
    ensures r.Refused? ==> forall s :: !Denotes(m, source, s)
    ensures r.Refused? ==> r.error != DuplicateSources
    ensures r == Refused(CollidingTargets) ==> HasWildcard(source)
  {
    var normalized := NormalizeSource(source);
    if normalized.RejectedSource? {
      return Refused(InvalidSource);
    }
    var path := normalized.path;
    if path == "." {
      DotSelection(m);
      return SelectDot(m);
    }
    if HasWildcard(path) {
      JoinCharacters(source, Kept(source));
      r := SelectWildcard(m, path);
      return;
    }
    LiteralSelection(m, path);
    r := SelectLiteral(m, path);
  }
}
