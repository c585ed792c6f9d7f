/** The entries of a local ADD archive: path normalisation and the collision checks. */
module TarEntries {
  import opened Options
  import opened Paths
  import opened Sequences
  import opened NormalPaths
  import opened ContextEntries
  import opened AbsolutePaths

  datatype TarEntry = TarEntry(path: string, isDir: bool)

  predicate Control(c: char) {
    c < ' ' || c == '\U{7f}'
  }

  function NormalizeTarPath(path: string): Option<string> {
    if path == "" || path[0] == '/' || '\\' in path || (exists i :: 0 <= i < |path| && Control(path[i])) || ".." in Split(path)
    then None
    else if NormPath(path) == "" || NormPath(path) == "." || NormPath(path)[0] == '/' then None
    else Some(NormPath(path))
  }

  /** An accepted member path is a clean relative path. */
  lemma NormalizedTarPathClean(path: string)
    requires NormalizeTarPath(path).Some?
    ensures Clean(NormalizeTarPath(path).value)
  {
    var xs := Collapse(Split(path), false, []);
    SplitSlashFree(path);
    CollapseKeeps(Split(path), false, []);
    CollapseNoDots(Split(path), false, []);
    assert "" + Join(xs) == Join(xs);
    SplitJoin(xs);
  }

  /** A member name is refused exactly when it is empty, absolute or climbing, has a
      backslash or a control character, or names nothing but the directory itself;
      otherwise the path has the meaningful segments of the name. */
  lemma TarPathExactly(path: string)
    ensures NormalizeTarPath(path) == None <==>
            || path == "" || path[0] == '/' || ".." in Split(path) || '\\' in path
            || (exists i :: 0 <= i < |path| && (path[i] as int < 32 || path[i] as int == 127))
            || Kept(path) == []
    ensures NormalizeTarPath(path).Some? ==>
              var p := NormalizeTarPath(path).value;
              p == Join(Kept(path)) && Split(p) == Kept(path)
  {
    forall i | 0 <= i < |path| ensures Control(path[i]) <==> path[i] as int < 32 || path[i] as int == 127 {
    }
    if path != "" && path[0] != '/' && ".." !in Split(path) {
      var kept := RelativeNormal(path);
    }
  }

  /** The normal form of a relative path that does not climb. */
  lemma RelativeNormal(path: string) returns (kept: seq<string>)
    requires path != "" && path[0] != '/' && ".." !in Split(path)
    ensures kept == Kept(path)
    ensures if kept == [] then NormPath(path) == "." else NormPath(path) == Join(kept) && Split(Join(kept)) == kept
    ensures kept != [] ==> Join(kept) != "" && Join(kept) != "." && Join(kept)[0] != '/'
  {
    kept := Kept(path);
    NormPathKept(path);
    KeptSegments(path);
    assert "" + Join(kept) == Join(kept);
    if kept != [] {
      SplitJoin(kept);
      JoinCleanEnds(kept);
      SplitAtom(".");
      assert kept[0] != ".";
    }
  }

  // ---------------------------------------------------------------------
  // _validate_tar_entries
  // ---------------------------------------------------------------------

  datatype TarCheck = TarOk | DuplicateEntry | FileAboveEntry

  predicate TarPathsDiffer(a: TarEntry, b: TarEntry) {
    a.path != b.path
  }

  /** No file is a proper ancestor of the path. */
  ghost predicate NoFileAbovePath(entries: seq<TarEntry>, path: string) {
    forall f :: f in entries && !f.isDir ==> !Under(path, f.path)
  }

  ghost predicate NoFileAboveAny(entries: seq<TarEntry>) {
    forall e :: e in entries ==> NoFileAbovePath(entries, e.path)
  }

  /** The archive can be unpacked: one entry a path, and nothing below a file. It does
      not depend on the order of the entries. */
  ghost predicate Extractable(entries: seq<TarEntry>) {
    Pairwise(entries, TarPathsDiffer) && NoFileAboveAny(entries)
  }

  ghost predicate TarIndex(byPath: map<string, TarEntry>, entries: seq<TarEntry>) {
    && (forall e :: e in entries ==> e.path in byPath && byPath[e.path] == e)
    && forall p :: p in byPath ==> byPath[p] in entries && byPath[p].path == p
  }

  lemma TarIndexExtend(byPath: map<string, TarEntry>, front: seq<TarEntry>, e: TarEntry)
    requires TarIndex(byPath, front) && Pairwise(front, TarPathsDiffer)
    ensures e.path in byPath ==> !Pairwise(front + [e], TarPathsDiffer)
    ensures e.path !in byPath ==> Pairwise(front + [e], TarPathsDiffer) && TarIndex(byPath[e.path := e], front + [e])
  {
    var all := front + [e];
    if e.path in byPath {
      var k :| 0 <= k < |front| && front[k] == byPath[e.path];
      assert !TarPathsDiffer(all[k], all[|front|]);
    } else {
      assert forall k :: 0 <= k < |front| ==> front[k] in front;
    }
  }

  method IndexEntries(entries: seq<TarEntry>) returns (ok: bool, byPath: map<string, TarEntry>)
    ensures ok <==> Pairwise(entries, TarPathsDiffer)
    ensures ok ==> TarIndex(byPath, entries)
  {
    byPath := map[];
    for i := 0 to |entries|
      invariant Pairwise(entries[..i], TarPathsDiffer) && TarIndex(byPath, entries[..i])
    {
      assert entries[..i + 1] == entries[..i] + [entries[i]];
      TarIndexExtend(byPath, entries[..i], entries[i]);
      PairwisePrefix(entries, TarPathsDiffer, i + 1);
      if entries[i].path in byPath {
        return false, byPath;
      }
      byPath := byPath[entries[i].path := entries[i]];
    }
    assert entries[..|entries|] == entries;
    ok := true;
  }

  /** The walk from an entry to the root of the archive finds exactly the files above. */
  method AncestorScan(byPath: map<string, TarEntry>, ghost entries: seq<TarEntry>, path: string) returns (clear: bool)
    requires TarIndex(byPath, entries) && Clean(path)
    ensures clear <==> NoFileAbovePath(entries, path)
  {
    var parent := Dirname(path);
    ParentStep(path);
    while parent != "" && parent != "."
      invariant parent != "." && (parent != "" ==> Clean(parent) && Under(path, parent))
      invariant forall f :: f in entries && !f.isDir && Under(path, f.path) ==>
                  parent != "" && (f.path == parent || Under(parent, f.path))
      decreases |parent|
    {
      ParentStep(parent);
      if parent in byPath && !byPath[parent].isDir {
        return false;
      }
      var above := Dirname(parent);
      if above != "" { UnderTransitive(path, parent, above); }
      parent := above;
    }
    clear := true;
  }

  /** The prefix scan below one file. */
  method DescendantScan(entries: seq<TarEntry>, file: TarEntry) returns (clear: bool)
    ensures clear <==> forall e :: e in entries ==> !Under(e.path, file.path)
  {
    for i := 0 to |entries|
      invariant forall e :: e in entries[..i] ==> !Under(e.path, file.path)
    {
      if Under(entries[i].path, file.path) {
        assert entries[i] in entries;
        return false;
      }
      assert entries[..i + 1] == entries[..i] + [entries[i]];
    }
    assert entries[..|entries|] == entries;
    clear := true;
  }

  /** The validation accepts exactly the archives that can be unpacked. */
  method ValidateTarEntries(entries: seq<TarEntry>) returns (r: TarCheck)
    requires forall e :: e in entries ==> Clean(e.path)
    ensures r == TarOk <==> Extractable(entries)
    ensures r == DuplicateEntry <==> !Pairwise(entries, TarPathsDiffer)
  {
    var distinct, byPath := IndexEntries(entries);
    if !distinct {
      return DuplicateEntry;
    }
    for i := 0 to |entries|
      invariant forall e :: e in entries[..i] ==> NoFileAbovePath(entries, e.path)
    {
      var entry := entries[i];
      assert entry in entries;
      var clear := AncestorScan(byPath, entries, entry.path);
      if !clear {
        return FileAboveEntry;
      }
      if !entry.isDir {
        var below := DescendantScan(entries, entry);
        if !below {
          return FileAboveEntry;
        }
      }
      assert entries[..i + 1] == entries[..i] + [entry];
    }
    assert entries[..|entries|] == entries;
    r := TarOk;
  }

  // ---------------------------------------------------------------------
  // _read_tar_entries
  // ---------------------------------------------------------------------

  datatype MemberKind = Regular | Folder | OtherMember

  /** A member as the archive library lists it. */
  datatype Member = Member(name: string, kind: MemberKind)

  /** The member's entry, unless its type or its name is refused. */
  function EntryOf(member: Member): Option<TarEntry> {
    if member.kind == OtherMember || NormalizeTarPath(member.name) == None then None
    else Some(TarEntry(NormalizeTarPath(member.name).value, member.kind == Folder))
  }

  /** The entries are those of the members, one for one. */
  ghost predicate EntriesOf(members: seq<Member>, entries: seq<TarEntry>) {
    |entries| == |members| && forall k :: 0 <= k < |members| ==> EntryOf(members[k]) == Some(entries[k])
  }

  /** The archive is accepted with these entries: the listing could be read, every member
      is a file or a directory with a safe name, and all can be unpacked side by side. */
  ghost predicate AcceptedAs(listing: Option<seq<Member>>, entries: seq<TarEntry>) {
    listing.Some? && EntriesOf(listing.value, entries) && Extractable(entries)
  }

  lemma AcceptedOnce(listing: Option<seq<Member>>, a: seq<TarEntry>, b: seq<TarEntry>)
    requires AcceptedAs(listing, a) && AcceptedAs(listing, b)
    ensures a == b
  {
    EntriesOnce(listing.value, a, b);
  }

  /** Reading an archive gives its entries exactly when it is accepted. */
  method ReadTarEntries(listing: Option<seq<Member>>) returns (r: Option<seq<TarEntry>>)
    ensures r.Some? ==> AcceptedAs(listing, r.value)
    ensures r == None ==> forall entries :: !AcceptedAs(listing, entries)
  {
    if listing == None {
      return None;
    }
    var members := listing.value;
    var entries: seq<TarEntry> := [];
    for i := 0 to |members|
      invariant EntriesOf(members[..i], entries)
    {
      var entry := EntryOf(members[i]);
      if entry == None {
        RefusedMember(members, i);
        return None;
      }
      entries := entries + [entry.value];
    }
    assert members[..|members|] == members;
    EntriesClean(members, entries);
    var check := ValidateTarEntries(entries);
    if check != TarOk {
      forall other | AcceptedAs(listing, other) ensures false { EntriesOnce(members, entries, other); }
      return None;
    }
    r := Some(entries);
  }

  lemma RefusedMember(members: seq<Member>, i: nat)
    requires i < |members| && EntryOf(members[i]) == None
    ensures forall entries :: !EntriesOf(members, entries)
  {
  }

  lemma EntriesOnce(members: seq<Member>, a: seq<TarEntry>, b: seq<TarEntry>)
    requires EntriesOf(members, a) && EntriesOf(members, b)
    ensures a == b
  {
    forall k | 0 <= k < |a| ensures a[k] == b[k] {
      assert EntryOf(members[k]) == Some(a[k]);
    }
  }

  lemma EntriesClean(members: seq<Member>, entries: seq<TarEntry>)
    requires EntriesOf(members, entries)
    ensures forall e :: e in entries ==> Clean(e.path)
  {
    forall e | e in entries ensures Clean(e.path) {
      var k :| 0 <= k < |entries| && entries[k] == e;
      NormalizedTarPathClean(members[k].name);
    }
  }

  // ---------------------------------------------------------------------
  // Which sources are archives
  // ---------------------------------------------------------------------

  const TAR_SUFFIXES := [".tar", ".tar.gz", ".tgz", ".tar.bz2", ".tar.xz", ".txz"]

  /** `str.lower`; no other letter has one of the suffixes' letters as its lower case. */
  function Lower(s: string): string {
    seq(|s|, i requires 0 <= i < |s| => if 'A' <= s[i] <= 'Z' then (s[i] as int + 32) as char else s[i])
  }

  predicate HasTarSuffix(source: string) {
    exists k :: 0 <= k < |TAR_SUFFIXES| && EndsIn(Lower(source), TAR_SUFFIXES[k])
  }

  predicate EndsIn(s: string, suffix: string) {
    |suffix| <= |s| && s[|s| - |suffix|..] == suffix
  }
}
