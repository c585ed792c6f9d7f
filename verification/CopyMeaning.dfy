/** What the outcome of a preparation means, told from the instruction, the manifest and
    the context. */
module CopyMeaning {
  import opened Options
  import opened Paths
  import opened AbsolutePaths
  import opened Sequences
  import opened ContextEntries
  import opened Selection
  import opened WildcardSelection
  import opened CopyPlan
  import opened TarEntries
  import opened CopyOutcome

  // ---------------------------------------------------------------------
  // Accepted preparations
  // ---------------------------------------------------------------------

  /** The entries of the archive, when there is one to extract. */
  ghost predicate ArchiveRead(extract: bool, plans: seq<Planned>, files: ContextFiles, archive: Option<seq<TarEntry>>) {
    && (archive.Some? <==> extract)
    && (archive.Some? ==> AcceptedAs(ArchiveListing(plans, files), archive.value))
  }

  /** What an accepted preparation comes from. */
  lemma SelectionsOf(m: Manifest, ins: CopyInstruction, workdir: string, files: ContextFiles, dest: string,
                     plans: seq<Planned>, archive: Option<seq<TarEntry>>) returns (selections: seq<Selection>)
    requires PreparesTo(m, ins, workdir, files, Prepared(dest, plans, archive))
    ensures CopyDestination(ins.dest, workdir) == Some(dest) && SelectsAll(m, ins.srcs, selections)
    ensures Readable(PlanAll(selections, dest, EndsInSlash(ins.dest)), files.open)
    ensures plans == StageAll(PlanAll(selections, dest, EndsInSlash(ins.dest)), files.open)
    ensures ArchiveRead(ExtractsArchive(ins, selections), plans, files, archive)
  {
    var place := CopyDestination(ins.dest, workdir).value;
    var selected :| SourcesSelectTo(m, ins.srcs, selected)
                    && Prepared(dest, plans, archive) == SelectedOutcome(selected, place, ins, files);
    selections := ChosenWhenPrepared(selected, place, ins, files, dest, plans, archive);
  }

  lemma ChosenWhenPrepared(selected: Outcome<seq<Selection>>, place: string, ins: CopyInstruction, files: ContextFiles,
                           dest: string, plans: seq<Planned>, archive: Option<seq<TarEntry>>) returns (selections: seq<Selection>)
    requires SelectedOutcome(selected, place, ins, files) == Prepared(dest, plans, archive)
    ensures selected == Chosen(selections) && dest == place
    ensures Readable(PlanAll(selections, dest, EndsInSlash(ins.dest)), files.open)
    ensures plans == StageAll(PlanAll(selections, dest, EndsInSlash(ins.dest)), files.open)
    ensures ArchiveRead(ExtractsArchive(ins, selections), plans, files, archive)
  {
    selections := selected.value;
    PlanPrepared(PlanAll(selections, place, EndsInSlash(ins.dest)), place, ExtractsArchive(ins, selections), files);
  }

  lemma PlanPrepared(plans: seq<Planned>, place: string, extract: bool, files: ContextFiles)
    ensures var r := PlanOutcome(plans, place, extract, files);
            r.Prepared? ==>
              r.dest == place && r.plans == StageAll(plans, files.open) && Readable(plans, files.open)
              && ArchiveRead(extract, r.plans, files, r.archive)
  {
  }

  lemma {:induction false} PlanAllMember(selections: seq<Selection>, dest: string, slash: bool, o: Planned)
      returns (k: nat, s: Selected)
    requires o in PlanAll(selections, dest, slash)
    ensures k < |selections| && s in selections[k].entries
    ensures o == PlanOne(s, dest, DirectoryTarget(selections[k], slash))
  {
    var n := |selections| - 1;
    var last := PlanEntries(selections[n].entries, dest, DirectoryTarget(selections[n], slash));
    if o in last {
      var i :| 0 <= i < |last| && last[i] == o;
      k, s := n, selections[n].entries[i];
    } else {
      k, s := PlanAllMember(selections[..n], dest, slash, o);
    }
  }

  /** Conversely every selected entry is planned. */
  lemma {:induction false} PlanAllHas(selections: seq<Selection>, dest: string, slash: bool, k: nat, s: Selected)
    requires k < |selections| && s in selections[k].entries
    ensures PlanOne(s, dest, DirectoryTarget(selections[k], slash)) in PlanAll(selections, dest, slash)
  {
    var n := |selections| - 1;
    if k < n {
      PlanAllHas(selections[..n], dest, slash, k, s);
    } else {
      var part := PlanEntries(selections[n].entries, dest, DirectoryTarget(selections[n], slash));
      var i :| 0 <= i < |selections[n].entries| && selections[n].entries[i] == s;
      assert part[i] in part;
    }
  }

  /** The place of a relative target below a directory in normal form. */
  function BelowPlace(dest: string, target: string): string {
    (if dest == "/" || dest == "//" then dest else dest + "/") + target
  }

  /** A single file, for a destination that does not end in a slash. */
  ghost predicate Lone(s: Selection, slash: bool) {
    && !slash && (s.kind == LiteralFile || s.kind == Wildcard)
    && forall x :: x in s.entries ==> x.kind == File
  }

  /** The plan takes the selected entry to its place: the destination itself for a lone
      file and for a directory's own entry, and otherwise the target below it. A file
      comes with its bytes. */
  ghost predicate Carries(p: Planned, x: Selected, dest: string, lone: bool, files: ContextFiles) {
    && p.source == x.source && p.target == x.target && p.kind == x.kind && p.mode == x.mode
    && (p.marker <==> x.kind == Directory && x.target == "")
    && p.remote == (if p.marker || lone then dest else BelowPlace(dest, x.target))
    && (x.kind == File ==> p.staged.Some? && p.staged == files.open(x.source))
  }

  ghost predicate CarriesSome(p: Planned, selections: seq<Selection>, dest: string, slash: bool, files: ContextFiles) {
    exists k, x :: 0 <= k < |selections| && x in selections[k].entries && Carries(p, x, dest, Lone(selections[k], slash), files)
  }

  ghost predicate CarriedBySome(plans: seq<Planned>, x: Selected, dest: string, lone: bool, files: ContextFiles) {
    exists p :: p in plans && Carries(p, x, dest, lone, files)
  }

  /** The plans carry exactly what the sources name to where the destination lies. */
  ghost predicate PreparedAsWritten(m: Manifest, ins: CopyInstruction, workdir: string, files: ContextFiles,
                                    selections: seq<Selection>, dest: string, plans: seq<Planned>)
  {
    var slash := EndsInSlash(ins.dest);
    && LiesAt(ins.dest, workdir, dest)
    && NamedBy(m, ins.srcs, selections)
    && PlansCarry(plans, selections, dest, slash, files)
  }

  ghost predicate PlansCarry(plans: seq<Planned>, selections: seq<Selection>, dest: string, slash: bool, files: ContextFiles) {
    && (forall p :: p in plans ==> CarriesSome(p, selections, dest, slash, files))
    && (forall k, x :: 0 <= k < |selections| && x in selections[k].entries ==>
          CarriedBySome(plans, x, dest, Lone(selections[k], slash), files))
  }

  ghost predicate NamedBy(m: Manifest, srcs: seq<string>, selections: seq<Selection>) {
    && |selections| == |srcs|
    && forall k :: 0 <= k < |srcs| ==> HoldsWhatSourceNames(m, srcs[k], selections[k])
  }

  lemma SelectedNamed(m: Manifest, srcs: seq<string>, selections: seq<Selection>)
    requires ValidManifest(m) && SelectsAll(m, srcs, selections)
    ensures NamedBy(m, srcs, selections)
  {
    forall k | 0 <= k < |srcs| ensures HoldsWhatSourceNames(m, srcs[k], selections[k]) {
      DenotedHolds(m, srcs[k], selections[k]);
    }
  }

  lemma LoneExactly(m: Manifest, s: Selection, slash: bool)
    requires ValidSelection(m, s)
    ensures DirectoryTarget(s, slash) <==> !Lone(s, slash)
  {
    if s.HasDirectories() {
      var k :| 0 <= k < |s.entries| && s.entries[k].kind == Directory;
      assert s.entries[k] in s.entries;
    }
  }

  lemma PlannedRemote(x: Selected, lead: string, ds: seq<string>, directory: bool)
    requires Lead(lead) && CleanParts(ds) && (x.target == "" ==> x.kind == Directory) && (x.target != "" ==> Clean(x.target))
    ensures var dest := Abs(lead, ds);
            PlanOne(x, dest, directory).remote ==
            if x.IsMarker() || !directory then dest else BelowPlace(dest, x.target)
  {
    NormPathOfAbs(lead, ds);
    if x.target != "" {
      TargetBelow(lead, ds, x.target);
      BelowSegments(lead, ds, x.target);
    }
  }

  lemma BelowSegments(lead: string, ds: seq<string>, target: string)
    requires Lead(lead) && CleanParts(ds) && Clean(target)
    ensures Abs(lead, ds + Split(target)) == BelowPlace(Abs(lead, ds), target)
  {
    JoinSplit(target);
    JoinStart(ds);
    if ds == [] {
      assert ds + Split(target) == Split(target);
    } else {
      JoinConcat(ds, Split(target));
      AfterLead(lead, Join(ds), target);
    }
  }

  lemma AfterLead(lead: string, path: string, target: string)
    requires Lead(lead) && path != "" && path[0] != '/'
    ensures lead + path != "/" && lead + path != "//"
    ensures lead + (path + "/" + target) == BelowPlace(lead + path, target)
  {
    assert (lead + path)[|lead|] == path[0];
    assert lead + path + "/" + target == lead + (path + "/" + target);
  }

  lemma OneCarried(m: Manifest, s: Selection, x: Selected, lead: string, ds: seq<string>, slash: bool, files: ContextFiles)
      returns (p: Planned)
    requires ValidSelection(m, s) && x in s.entries && Lead(lead) && CleanParts(ds)
    requires x.kind == File ==> files.open(x.source).Some?
    ensures p == Stage(PlanOne(x, Abs(lead, ds), DirectoryTarget(s, slash)), files.open)
    ensures Carries(p, x, Abs(lead, ds), Lone(s, slash), files)
  {
    LoneExactly(m, s, slash);
    PlannedRemote(x, lead, ds, DirectoryTarget(s, slash));
    p := Stage(PlanOne(x, Abs(lead, ds), DirectoryTarget(s, slash)), files.open);
  }

  /** The instruction adds one named file whose name is that of an archive. */
  predicate AddsArchive(ins: CopyInstruction, selections: seq<Selection>) {
    && ins.isAdd && |ins.srcs| == 1 && |selections| == 1
    && selections[0].kind == LiteralFile && HasTarSuffix(selections[0].source)
  }

  /** What the archive library lists in the bytes of the file. */
  function Listing(files: ContextFiles, path: string): Option<seq<Member>> {
    if files.open(path).Some? then files.list(files.open(path).value) else None
  }

  ghost predicate ArchiveAsWritten(ins: CopyInstruction, selections: seq<Selection>, files: ContextFiles,
                                   archive: Option<seq<TarEntry>>)
  {
    if AddsArchive(ins, selections)
    then archive.Some? && AcceptedAs(Listing(files, selections[0].source), archive.value)
    else archive == None
  }

  /** The staged archive is the named file. */
  lemma ArchiveNamed(m: Manifest, ins: CopyInstruction, selections: seq<Selection>, dest: string, slash: bool, files: ContextFiles)
    requires NamedBy(m, ins.srcs, selections)
    ensures ExtractsArchive(ins, selections) <==> AddsArchive(ins, selections)
    ensures AddsArchive(ins, selections) ==>
              ArchiveListing(StageAll(PlanAll(selections, dest, slash), files.open), files) == Listing(files, selections[0].source)
  {
    if |selections| == 1 && |ins.srcs| == 1 && selections[0].kind == LiteralFile {
      assert HoldsWhatSourceNames(m, ins.srcs[0], selections[0]);
      var s := selections[0];
      assert HoldsFile(m, s.source, s.entries);
      assert s.entries[0].source == s.source;
      LoneArchivePlan(s, dest, slash, files);
      assert selections == [s];
    }
  }

  lemma LoneArchivePlan(s: Selection, dest: string, slash: bool, files: ContextFiles)
    requires |s.entries| == 1 && s.entries[0].kind == File
    ensures ArchiveListing(StageAll(PlanAll([s], dest, slash), files.open), files) == Listing(files, s.entries[0].source)
  {
    assert [s][..0] == [];
    assert PlanAll([], dest, slash) == [];
    assert PlanAll([s], dest, slash)[0] == PlanOne(s.entries[0], dest, DirectoryTarget(s, slash));
  }

  /** An accepted preparation carries exactly what its sources name to where its
      destination lies. */
  lemma PreparedMeaning(m: Manifest, ins: CopyInstruction, workdir: string, files: ContextFiles, dest: string,
                        plans: seq<Planned>, archive: Option<seq<TarEntry>>) returns (selections: seq<Selection>)
    requires ValidManifest(m) && IsAbsolute(workdir)
    requires PreparesTo(m, ins, workdir, files, Prepared(dest, plans, archive))
    ensures PreparedAsWritten(m, ins, workdir, files, selections, dest, plans)
    ensures ArchiveAsWritten(ins, selections, files, archive)
  {
    selections := SelectionsOf(m, ins, workdir, files, dest, plans, archive);
    DestinationMeaning(ins.dest, workdir);
    SelectedNamed(m, ins.srcs, selections);
    SelectedCarried(m, ins, workdir, selections, files);
    ArchiveNamed(m, ins, selections, dest, EndsInSlash(ins.dest), files);
  }

  lemma SelectedCarried(m: Manifest, ins: CopyInstruction, workdir: string, selections: seq<Selection>, files: ContextFiles)
    requires ValidManifest(m) && SelectsAll(m, ins.srcs, selections) && CopyDestination(ins.dest, workdir).Some?
    requires Readable(PlanAll(selections, CopyDestination(ins.dest, workdir).value, EndsInSlash(ins.dest)), files.open)
    ensures var dest, slash := CopyDestination(ins.dest, workdir).value, EndsInSlash(ins.dest);
            PlansCarry(StageAll(PlanAll(selections, dest, slash), files.open), selections, dest, slash, files)
  {
    var lead, ds := DestinationCanonical(ins.dest, workdir);
    ChosenValid(m, ins.srcs, selections);
    AllCarried(m, selections, lead, ds, EndsInSlash(ins.dest), files);
  }

  lemma AllCarried(m: Manifest, selections: seq<Selection>, lead: string, ds: seq<string>, slash: bool, files: ContextFiles)
    requires Lead(lead) && CleanParts(ds)
    requires forall k :: 0 <= k < |selections| ==> ValidSelection(m, selections[k])
    requires Readable(PlanAll(selections, Abs(lead, ds), slash), files.open)
    ensures var dest := Abs(lead, ds);
            PlansCarry(StageAll(PlanAll(selections, dest, slash), files.open), selections, dest, slash, files)
  {
    var dest := Abs(lead, ds);
    var all := PlanAll(selections, dest, slash);
    var plans := StageAll(all, files.open);
    forall p | p in plans ensures CarriesSome(p, selections, dest, slash, files) {
      var i :| 0 <= i < |plans| && plans[i] == p;
      assert all[i] in all;
      var k, x := PlanAllMember(selections, dest, slash, all[i]);
      var q := OneCarried(m, selections[k], x, lead, ds, slash, files);
    }
    forall k, x | 0 <= k < |selections| && x in selections[k].entries
      ensures CarriedBySome(plans, x, dest, Lone(selections[k], slash), files)
    {
      PlanAllHas(selections, dest, slash, k, x);
      var o := PlanOne(x, dest, DirectoryTarget(selections[k], slash));
      var i :| 0 <= i < |all| && all[i] == o;
      var q := OneCarried(m, selections[k], x, lead, ds, slash, files);
      assert plans[i] == q;
    }
  }

  /** The selected entry is put at the path: the destination itself for a lone file, and
      otherwise its target below the destination. */
  ghost predicate PutAt(selections: seq<Selection>, dest: string, slash: bool, x: Selected, path: string) {
    exists k :: 0 <= k < |selections| && x in selections[k].entries && path == PlaceOf(x, dest, Lone(selections[k], slash))
  }

  function PlaceOf(x: Selected, dest: string, lone: bool): string {
    if lone then dest else BelowPlace(dest, x.target)
  }

  lemma PutIsPlanned(plans: seq<Planned>, selections: seq<Selection>, dest: string, slash: bool, files: ContextFiles,
                     x: Selected, path: string) returns (p: Planned)
    requires PlansCarry(plans, selections, dest, slash, files) && PutAt(selections, dest, slash, x, path) && x.kind == File
    ensures p in plans && p.kind == File && !p.marker && p.remote == path && p.staged.Some? && p.staged == files.open(x.source)
  {
    var k :| 0 <= k < |selections| && x in selections[k].entries && path == PlaceOf(x, dest, Lone(selections[k], slash));
    assert CarriedBySome(plans, x, dest, Lone(selections[k], slash), files);
    p :| p in plans && Carries(p, x, dest, Lone(selections[k], slash), files);
  }

  lemma PlannedIsPut(plans: seq<Planned>, selections: seq<Selection>, dest: string, slash: bool, files: ContextFiles,
                     p: Planned) returns (k: nat, x: Selected)
    requires PlansCarry(plans, selections, dest, slash, files) && p in plans && p.kind == File
    ensures k < |selections| && x in selections[k].entries && x.kind == File && PutAt(selections, dest, slash, x, p.remote)
  {
    assert CarriesSome(p, selections, dest, slash, files);
    k, x :| 0 <= k < |selections| && x in selections[k].entries && Carries(p, x, dest, Lone(selections[k], slash), files);
    assert p.remote == PlaceOf(x, dest, Lone(selections[k], slash));
  }

  // ---------------------------------------------------------------------
  // Failed preparations
  // ---------------------------------------------------------------------

  /** Why a preparation fails, told from the instruction, the manifest and the context:
      the destination climbs; a source, the first such one, selects nothing; a wildcard
      with several matches, or a file onto the root, would need a directory; two selected
      entries would stand at one place; a lone file goes onto `//`; or a file or the
      archive cannot be read. */
  ghost predicate FailsFor(m: Manifest, ins: CopyInstruction, workdir: string, files: ContextFiles, error: PlanError) {
    match error
    case InvalidDestination => Climbs(ins.dest, workdir)
    case CannotSelect(e) => exists k :: 0 <= k < |ins.srcs| && FirstUnselected(m, ins.srcs, k, e)
    case _ => exists selections :: NamedBy(m, ins.srcs, selections) && FailsOn(ins, workdir, files, selections, error)
  }

  /** The destination, or the working directory it is relative to, climbs or holds a NUL. */
  predicate Climbs(dest: string, workdir: string) {
    !Safe(dest) || ((dest == "" || dest[0] != '/') && !Safe(workdir))
  }

  ghost predicate FirstUnselected(m: Manifest, srcs: seq<string>, k: nat, e: SelectError)
    requires k < |srcs|
  {
    RefusedFor(m, srcs[k], e) && forall j :: 0 <= j < k ==> Selectable(m, srcs[j])
  }

  ghost predicate Selectable(m: Manifest, source: string) {
    exists s :: HoldsWhatSourceNames(m, source, s)
  }

  ghost predicate FailsOn(ins: CopyInstruction, workdir: string, files: ContextFiles, selections: seq<Selection>, error: PlanError) {
    var slash := EndsInSlash(ins.dest);
    match error
    case NeedsDirectory => !slash && |selections| == 1 && selections[0].kind == Wildcard && selections[0].topLevel > 1
    case InvalidTarget => |selections| == 1 && Lone(selections[0], slash) && LiesAt(ins.dest, workdir, "/")
    case Rejected(CollidingRelative) => Collide(selections)
    case Rejected(FileOverDescendant) => |selections| == 1 && Lone(selections[0], slash) && LiesAt(ins.dest, workdir, "//")
    case Unreadable => SomeUnreadable(selections, files)
    case BadArchive => AddsArchive(ins, selections) && forall entries :: !AcceptedAs(Listing(files, selections[0].source), entries)
    case _ => false
  }

  ghost predicate SomeUnreadable(selections: seq<Selection>, files: ContextFiles) {
    exists k, x :: 0 <= k < |selections| && x in selections[k].entries && x.kind == File && files.open(x.source) == None
  }

  /** Two of the selected entries have one target, and it is not the destination itself. */
  ghost predicate Collide(selections: seq<Selection>) {
    exists k, i, l, j {:trigger selections[k].entries[i], selections[l].entries[j]} ::
      && 0 <= k < |selections| && 0 <= i < |selections[k].entries|
      && 0 <= l < |selections| && 0 <= j < |selections[l].entries|
      && (k, i) != (l, j)
      && !TargetsDiffer(selections[k].entries[i], selections[l].entries[j])
  }

  /** A preparation fails only for such a reason. */
  lemma FailureMeaning(m: Manifest, ins: CopyInstruction, workdir: string, files: ContextFiles, error: PlanError)
    requires ValidManifest(m) && IsAbsolute(workdir) && ins.srcs != [] && (|ins.srcs| > 1 ==> EndsInSlash(ins.dest))
    requires PreparesTo(m, ins, workdir, files, Failed(error))
    ensures FailsFor(m, ins, workdir, files, error)
  {
    DestinationMeaning(ins.dest, workdir);
    if CopyDestination(ins.dest, workdir).Some? {
      var dest := CopyDestination(ins.dest, workdir).value;
      var selected :| SourcesSelectTo(m, ins.srcs, selected) && Failed(error) == SelectedOutcome(selected, dest, ins, files);
      match selected
      case Refused(e) => UnselectedMeaning(m, ins.srcs, e);
      case Chosen(selections) =>
        SelectedNamed(m, ins.srcs, selections);
        ChosenValid(m, ins.srcs, selections);
        ChosenFails(m, ins, workdir, files, selections, error);
    }
  }

  lemma UnselectedMeaning(m: Manifest, srcs: seq<string>, e: SelectError)
    requires ValidManifest(m) && SourcesSelectTo(m, srcs, Refused(e))
    ensures exists k :: 0 <= k < |srcs| && FirstUnselected(m, srcs, k, e)
  {
    var k :| 0 <= k < |srcs| && FirstRefused(m, srcs, k, e);
    RefusedExactly(m, srcs[k], e);
    forall j | 0 <= j < k ensures Selectable(m, srcs[j]) {
      DenotedSelectable(m, srcs[j]);
    }
    assert FirstUnselected(m, srcs, k, e);
  }

  lemma DenotedSelectable(m: Manifest, source: string)
    requires ValidManifest(m) && Denoted(m, source)
    ensures Selectable(m, source)
  {
    var s :| Denotes(m, source, s);
    DenotedHolds(m, source, s);
  }

  lemma ChosenFails(m: Manifest, ins: CopyInstruction, workdir: string, files: ContextFiles, selections: seq<Selection>, error: PlanError)
    requires NamedBy(m, ins.srcs, selections) && CopyDestination(ins.dest, workdir).Some?
    requires LiesAt(ins.dest, workdir, CopyDestination(ins.dest, workdir).value)
    requires forall k :: 0 <= k < |selections| ==> ValidSelection(m, selections[k])
    requires selections != [] && (|selections| > 1 ==> EndsInSlash(ins.dest))
    requires SelectedOutcome(Chosen(selections), CopyDestination(ins.dest, workdir).value, ins, files) == Failed(error)
    ensures FailsOn(ins, workdir, files, selections, error)
  {
    var dest, slash := CopyDestination(ins.dest, workdir).value, EndsInSlash(ins.dest);
    var lead, ds := DestinationCanonical(ins.dest, workdir);
    if FirstError(selections, dest, slash).Some? {
      LayoutFails(m, selections, lead, ds, slash);
    } else {
      PlanOfSelections(m, selections, lead, ds, slash);
      SomethingPlanned(m, selections, dest, slash);
      FailedPlan(PlanAll(selections, dest, slash), dest, ExtractsArchive(ins, selections), files, error);
      PlanFails(m, ins, selections, lead, ds, files, error);
      if |selections| == 1 { LoneExactly(m, selections[0], slash); }
    }
  }

  /** What is wrong before there is a plan. */
  lemma LayoutFails(m: Manifest, selections: seq<Selection>, lead: string, ds: seq<string>, slash: bool)
    requires Lead(lead) && CleanParts(ds) && (|selections| > 1 ==> slash)
    requires forall k :: 0 <= k < |selections| ==> ValidSelection(m, selections[k])
    requires FirstError(selections, Abs(lead, ds), slash).Some?
    ensures |selections| == 1 && !slash
    ensures var e, s := FirstError(selections, Abs(lead, ds), slash).value, selections[0];
            || (e == NeedsDirectory && s.kind == Wildcard && s.topLevel > 1)
            || (e == InvalidTarget && Lone(s, slash) && Abs(lead, ds) == "/")
  {
    var i := ErrorAt(selections, Abs(lead, ds), slash);
    var s := selections[i];
    if !(s.kind == Wildcard && s.topLevel > 1 && !slash) {
      TargetsAcceptedExactly(m, s, lead, ds, slash);
      LoneExactly(m, s, slash);
    }
    assert !slash;
  }

  lemma {:induction false} ErrorAt(selections: seq<Selection>, dest: string, slash: bool) returns (i: nat)
    requires FirstError(selections, dest, slash).Some?
    ensures i < |selections| && SelectionError(selections[i], dest, slash) == FirstError(selections, dest, slash)
  {
    if SelectionError(selections[0], dest, slash).Some? {
      i := 0;
    } else {
      i := ErrorAt(selections[1..], dest, slash);
      i := i + 1;
    }
  }

  /** What is wrong with the plan. */
  lemma PlanFails(m: Manifest, ins: CopyInstruction, selections: seq<Selection>, lead: string, ds: seq<string>,
                  files: ContextFiles, error: PlanError)
    requires NamedBy(m, ins.srcs, selections)
    requires Lead(lead) && CleanParts(ds)
    requires LaidOut(PlanAll(selections, Abs(lead, ds), EndsInSlash(ins.dest)), lead, ds)
    requires PlanFault(PlanAll(selections, Abs(lead, ds), EndsInSlash(ins.dest)), ExtractsArchive(ins, selections), files, error)
    ensures PlanFailsOn(ins, files, selections, lead, ds, error)
  {
    var dest, slash := Abs(lead, ds), EndsInSlash(ins.dest);
    var plans := PlanAll(selections, dest, slash);
    if error == Rejected(CollidingRelative) {
      PlansCollide(selections, dest, slash);
    } else if error == Rejected(FileOverDescendant) {
      OntoSlashes(plans, lead, ds);
    } else if error == Unreadable {
      UnreadableEntry(selections, dest, slash, files);
    } else {
      ArchiveFails(m, ins, selections, dest, slash, files);
    }
  }

  lemma OntoSlashes(plans: seq<Planned>, lead: string, ds: seq<string>)
    requires Lead(lead) && CleanParts(ds) && LaidOut(plans, lead, ds)
    requires Pairwise(plans, RelativeDiffer) && FileAbove(plans)
    ensures Abs(lead, ds) == "//" && !DirectoryPlan(plans, lead, ds)
  {
    LaterChecksNeverFire(plans, lead, ds);
  }

  lemma ArchiveFails(m: Manifest, ins: CopyInstruction, selections: seq<Selection>, dest: string, slash: bool, files: ContextFiles)
    requires NamedBy(m, ins.srcs, selections) && ExtractsArchive(ins, selections)
    requires var staged := StageAll(PlanAll(selections, dest, slash), files.open);
             forall entries :: !AcceptedAs(ArchiveListing(staged, files), entries)
    ensures AddsArchive(ins, selections) && forall entries :: !AcceptedAs(Listing(files, selections[0].source), entries)
  {
    ArchiveNamed(m, ins, selections, dest, slash, files);
  }

  /** Which of its checks a plan fails. */
  ghost predicate PlanFault(plans: seq<Planned>, extract: bool, files: ContextFiles, error: PlanError) {
    match error
    case Rejected(CollidingRelative) => !Pairwise(plans, RelativeDiffer)
    case Rejected(FileOverDescendant) => Pairwise(plans, RelativeDiffer) && FileAbove(plans)
    case Unreadable => !Readable(plans, files.open)
    case BadArchive => extract && forall entries :: !AcceptedAs(ArchiveListing(StageAll(plans, files.open), files), entries)
    case _ => false
  }

  lemma FailedPlan(plans: seq<Planned>, dest: string, extract: bool, files: ContextFiles, error: PlanError)
    requires plans != [] && PlanOutcome(plans, dest, extract, files) == Failed(error)
    ensures PlanFault(plans, extract, files, error)
  {
  }

  /** The failure of a plan for the selections, laid out below the destination. */
  ghost predicate PlanFailsOn(ins: CopyInstruction, files: ContextFiles, selections: seq<Selection>, lead: string,
                              ds: seq<string>, error: PlanError)
  {
    match error
    case Rejected(CollidingRelative) => Collide(selections)
    case Rejected(FileOverDescendant) =>
      Abs(lead, ds) == "//" && !DirectoryPlan(PlanAll(selections, Abs(lead, ds), EndsInSlash(ins.dest)), lead, ds)
    case Unreadable => SomeUnreadable(selections, files)
    case BadArchive => AddsArchive(ins, selections) && forall entries :: !AcceptedAs(Listing(files, selections[0].source), entries)
    case _ => false
  }

  lemma SomethingPlanned(m: Manifest, selections: seq<Selection>, dest: string, slash: bool)
    requires selections != [] && forall k :: 0 <= k < |selections| ==> ValidSelection(m, selections[k])
    ensures PlanAll(selections, dest, slash) != []
  {
    assert selections[|selections| - 1].entries != [];
  }

  lemma UnreadableEntry(selections: seq<Selection>, dest: string, slash: bool, files: ContextFiles)
    requires !Readable(PlanAll(selections, dest, slash), files.open)
    ensures SomeUnreadable(selections, files)
  {
    var plans := PlanAll(selections, dest, slash);
    var p :| p in plans && p.kind == File && files.open(p.source) == None;
    var k, x := PlanAllMember(selections, dest, slash, p);
  }

  /** Where a plan comes from, by position. */
  lemma {:induction false} PlanAllAt(selections: seq<Selection>, dest: string, slash: bool, n: nat) returns (k: nat, i: nat)
    requires n < |PlanAll(selections, dest, slash)|
    ensures k < |selections| && i < |selections[k].entries|
    ensures PlanAll(selections, dest, slash)[n] == PlanOne(selections[k].entries[i], dest, DirectoryTarget(selections[k], slash))
    ensures n == |PlanAll(selections[..k], dest, slash)| + i
  {
    var last := |selections| - 1;
    var front := PlanAll(selections[..last], dest, slash);
    if n < |front| {
      k, i := PlanAllAt(selections[..last], dest, slash, n);
      assert selections[..last][..k] == selections[..k];
    } else {
      k, i := last, n - |front|;
    }
  }

  lemma PlansCollide(selections: seq<Selection>, dest: string, slash: bool)
    requires !Pairwise(PlanAll(selections, dest, slash), RelativeDiffer)
    ensures Collide(selections)
  {
    var plans := PlanAll(selections, dest, slash);
    var a, b :| 0 <= a < b < |plans| && !RelativeDiffer(plans[a], plans[b]);
    var k, i := PlanAllAt(selections, dest, slash, a);
    var l, j := PlanAllAt(selections, dest, slash, b);
    assert !TargetsDiffer(selections[k].entries[i], selections[l].entries[j]);
  }

  // ---------------------------------------------------------------------
  // Endless preparations
  // ---------------------------------------------------------------------

  /** The sources can be laid out side by side at a place with two leading slashes, and it
      is not a lone file onto `//` itself. */
  ghost predicate HangsFor(m: Manifest, ins: CopyInstruction, workdir: string) {
    exists selections, place ::
      && NamedBy(m, ins.srcs, selections) && !Collide(selections)
      && LiesAt(ins.dest, workdir, place) && TwoLeading(place)
      && !(place == "//" && |selections| == 1 && Lone(selections[0], EndsInSlash(ins.dest)))
  }

  lemma EndlessMeaning(m: Manifest, ins: CopyInstruction, workdir: string)
    requires ValidManifest(m) && IsAbsolute(workdir) && EndlessCopy(m, ins, workdir)
    ensures HangsFor(m, ins, workdir)
  {
    var dest, slash := CopyDestination(ins.dest, workdir).value, EndsInSlash(ins.dest);
    var selections :| LaysOut(m, ins, dest, selections) && (dest == "//" ==> !LoneFile(selections, slash));
    SelectedNamed(m, ins.srcs, selections);
    ChosenValid(m, ins.srcs, selections);
    DestinationMeaning(ins.dest, workdir);
    var lead, ds := DestinationCanonical(ins.dest, workdir);
    SingleOrDouble(lead, ds);
    JoinStart(ds);
    if Collide(selections) { CollisionPlanned(selections, dest, slash); }
    if |selections| == 1 { LoneExactly(m, selections[0], slash); }
    assert TwoLeading(dest);
  }

  /** Entries in collision give plans in collision. */
  lemma CollisionPlanned(selections: seq<Selection>, dest: string, slash: bool)
    requires Collide(selections)
    ensures !Pairwise(PlanAll(selections, dest, slash), RelativeDiffer)
  {
    var k, i, l, j :| 0 <= k < |selections| && 0 <= i < |selections[k].entries|
                      && 0 <= l < |selections| && 0 <= j < |selections[l].entries|
                      && (k, i) != (l, j)
                      && !TargetsDiffer(selections[k].entries[i], selections[l].entries[j]);
    var a := PositionOf(selections, dest, slash, k, i);
    var b := PositionOf(selections, dest, slash, l, j);
    if a == b { SamePosition(selections, dest, slash, k, i, l, j); }
    var plans := PlanAll(selections, dest, slash);
    assert !RelativeDiffer(plans[a], plans[b]) && !RelativeDiffer(plans[b], plans[a]);
  }

  lemma {:induction false} PositionOf(selections: seq<Selection>, dest: string, slash: bool, k: nat, i: nat) returns (n: nat)
    requires k < |selections| && i < |selections[k].entries|
    ensures n == |PlanAll(selections[..k], dest, slash)| + i && n < |PlanAll(selections, dest, slash)|
    ensures PlanAll(selections, dest, slash)[n] == PlanOne(selections[k].entries[i], dest, DirectoryTarget(selections[k], slash))
  {
    var last := |selections| - 1;
    if k < last {
      assert selections[..last][..k] == selections[..k];
      n := PositionOf(selections[..last], dest, slash, k, i);
    } else {
      n := |PlanAll(selections[..k], dest, slash)| + i;
    }
  }

  lemma SamePosition(selections: seq<Selection>, dest: string, slash: bool, k: nat, i: nat, l: nat, j: nat)
    requires k < |selections| && i < |selections[k].entries| && l < |selections| && j < |selections[l].entries|
    requires |PlanAll(selections[..k], dest, slash)| + i == |PlanAll(selections[..l], dest, slash)| + j
    ensures k == l && i == j
  {
    if k < l {
      EarlierPositions(selections, dest, slash, k, l);
    } else if l < k {
      EarlierPositions(selections, dest, slash, l, k);
    }
  }

  lemma {:induction false} EarlierPositions(selections: seq<Selection>, dest: string, slash: bool, k: nat, l: nat)
    requires k < l <= |selections|
    ensures |PlanAll(selections[..k], dest, slash)| + |selections[k].entries| <= |PlanAll(selections[..l], dest, slash)|
    decreases l
  {
    PlanAllNext(selections, l - 1, dest, slash);
    if k < l - 1 { EarlierPositions(selections, dest, slash, k, l - 1); }
  }
}
