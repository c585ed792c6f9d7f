/** What the preparation of one COPY or ADD instruction comes to: selection of its sources,
    layout, checks and staging, with the exact condition of every outcome. */
module CopyOutcome {
  import opened Options
  import opened Paths
  import opened AbsolutePaths
  import opened Sequences
  import opened ContextEntries
  import opened Selection
  import opened WildcardSelection
  import opened CopyPlan
  import opened TarEntries

  // ---------------------------------------------------------------------
  // prepare_copy
  // ---------------------------------------------------------------------

  datatype PrepareOutcome =
    | Prepared(dest: string, plans: seq<Planned>, archive: Option<seq<TarEntry>>)
    | Failed(error: PlanError)
    | Hangs

  /** The context as the preparation reads it: the bytes of its files, and what the
      archive library lists in some bytes. */
  datatype ContextFiles = ContextFiles(open: string -> Option<Content>, list: Content -> Option<seq<Member>>)

  /** The destination keeps two leading slashes. */
  predicate TwoSlashes(dest: string) {
    |dest| >= 2 && dest[..2] == "//"
  }

  function Stage(p: Planned, open: string -> Option<Content>): Planned {
    if p.kind == Directory then p else p.(staged := open(p.source))
  }

  function StageAll(plans: seq<Planned>, open: string -> Option<Content>): (r: seq<Planned>)
    ensures |r| == |plans| && forall i :: 0 <= i < |r| ==> r[i] == Stage(plans[i], open)
  {
    seq(|plans|, i requires 0 <= i < |plans| => Stage(plans[i], open))
  }

  ghost predicate Readable(plans: seq<Planned>, open: string -> Option<Content>) {
    forall p :: p in plans && p.kind == File ==> open(p.source).Some?
  }

  // ---------------------------------------------------------------------
  // Sources
  // ---------------------------------------------------------------------

  ghost predicate Denoted(m: Manifest, source: string) {
    exists s :: Denotes(m, source, s)
  }

  /** Each source with what it selects, or the first source that selects nothing. */
  ghost predicate SourcesSelectTo(m: Manifest, srcs: seq<string>, r: Outcome<seq<Selection>>) {
    match r
    case Chosen(selections) => SelectsAll(m, srcs, selections)
    case Refused(e) => exists k :: 0 <= k < |srcs| && FirstRefused(m, srcs, k, e)
  }

  ghost predicate SelectsAll(m: Manifest, srcs: seq<string>, selections: seq<Selection>) {
    && |selections| == |srcs|
    && forall k :: 0 <= k < |srcs| ==> Denotes(m, srcs[k], selections[k])
  }

  ghost predicate FirstRefused(m: Manifest, srcs: seq<string>, k: nat, e: SelectError)
    requires k < |srcs|
  {
    SelectsTo(m, srcs[k], Refused(e)) && forall j :: 0 <= j < k ==> Denoted(m, srcs[j])
  }

  lemma SourcesSelectOnce(m: Manifest, srcs: seq<string>, r: Outcome<seq<Selection>>, q: Outcome<seq<Selection>>)
    requires SourcesSelectTo(m, srcs, r) && SourcesSelectTo(m, srcs, q)
    ensures r == q
  {
    if r.Chosen? && q.Chosen? {
      forall k | 0 <= k < |srcs| ensures r.value[k] == q.value[k] {
        SelectsOnce(m, srcs[k], Chosen(r.value[k]), Chosen(q.value[k]));
      }
      assert r.value == q.value;
    } else if r.Refused? && q.Refused? {
      var k :| 0 <= k < |srcs| && FirstRefused(m, srcs, k, r.error);
      var l :| 0 <= l < |srcs| && FirstRefused(m, srcs, l, q.error);
      RefusedBefore(m, srcs, k, r.error, l);
      RefusedBefore(m, srcs, l, q.error, k);
      SelectsOnce(m, srcs[k], Refused(r.error), Refused(q.error));
    } else if r.Refused? {
      RefusedNotAll(m, srcs, r.error, q.value);
    } else {
      RefusedNotAll(m, srcs, q.error, r.value);
    }
  }

  lemma RefusedBefore(m: Manifest, srcs: seq<string>, k: nat, e: SelectError, l: nat)
    requires k < |srcs| && FirstRefused(m, srcs, k, e)
    ensures k < l ==> !Denoted(m, srcs[k])
  {
    if Denoted(m, srcs[k]) {
      var s :| Denotes(m, srcs[k], s);
      SelectsOnce(m, srcs[k], Chosen(s), Refused(e));
    }
  }

  lemma RefusedNotAll(m: Manifest, srcs: seq<string>, e: SelectError, selections: seq<Selection>)
    requires SourcesSelectTo(m, srcs, Refused(e))
    ensures !SelectsAll(m, srcs, selections)
  {
    if SelectsAll(m, srcs, selections) {
      var k :| 0 <= k < |srcs| && FirstRefused(m, srcs, k, e);
      SelectsOnce(m, srcs[k], Chosen(selections[k]), Refused(e));
    }
  }

  // ---------------------------------------------------------------------
  // Targets
  // ---------------------------------------------------------------------

  ghost predicate TargetsAccepted(selection: Selection, dest: string, slash: bool) {
    forall s :: s in selection.entries ==> EntryAccepted(s, dest, DirectoryTarget(selection, slash))
  }

  /** The destination itself, or a target that is accepted. */
  predicate EntryAccepted(s: Selected, dest: string, directory: bool) {
    s.IsMarker() || TargetAccepted(dest, s.target, directory)
  }

  /** What is wrong with laying a selection out at the destination. */
  ghost function SelectionError(selection: Selection, dest: string, slash: bool): Option<PlanError> {
    if selection.kind == Wildcard && selection.topLevel > 1 && !slash then Some(NeedsDirectory)
    else if TargetsAccepted(selection, dest, slash) then None
    else Some(InvalidTarget)
  }

  ghost function FirstError(selections: seq<Selection>, dest: string, slash: bool): Option<PlanError> {
    if selections == [] then None
    else
      var e := SelectionError(selections[0], dest, slash);
      if e.Some? then e else FirstError(selections[1..], dest, slash)
  }

  lemma {:induction false} FirstErrorAt(selections: seq<Selection>, dest: string, slash: bool, i: nat)
    requires i <= |selections|
    requires forall k :: 0 <= k < i ==> SelectionError(selections[k], dest, slash) == None
    ensures FirstError(selections, dest, slash) == FirstError(selections[i..], dest, slash)
  {
    if i > 0 {
      assert selections[1..][i - 1..] == selections[i..];
      FirstErrorAt(selections[1..], dest, slash, i - 1);
    } else {
      assert selections[0..] == selections;
    }
  }

  lemma {:induction false} NoError(selections: seq<Selection>, dest: string, slash: bool, k: nat)
    requires FirstError(selections, dest, slash) == None && k < |selections|
    ensures SelectionError(selections[k], dest, slash) == None
  {
    if k > 0 { NoError(selections[1..], dest, slash, k - 1); }
  }

  /** A target is refused only when a single file is put onto the root itself. */
  lemma TargetsAcceptedExactly(m: Manifest, selection: Selection, lead: string, ds: seq<string>, slash: bool)
    requires ValidSelection(m, selection) && Lead(lead) && CleanParts(ds)
    requires selection.kind == Wildcard ==> selection.topLevel <= 1 || slash
    ensures TargetsAccepted(selection, Abs(lead, ds), slash) <==>
            DirectoryTarget(selection, slash) || Abs(lead, ds) != "/"
  {
    if DirectoryTarget(selection, slash) {
      forall s | s in selection.entries ensures EntryAccepted(s, Abs(lead, ds), true) {
        if s.target != "" { TargetBelow(lead, ds, s.target); }
      }
    } else {
      SingleFilePlan(m, selection, Abs(lead, ds));
      assert selection.entries[0] in selection.entries;
      NormPathOfAbs(lead, ds);
      NoClimbing(lead, ds);
    }
  }

  lemma PlanAllNext(selections: seq<Selection>, i: nat, dest: string, slash: bool)
    requires i < |selections|
    ensures PlanAll(selections[..i + 1], dest, slash) ==
            PlanAll(selections[..i], dest, slash)
            + PlanEntries(selections[i].entries, dest, DirectoryTarget(selections[i], slash))
  {
    assert selections[..i + 1][..i] == selections[..i];
  }

  /** A single file copied to a destination that is not a directory. */
  lemma SingleFilePlan(m: Manifest, selection: Selection, dest: string)
    requires ValidSelection(m, selection)
    requires !DirectoryTarget(selection, false)
    requires selection.kind == Wildcard ==> selection.topLevel <= 1
    ensures |selection.entries| == 1 && selection.entries[0].kind == File && !selection.entries[0].IsMarker()
    ensures PlanAll([selection], dest, false) == PlanEntries(selection.entries, dest, false)
  {
    assert [selection][..0] == [];
    assert PlanAll([], dest, false) == [];
    assert selection.entries[0] in selection.entries;
  }

  /** The facts the checks rest on: canonical remote paths, and, for laid-out sources,
      the destination directory they are laid out below. */
  ghost predicate LaidOut(plans: seq<Planned>, lead: string, ds: seq<string>) {
    || DirectoryPlan(plans, lead, ds)
    || (|plans| == 1 && plans[0].kind == File && !plans[0].marker && plans[0].remote == Abs(lead, ds)
        && plans[0].remote != "/")
  }

  lemma PlansLaidOut(m: Manifest, selections: seq<Selection>, lead: string, ds: seq<string>, slash: bool)
    requires Lead(lead) && CleanParts(ds)
    requires |selections| > 1 ==> slash
    requires forall k :: 0 <= k < |selections| ==>
               ValidSelection(m, selections[k]) && SelectionError(selections[k], Abs(lead, ds), slash) == None
    ensures LaidOut(PlanAll(selections, Abs(lead, ds), slash), lead, ds)
  {
    var dest := Abs(lead, ds);
    if forall k :: 0 <= k < |selections| ==> DirectoryTarget(selections[k], slash) {
      PlanAllShape(m, selections, lead, ds, slash);
    } else {
      var s := selections[0];
      assert selections == [s];
      SingleFilePlan(m, s, dest);
      NormPathOfAbs(lead, ds);
      assert s.entries[0] in s.entries;
    }
  }

  lemma LaidOutCanonical(plans: seq<Planned>, lead: string, ds: seq<string>, p: Planned)
    requires Lead(lead) && CleanParts(ds) && LaidOut(plans, lead, ds) && p in plans
    ensures exists xs :: Canonical(p.remote, lead, xs)
    ensures WalkEnds(Dirname(p.remote)) <==> lead == "/"
    ensures p.marker ==> p.kind == Directory
    ensures lead == "/" && p.kind == File ==> p.remote != "/"
  {
    var xs: seq<string>;
    if DirectoryPlan(plans, lead, ds) {
      assert Below(p, lead, ds);
      PartsCanonical(p, lead, ds);
      xs := Parts(p, ds);
      if !p.marker { JoinStart(xs); }
    } else {
      xs := ds;
    }
    assert Canonical(p.remote, lead, xs);
    DirnameAbs(lead, xs);
    WalkEndsForOneSlash(lead, if xs == [] then [] else xs[..|xs| - 1]);
  }

  /** Once the relative targets are distinct the collision check cannot fail, and the
      ancestor check exactly when a single file is laid onto the path "//" itself. */
  lemma LaterChecksNeverFire(plans: seq<Planned>, lead: string, ds: seq<string>)
    requires Lead(lead) && CleanParts(ds) && LaidOut(plans, lead, ds)
    requires Pairwise(plans, RelativeDiffer)
    ensures Pairwise(plans, RemoteDiffer)
    ensures FileAbove(plans) <==> Abs(lead, ds) == "//" && !DirectoryPlan(plans, lead, ds)
  {
    if DirectoryPlan(plans, lead, ds) {
      RelativeImpliesRemote(plans, lead, ds);
      RelativeImpliesNoFileAbove(plans, lead, ds);
    } else {
      assert plans[0] in plans;
      if FileAbove(plans) {
        VisitedAbove(lead, ds, ds);
        JoinStart(ds);
      }
      if plans[0].remote == "//" {
        assert WalkVisits(Dirname(plans[0].remote), plans[0].remote);
      }
    }
  }

  /** All walks end, or none does. */
  lemma LaidOutWalks(plans: seq<Planned>, lead: string, ds: seq<string>)
    requires Lead(lead) && CleanParts(ds) && LaidOut(plans, lead, ds)
    ensures forall k :: 0 <= k < |plans| ==> (EndsAt(plans, k) <==> lead == "/")
    ensures forall p :: p in plans && p.marker ==> p.kind == Directory
  {
    forall p | p in plans ensures (p.marker ==> p.kind == Directory) && (WalkEnds(Dirname(p.remote)) <==> lead == "/") {
      LaidOutCanonical(plans, lead, ds, p);
    }
    forall k | 0 <= k < |plans| ensures EndsAt(plans, k) <==> lead == "/" {
      assert plans[k] in plans;
    }
  }

  /** So the check of a laid-out plan comes to one of five results. */
  lemma LaidOutChecks(plans: seq<Planned>, lead: string, ds: seq<string>)
    requires Lead(lead) && CleanParts(ds) && LaidOut(plans, lead, ds)
    requires plans != [] && Pairwise(plans, RelativeDiffer)
    ensures DistinctPlans(plans)
    ensures FileFirst(plans) <==> FileAbove(plans)
    ensures EndlessFirst(plans) <==> lead == "//" && !FileAbove(plans)
  {
    LaterChecksNeverFire(plans, lead, ds);
    LaidOutWalks(plans, lead, ds);
    FileAboveSomewhere(plans);
    if FileAbove(plans) {
      // Only the single file on "//": it is the first target.
      assert |plans| == 1;
      assert FileFoundAt(plans, 0);
    } else if lead == "//" {
      assert LostAt(plans, 0);
    }
  }

  lemma StagedExecutable(plans: seq<Planned>, open: string -> Option<Content>, lead: string, ds: seq<string>)
    requires lead == "/" && CleanParts(ds) && LaidOut(plans, lead, ds)
    requires plans != [] && Pairwise(plans, RemoteDiffer) && !FileAbove(plans) && Readable(plans, open)
    ensures ExecutablePlan(StageAll(plans, open))
  {
    var r := StageAll(plans, open);
    forall p | p in r ensures exists o :: o in plans && p == Stage(o, open) {
      var i :| 0 <= i < |r| && r[i] == p;
      assert plans[i] in plans;
    }
    forall i, j | 0 <= i < j < |r| ensures RemoteDiffer(r[i], r[j]) {
      assert RemoteDiffer(plans[i], plans[j]);
    }
    forall o | o in plans
      ensures exists xs :: Canonical(o.remote, "/", xs)
      ensures o.marker ==> o.kind == Directory
      ensures o.kind == File ==> o.remote != "/"
    {
      LaidOutCanonical(plans, lead, ds, o);
    }
  }

  lemma SingleOrDouble(lead: string, ds: seq<string>)
    requires Lead(lead) && CleanParts(ds)
    ensures TwoSlashes(Abs(lead, ds)) <==> lead == "//"
  {
    JoinStart(ds);
    var p := Abs(lead, ds);
    if lead == "/" {
      assert |p| >= 2 ==> p[..2][1] == Join(ds)[0];
    } else {
      assert p[..2] == "//";
    }
  }

  // ---------------------------------------------------------------------
  // The outcome
  // ---------------------------------------------------------------------

  /** What becomes of the plan of the selected entries. The tests for several paths and
      for colliding destinations have no place in it. */
  ghost function PlanOutcome(plans: seq<Planned>, dest: string, extract: bool, files: ContextFiles): PrepareOutcome {
    if plans == [] then Failed(Rejected(NoFiles))
    else if !Pairwise(plans, RelativeDiffer) then Failed(Rejected(CollidingRelative))
    else if FileAbove(plans) then Failed(Rejected(FileOverDescendant))
    else if TwoSlashes(dest) then Hangs
    else if !Readable(plans, files.open) then Failed(Unreadable)
    else
      var staged := StageAll(plans, files.open);
      if !extract then Prepared(dest, staged, None)
      else ArchiveOutcome(dest, staged, files)
  }

  /** The staged archive is listed and validated. */
  ghost function ArchiveOutcome(dest: string, staged: seq<Planned>, files: ContextFiles): PrepareOutcome {
    if exists entries :: AcceptedAs(ArchiveListing(staged, files), entries) then
      var entries :| AcceptedAs(ArchiveListing(staged, files), entries);
      Prepared(dest, staged, Some(entries))
    else Failed(BadArchive)
  }

  function ArchiveListing(staged: seq<Planned>, files: ContextFiles): Option<seq<Member>> {
    if staged != [] && staged[0].staged.Some? then files.list(staged[0].staged.value) else None
  }

  /** An ADD of one literal file with the name of an archive. */
  predicate ExtractsArchive(ins: CopyInstruction, selections: seq<Selection>) {
    && ins.isAdd && |ins.srcs| == 1 && |selections| == 1
    && selections[0].kind == LiteralFile && |selections[0].entries| == 1
    && HasTarSuffix(selections[0].entries[0].source)
  }

  ghost function SelectedOutcome(selected: Outcome<seq<Selection>>, dest: string, ins: CopyInstruction,
                                 files: ContextFiles): PrepareOutcome
  {
    match selected
    case Refused(e) => Failed(CannotSelect(e))
    case Chosen(selections) =>
      var slash := EndsInSlash(ins.dest);
      match FirstError(selections, dest, slash)
      case Some(e) => Failed(e)
      case None => PlanOutcome(PlanAll(selections, dest, slash), dest, ExtractsArchive(ins, selections), files)
  }

  /** What becomes of the instruction. */
  ghost predicate PreparesTo(m: Manifest, ins: CopyInstruction, workdir: string, files: ContextFiles,
                             r: PrepareOutcome)
  {
    var destination := CopyDestination(ins.dest, workdir);
    if destination == None then r == Failed(InvalidDestination)
    else exists selected ::
           && SourcesSelectTo(m, ins.srcs, selected)
           && r == SelectedOutcome(selected, destination.value, ins, files)
  }

  /** The manifest, the instruction, the working directory and the readable files
      determine the outcome. */
  lemma PreparesOnce(m: Manifest, ins: CopyInstruction, workdir: string, files: ContextFiles,
                     r: PrepareOutcome, q: PrepareOutcome)
    requires PreparesTo(m, ins, workdir, files, r) && PreparesTo(m, ins, workdir, files, q)
    ensures r == q
  {
    var destination := CopyDestination(ins.dest, workdir);
    if destination.Some? {
      var dest := destination.value;
      var a :| SourcesSelectTo(m, ins.srcs, a) && r == SelectedOutcome(a, dest, ins, files);
      var b :| SourcesSelectTo(m, ins.srcs, b) && q == SelectedOutcome(b, dest, ins, files);
      SourcesSelectOnce(m, ins.srcs, a, b);
    }
  }

  /** The sources are selected and can be laid out below the destination. */
  ghost predicate LaysOut(m: Manifest, ins: CopyInstruction, dest: string, selections: seq<Selection>) {
    && SelectsAll(m, ins.srcs, selections)
    && FirstError(selections, dest, EndsInSlash(ins.dest)) == None
    && var plans := PlanAll(selections, dest, EndsInSlash(ins.dest));
       plans != [] && Pairwise(plans, RelativeDiffer)
  }

  /** A single source that is a file, at a destination that is not a directory. */
  ghost predicate LoneFile(selections: seq<Selection>, slash: bool) {
    |selections| == 1 && !DirectoryTarget(selections[0], slash)
  }

  /** Two leading slashes are kept, nothing is wrong with the sources, and it is not a
      lone file onto "//". */
  ghost predicate EndlessCopy(m: Manifest, ins: CopyInstruction, workdir: string) {
    && CopyDestination(ins.dest, workdir).Some?
    && var dest := CopyDestination(ins.dest, workdir).value;
       TwoSlashes(dest) && exists selections ::
         LaysOut(m, ins, dest, selections) && (dest == "//" ==> !LoneFile(selections, EndsInSlash(ins.dest)))
  }

  /** A lone file onto "//". */
  ghost predicate OntoDoubleSlash(m: Manifest, ins: CopyInstruction, workdir: string) {
    && CopyDestination(ins.dest, workdir) == Some("//")
    && exists selections :: LaysOut(m, ins, "//", selections) && LoneFile(selections, EndsInSlash(ins.dest))
  }

  lemma PlanOfSelections(m: Manifest, selections: seq<Selection>, lead: string, ds: seq<string>, slash: bool)
    requires Lead(lead) && CleanParts(ds) && (|selections| > 1 ==> slash)
    requires forall k :: 0 <= k < |selections| ==> ValidSelection(m, selections[k])
    requires FirstError(selections, Abs(lead, ds), slash) == None
    ensures var plans := PlanAll(selections, Abs(lead, ds), slash);
            && LaidOut(plans, lead, ds)
            && (LoneFile(selections, slash) <==> plans != [] && !DirectoryPlan(plans, lead, ds))
  {
    var dest := Abs(lead, ds);
    forall k | 0 <= k < |selections| ensures SelectionError(selections[k], dest, slash) == None {
      NoError(selections, dest, slash, k);
    }
    PlansLaidOut(m, selections, lead, ds, slash);
    if LoneFile(selections, slash) {
      LoneFilePlan(m, selections[0], lead, ds);
      assert selections == [selections[0]];
    } else {
      PlanAllShape(m, selections, lead, ds, slash);
    }
  }

  lemma LoneFilePlan(m: Manifest, selection: Selection, lead: string, ds: seq<string>)
    requires Lead(lead) && CleanParts(ds) && ValidSelection(m, selection) && !DirectoryTarget(selection, false)
    requires selection.kind == Wildcard ==> selection.topLevel <= 1
    ensures var plans := PlanAll([selection], Abs(lead, ds), false);
            plans != [] && !DirectoryPlan(plans, lead, ds)
  {
    var dest := Abs(lead, ds);
    SingleFilePlan(m, selection, dest);
    NormPathOfAbs(lead, ds);
    var p := PlanAll([selection], dest, false)[0];
    assert p in PlanAll([selection], dest, false) && p.remote == dest;
    if Below(p, lead, ds) {
      TargetBelow(lead, ds, p.target);
      AbsInjective(lead, ds, ds + Split(p.target));
    }
  }

  /** The outcome of a plan, laid out below a destination in normal form. */
  lemma PlanOutcomes(m: Manifest, selections: seq<Selection>, lead: string, ds: seq<string>, slash: bool,
                     extract: bool, files: ContextFiles)
    requires Lead(lead) && CleanParts(ds) && (|selections| > 1 ==> slash)
    requires forall k :: 0 <= k < |selections| ==> ValidSelection(m, selections[k])
    requires FirstError(selections, Abs(lead, ds), slash) == None
    ensures var dest := Abs(lead, ds);
            var plans := PlanAll(selections, dest, slash);
            var r := PlanOutcome(plans, dest, extract, files);
            && (r.Hangs? <==>
                plans != [] && Pairwise(plans, RelativeDiffer) && TwoSlashes(dest)
                && (dest == "//" ==> !LoneFile(selections, slash)))
            && (r == Failed(Rejected(FileOverDescendant)) <==>
                plans != [] && Pairwise(plans, RelativeDiffer) && dest == "//" && LoneFile(selections, slash))
            && (r.Prepared? ==> ExecutablePlan(r.plans))
  {
    var plans := PlanAll(selections, Abs(lead, ds), slash);
    PlanOfSelections(m, selections, lead, ds, slash);
    SingleOrDouble(lead, ds);
    if plans != [] && Pairwise(plans, RelativeDiffer) {
      LaterChecksNeverFire(plans, lead, ds);
      if lead == "/" && !FileAbove(plans) && Readable(plans, files.open) {
        StagedExecutable(plans, files.open, lead, ds);
      }
    }
  }

  /** Exactly when the preparation does not return, exactly when it rejects a file above
      another target, and what an accepted plan guarantees. */
  lemma OutcomeExactly(m: Manifest, ins: CopyInstruction, workdir: string, files: ContextFiles, r: PrepareOutcome)
    requires ValidManifest(m) && (|ins.srcs| > 1 ==> EndsInSlash(ins.dest))
    requires PreparesTo(m, ins, workdir, files, r)
    ensures r.Hangs? <==> EndlessCopy(m, ins, workdir)
    ensures r == Failed(Rejected(FileOverDescendant)) <==> OntoDoubleSlash(m, ins, workdir)
    ensures r.Prepared? ==> ExecutablePlan(r.plans)
  {
    var destination := CopyDestination(ins.dest, workdir);
    if destination.Some? {
      var dest := destination.value;
      var selected :| SourcesSelectTo(m, ins.srcs, selected) && r == SelectedOutcome(selected, dest, ins, files);
      match selected
      case Refused(e) => NothingLaysOut(m, ins, dest, e);
      case Chosen(selections) => ChosenExactly(m, ins, workdir, files, selections);
    }
  }

  lemma NothingLaysOut(m: Manifest, ins: CopyInstruction, dest: string, e: SelectError)
    requires SourcesSelectTo(m, ins.srcs, Refused(e))
    ensures forall selections :: !LaysOut(m, ins, dest, selections)
  {
    forall selections ensures !LaysOut(m, ins, dest, selections) {
      RefusedNotAll(m, ins.srcs, e, selections);
    }
  }

  lemma OnlyTheseLayOut(m: Manifest, ins: CopyInstruction, dest: string, chosen: seq<Selection>)
    requires SelectsAll(m, ins.srcs, chosen)
    ensures forall selections :: LaysOut(m, ins, dest, selections) ==> selections == chosen
  {
    forall selections | LaysOut(m, ins, dest, selections) ensures selections == chosen {
      SourcesSelectOnce(m, ins.srcs, Chosen(chosen), Chosen(selections));
    }
  }

  lemma ChosenExactly(m: Manifest, ins: CopyInstruction, workdir: string, files: ContextFiles,
                      chosen: seq<Selection>)
    requires ValidManifest(m) && (|ins.srcs| > 1 ==> EndsInSlash(ins.dest))
    requires CopyDestination(ins.dest, workdir).Some? && SelectsAll(m, ins.srcs, chosen)
    ensures var r := SelectedOutcome(Chosen(chosen), CopyDestination(ins.dest, workdir).value, ins, files);
            && (r.Hangs? <==> EndlessCopy(m, ins, workdir))
            && (r == Failed(Rejected(FileOverDescendant)) <==> OntoDoubleSlash(m, ins, workdir))
            && (r.Prepared? ==> ExecutablePlan(r.plans))
  {
    var dest, slash := CopyDestination(ins.dest, workdir).value, EndsInSlash(ins.dest);
    ConditionsOfChosen(m, ins, workdir, chosen);
    if FirstError(chosen, dest, slash) == None {
      ChosenValid(m, ins.srcs, chosen);
      var lead, ds := DestinationCanonical(ins.dest, workdir);
      PlanOutcomes(m, chosen, lead, ds, slash, ExtractsArchive(ins, chosen), files);
    } else {
      FirstErrorKinds(chosen, dest, slash);
    }
  }

  lemma ChosenValid(m: Manifest, srcs: seq<string>, chosen: seq<Selection>)
    requires ValidManifest(m) && SelectsAll(m, srcs, chosen)
    ensures forall k :: 0 <= k < |chosen| ==> ValidSelection(m, chosen[k])
  {
    forall k | 0 <= k < |chosen| ensures ValidSelection(m, chosen[k]) {
      DenotedValid(m, srcs[k], chosen[k]);
    }
  }

  /** The conditions speak of the one list of selections there is. */
  lemma ConditionsOfChosen(m: Manifest, ins: CopyInstruction, workdir: string, chosen: seq<Selection>)
    requires CopyDestination(ins.dest, workdir).Some? && SelectsAll(m, ins.srcs, chosen)
    ensures var dest, slash := CopyDestination(ins.dest, workdir).value, EndsInSlash(ins.dest);
            && (EndlessCopy(m, ins, workdir) <==>
                TwoSlashes(dest) && LaysOut(m, ins, dest, chosen) && (dest == "//" ==> !LoneFile(chosen, slash)))
            && (OntoDoubleSlash(m, ins, workdir) <==>
                dest == "//" && LaysOut(m, ins, dest, chosen) && LoneFile(chosen, slash))
  {
    OnlyTheseLayOut(m, ins, CopyDestination(ins.dest, workdir).value, chosen);
  }

  lemma {:induction false} FirstErrorKinds(selections: seq<Selection>, dest: string, slash: bool)
    ensures FirstError(selections, dest, slash) in {None, Some(NeedsDirectory), Some(InvalidTarget)}
  {
    if selections != [] { FirstErrorKinds(selections[1..], dest, slash); }
  }

  lemma ArchiveDetermined(dest: string, staged: seq<Planned>, files: ContextFiles, entries: seq<TarEntry>)
    requires AcceptedAs(ArchiveListing(staged, files), entries)
    ensures ArchiveOutcome(dest, staged, files) == Prepared(dest, staged, Some(entries))
  {
    AcceptedOnce(ArchiveListing(staged, files), entries, ArchiveOutcome(dest, staged, files).archive.value);
  }
}
