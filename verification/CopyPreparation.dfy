/** The preparation of one COPY or ADD instruction, step by step. */
module CopyPreparation {
  import opened Options
  import opened AbsolutePaths
  import opened Sequences
  import opened ContextEntries
  import opened Selection
  import opened WildcardSelection
  import opened CopyPlan
  import opened TarEntries
  import opened CopyOutcome
  import opened CopyMeaning

  method Materialize(plans: seq<Planned>, open: string -> Option<Content>) returns (ok: bool, staged: seq<Planned>)
    ensures ok <==> Readable(plans, open)
    ensures ok ==> staged == StageAll(plans, open)
  {
    staged := [];
    for i := 0 to |plans|
      invariant |staged| == i && forall k :: 0 <= k < i ==> staged[k] == Stage(plans[k], open)
      invariant forall k :: 0 <= k < i && plans[k].kind == File ==> open(plans[k].source).Some?
    {
      var plan := plans[i];
      if plan.kind == Directory {
        staged := staged + [plan];
        continue;
      }
      var content := open(plan.source);
      assert plan in plans;
      if content == None {
        return false, staged;
      }
      staged := staged + [plan.(staged := content)];
    }
    ok := true;
  }

  method SelectSources(m: Manifest, srcs: seq<string>) returns (r: Outcome<seq<Selection>>)
    requires ValidManifest(m)
    ensures SourcesSelectTo(m, srcs, r)
    ensures r.Refused? ==> r.error != DuplicateSources
  {
    var selections: seq<Selection> := [];
    for i := 0 to |srcs|
      invariant |selections| == i && forall k :: 0 <= k < i ==> Denotes(m, srcs[k], selections[k])
    {
      var outcome := Select(m, srcs[i]);
      if outcome.Refused? {
        assert FirstRefused(m, srcs, i, outcome.error) by {
          forall j | 0 <= j < i ensures Denoted(m, srcs[j]) { assert Denotes(m, srcs[j], selections[j]); }
        }
        return Refused(outcome.error);
      }
      selections := selections + [outcome.value];
    }
    r := Chosen(selections);
  }

  /** The planning of one selection. The test for several paths without a directory
      destination cannot fail for a valid selection. */
  method PlanSelection(m: Manifest, selection: Selection, dest: string, slash: bool)
      returns (error: Option<PlanError>, part: seq<Planned>)
    requires ValidSelection(m, selection)
    ensures error == SelectionError(selection, dest, slash)
    ensures error == None ==> part == PlanEntries(selection.entries, dest, DirectoryTarget(selection, slash))
  {
    part := [];
    if selection.kind == Wildcard && selection.topLevel > 1 && !slash {
      return Some(NeedsDirectory), part;
    }
    var directory := DirectoryTarget(selection, slash);
    var mustUseDirectory := selection.HasDirectories() || |selection.entries| > 1;
    if mustUseDirectory && !slash && !directory {
      return Some(MultiplePaths), part;
    }
    var usable;
    usable, part := PlanTargets(selection.entries, dest, directory);
    error := if usable then None else Some(InvalidTarget);
  }

  /** The planning loop over the entries of one selection. */
  method PlanTargets(entries: seq<Selected>, dest: string, directory: bool) returns (usable: bool, part: seq<Planned>)
    ensures usable <==> forall s :: s in entries ==> EntryAccepted(s, dest, directory)
    ensures usable ==> part == PlanEntries(entries, dest, directory)
  {
    part := [];
    for j := 0 to |entries|
      invariant |part| == j && forall k :: 0 <= k < j ==> part[k] == PlanOne(entries[k], dest, directory)
      invariant forall k :: 0 <= k < j ==> EntryAccepted(entries[k], dest, directory)
    {
      if !entries[j].IsMarker() && !TargetAccepted(dest, entries[j].target, directory) {
        assert entries[j] in entries && !EntryAccepted(entries[j], dest, directory);
        return false, part;
      }
      part := part + [PlanOne(entries[j], dest, directory)];
    }
    usable := true;
  }

  /** The planning loop over the selections. */
  method PlanSelections(m: Manifest, selections: seq<Selection>, dest: string, slash: bool)
      returns (error: Option<PlanError>, plans: seq<Planned>)
    requires forall k :: 0 <= k < |selections| ==> ValidSelection(m, selections[k])
    ensures error == FirstError(selections, dest, slash)
    ensures error == None ==> plans == PlanAll(selections, dest, slash)
  {
    plans := [];
    for i := 0 to |selections|
      invariant plans == PlanAll(selections[..i], dest, slash)
      invariant forall k :: 0 <= k < i ==> SelectionError(selections[k], dest, slash) == None
    {
      var part;
      FirstErrorAt(selections, dest, slash, i);
      error, part := PlanSelection(m, selections[i], dest, slash);
      if error.Some? {
        return;
      }
      PlanAllNext(selections, i, dest, slash);
      plans := plans + part;
    }
    assert selections[..|selections|] == selections;
    FirstErrorAt(selections, dest, slash, |selections|);
    error := None;
  }

  /** Checking and staging of a plan that is laid out. */
  method FinishPlan(plans: seq<Planned>, dest: string, extract: bool, files: ContextFiles, ghost lead: string, ghost ds: seq<string>)
      returns (r: PrepareOutcome)
    requires Lead(lead) && CleanParts(ds) && dest == Abs(lead, ds) && LaidOut(plans, lead, ds)
    ensures r == PlanOutcome(plans, dest, extract, files)
  {
    LaidOutWalks(plans, lead, ds);
    SingleOrDouble(lead, ds);
    FileAboveSomewhere(plans);
    if plans != [] && Pairwise(plans, RelativeDiffer) {
      LaidOutChecks(plans, lead, ds);
    }
    var check := ValidateCopyPlan(plans);
    if check == NeverReturns {
      return Hangs;
    }
    if check != PlanOk {
      return Failed(Rejected(check));
    }
    assert EndsAt(plans, 0);
    var readable, staged := Materialize(plans, files.open);
    if !readable {
      return Failed(Unreadable);
    }
    if !extract {
      return Prepared(dest, staged, None);
    }
    r := ReadArchive(dest, staged, files);
  }

  method ReadArchive(dest: string, staged: seq<Planned>, files: ContextFiles) returns (r: PrepareOutcome)
    ensures r == ArchiveOutcome(dest, staged, files)
  {
    var entries := ReadTarEntries(ArchiveListing(staged, files));
    if entries == None {
      return Failed(BadArchive);
    }
    ArchiveDetermined(dest, staged, files, entries.value);
    r := Prepared(dest, staged, entries);
  }

  /** Planning, checking and staging of the selected entries. */
  method PlanAndFinish(m: Manifest, selections: seq<Selection>, dest: string, ins: CopyInstruction, files: ContextFiles,
                       ghost lead: string, ghost ds: seq<string>) returns (r: PrepareOutcome)
    requires Lead(lead) && CleanParts(ds) && dest == Abs(lead, ds) && (|selections| > 1 ==> EndsInSlash(ins.dest))
    requires forall k :: 0 <= k < |selections| ==> ValidSelection(m, selections[k])
    ensures r == SelectedOutcome(Chosen(selections), dest, ins, files)
  {
    var slash := EndsInSlash(ins.dest);
    var error, plans := PlanSelections(m, selections, dest, slash);
    if error.Some? {
      return Failed(error.value);
    }
    PlanOfSelections(m, selections, lead, ds, slash);
    r := FinishPlan(plans, dest, ExtractsArchive(ins, selections), files, lead, ds);
  }
  /** Preparation of one instruction, for the sources of the parser (several only with a
      destination ending in a slash). Its outcome is the declared one, an accepted plan is
      executable, and it does not return exactly for an endless copy. */
  method PrepareCopy(m: Manifest, ins: CopyInstruction, workdir: string, files: ContextFiles)
      returns (r: PrepareOutcome)
    requires ValidManifest(m)
    requires |ins.srcs| > 1 ==> EndsInSlash(ins.dest)
    ensures PreparesTo(m, ins, workdir, files, r)
    ensures r.Hangs? <==> EndlessCopy(m, ins, workdir)
    ensures r == Failed(Rejected(FileOverDescendant)) <==> OntoDoubleSlash(m, ins, workdir)
    ensures r.Prepared? ==> ExecutablePlan(r.plans)
    ensures IsAbsolute(workdir) && r.Prepared? ==> exists selections ::
              && PreparedAsWritten(m, ins, workdir, files, selections, r.dest, r.plans)
              && ArchiveAsWritten(ins, selections, files, r.archive)
    ensures IsAbsolute(workdir) && ins.srcs != [] && r.Failed? ==> FailsFor(m, ins, workdir, files, r.error)
    ensures IsAbsolute(workdir) && r.Hangs? ==> HangsFor(m, ins, workdir)
  {
    r := PrepareSources(m, ins, workdir, files);
    OutcomeExactly(m, ins, workdir, files, r);
    if IsAbsolute(workdir) {
      match r {
        case Prepared(dest, plans, archive) =>
          var selections := PreparedMeaning(m, ins, workdir, files, dest, plans, archive);
        case Failed(error) =>
          if ins.srcs != [] { FailureMeaning(m, ins, workdir, files, error); }
        case Hangs =>
          EndlessMeaning(m, ins, workdir);
      }
    }
  }

  method PrepareSources(m: Manifest, ins: CopyInstruction, workdir: string, files: ContextFiles)
      returns (r: PrepareOutcome)
    requires ValidManifest(m)
    requires |ins.srcs| > 1 ==> EndsInSlash(ins.dest)
    ensures PreparesTo(m, ins, workdir, files, r)
  {
    var destination := CopyDestination(ins.dest, workdir);
    if destination == None {
      return Failed(InvalidDestination);
    }
    var selected := SelectSources(m, ins.srcs);
    if selected.Refused? {
      return Failed(CannotSelect(selected.error));
    }
    ChosenValid(m, ins.srcs, selected.value);
    ghost var lead, ds := DestinationCanonical(ins.dest, workdir);
    r := PlanAndFinish(m, selected.value, destination.value, ins, files, lead, ds);
    assert r == SelectedOutcome(selected, destination.value, ins, files);
  }
}
