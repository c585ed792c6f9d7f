/** Planning of one COPY or ADD instruction: destination, targets, collision checks
    and staging. */
module CopyPlan {
  import opened Options
  import opened Paths
  import opened AbsolutePaths
  import opened Sequences
  import opened NormalPaths
  import opened ContextEntries
  import opened Selection

  type Content = string

  datatype CopyInstruction = CopyInstruction(srcs: seq<string>, dest: string, chown: Option<string>, isAdd: bool)

  datatype Planned = Planned(
    source: string, target: string, remote: string, kind: Kind, mode: nat, marker: bool, staged: Option<Content>)

  datatype PlanError =
    | InvalidDestination
    | CannotSelect(reason: SelectError)
    | NeedsDirectory
    | MultiplePaths
    | InvalidTarget
    | Rejected(check: PlanCheck)
    | Unreadable
    | BadArchive

  predicate EndsInSlash(s: string) {
    s != "" && s[|s| - 1] == '/'
  }

  // ---------------------------------------------------------------------
  // Destination and targets
  // ---------------------------------------------------------------------

  function StripLeadingSlashes(s: string): string {
    if s != "" && s[0] == '/' then StripLeadingSlashes(s[1..]) else s
  }

  function JoinPosix(base: string, rel: string): string {
    (if EndsInSlash(base) then base else base + "/") + StripLeadingSlashes(rel)
  }

  predicate IsAbsolute(s: string) {
    s != "" && s[0] == '/'
  }

  function CopyDestination(dest: string, workdir: string): Option<string> {
    var candidate := if IsAbsolute(dest) then dest else JoinPosix(workdir, dest);
    if '\0' in candidate || ".." in Split(candidate) then None
    else if !IsAbsolute(NormPath(candidate)) then None
    else Some(NormPath(candidate))
  }

  /** `posixpath.join` of two parts. */
  function PosixJoin(a: string, b: string): string {
    if IsAbsolute(b) then b
    else if a == "" || EndsInSlash(a) then a + b
    else a + "/" + b
  }

  function TargetPath(dest: string, target: string, directory: bool): string {
    NormPath(if directory then PosixJoin(dest, target) else dest)
  }

  predicate TargetAccepted(dest: string, target: string, directory: bool) {
    var path := TargetPath(dest, target, directory);
    IsAbsolute(path) && path != "/" && ".." !in Split(if directory then PosixJoin(dest, target) else dest)
  }

  /** The path goes nowhere above itself, and can be handed to the system. */
  predicate Safe(path: string) {
    '\0' !in path && ".." !in Split(path)
  }

  /** The path starts with exactly two slashes. */
  predicate TwoLeading(path: string) {
    |path| >= 2 && path[0] == '/' && path[1] == '/' && (|path| == 2 || path[2] != '/')
  }

  /** Where a destination lies: below the working directory when it is relative, and
      otherwise where it says, segment by segment; exactly two slashes in front are kept. */
  predicate LiesAt(dest: string, workdir: string, place: string) {
    if dest != "" && dest[0] == '/'
    then place == Abs(if TwoLeading(dest) then "//" else "/", Kept(dest))
    else place == Abs(if TwoLeading(workdir) then "//" else "/", Kept(workdir) + Kept(dest))
  }

  /** The destination of a copy, in an absolute working directory: none exactly when the
      destination, or the working directory it is relative to, climbs or holds a NUL. */
  lemma DestinationMeaning(dest: string, workdir: string)
    requires IsAbsolute(workdir)
    ensures CopyDestination(dest, workdir).Some? <==> Safe(dest) && (dest == "" || dest[0] != '/' ==> Safe(workdir))
    ensures CopyDestination(dest, workdir).Some? ==> LiesAt(dest, workdir, CopyDestination(dest, workdir).value)
  {
    if IsAbsolute(dest) {
      if Safe(dest) { AbsoluteNormal(dest); }
    } else {
      JoinedSegments(workdir, dest);
      var candidate := JoinPosix(workdir, dest);
      if Safe(candidate) { AbsoluteNormal(candidate); }
    }
  }

  lemma AbsoluteNormal(path: string)
    requires IsAbsolute(path) && ".." !in Split(path)
    ensures NormPath(path) == Abs(if TwoLeading(path) then "//" else "/", Kept(path)) && IsAbsolute(NormPath(path))
  {
    NormPathKept(path);
  }

  /** A relative destination after the working directory and one slash. */
  lemma JoinedSegments(workdir: string, dest: string)
    requires IsAbsolute(workdir) && !IsAbsolute(dest)
    ensures var candidate := JoinPosix(workdir, dest);
            && IsAbsolute(candidate) && Kept(candidate) == Kept(workdir) + Kept(dest)
            && (Safe(candidate) <==> Safe(workdir) && Safe(dest))
            && (TwoLeading(candidate) <==> TwoLeading(workdir))
  {
    assert StripLeadingSlashes(dest) == dest;
    if EndsInSlash(workdir) {
      var base := workdir[..|workdir| - 1];
      assert workdir == base + "/" + "";
      assert JoinPosix(workdir, dest) == base + "/" + dest;
      KeptConcat(base, "");
      KeptConcat(base, dest);
      SplitAtom("");
      assert Kept(workdir) == Kept(base);
    } else {
      assert JoinPosix(workdir, dest) == workdir + "/" + dest;
      KeptConcat(workdir, dest);
    }
  }

  lemma DestinationCanonical(dest: string, workdir: string) returns (lead: string, ds: seq<string>)
    requires CopyDestination(dest, workdir).Some?
    ensures Canonical(CopyDestination(dest, workdir).value, lead, ds)
  {
    var candidate := if IsAbsolute(dest) then dest else JoinPosix(workdir, dest);
    if !IsAbsolute(candidate) {
      RelativeStaysRelative(candidate);
      assert false;
    }
    NormPathCanonical(candidate);
    lead, ds :| Canonical(NormPath(candidate), lead, ds);
  }

  lemma RelativeStaysRelative(p: string)
    requires !IsAbsolute(p)
    ensures !IsAbsolute(NormPath(p))
  {
    if p != "" {
      SplitSlashFree(p);
      CollapseKeeps(Split(p), false, []);
      var xs := Collapse(Split(p), false, []);
      if xs != [] { JoinCleanEnds(xs); }
    }
  }

  /** Joining a clean target to a normalised destination appends its segments. */
  lemma JoinBelow(lead: string, ds: seq<string>, target: string) returns (xs: seq<string>)
    requires Lead(lead) && CleanParts(ds) && Clean(target)
    ensures xs == ds + Split(target) && CleanParts(xs) && xs != []
    ensures PosixJoin(Abs(lead, ds), target) == Abs(lead, xs)
  {
    xs := ds + Split(target);
    SplitSlashFree(target);
    JoinSplit(target);
    JoinCleanEnds(Split(target));
    if ds == [] {
      assert xs == Split(target);
      assert Abs(lead, ds) == lead;
    } else {
      JoinConcat(ds, Split(target));
      JoinCleanEnds(ds);
      JoinUnderLead(lead, Join(ds), target);
    }
  }

  lemma JoinUnderLead(lead: string, parent: string, target: string)
    requires parent != "" && parent[|parent| - 1] != '/' && !IsAbsolute(target)
    ensures PosixJoin(lead + parent, target) == lead + (parent + "/" + target)
  {
    var a := lead + parent;
    assert a[|a| - 1] == parent[|parent| - 1];
    assert a + "/" + target == lead + (parent + "/" + target);
  }

  lemma NoClimbing(lead: string, xs: seq<string>)
    requires Lead(lead) && CleanParts(xs)
    ensures ".." !in Split(Abs(lead, xs))
  {
    AbsSegments(lead, xs);
    assert ".." !in xs;
  }

  /** A clean target below a normalised destination: the segments are appended. */
  lemma TargetBelow(lead: string, ds: seq<string>, target: string)
    requires Lead(lead) && CleanParts(ds) && Clean(target)
    ensures TargetPath(Abs(lead, ds), target, true) == Abs(lead, ds + Split(target))
    ensures CleanParts(ds + Split(target)) && ds + Split(target) != []
    ensures TargetAccepted(Abs(lead, ds), target, true)
  {
    var xs := JoinBelow(lead, ds, target);
    NormPathOfAbs(lead, xs);
    NotTheRoot(lead, xs);
    NoClimbing(lead, xs);
  }

  lemma NotTheRoot(lead: string, xs: seq<string>)
    requires Lead(lead) && CleanParts(xs) && xs != []
    ensures IsAbsolute(Abs(lead, xs)) && Abs(lead, xs) != "/"
  {
    JoinStart(xs);
  }

  // ---------------------------------------------------------------------
  // Plans
  // ---------------------------------------------------------------------

  function PlanOne(s: Selected, dest: string, directory: bool): Planned {
    Planned(s.source, s.target, if s.IsMarker() then dest else TargetPath(dest, s.target, directory),
            s.kind, s.mode, s.IsMarker(), None)
  }

  function PlanEntries(entries: seq<Selected>, dest: string, directory: bool): (r: seq<Planned>)
    ensures |r| == |entries| && forall i :: 0 <= i < |r| ==> r[i] == PlanOne(entries[i], dest, directory)
  {
    seq(|entries|, i requires 0 <= i < |entries| => PlanOne(entries[i], dest, directory))
  }

  predicate DirectoryTarget(s: Selection, slash: bool) {
    s.kind == LiteralDirectory || s.kind == Dot || s.HasDirectories() || slash
  }

  /** One plan for every selected entry of every source, in order. */
  function PlanAll(selections: seq<Selection>, dest: string, slash: bool): seq<Planned> {
    if selections == [] then []
    else
      var last := selections[|selections| - 1];
      PlanAll(selections[..|selections| - 1], dest, slash)
      + PlanEntries(last.entries, dest, DirectoryTarget(last, slash))
  }

  /** The plan stands for the destination directory or for a place below it. */
  ghost predicate Below(p: Planned, lead: string, ds: seq<string>) {
    && (p.marker <==> p.target == "")
    && (p.marker ==> p.kind == Directory && p.remote == Abs(lead, ds))
    && (!p.marker ==> Clean(p.target) && p.remote == Abs(lead, ds + Split(p.target)))
  }

  /** The plan of sources laid out below one destination directory. */
  ghost predicate DirectoryPlan(plans: seq<Planned>, lead: string, ds: seq<string>) {
    && (forall p :: p in plans ==> Below(p, lead, ds))
    && (forall p, a :: p in plans && Under(p.target, a) ==>
          exists d :: d in plans && d.target == a && d.kind == Directory)
  }

  lemma {:induction false} PlanAllShape(m: Manifest, selections: seq<Selection>, lead: string, ds: seq<string>, slash: bool)
    requires Lead(lead) && CleanParts(ds)
    requires forall k :: 0 <= k < |selections| ==>
               ValidSelection(m, selections[k]) && DirectoryTarget(selections[k], slash)
    ensures DirectoryPlan(PlanAll(selections, Abs(lead, ds), slash), lead, ds)
  {
    if selections != [] {
      var init, last := selections[..|selections| - 1], selections[|selections| - 1];
      PlanAllShape(m, init, lead, ds, slash);
      PlanEntriesShape(m, last, lead, ds);
      var front, back := PlanAll(init, Abs(lead, ds), slash), PlanEntries(last.entries, Abs(lead, ds), true);
      var plans: seq<Planned> := front + back;
      forall p: Planned, a: string | p in plans && Under(p.target, a)
        ensures exists d :: d in plans && d.target == a && d.kind == Directory
      {
        if p in front {
          var d :| d in front && d.target == a && d.kind == Directory;
          assert d in plans;
        } else {
          var d :| d in back && d.target == a && d.kind == Directory;
          assert d in plans;
        }
      }
    }
  }

  lemma PlanEntriesShape(m: Manifest, s: Selection, lead: string, ds: seq<string>)
    requires Lead(lead) && CleanParts(ds) && ValidSelection(m, s)
    ensures DirectoryPlan(PlanEntries(s.entries, Abs(lead, ds), true), lead, ds)
  {
    var dest := Abs(lead, ds);
    var r := PlanEntries(s.entries, dest, true);
    forall p | p in r ensures exists e :: e in s.entries && p == PlanOne(e, dest, true) {
      var i :| 0 <= i < |r| && r[i] == p;
      assert s.entries[i] in s.entries;
    }
    forall e | e in s.entries ensures PlanOne(e, dest, true) in r {
      var i :| 0 <= i < |s.entries| && s.entries[i] == e;
      assert r[i] == PlanOne(e, dest, true);
    }
    forall e | e in s.entries && !e.IsMarker()
      ensures Clean(e.target) && PlanOne(e, dest, true).remote == Abs(lead, ds + Split(e.target)) && e.target != ""
    {
      TargetBelow(lead, ds, e.target);
      NormPathOfClean(e.target);
    }
    forall p, a | p in r && Under(p.target, a) ensures exists d :: d in r && d.target == a && d.kind == Directory {
      var e :| e in s.entries && p == PlanOne(e, dest, true);
      var d :| d in s.entries && d.target == a && d.kind == Directory;
      assert PlanOne(d, dest, true) in r;
    }
  }

  // ---------------------------------------------------------------------
  // The checks of a plan, and why the last two never fire
  // ---------------------------------------------------------------------

  datatype PlanCheck = PlanOk | NoFiles | CollidingRelative | CollidingDestination | FileOverDescendant | NeverReturns

  predicate RelativeDiffer(p: Planned, q: Planned) {
    p.marker || q.marker || p.target != q.target
  }

  predicate RemoteDiffer(p: Planned, q: Planned) {
    (p.marker && q.marker) || p.remote != q.remote
  }

  /** A planned file lies on the walk from another plan's target to the root. */
  ghost predicate FileAbove(plans: seq<Planned>) {
    exists p, q :: p in plans && q in plans && q.kind == File && WalkVisits(Dirname(p.remote), q.remote)
  }

  /** Distinct relative targets already imply distinct remote paths, apart from shared
      markers. */
  lemma RelativeImpliesRemote(plans: seq<Planned>, lead: string, ds: seq<string>)
    requires Lead(lead) && CleanParts(ds) && DirectoryPlan(plans, lead, ds)
    requires Pairwise(plans, RelativeDiffer)
    ensures Pairwise(plans, RemoteDiffer)
  {
    forall i, j | 0 <= i < j < |plans| ensures RemoteDiffer(plans[i], plans[j]) {
      var p, q := plans[i], plans[j];
      assert p in plans && q in plans && RelativeDiffer(p, q);
      if p.remote == q.remote && !(p.marker && q.marker) {
        SameRemote(p, q, lead, ds);
      }
    }
  }

  /** Within one destination the remote path determines the relative target. */
  lemma SameRemote(p: Planned, q: Planned, lead: string, ds: seq<string>)
    requires Lead(lead) && CleanParts(ds) && Below(p, lead, ds) && Below(q, lead, ds)
    requires p.remote == q.remote
    ensures p.target == q.target
  {
    var xs := if p.marker then ds else ds + Split(p.target);
    var ys := if q.marker then ds else ds + Split(q.target);
    if !p.marker { TargetBelow(lead, ds, p.target); }
    if !q.marker { TargetBelow(lead, ds, q.target); }
    AbsInjective(lead, xs, ys);
    assert xs[|ds|..] == ys[|ds|..];
    if !p.marker && !q.marker {
      assert (ds + Split(p.target))[|ds|..] == Split(p.target);
      assert (ds + Split(q.target))[|ds|..] == Split(q.target);
      SplitInjective(p.target, q.target);
    }
  }

  /** Distinct relative targets already imply that no planned file stands above another
      target: the closure of selections puts a directory at every such place. */
  lemma RelativeImpliesNoFileAbove(plans: seq<Planned>, lead: string, ds: seq<string>)
    requires Lead(lead) && CleanParts(ds) && DirectoryPlan(plans, lead, ds)
    requires Pairwise(plans, RelativeDiffer)
    ensures !FileAbove(plans)
  {
    if FileAbove(plans) {
      var p, q :| p in plans && q in plans && q.kind == File && WalkVisits(Dirname(p.remote), q.remote);
      assert Below(p, lead, ds) && Below(q, lead, ds);
      FileAboveUnder(p, q, lead, ds);
      var d :| d in plans && d.target == q.target && d.kind == Directory;
      assert Below(d, lead, ds);
      PairwiseMembers(plans, RelativeDiffer, d, q);
      assert false;
    }
  }

  /** The segments of a plan's remote path. */
  function Parts(p: Planned, ds: seq<string>): seq<string> {
    if p.marker then ds else ds + Split(p.target)
  }

  lemma PartsCanonical(p: Planned, lead: string, ds: seq<string>)
    requires Lead(lead) && CleanParts(ds) && Below(p, lead, ds)
    ensures Canonical(p.remote, lead, Parts(p, ds))
  {
    if !p.marker { TargetBelow(lead, ds, p.target); }
  }

  lemma FileAboveUnder(p: Planned, q: Planned, lead: string, ds: seq<string>)
    requires Lead(lead) && CleanParts(ds) && Below(p, lead, ds) && Below(q, lead, ds)
    requires q.kind == File && WalkVisits(Dirname(p.remote), q.remote)
    ensures Under(p.target, q.target)
  {
    PartsCanonical(p, lead, ds);
    PartsCanonical(q, lead, ds);
    VisitedAbove(lead, Parts(p, ds), Parts(q, ds));
    AppendedPrefix(ds, Split(q.target), if p.marker then [] else Split(p.target));
    UnderIsProperPrefix(p.target, q.target);
  }

  lemma AppendedPrefix(ds: seq<string>, ys: seq<string>, xs: seq<string>)
    ensures ProperPrefix(ds + ys, ds + xs) ==> ProperPrefix(ys, xs)
    ensures xs == [] ==> ds + xs == ds
  {
    if ProperPrefix(ds + ys, ds + xs) {
      assert ys == (ds + ys)[|ds|..];
      assert (ds + xs)[..|ds + ys|][|ds|..] == xs[..|ys|];
    }
  }

  // ---------------------------------------------------------------------
  // _validate_copy_plan
  // ---------------------------------------------------------------------

  /** The plans by remote path: the first plan of each path. */
  ghost predicate ByTarget(byTarget: map<string, Planned>, plans: seq<Planned>) {
    && (forall p :: p in plans ==> p.remote in byTarget)
    && forall r :: r in byTarget ==> byTarget[r] in plans && byTarget[r].remote == r
  }

  /** The walk above the target meets a recorded file. */
  ghost predicate MeetsFile(target: string, byTarget: map<string, Planned>) {
    exists a :: WalkVisits(Dirname(target), a) && a in byTarget && byTarget[a].kind == File
  }

  /** The walk above one target. */
  method CheckAbove(target: string, byTarget: map<string, Planned>) returns (r: PlanCheck)
    ensures r == if MeetsFile(target, byTarget) then FileOverDescendant
                 else if WalkEnds(Dirname(target)) then PlanOk else NeverReturns
  {
    var parent := Dirname(target);
    while parent != "/"
      invariant WalkEnds(parent) <==> WalkEnds(Dirname(target))
      invariant forall a :: WalkVisits(parent, a) ==> WalkVisits(Dirname(target), a)
      invariant forall a :: WalkVisits(Dirname(target), a) && a in byTarget ==>
                  WalkVisits(parent, a) || byTarget[a].kind == Directory
      decreases |parent|
    {
      if parent in byTarget && byTarget[parent].kind == File {
        assert WalkVisits(parent, parent);
        return FileOverDescendant;
      }
      var next := Dirname(parent);
      if next == parent {
        // The loop of the source stays here for ever.
        return NeverReturns;
      }
      parent := next;
    }
    r := PlanOk;
  }

  lemma ByTargetExtend(byTarget: map<string, Planned>, front: seq<Planned>, p: Planned)
    requires ByTarget(byTarget, front) && Pairwise(front, RemoteDiffer)
    ensures p.remote !in byTarget ==>
              Pairwise(front + [p], RemoteDiffer) && ByTarget(byTarget[p.remote := p], front + [p])
    ensures p.remote in byTarget && byTarget[p.remote].marker && p.marker ==>
              Pairwise(front + [p], RemoteDiffer) && ByTarget(byTarget, front + [p])
    ensures p.remote in byTarget && !(byTarget[p.remote].marker && p.marker) ==> !Pairwise(front + [p], RemoteDiffer)
  {
    var all := front + [p];
    if p.remote !in byTarget {
      forall q | q in front ensures RemoteDiffer(q, p) {
      }
    } else {
      var k :| 0 <= k < |front| && front[k] == byTarget[p.remote];
      if front[k].marker && p.marker {
        forall i | 0 <= i < |front| ensures RemoteDiffer(front[i], p) {
          assert i < k ==> RemoteDiffer(front[i], front[k]);
          assert k < i ==> RemoteDiffer(front[k], front[i]);
        }
      } else {
        assert !RemoteDiffer(all[k], all[|front|]);
      }
    }
  }

  /** A file is the plan its path is recorded with. */
  lemma FileIsRecorded(byTarget: map<string, Planned>, plans: seq<Planned>, q: Planned)
    requires ByTarget(byTarget, plans) && Pairwise(plans, RemoteDiffer)
    requires forall p :: p in plans && p.marker ==> p.kind == Directory
    requires q in plans && q.kind == File
    ensures byTarget[q.remote] == q
  {
    PairwiseMembers(plans, RemoteDiffer, byTarget[q.remote], q);
  }

  /** The first loop: the plans by target, unless two collide. */
  method IndexTargets(plans: seq<Planned>) returns (ok: bool, byTarget: map<string, Planned>)
    ensures ok <==> Pairwise(plans, RemoteDiffer)
    ensures ok ==> ByTarget(byTarget, plans)
  {
    byTarget := map[];
    for i := 0 to |plans|
      invariant Pairwise(plans[..i], RemoteDiffer)
      invariant ByTarget(byTarget, plans[..i])
    {
      var plan := plans[i];
      assert plans[..i + 1] == plans[..i] + [plan];
      ByTargetExtend(byTarget, plans[..i], plan);
      PairwisePrefix(plans, RemoteDiffer, i + 1);
      if plan.remote !in byTarget {
        byTarget := byTarget[plan.remote := plan];
        continue;
      }
      if byTarget[plan.remote].marker && plan.marker {
        continue;
      }
      return false, byTarget;
    }
    assert plans[..|plans|] == plans;
    ok := true;
  }

  /** A planned file lies on the walk above the i-th target. */
  ghost predicate FileAboveAt(plans: seq<Planned>, i: nat)
    requires i < |plans|
  {
    exists q :: q in plans && q.kind == File && WalkVisits(Dirname(plans[i].remote), q.remote)
  }

  ghost predicate EndsAt(plans: seq<Planned>, i: nat)
    requires i < |plans|
  {
    WalkEnds(Dirname(plans[i].remote))
  }

  /** Some target has a file above it, and no walk before that one is endless. */
  ghost predicate FileFirst(plans: seq<Planned>) {
    exists i :: 0 <= i < |plans| && FileFoundAt(plans, i)
  }

  ghost predicate FileFoundAt(plans: seq<Planned>, i: nat)
    requires i < |plans|
  {
    FileAboveAt(plans, i) && forall k :: 0 <= k < i ==> EndsAt(plans, k)
  }

  /** Some walk is endless, and no target up to that one has a file above it. */
  ghost predicate EndlessFirst(plans: seq<Planned>) {
    exists i :: 0 <= i < |plans| && LostAt(plans, i)
  }

  ghost predicate LostAt(plans: seq<Planned>, i: nat)
    requires i < |plans|
  {
    !EndsAt(plans, i) && forall k :: 0 <= k <= i ==> !FileAboveAt(plans, k)
  }

  lemma MeetsExactly(byTarget: map<string, Planned>, plans: seq<Planned>, i: nat)
    requires ByTarget(byTarget, plans) && Pairwise(plans, RemoteDiffer) && i < |plans|
    requires forall p :: p in plans && p.marker ==> p.kind == Directory
    ensures MeetsFile(plans[i].remote, byTarget) <==> FileAboveAt(plans, i)
  {
    if FileAboveAt(plans, i) {
      var q :| q in plans && q.kind == File && WalkVisits(Dirname(plans[i].remote), q.remote);
      FileIsRecorded(byTarget, plans, q);
    }
    if MeetsFile(plans[i].remote, byTarget) {
      var a :| WalkVisits(Dirname(plans[i].remote), a) && a in byTarget && byTarget[a].kind == File;
      assert byTarget[a] in plans;
    }
  }

  lemma FileAboveSomewhere(plans: seq<Planned>)
    ensures FileAbove(plans) <==> exists i :: 0 <= i < |plans| && FileAboveAt(plans, i)
  {
    if FileAbove(plans) {
      var p, q :| p in plans && q in plans && q.kind == File && WalkVisits(Dirname(p.remote), q.remote);
      var i :| 0 <= i < |plans| && plans[i] == p;
      assert FileAboveAt(plans, i);
    }
    if i :| 0 <= i < |plans| && FileAboveAt(plans, i) {
      assert plans[i] in plans;
    }
  }

  /** The second loop: the walk above every target, in order. */
  method CheckAllAbove(plans: seq<Planned>, byTarget: map<string, Planned>) returns (r: PlanCheck)
    requires ByTarget(byTarget, plans) && Pairwise(plans, RemoteDiffer)
    requires forall p :: p in plans && p.marker ==> p.kind == Directory
    ensures r in {PlanOk, FileOverDescendant, NeverReturns}
    ensures r == FileOverDescendant <==> FileFirst(plans)
    ensures r == NeverReturns <==> EndlessFirst(plans)
    ensures r == PlanOk <==> forall k :: 0 <= k < |plans| ==> EndsAt(plans, k) && !FileAboveAt(plans, k)
  {
    for i := 0 to |plans|
      invariant forall k :: 0 <= k < i ==> EndsAt(plans, k) && !FileAboveAt(plans, k)
    {
      MeetsExactly(byTarget, plans, i);
      r := CheckAbove(plans[i].remote, byTarget);
      if r != PlanOk {
        FirstFound(plans, i);
        return;
      }
      assert EndsAt(plans, i) && !FileAboveAt(plans, i);
    }
    r := PlanOk;
  }

  /** The first target that fails decides what is found. */
  lemma FirstFound(plans: seq<Planned>, i: nat)
    requires i < |plans| && (FileAboveAt(plans, i) || !EndsAt(plans, i))
    requires forall k :: 0 <= k < i ==> EndsAt(plans, k) && !FileAboveAt(plans, k)
    ensures FileFirst(plans) <==> FileAboveAt(plans, i)
    ensures EndlessFirst(plans) <==> !FileAboveAt(plans, i)
  {
    if FileFirst(plans) { FileIsFirst(plans, i); }
    if EndlessFirst(plans) { EndlessIsFirst(plans, i); }
    assert FileAboveAt(plans, i) ==> FileFoundAt(plans, i);
    assert !FileAboveAt(plans, i) ==> LostAt(plans, i);
  }

  lemma FileIsFirst(plans: seq<Planned>, i: nat)
    requires i < |plans| && FileFirst(plans) && (FileAboveAt(plans, i) || !EndsAt(plans, i))
    requires forall k :: 0 <= k < i ==> !FileAboveAt(plans, k)
    ensures FileAboveAt(plans, i)
  {
    var j :| 0 <= j < |plans| && FileFoundAt(plans, j);
    assert j >= i;
  }

  lemma EndlessIsFirst(plans: seq<Planned>, i: nat)
    requires i < |plans| && EndlessFirst(plans)
    requires forall k :: 0 <= k < i ==> EndsAt(plans, k)
    ensures !FileAboveAt(plans, i)
  {
    var j :| 0 <= j < |plans| && LostAt(plans, j);
    assert j >= i;
  }

  /** The relative targets and the remote paths are distinct. */
  ghost predicate DistinctPlans(plans: seq<Planned>) {
    plans != [] && Pairwise(plans, RelativeDiffer) && Pairwise(plans, RemoteDiffer)
  }

  /** The whole check: exactly when each of its results occurs. */
  method ValidateCopyPlan(plans: seq<Planned>) returns (r: PlanCheck)
    requires forall p :: p in plans && p.marker ==> p.kind == Directory
    ensures r == NoFiles <==> plans == []
    ensures r == CollidingRelative <==> plans != [] && !Pairwise(plans, RelativeDiffer)
    ensures r == CollidingDestination <==>
              plans != [] && Pairwise(plans, RelativeDiffer) && !Pairwise(plans, RemoteDiffer)
    ensures r == FileOverDescendant <==> DistinctPlans(plans) && FileFirst(plans)
    ensures r == NeverReturns <==> DistinctPlans(plans) && EndlessFirst(plans)
    ensures r == PlanOk <==>
              DistinctPlans(plans) && forall k :: 0 <= k < |plans| ==> EndsAt(plans, k) && !FileAboveAt(plans, k)
  {
    if plans == [] {
      return NoFiles;
    }
    if !forall i, j :: 0 <= i < j < |plans| ==> RelativeDiffer(plans[i], plans[j]) {
      return CollidingRelative;
    }
    var distinct, byTarget := IndexTargets(plans);
    if !distinct {
      return CollidingDestination;
    }
    r := CheckAllAbove(plans, byTarget);
  }

  /** What an accepted plan guarantees to the execution. */
  ghost predicate ExecutablePlan(plans: seq<Planned>) {
    && plans != []
    && Pairwise(plans, RemoteDiffer)
    && !FileAbove(plans)
    && forall p :: p in plans ==>
         && (p.marker ==> p.kind == Directory)
         && (p.kind == File ==> p.remote != "/" && p.staged.Some?)
         && exists xs :: Canonical(p.remote, "/", xs)
  }
}
