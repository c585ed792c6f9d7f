# Docker build contexts, two-phase application and session life cycles: a verified model

This project models the parts of the akernel Python SDK that decide which files of a
Docker build context reach a sandbox, how a parsed Dockerfile is applied, and how
sessions are released when calls fail. The properties are proved for every input,
every run and every reachable state.

**Context selection** (`IgnoreTokens`, `IgnoreRules`, `IgnoreCompile`, `IgnoreLines`,
`IgnorePrint`, `IgnoreSpelling`, `ContextWalk`, `Visibility`, `SourceGlob`, `SourceSpelling`,
`Selection`, `WildcardSelection`). Ignore patterns are compiled, matched by a two-row
table, and evaluated in order along a component-sorted walk that reuses the parent directory's results. COPY sources are
compiled and matched by a greedy loop with one remembered star. Each algorithm is a
loop proved against a declarative meaning: a path is cut into pieces, the last hitting
pattern decides, a star stands for any run. Both compilers are shown to read exactly a
declared language: which texts spell which tokens. The selections built on them are closed
under parents and free of duplicates.

**Planning and execution** (`AbsolutePaths`, `CopyPlan`, `CopyOutcome`, `CopyMeaning`,
`CopyPreparation`, `DoubleSlash`, `CopyExecution`, `TarEntries`, `Dockerfile`,
`DockerfileText`, `DockerfileRunner`, `TreeReplay`, `FileOnly`). The parser emits
instructions and the state they leave, and `DockerfileText` says from the text which; the
runner prepares every copy before it touches the sandbox and then replays the list. A
prepared plan is executed on a file tree in which a directory or a file
needs an existing parent. `FileOnly` composes both passes for files that only copy and
change directories.

**State machines** (`SandboxKill`, `PtyTransport`, `PtyEffects`, `ExtraConfig`). Killing a sandbox
over a session whose close and delete may fail; the reader thread of a PTY connection
interleaved with callers; and normalising a configuration that may share or contain
itself.

`Options`, `Paths`, `NormalPaths`, `Sequences` and `Stepwise` hold the shared
vocabulary. A path is a string, and its segments come from splitting at slashes; `Paths.UnderIsProperPrefix` is the bridge
between the two readings.

## Where the code does less than it seems to promise

* **Two leading slashes.** `posixpath.normpath` keeps exactly two leading slashes and
  `posixpath.dirname("//")` is `"//"`, so for a destination such as `//app` the parent
  loop in `_validate_copy_plan` never reaches `"/"`. `CopyPreparation.PrepareCopy` has
  an outcome `Hangs` for it and states exactly when it occurs. A single file copied to
  `//` itself is rejected as lying above its own target. `COPY a //app/` and
  `COPY a //.` are such inputs.
* **Carets.** A `^` in an ignore pattern becomes an anchor token, but the exact, prefix
  and suffix forms compare text and ignore that, as for the line `^`. `IgnoreCompile.OptimisedFormsExactly`
  gives the exact condition under which a form agrees with its tokens.
* **Incremental ignore results.** The walk and `is_ignored` differ for lists such as
  `a/b`, `!a`. `IgnoreRules.DivergenceExactly` says for each path when they do, and
  `IgnoreLines.AgreementExactly` for which arrangements of polarities they never do.
* **A leading `**` without a slash.** The tokens of `**foo` start with a globstar
  directory, which would need a slash before `foo`, but its suffix form also matches
  `barfoo` (`IgnoreCompile.DoubleStarFoo`). It matches as if that token were a plain
  globstar, and the exact condition for carets also counts it out.

## Model

| member | source | states |
|---|---|---|
| `IgnoreTokens.IgnoreTokensMatch` | sdk/python/akernel_sdk/_dockercontext.py:744-793 | The two-row table answers true if and only if the path can be cut into consecutive pieces, one per token, each piece in its token's language |
| `IgnoreTokens.NextRow` | sdk/python/akernel_sdk/_dockercontext.py:751-792 | One round of the table: entry j of the new row is set exactly when a set entry of the old row can be extended to j by one piece of the token |
| `IgnoreTokens.ExtendsStep` | sdk/python/akernel_sdk/_dockercontext.py:754-790 | Why one left-to-right pass per row is enough: for each kind of token, how the set of reachable ends at j follows from the entry before and the previous row |
| `IgnoreTokens.TokensMatchReaches` | sdk/python/akernel_sdk/_dockercontext.py:744-793 | Having a cutting and being reachable by appending one piece at a time are the same |
| `IgnoreTokens.TokensMatchFrom` | sdk/python/akernel_sdk/_dockercontext.py:744-793 | Cuttings read from the front and from the back describe the same paths |
| `IgnorePatterns.PatternMatches` | sdk/python/akernel_sdk/_dockercontext.py:381-393 | The four match forms: equality, leading stem, trailing text (with the `**/` case also matching the bare tail), and the token table |
| `IgnoreRules.MatchesPathOrParent` | sdk/python/akernel_sdk/_dockercontext.py:406-416 | True exactly when the pattern matches the path or one of its proper ancestors |
| `IgnoreRules.IsIgnored` | sdk/python/akernel_sdk/_dockercontext.py:406-422 | The verdict is that of the last pattern hitting the path or an ancestor, although patterns of the wrong polarity are never looked at |
| `IgnoreRules.IgnoredAppend` | sdk/python/akernel_sdk/_dockercontext.py:406-422 | Adding a pattern at the end changes the verdict to its polarity when it hits, and not at all otherwise |
| `IgnoreRules.MatchWithParentResults` | sdk/python/akernel_sdk/_dockercontext.py:424-445 | Parent results of the wrong length are rejected; otherwise verdict and recorded results are those of the left-to-right evaluation |
| `IgnoreRules.ExactParentGivesVerdict` | sdk/python/akernel_sdk/_dockercontext.py:424-445 | Whenever the parent results are exact, the incremental evaluation gives the verdict of `is_ignored`, for every prefix of the pattern list |
| `IgnoreRules.FoldRecordsAreHits` | sdk/python/akernel_sdk/_dockercontext.py:424-445 | Folded from the root, true is recorded only for patterns that hit the path or an ancestor |
| `IgnoreRules.FoldOfPath` | sdk/python/akernel_sdk/_dockercontext.py:424-445 | The folded verdict of a path is one evaluation on its parent's folded results |
| `IgnoreRules.VerdictFromLastHit` | sdk/python/akernel_sdk/_dockercontext.py:424-445 | The last hitting pattern decides the folded verdict if it was recorded; otherwise the state it found stays |
| `IgnoreRules.DivergenceExactly` | sdk/python/akernel_sdk/_dockercontext.py:406-445 | For every pattern list and path: the incremental verdict differs from `is_ignored` if and only if the last pattern that hits was not recorded although it met the very state it would have flipped |
| `IgnoreRules.ExclusionsFirstAgree` | sdk/python/akernel_sdk/_dockercontext.py:406-445 | When no exclusion follows an inclusion the two verdicts agree on every path; lists without exclusions are a special case |
| `IgnoreLines.SeparatingDiverges` | sdk/python/akernel_sdk/_dockercontext.py:406-445 | For every polarity vector with an inclusion before an exclusion, a concrete list of patterns (in the smallest case `a/b`, `!a`) and the path `a/b` on which the two verdicts differ |
| `IgnoreLines.SeparatingCompiled` | sdk/python/akernel_sdk/_dockercontext.py:598-672 | These patterns are what the compiler makes of the lines that spell them |
| `IgnoreLines.CompileOrdinary` | sdk/python/akernel_sdk/_dockercontext.py:598-672 | A trimmed, clean line of ordinary characters compiles to the exact form with these characters as its tokens |
| `IgnoreLines.AgreementExactly` | sdk/python/akernel_sdk/_dockercontext.py:406-445 | The two evaluations agree on every path for all ignore files whose compiled lines have a polarity vector if and only if the vector has no inclusion before an exclusion |
| `IgnoreCompile.CleanPatternTrailing` | sdk/python/akernel_sdk/_dockercontext.py:589-595 | A cleaned pattern is never empty and never ends in a slash, except for the root itself |
| `IgnoreCompile.CompileIgnoreCharacterClass` | sdk/python/akernel_sdk/_dockercontext.py:675-741 | The class parser computes the declared scan: escapes, ranges, the refused forms and the index past the bracket |
| `IgnoreCompile.CompileIgnorePattern` | sdk/python/akernel_sdk/_dockercontext.py:598-672 | The loop accepts or rejects a line exactly as the declared scan of its cleaned value does, with the same pattern, and every accepted pattern has the shape its match form presupposes |
| `IgnoreCompile.StepShape` | sdk/python/akernel_sdk/_dockercontext.py:613-670 | Each step keeps the shape: in the exact, prefix and suffix forms the tokens spell the part of the value read so far |
| `IgnoreCompile.ExactAgrees` | sdk/python/akernel_sdk/_dockercontext.py:381-393 | An exact form without `^` matches the same paths as its tokens |
| `IgnoreCompile.PrefixAgrees` | sdk/python/akernel_sdk/_dockercontext.py:381-393 | A prefix form without `^` matches the same paths as its tokens followed by a globstar |
| `IgnoreCompile.SuffixAgrees` | sdk/python/akernel_sdk/_dockercontext.py:381-393 | A suffix form without `^` whose text is empty or starts with a slash matches the same paths as its recorded tokens |
| `IgnoreCompile.UnslashedMeaning` | sdk/python/akernel_sdk/_dockercontext.py:381-393 | A suffix form such as that of `**foo` matches as if its leading token were a plain globstar |
| `IgnoreCompile.UnslashedDisagrees` | sdk/python/akernel_sdk/_dockercontext.py:381-393 | So it differs from its recorded tokens on its text after any other text that does not end in a slash |
| `IgnoreCompile.DoubleStarFoo` | sdk/python/akernel_sdk/_dockercontext.py:598-672 | The line `**foo` compiles to such a form: it matches `barfoo`, and its recorded tokens do not |
| `IgnoreCompile.CaretDisagrees` | sdk/python/akernel_sdk/_dockercontext.py:381-393 | Every optimised form whose value contains `^` has a path on which it differs from its recorded tokens |
| `IgnoreCompile.OptimisedFormsExactly` | sdk/python/akernel_sdk/_dockercontext.py:381-393 | A compiled pattern agrees with its recorded tokens (with the globstar that a prefix form and a bare `**` leave implicit) on all paths if and only if it is in token form, or its value has no `^` and it is not a suffix form whose text starts without a slash |
| `IgnoreCompile.CaretLine` | sdk/python/akernel_sdk/_dockercontext.py:598-672 | The line `^` compiles to the exact form with an anchor as its only token: the form matches `^`, the token does not |
| `IgnorePrint.ClassReadBack` | sdk/python/akernel_sdk/_dockercontext.py:675-741 | A printed ignore class is parsed back to the same class, and the parser ends just past it |
| `IgnorePrint.CompilePrint` | sdk/python/akernel_sdk/_dockercontext.py:598-672 | Every line that denotes the printed text of a canonical token list, after trimming, cleaning and taking off the `!`, compiles to a pattern whose recorded tokens are exactly that list |
| `IgnorePrint.PrintedMeaning` | sdk/python/akernel_sdk/_dockercontext.py:381-393 | Through whichever match form it got, the compiled line matches exactly the paths the printed tokens match, if and only if it got the token form or its text has no `^` |
| `IgnorePrint.PrintedLine` | sdk/python/akernel_sdk/_dockercontext.py:589-605 | A trimmed and clean printed text, with `!` in front for an exclusion, is such a line |
| `IgnorePrint.CompiledPrintable` | sdk/python/akernel_sdk/_dockercontext.py:598-741 | Conversely the recorded tokens of every accepted line are a canonical list, so the round trip covers all compiler outputs |
| `IgnoreSpelling.CompiledExactly` | sdk/python/akernel_sdk/_dockercontext.py:598-741 | A line is accepted if and only if its value is not empty, has no NUL and spells a token list; the recorded tokens are then the only ones it spells, including escapes, classes and double stars with and without a slash; the match form is the one the text calls for and the polarity that of the line |
| `IgnoreSpelling.TrimExactly` | sdk/python/akernel_sdk/_dockercontext.py:556-559 | Trimming takes only white space off the two ends and leaves none there |
| `IgnoreSpelling.CleanExactly` | sdk/python/akernel_sdk/_dockercontext.py:589-595 | A cleaned pattern is its collapsed segments after at most one slash, or a dot |
| `ContextEntries.PathRejectedExactly` | sdk/python/akernel_sdk/_dockercontext.py:316-334 | The chain of string tests rejects exactly the paths that are not clean relative paths free of NUL and backslash |
| `ContextEntries.CheckPaths` | sdk/python/akernel_sdk/_dockercontext.py:313-337 | The first loop accepts exactly when all paths are safe and pairwise distinct, and then its dictionary indexes the entries |
| `ContextEntries.CheckAncestors` | sdk/python/akernel_sdk/_dockercontext.py:339-351 | The dirname loop of one entry accepts exactly when every proper ancestor is listed as a directory |
| `ContextEntries.ValidateWalkEntries` | sdk/python/akernel_sdk/_dockercontext.py:310-351 | A walk is accepted if and only if its paths are safe and distinct and every proper ancestor of an entry is a listed directory |
| `ContextEntries.ParentStep` | sdk/python/akernel_sdk/_dockercontext.py:339-351 | Dirname of a clean path is its nearest ancestor, so the loop meets all proper ancestors and ends |
| `ContextEntries.SortedWalk` | sdk/python/akernel_sdk/_dockercontext.py:118-135 | Sorting by either order keeps a walk valid |
| `Paths.UnderIsProperPrefix` | sdk/python/akernel_sdk/_dockercontext.py:461-464 | For all strings, `q.startswith(p + "/")` holds exactly when the segments of p are a proper prefix of those of q |
| `NormalPaths.NormPathKept` | sdk/python/akernel_sdk/_dockercontext.py:589-595 | The normal form of a path without `..` is its leading slashes and its segments other than the empty one and `.` |
| `NormalPaths.CollapseRules` | sdk/python/akernel_sdk/_dockercontext.py:589-595 | Wherever they stand, empty segments and `.` do not change the normal form, a name followed by `..` cancels out, and `..` at the root is dropped |
| `NormalPaths.CollapseNormal` | sdk/python/akernel_sdk/_dockercontext.py:589-595 | What is left has no empty segment and no `.`, and `..` only in front of a path that does not start at the root; such segments are left unchanged |
| `Sequences.SubtreeContiguous` | sdk/python/akernel_sdk/_dockercontext.py:457-464 | In component order nothing stands between a directory and an entry below it except entries below it |
| `Visibility.LeavingIsFinal` | sdk/python/akernel_sdk/_dockercontext.py:457-464 | A directory the current entry is not under has no entry left to come, so popping it is safe |
| `Visibility.TopIsParent` | sdk/python/akernel_sdk/_dockercontext.py:460-473 | After popping, the top of the stack is the entry's parent together with the parent's own folded results, or the entry is at the top level and the stack is empty |
| `Visibility.PopFrames` | sdk/python/akernel_sdk/_dockercontext.py:461-464 | The inner loop keeps the stack invariant and ends with a frame above the entry on top, or none |
| `Visibility.VisitEntry` | sdk/python/akernel_sdk/_dockercontext.py:466-479 | Neither the omitted-directory nor the parent-results error can occur, and the verdict is that of the recursive parent-to-child definition |
| `Visibility.Advance` | sdk/python/akernel_sdk/_dockercontext.py:460-482 | One entry of the traversal keeps the stack invariant and yields the recursive verdict |
| `Visibility.CollectNotIgnored` | sdk/python/akernel_sdk/_dockercontext.py:448-482 | The traversal collects exactly the entries the recursive definition does not ignore, without an error |
| `Visibility.AddAncestors` | sdk/python/akernel_sdk/_dockercontext.py:483-492 | The second loop adds exactly the proper ancestors of the collected paths; the file-as-ancestor error cannot occur |
| `Visibility.VisibleEntriesWithAncestors` | sdk/python/akernel_sdk/_dockercontext.py:448-493 | On every accepted walk the result is, in walk order, exactly the non-ignored entries and the proper ancestors of such entries |
| `Visibility.VisibleClosed` | sdk/python/akernel_sdk/_dockercontext.py:483-493 | Every proper ancestor of a visible entry is a visible directory |
| `Visibility.VisibleFile` | sdk/python/akernel_sdk/_dockercontext.py:448-493 | A file is visible exactly when the recursive verdict does not ignore it |
| `Visibility.VisibleFileByLastHit` | sdk/python/akernel_sdk/_dockercontext.py:448-493 | When no exclusion follows an inclusion, a file is visible exactly when the last hitting pattern does not ignore it |
| `SourceGlob.GlobSegmentMatches` | sdk/python/akernel_sdk/_dockercontext.py:910-941 | The greedy loop with one remembered star answers true if and only if the segment matches the declarative meaning, and terminates by star, restart and path position |
| `SourceGlob.NewStarSubsumes` | sdk/python/akernel_sdk/_dockercontext.py:922-926 | When a new star is reached, no restart of the earlier star can find a match the new one misses; this is why one star is remembered |
| `SourceGlob.OnMismatch` | sdk/python/akernel_sdk/_dockercontext.py:920-936 | A mismatch rules out a match from the current position, and with no star any match |
| `SourceGlob.OnRestart` | sdk/python/akernel_sdk/_dockercontext.py:937-939 | Restarting the star one character further loses no match |
| `SourceGlob.AtPathEnd` | sdk/python/akernel_sdk/_dockercontext.py:941-941 | At the end of the path a match is left exactly when only stars are |
| `SourceGlob.GlobMatches` | sdk/python/akernel_sdk/_dockercontext.py:896-907 | A path matches exactly when it has as many segments as the pattern and each segment matches |
| `SourceGlob.ParseCharacterClass` | sdk/python/akernel_sdk/_dockercontext.py:859-893 | The class parser computes the declared parse; a success advances, ends just past a `]` and has at least one range |
| `SourceGlob.CompileGlobSegment` | sdk/python/akernel_sdk/_dockercontext.py:841-856 | The segment compiler computes the declared token list or fails on a malformed class |
| `SourceGlob.CompilePrint` | sdk/python/akernel_sdk/_dockercontext.py:841-893 | Printing a well-formed token list and compiling the text gives the same tokens back |
| `SourceGlob.ClassReadBack` | sdk/python/akernel_sdk/_dockercontext.py:859-893 | A printed source class is parsed back to the same class, and the parser ends just past it |
| `SourceGlob.CompiledPrintable` | sdk/python/akernel_sdk/_dockercontext.py:841-893 | Conversely every compiled token list is well formed, so the round trip covers all compiler outputs |
| `SourceSpelling.CompiledExactly` | sdk/python/akernel_sdk/_dockercontext.py:841-893 | The segment compiler accepts exactly the texts that spell a token list (characters, and classes of single characters and ranges), and gives the tokens they spell |
| `Selection.NormalizeSourceMeaning` | sdk/python/akernel_sdk/_dockercontext.py:796-818 | Exactly the empty, absolute, climbing, NUL and backslash sources are rejected; anything else normalises to `.` or to the clean path of its meaningful segments, and normalising again changes nothing |
| `Selection.FromContext` | sdk/python/akernel_sdk/_dockercontext.py:118-135 | A manifest is built exactly for valid walks, lists the walk in string order, and its visible entries are exactly the visible ones |
| `Selection.ValidateDistinct` | sdk/python/akernel_sdk/_dockercontext.py:952-968 | For entries with distinct sources only a target collision is reported, exactly when two targets collide |
| `Selection.RelativeInjective` | sdk/python/akernel_sdk/_dockercontext.py:158-189 | Stripping one directory prefix is injective |
| `Selection.SelectWithinDistinct` | sdk/python/akernel_sdk/_dockercontext.py:158-189 | The entries at or below one directory get pairwise distinct sources and targets |
| `Selection.WithinClosed` | sdk/python/akernel_sdk/_dockercontext.py:158-189 | Every proper ancestor of a target selected below a directory is itself a selected directory target |
| `Selection.DotSelection` | sdk/python/akernel_sdk/_dockercontext.py:137-153 | Selecting `.` takes every visible entry, in manifest order, each with its own path as target, kind and mode; it fails exactly when nothing is visible, as ignored when something is listed and unmatched otherwise |
| `Selection.LiteralSelection` | sdk/python/akernel_sdk/_dockercontext.py:158-189 | A literal source is selected exactly when it is visible, refused as ignored or unmatched otherwise; a file gives its one entry under the last segment of the source, a directory exactly the visible entries at and below it, each under the segments that follow the directory, sorted by source |
| `WildcardSelection.MatchesAntichain` | sdk/python/akernel_sdk/_dockercontext.py:896-907 | No match of a pattern lies below another |
| `WildcardSelection.OneMatchAbove` | sdk/python/akernel_sdk/_dockercontext.py:896-907 | A path lies at or below at most one match |
| `WildcardSelection.MatchesByKind` | sdk/python/akernel_sdk/_dockercontext.py:200-234 | The visible matches are the visible matching directories and files together, so counting them separately counts every match once |
| `WildcardSelection.TopDirectories` | sdk/python/akernel_sdk/_dockercontext.py:199-211 | The prefix test drops none of the matching directories |
| `WildcardSelection.CollectBelow` | sdk/python/akernel_sdk/_dockercontext.py:213-223 | Each visible entry below the matching directories is collected, each source once |
| `WildcardSelection.CollectMatches` | sdk/python/akernel_sdk/_dockercontext.py:191-245 | The collected entries are exactly those at or below a visible matching directory and the visible matching files, each source once, and the count is the number of visible matches |
| `WildcardSelection.CollisionExactly` | sdk/python/akernel_sdk/_dockercontext.py:952-968 | The check of the collected entries fails exactly when two of them share a target other than the destination |
| `WildcardSelection.WildcardTargets` | sdk/python/akernel_sdk/_dockercontext.py:191-245 | A wildcard selection is closed: each proper ancestor of a non-empty target is a selected directory target |
| `WildcardSelection.SelectWildcard` | sdk/python/akernel_sdk/_dockercontext.py:191-245 | The exact outcome: bad pattern, no match, everything ignored, two targets colliding, or the declared contents in source order with the right count |
| `WildcardSelection.Select` | sdk/python/akernel_sdk/_dockercontext.py:137-156 | The outcome is the declared one; a selection holds exactly what the text of its source names (everything visible, the file, the directory and what is below it, or what stands for the pattern its segments spell), and a refusal has the reason told from the text; it is valid, a duplicate source is never reported, and colliding targets only for wildcards |
| `WildcardSelection.CompilePatternExactly` | sdk/python/akernel_sdk/_dockercontext.py:830-860 | A source compiles to the token lists that its segments spell, segment k giving glob k, and is refused exactly when a segment spells none |
| `WildcardSelection.DenotedHolds` | sdk/python/akernel_sdk/_dockercontext.py:137-245 | Whatever a source denotes holds what the text of the source names, entry by entry, with sources, targets, kinds and modes |
| `WildcardSelection.RefusedExactly` | sdk/python/akernel_sdk/_dockercontext.py:137-245 | Why a source is refused: forbidden text, nothing listed, nothing visible, an unreadable segment, no match, no visible match, or two entries for one target |
| `WildcardSelection.SelectsOnce` | sdk/python/akernel_sdk/_dockercontext.py:137-245 | The manifest and the source determine the outcome, entry by entry |
| `WildcardSelection.ContentsDetermineOrder` | sdk/python/akernel_sdk/_dockercontext.py:952-968 | Entries sorted by distinct sources are determined by their set |
| `AbsolutePaths.NormPathCanonical` | sdk/python/akernel_sdk/_dockerfile_runner.py:452-468 | Normalising an absolute path without `..` gives one or two leading slashes followed by clean segments |
| `CopyPlan.DestinationMeaning` | sdk/python/akernel_sdk/_dockerfile_runner.py:452-468 | In an absolute working directory a destination exists exactly when it, and the directory it is relative to, neither climbs nor holds a NUL; a relative one lies at the segments of the directory followed by its own, an absolute one at its own, and exactly two leading slashes are kept |
| `AbsolutePaths.DirnameAbs` | sdk/python/akernel_sdk/_dockerfile_runner.py:512-523 | Dirname drops the last segment of a normalised path and keeps its leading slashes |
| `AbsolutePaths.WalkEndsExactly` | sdk/python/akernel_sdk/_dockerfile_runner.py:512-523 | The parent walk ends exactly when iterating dirname reaches the root |
| `AbsolutePaths.WalkEndsForOneSlash` | sdk/python/akernel_sdk/_dockerfile_runner.py:512-523 | From a normalised path the walk reaches the root if and only if the path has one leading slash; with two it never ends |
| `AbsolutePaths.VisitedAbove` | sdk/python/akernel_sdk/_dockerfile_runner.py:512-523 | The walk from a target meets only paths whose segments are a proper prefix of the target's |
| `CopyPlan.TargetBelow` | sdk/python/akernel_sdk/_dockerfile_runner.py:470-479 | A clean target below a normalised destination is accepted and appends its segments to the destination's |
| `CopyPlan.PlanAllShape` | sdk/python/akernel_sdk/_dockerfile_runner.py:291-348 | Plans of valid selections with a directory destination are the destination itself or paths below it, closed under parents |
| `CopyPlan.RelativeImpliesRemote` | sdk/python/akernel_sdk/_dockerfile_runner.py:490-511 | Distinct relative targets already give distinct remote paths, apart from shared markers |
| `CopyPlan.RelativeImpliesNoFileAbove` | sdk/python/akernel_sdk/_dockerfile_runner.py:512-523 | Distinct relative targets of parent-closed selections already exclude a planned file above another target |
| `CopyOutcome.LaterChecksNeverFire` | sdk/python/akernel_sdk/_dockerfile_runner.py:499-523 | After the relative-target test the collision test cannot fail, and the ancestor test fails exactly when a single file is laid onto the path `//` |
| `CopyOutcome.LaidOutChecks` | sdk/python/akernel_sdk/_dockerfile_runner.py:499-523 | So the two-loop check of a laid-out plan finds a file above a target exactly then, and is endless exactly for two leading slashes otherwise |
| `CopyPlan.CheckAbove` | sdk/python/akernel_sdk/_dockerfile_runner.py:512-523 | The walk above one target reports a file exactly when it meets one, and otherwise is endless exactly when it never reaches the root |
| `CopyPlan.ValidateCopyPlan` | sdk/python/akernel_sdk/_dockerfile_runner.py:481-523 | Exactly when each result is given, for any plan: empty, colliding relative targets, colliding destinations, a file above a target before any endless walk, an endless walk before any such file, or none of these |
| `CopyPreparation.Materialize` | sdk/python/akernel_sdk/_dockerfile_runner.py:538-574 | Staging succeeds exactly when every planned file can be read, and attaches to each file its own bytes |
| `CopyPreparation.PlanSelection` | sdk/python/akernel_sdk/_dockerfile_runner.py:291-348 | One selection is planned exactly when nothing is wrong with its targets, with the error that is the case otherwise; the several-paths error cannot occur for a valid selection |
| `CopyPreparation.PlanSelections` | sdk/python/akernel_sdk/_dockerfile_runner.py:291-348 | All selections are planned, in order, or the error of the first one that has an error is reported |
| `CopyPreparation.SelectSources` | sdk/python/akernel_sdk/_dockerfile_runner.py:280-290 | Every source is selected, or the first refused source is reported with its reason |
| `CopyOutcome.TargetsAcceptedExactly` | sdk/python/akernel_sdk/_dockerfile_runner.py:291-338 | A target is refused only when a single file is put onto the root itself |
| `CopyPreparation.PrepareCopy` | sdk/python/akernel_sdk/_dockerfile_runner.py:270-375 | The outcome is the declared one; an accepted plan is executable and carries exactly what the sources name, with kind, mode and bytes, to the destination itself or the target below it, with the entries of an archive exactly for an ADD of a named archive; every failure has its reason told from the instruction, the manifest and the context; the call does not return if and only if the destination keeps two leading slashes, nothing is wrong with the sources and it is not a lone file onto `//`, and a file above a target is reported if and only if it is such a lone file |
| `CopyOutcome.PreparesOnce` | sdk/python/akernel_sdk/_dockerfile_runner.py:270-375 | Manifest, instruction, working directory and readable files determine the outcome |
| `CopyOutcome.OutcomeExactly` | sdk/python/akernel_sdk/_dockerfile_runner.py:270-375 | The same exact conditions for the declared outcome |
| `CopyMeaning.PreparedMeaning` | sdk/python/akernel_sdk/_dockerfile_runner.py:270-375 | An accepted preparation lies where the destination says and its plans are exactly those of the entries its sources name, each at its place, files with their own bytes; the archive entries are those of the named file |
| `CopyMeaning.FailureMeaning` | sdk/python/akernel_sdk/_dockerfile_runner.py:270-375 | A preparation fails only for a climbing destination, the first source that selects nothing, a wildcard with several matches or a file onto the root without a directory, two entries for one target, a lone file onto `//`, or a file or archive that cannot be read |
| `CopyMeaning.EndlessMeaning` | sdk/python/akernel_sdk/_dockerfile_runner.py:499-523 | An endless preparation has a destination with two leading slashes and sources that can be laid out side by side, and is not a lone file onto `//` |
| `DoubleSlash.DoubleSlashDirectoryHangs` | sdk/python/akernel_sdk/_dockerfile_runner.py:452-523 | `COPY a //app/` on a context with the file `a` does not return |
| `DoubleSlash.DoubleSlashFileRejected` | sdk/python/akernel_sdk/_dockerfile_runner.py:452-523 | `COPY a //.` on the same context is rejected for a file above a target |
| `CopyExecution.CopyDirectories` | sdk/python/akernel_sdk/_dockerfile_runner.py:525-536 | The directories are exactly the parents of all targets and the planned directories, and every parent stands before its children |
| `CopyExecution.AddParents` | sdk/python/akernel_sdk/_dockerfile_runner.py:660-667 | The parent loop of one target adds exactly the directories between it and the root |
| `CopyExecution.SortedParentsFirst` | sdk/python/akernel_sdk/_dockerfile_runner.py:525-536 | Sorting by depth is what puts parents first |
| `CopyExecution.FilesAreNotDirectories` | sdk/python/akernel_sdk/_dockerfile_runner.py:525-536 | No planned file is also a planned directory |
| `CopyExecution.DirectoryStep` | sdk/python/akernel_sdk/_dockerfile_runner.py:412-413 | After the earlier directories, the next one can be made unless a file is in its way; a parent is never missing |
| `CopyExecution.CopiesAllowed` | sdk/python/akernel_sdk/_dockerfile_runner.py:414-419 | Once the directories exist, the files can be copied exactly when none of them is an existing directory |
| `CopyExecution.PlacedAfterCopy` | sdk/python/akernel_sdk/_dockerfile_runner.py:408-419 | After the copies the tree holds exactly the old paths and the planned ones, each with its staged bytes or unchanged |
| `CopyExecution.OverlayWithOwner` | sdk/python/akernel_sdk/_dockerfile_runner.py:420-450 | With `--chown`, owners change on exactly the planned files and the directories that did not exist |
| `CopyExecution.OverlayWithoutOwner` | sdk/python/akernel_sdk/_dockerfile_runner.py:420-450 | Without it, no owner changes |
| `CopyExecution.OverlayWellFormed` | sdk/python/akernel_sdk/_dockerfile_runner.py:377-450 | The resulting tree again has a directory above every path |
| `CopyExecution.Sandbox.MakeDirectories` | sdk/python/akernel_sdk/_dockerfile_runner.py:412-413 | The loop succeeds exactly when no file is in the way of a directory; a failure leaves a prefix made |
| `CopyExecution.Sandbox.CopyFiles` | sdk/python/akernel_sdk/_dockerfile_runner.py:414-419 | The loop succeeds exactly when each copy is allowed in its turn; a failure leaves a prefix copied |
| `CopyExecution.Sandbox.ChmodAll` | sdk/python/akernel_sdk/_dockerfile_runner.py:741-764 | Modes are set on every selected entry and on no marker, and no target is missing |
| `CopyExecution.Sandbox.ChownAll` | sdk/python/akernel_sdk/_dockerfile_runner.py:717-739 | The owner is set on every listed target, and none is missing |
| `CopyExecution.Sandbox.ApplyAttributes` | sdk/python/akernel_sdk/_dockerfile_runner.py:420-450 | Modes then owners turn the placed tree into the overlay |
| `CopyExecution.Sandbox.ExecutePreparedCopy` | sdk/python/akernel_sdk/_dockerfile_runner.py:377-450 | An accepted plan fails exactly on a clash between a planned path and the tree; on success the tree is the old one overlaid with exactly the planned files and directories, and on failure nothing outside the plan has changed |
| `CopyExecution.OverlayExists` | sdk/python/akernel_sdk/_dockerfile_runner.py:377-450 | Every executable plan has an overlay on every tree |
| `TarEntries.NormalizedTarPathClean` | sdk/python/akernel_sdk/_dockerfile_runner.py:607-627 | An accepted member path is a clean relative path |
| `TarEntries.TarPathExactly` | sdk/python/akernel_sdk/_dockerfile_runner.py:607-627 | A member name is refused exactly when it is empty, absolute or climbing, has a backslash or a control character, or names only the directory itself; otherwise the path has the meaningful segments of the name |
| `TarEntries.AncestorScan` | sdk/python/akernel_sdk/_dockerfile_runner.py:639-650 | The dirname walk over the index finds a file exactly when a proper ancestor of the entry is one |
| `TarEntries.DescendantScan` | sdk/python/akernel_sdk/_dockerfile_runner.py:651-658 | The prefix scan finds an entry exactly when one lies below the file |
| `TarEntries.ValidateTarEntries` | sdk/python/akernel_sdk/_dockerfile_runner.py:629-658 | An archive is accepted if and only if its paths are distinct and no file is a proper ancestor of an entry, whatever the order |
| `TarEntries.ReadTarEntries` | sdk/python/akernel_sdk/_dockerfile_runner.py:576-605 | Reading an archive yields the entries of its members, one for one, if and only if it can be listed, all members are files or directories with safe names, and they can be unpacked side by side |
| `Dockerfile.ParseDockerfile` | sdk/python/akernel_sdk/_dockerfile.py:227-402 | The loop over the instructions computes the declared result in both modes |
| `DockerfileText.NodeExactly` | sdk/python/akernel_sdk/_dockerfile.py:258-402 | Every node comes to exactly one of three things, told from its text: the instruction it is written as, nothing, or the refusal it calls for |
| `DockerfileText.CopyExactly` | sdk/python/akernel_sdk/_dockerfile.py:572-700 | COPY or ADD is emitted exactly when its arguments are paths and owners: the paths are the sources and, last, the destination, in order, the last owner counts, and only ADD is an ADD |
| `DockerfileText.CopyRefused` | sdk/python/akernel_sdk/_dockerfile.py:572-700 | Otherwise it is refused for another stage when the first bad argument asks for one, for a remote source when nothing comes before that, and for its syntax in all other cases |
| `DockerfileText.EnvExactly` | sdk/python/akernel_sdk/_dockerfile.py:703-771 | ENV is emitted exactly when it is `k=v` tokens, each name having the text after the first `=` of its last token, or one name and the words after it with single spaces; values use no variables |
| `DockerfileText.StartExactly` | sdk/python/akernel_sdk/_dockerfile.py:774-830 | CMD and ENTRYPOINT are emitted exactly as the array of strings whose first is not empty, or as the folded text |
| `DockerfileText.FromExactly` | sdk/python/akernel_sdk/_dockerfile.py:473-532 | The base image is the first argument that is no flag; the line is supported exactly as an image with no flag, no variable and at most an alias |
| `DockerfileText.ParsedReads` | sdk/python/akernel_sdk/_dockerfile.py:227-402 | A parse that succeeds has one FROM line; its instructions are the base image and then those of the nodes that have one, in node order, and its refusals those of the nodes that cannot be read, in node order |
| `DockerfileText.ParseFails` | sdk/python/akernel_sdk/_dockerfile.py:236-246 | In diagnostic mode a file is refused as a whole exactly when it does not have one FROM line |
| `DockerfileText.LaunchableExactly` | sdk/python/akernel_sdk/_dockerfile.py:405-447 | In both modes a file can be launched exactly when its one FROM line is supported and every node can be read; then the image is that of the line and there is something to build exactly when a node runs or copies |
| `Dockerfile.NodesStrictly` | sdk/python/akernel_sdk/_dockerfile.py:258-402 | From any state, lax parsing never fails and only extends the unsupported list; strict parsing fails with the first extension or gives the same result |
| `Dockerfile.StrictExactly` | sdk/python/akernel_sdk/_dockerfile.py:227-402 | Strict parsing succeeds exactly when lax parsing finds nothing unsupported, and then the results are equal; otherwise it raises the first reason |
| `Dockerfile.CheckModesAgree` | sdk/python/akernel_sdk/_dockerfile.py:405-447 | `check_direct_launch` gives the same verdict in both modes; strict reasons are the first lax reason |
| `Dockerfile.DistinctExactly` | sdk/python/akernel_sdk/_dockerfile.py:428-429 | The reasons are reported once each, in the order of their first occurrence |
| `Dockerfile.EmittedExecutable` | sdk/python/akernel_sdk/_dockerfile.py:572-859 | Whatever the parsers emit satisfies what the runner relies on: several sources only with a destination ending in a slash, absolute working directories, non-empty commands |
| `Dockerfile.ParsedConsistent` | sdk/python/akernel_sdk/_dockerfile.py:258-402 | The parser's `envs`, `workdir` and `user` are those its own instruction list leaves |
| `Dockerfile.AfterInForce` | sdk/python/akernel_sdk/_dockerfile_runner.py:161-186 | What replaying a list leaves is in force: the directory of the last WORKDIR or the root, the user of the last USER or none, and for each name the value of the last ENV that sets it |
| `Dockerfile.ParsedInForce` | sdk/python/akernel_sdk/_dockerfile.py:258-402 | So the fields of every parse are those in force at its end |
| `Dockerfile.LastStartInstructions` | sdk/python/akernel_sdk/_dockerfile.py:121-132 | The loop returns the last CMD and the last ENTRYPOINT |
| `Dockerfile.StartDeclared` | sdk/python/akernel_sdk/_dockerfile.py:140-163 | There is a start command exactly when a CMD or an ENTRYPOINT is declared |
| `Dockerfile.StartNamesProgram` | sdk/python/akernel_sdk/_dockerfile.py:140-163 | A start command names a program, and a shell-form ENTRYPOINT discards CMD |
| `Dockerfile.StartExactly` | sdk/python/akernel_sdk/_dockerfile.py:121-151 | The start command is the words of the last ENTRYPOINT followed by those of the last CMD, without the latter for a shell ENTRYPOINT or when there is no CMD; the words of the last CMD without an ENTRYPOINT; and none without either |
| `DockerfileRunner.Runner.ContextManifest` | sdk/python/akernel_sdk/_dockerfile_runner.py:229-241 | The manifest is built once, exactly for a valid walk, and every later use gets a manifest of the same context |
| `DockerfileRunner.Runner.PrepareAt` | sdk/python/akernel_sdk/_dockerfile_runner.py:145-159 | One copy is prepared in the working directory its predecessors leave, with the declared outcome |
| `DockerfileRunner.Runner.PrepareAll` | sdk/python/akernel_sdk/_dockerfile_runner.py:140-159 | The first pass prepares every copy in the working directory in force at its index, touches no operation, and fails only at a copy whose preparation comes to that failure, after preparing all earlier ones |
| `DockerfileRunner.Runner.Interpret` | sdk/python/akernel_sdk/_dockerfile_runner.py:166-186 | One instruction attempts exactly the operation due in the state its predecessors leave, and leaves the next state |
| `DockerfileRunner.Runner.ReplayAll` | sdk/python/akernel_sdk/_dockerfile_runner.py:161-193 | The second pass attempts the operations in order until the first failure, and at the end the state is that of the whole list |
| `DockerfileRunner.ReplayTrace` | sdk/python/akernel_sdk/_dockerfile_runner.py:161-186 | The operations of a replay, told from the list: each RUN runs its command in the environment and directory and as the user in force before it, each copy is the one prepared for it, each working directory is made, in order, and nothing else is asked for |
| `DockerfileRunner.TraceOnce` | sdk/python/akernel_sdk/_dockerfile_runner.py:161-186 | This leaves no choice: only one trace is told so |
| `DockerfileRunner.Runner.AppliedMeans` | sdk/python/akernel_sdk/_dockerfile_runner.py:104-214 | Whatever the application comes to, the sandbox saw the operations the instructions tell, up to the first failure, with every copy standing for its instruction in the directory in force before it, and then the start command in what is in force at the end; a failed first pass names the first copy that cannot be prepared |
| `DockerfileRunner.Runner.Apply` | sdk/python/akernel_sdk/_dockerfile_runner.py:104-214 | A file with unsupported instructions, and otherwise one without a base image, is refused, exactly; these and a failed first pass leave the operation trace unchanged; a failed instruction is the last one attempted; success is a full replay followed by the start command; and in each case the trace is the one told from the instructions |
| `TreeReplay.ReplayOnTree` | sdk/python/akernel_sdk/_dockerfile_runner.py:165-186 | A list without RUN, archives and climbing working directories on one file tree fails exactly at the first instruction the tree does not allow, and otherwise leaves the tree its overlays and directories, one after the other, lead to |
| `TreeReplay.MakeDirs` | sdk/python/akernel_sdk/_instance.py:154-162 | Making a working directory succeeds exactly when no file is at its place or above it, adds a directory everywhere on the way where there was nothing, and changes nothing when it fails |
| `TreeReplay.PlaceNormal` | sdk/python/akernel_sdk/_dockerfile_runner.py:799-802 | The place a plain WORKDIR spelling names is its normal form, but for a second leading slash |
| `TreeReplay.LeadsToOnce` | sdk/python/akernel_sdk/_dockerfile_runner.py:165-186 | That tree is determined |
| `TreeReplay.TraceFollowsTree` | sdk/python/akernel_sdk/_dockerfile_runner.py:165-186 | When operations fail exactly as the tree disallows them, the operations of a prefix succeed exactly when its instructions can all be carried out on the tree |
| `TreeReplay.TraceStopsAtClash` | sdk/python/akernel_sdk/_dockerfile_runner.py:165-186 | And the first operation to fail is the first clash |
| `FileOnly.PreparedOnlyFiles` | sdk/python/akernel_sdk/_dockerfile_runner.py:140-159 | Everything the first pass prepares for a list without RUN, archive ADDs and climbing working directories can be replayed on a tree |
| `FileOnly.PlacedIsWritten` | sdk/python/akernel_sdk/_dockerfile_runner.py:270-375 | What a copy places at a path, told from its sources and destination, it writes there, with the bytes of the context file, which the ignore patterns do not exclude |
| `FileOnly.WrittenIsPlaced` | sdk/python/akernel_sdk/_dockerfile_runner.py:270-375 | Conversely every file a copy writes is one that its sources name, at its place |
| `FileOnly.FinalFiles` | sdk/python/akernel_sdk/_dockerfile_runner.py:165-186 | In the tree a list leads to, each path shows the bytes of the last copy that plans a file there, and without one what was there before |
| `FileOnly.ReplayedFiles` | sdk/python/akernel_sdk/_dockerfile_runner.py:140-186 | Each path of that tree shows the bytes of the context file that the last copy placing one there puts there, and without one what was there before |
| `FileOnly.AppliedFiles` | sdk/python/akernel_sdk/_dockerfile_runner.py:104-214 | From context and ignore patterns to file contents: an applied file-only Dockerfile leaves the tree its prepared copies and working directories lead to, with every path explained by the last copy placing a context file there; one that fails in the second pass fails at the first clash |
| `ExtraConfig.Normalizer.Normalize` | sdk/python/akernel_sdk/sandbox.py:94-129 | On every finite heap the recursion ends, gives the declared result, and restores the set of active containers on every exit |
| `ExtraConfig.NormalizedExactly` | sdk/python/akernel_sdk/sandbox.py:82-133 | Normalisation succeeds with a structure if and only if that structure is the finite JSON unfolding of the value; sharing is allowed |
| `ExtraConfig.NormalExactly` | sdk/python/akernel_sdk/sandbox.py:82-133 | Normalisation succeeds if and only if no chain of references from the value comes back to a container and every reachable value is JSON, with text keys and finite numbers |
| `ExtraConfig.RejectionMeansOffender` | sdk/python/akernel_sdk/sandbox.py:94-129 | A rejection for another reason than a cycle is given only for a reachable value that is not JSON |
| `ExtraConfig.UnfoldsUnique` | sdk/python/akernel_sdk/sandbox.py:82-133 | A value has at most one unfolding |
| `ExtraConfig.SuccessMeansAcyclic` | sdk/python/akernel_sdk/sandbox.py:103-129 | After a success no chain of references from the value visits an object twice |
| `ExtraConfig.CircularMeansCycle` | sdk/python/akernel_sdk/sandbox.py:103-129 | The circular rejection is given only when some chain of references comes back to itself |
| `ExtraConfig.NormalizeExtraConfig` | sdk/python/akernel_sdk/sandbox.py:82-133 | Nothing given is the empty object; a value that is not a mapping is refused as such; a mapping gives its unfolding if and only if it is acyclic and JSON throughout, and is invalid and has no unfolding otherwise |
| `SandboxKill.Session.Close` | sdk/python/akernel_sdk/_backends/openyuanrong_sandbox.py:429-437 | Closing attempts the native close once, marks the session closed even when it raises, and does nothing afterwards |
| `SandboxKill.Session.Terminate` | sdk/python/akernel_sdk/_backends/openyuanrong_sandbox.py:403-427 | Terminating closes first, then deletes; only a successful delete marks the session terminated, and a close error is raised last |
| `SandboxKill.Sandbox.Kill` | sdk/python/akernel_sdk/sandbox.py:617-668 | One kill moves the whole state as the declared step does, with its result |
| `SandboxKill.Sandbox.Rollback` | sdk/python/akernel_sdk/sandbox.py:422-438 | The constructor's rollback closes before it deletes, once each, and leaves the handle closed |
| `SandboxKill.KillKeeps` | sdk/python/akernel_sdk/sandbox.py:617-668 | Every kill, under any failures, keeps the invariant relating the flags to the trace |
| `SandboxKill.KillsAreSafe` | sdk/python/akernel_sdk/sandbox.py:617-668 | Over any sequence of kills with any failures: the native and the PTY close are attempted at most once, a close precedes every delete, the delete succeeds at most once and is the last, and a detached handle never deletes |
| `SandboxKill.DisciplinedOrdered` | sdk/python/akernel_sdk/_backends/openyuanrong_sandbox.py:403-437 | The step-wise discipline of the trace gives the order for all pairs of events |
| `SandboxKill.NormalReturnMeansReleased` | sdk/python/akernel_sdk/sandbox.py:617-668 | A kill that returns normally has closed everything and, unless detached, deleted; every later kill returns normally and does nothing |
| `SandboxKill.DeleteRetriedExactly` | sdk/python/akernel_sdk/sandbox.py:617-668 | A kill attempts exactly one delete when the handle is not detached and none has succeeded yet, and none otherwise |
| `SandboxKill.NormalReturnExactly` | sdk/python/akernel_sdk/sandbox.py:617-668 | Exactly which failures make a kill raise, after any history |
| `PtyTransport.ReaderStepKeeps` | sdk/python/akernel_sdk/_pty_transport.py:186-304 | Every step of the reader thread keeps the invariant and loses nothing already decided |
| `PtyTransport.StepKeeps` | sdk/python/akernel_sdk/_pty_transport.py:112-304 | Every step of any thread keeps the invariant |
| `PtyTransport.RunInvariant` | sdk/python/akernel_sdk/_pty_transport.py:112-304 | The invariant holds in every state of every interleaving |
| `PtyTransport.RunGrows` | sdk/python/akernel_sdk/_pty_transport.py:112-304 | Between any two states of a run the events stay set, and error, exit code and received frames are only extended |
| `PtyTransport.OutcomeIsFinal` | sdk/python/akernel_sdk/_pty_transport.py:253-304 | Done is never cleared; once it is set, error and exit code never change; each is written at most once |
| `PtyTransport.OutcomeIsConsistent` | sdk/python/akernel_sdk/_pty_transport.py:186-304 | Error and exit code are never both set, and a finished reader leaves ready and done set |
| `PtyTransport.CallsTellTheTruth` | sdk/python/akernel_sdk/_pty_transport.py:112-184 | Start returns only with a session id; wait returns n only after an exited frame with n and without an error; a raised error is the recorded one; the no-exit-status error cannot occur |
| `PtyTransport.WaitsAgree` | sdk/python/akernel_sdk/_pty_transport.py:130-143 | After one wait has returned a code, every call to wait, begun before or after, is still waiting, has returned the same code, or has timed out |
| `PtyTransport.WaitStaysWait` | sdk/python/akernel_sdk/_pty_transport.py:130-143 | A call to wait ends only with a code, a timeout, the recorded error, or the report of a closed or missing status |
| `PtyEffects.RunEffective` | sdk/python/akernel_sdk/_pty_transport.py:186-294 | In every state of every run each received frame has had its effect or the reader is in the middle of it, nothing is recorded without a frame, and no frame is received after one that ends the session |
| `PtyEffects.OutcomeFromFrames` | sdk/python/akernel_sdk/_pty_transport.py:253-304 | Once done the outcome is what the frames say: an exited frame gives its code and no error, an error frame, a bad frame or a failed callback its cause; and without such a frame there is no code and no error but that of a lost connection or thread |
| `PtyEffects.SessionFromFrames` | sdk/python/akernel_sdk/_pty_transport.py:253-289 | The session is that of the last frame that names one, and once a started frame has been handled the callers of start are released |
| `PtyEffects.WaitTellsFrames` | sdk/python/akernel_sdk/_pty_transport.py:130-143 | Every call to wait, begun before or after, that is back without a timeout has the code of the exited frame, or the error of the frame that ended the session |
| `PtyEffects.StartTimeoutCloses` | sdk/python/akernel_sdk/_pty_transport.py:112-119 | A call to start that times out has closed the connection |
| `PtyEffects.SendAfterDoneFails` | sdk/python/akernel_sdk/_pty_transport.py:165-184 | A send that begins after done never succeeds, and fails with the recorded error if there is one |
| `PtyEffects.SendFoundConnection` | sdk/python/akernel_sdk/_pty_transport.py:165-184 | A send that wrote found a connection before |
| `PtyEffects.ConnectionShown` | sdk/python/akernel_sdk/_pty_transport.py:199-247 | Throughout the session, from the published connection to its clean-up, there is a connection to send on, and none before and after |
| `PtyEffects.BrokenConnectionReported` | sdk/python/akernel_sdk/_pty_transport.py:237-250 | A connection that breaks before anything is decided is reported as broken, unless the client closed it |
| `PtyEffects.ReaderStepAdvances` | sdk/python/akernel_sdk/_pty_transport.py:186-250 | Every step of the reader receives one frame or leaves it fewer steps |
| `PtyEffects.ReaderCanStep` | sdk/python/akernel_sdk/_pty_transport.py:186-250 | A started reader always has a next step until it has finished |
| `PtyEffects.ReaderEnds` | sdk/python/akernel_sdk/_pty_transport.py:186-250 | Between two states of a run the reader takes at most its remaining steps and six for each frame received, so it finishes when nothing more arrives |

## Left out

- Visibility.VisibleEntriesWithAncestors: requires an accepted walk, because its only caller has just validated it; on an absolute path the source's own ancestor loop would not end.
- TarEntries.ValidateTarEntries: requires clean member paths, which `_normalize_tar_path` has produced before (`TarEntries.NormalizedTarPathClean`).
- CopyPreparation.PrepareCopy: requires that several sources come with a destination ending in a slash, which is the parser's rule (`Dockerfile.EmittedExecutable`); what its plans carry and why it fails is told for an absolute working directory, which the parser also guarantees; what the archive library lists in the staged bytes is a parameter.
- Dockerfile.ParseDockerfile: the library functions it uses (white-space trimming, shell-like splitting, JSON arrays, the patterns for names and values) are parameters collected in `Text`; non-blank text is assumed to split into at least one token when it splits at all.
- IgnoreCompile.CompileIgnorePattern: the Unicode test for alphanumeric escapes is a parameter `alnum`.
- DockerfileRunner.Runner.Apply: whether an operation of the sandbox fails is a parameter; `TreeReplay` ties it to one file tree for lists that only handle files, but what RUN commands do to files is not modelled.
- TreeReplay.ReplayOnTree: leaves out lists with RUN, with an ADD that extracts an archive, and with a WORKDIR spelled with `..` or NUL, which would create the directories it climbs out of or fail in the operating system.
- CopyExecution.Sandbox.MakeDir: demands an existing parent, which the sandbox's own operation does not, so that executing a plan is shown never to lack one; `TreeReplay.MakeDirs` models the operation itself.
- CopyExecution.Sandbox.ExecutePreparedCopy: setting a mode or an owner fails only when the path is missing; the mode and owner of new files and directories are fixed constants.
- CopyExecution.CopyDirectories: the order among directories of equal depth is not stated; any order with parents first serves.
- ExtraConfig.NormalizeExtraConfig: a mapping is a list of distinct keys with values on an explicit finite heap; the read-only wrapper and error paths are not modelled.
- PtyTransport.CallsTellTheTruth: the connection is a state machine on values whose steps are those of the reader thread and of the callers, not a class with two threads; `asyncio.run` failing after the coroutine has ended, and write timeouts beyond success or failure are not modelled.
- SandboxKill.Sandbox.Kill: a handle that never got a session is not modelled; neither are the warnings logged for secondary errors.
- Reading the context from disk (`LocalDockerContext`, descriptor checks, `os.walk`) and reading the ignore file (line splitting, byte-order mark, UTF-8): the walk and the patterns are inputs.
- Type checks of values that are not entries or strings, and the wording of errors and warnings.
- The archive branch of ADD in the second pass: the symbolic-link test, extraction, and ownership of extracted members.
- Shell text (`wrap_user`, chmod and chown commands, quoting) beyond which target each operation touches.
- Stability of sorting: orders are stated as sortedness and equal contents.
- Network policies, ports, mounts, resource views, other backends, the CLI and the deployment scripts: thin validation that would add only easy members.
