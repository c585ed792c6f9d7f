/** Destinations with two leading slashes, at real instructions. */
module DoubleSlash {
  import opened Options
  import opened Paths
  import opened AbsolutePaths
  import opened Sequences
  import opened NormalPaths
  import opened ContextEntries
  import opened Selection
  import opened WildcardSelection
  import opened CopyPlan
  import opened CopyOutcome

  /** A context that holds one file, `a`. */
  const ONE_FILE := Manifest([Entry("a", File, 0x1a4)], [Entry("a", File, 0x1a4)])

  const FILE_A := Selection("a", LiteralFile, [Selected("a", "a", File, 0x1a4)], 1)

  lemma OneFileManifest()
    ensures ValidManifest(ONE_FILE)
    ensures Denotes(ONE_FILE, "a", FILE_A)
  {
    OneFileWalk();
    SplitAtom("a");
    assert Filter(["a"], Meaningful) == ["a"];
    assert NormalizeSource("a") == Source("a");
    OneFileLiteral();
  }

  lemma OneFileWalk()
    ensures ValidManifest(ONE_FILE)
  {
    AtomClean("a");
    NormPathOfClean("a");
  }

  lemma OneFileLiteral()
    ensures SelectLiteral(ONE_FILE, "a") == Chosen(FILE_A)
  {
    SplitAtom("a");
    DirnameSegments("a");
    assert ONE_FILE.raw[0].path == "a";
  }

  lemma OneFileSelected()
    ensures SelectsAll(ONE_FILE, ["a"], [FILE_A])
    ensures forall selections :: SelectsAll(ONE_FILE, ["a"], selections) ==> selections == [FILE_A]
  {
    OneFileManifest();
    forall selections | SelectsAll(ONE_FILE, ["a"], selections) ensures selections == [FILE_A] {
      SourcesSelectOnce(ONE_FILE, ["a"], Chosen(selections), Chosen([FILE_A]));
    }
  }

  /** An absolute destination, from its segments. */
  lemma DestinationFrom(p: string, comps: seq<string>, kept: seq<string>, normal: string)
    requires Split(p) == comps && Collapse(comps, true, []) == kept && LeadingSlashes(p) == "//"
    requires '\0' !in p && ".." !in comps && normal == "//" + Join(kept)
    ensures CopyDestination(p, "/") == Some(normal)
  {
    assert normal[0] == '/';
  }

  lemma SplitApp()
    ensures Split("//app/") == ["", "", "app", ""]
  {
    SplitAtom("app");
    SplitConcat("app", "");
    assert "app" + "/" + "" == "app/" && "/" + "app/" == "/app/" && "/" + "/app/" == "//app/";
    SplitSlash("app/");
    SplitSlash("/app/");
  }

  lemma SplitDot()
    ensures Split("//.") == ["", "", "."]
  {
    SplitAtom(".");
    assert "/" + "." == "/." && "/" + "/." == "//.";
    SplitSlash(".");
    SplitSlash("/.");
  }

  lemma CollapseApp()
    ensures Collapse(["", "", "app", ""], true, []) == ["app"]
  {
    var comps: seq<string> := ["", "", "app", ""];
    assert comps[1..] == ["", "app", ""] && comps[1..][1..] == ["app", ""] && ["app", ""][1..] == [""];
    assert Collapse([""], true, ["app"]) == ["app"];
    assert Collapse(["app", ""], true, []) == Collapse([""], true, [] + ["app"]);
  }

  lemma CollapseDot()
    ensures Collapse(["", "", "."], true, []) == []
  {
    var comps: seq<string> := ["", "", "."];
    assert comps[1..] == ["", "."] && comps[1..][1..] == ["."];
    assert Collapse(["."], true, []) == [];
  }

  lemma DoubleSlashApp()
    ensures CopyDestination("//app/", "/") == Some("//app")
  {
    SplitApp();
    CollapseApp();
    assert "//" + Join(["app"]) == "//app";
    DestinationFrom("//app/", ["", "", "app", ""], ["app"], "//app");
  }

  lemma DoubleSlashDot()
    ensures CopyDestination("//.", "/") == Some("//")
  {
    SplitDot();
    CollapseDot();
    DestinationFrom("//.", ["", "", "."], [], "//");
  }

  /** The file can be laid out at any destination with two leading slashes. */
  lemma FileLaysOut(ins: CopyInstruction, ds: seq<string>)
    requires ins.srcs == ["a"] && CleanParts(ds)
    ensures LaysOut(ONE_FILE, ins, Abs("//", ds), [FILE_A])
  {
    var dest, slash := Abs("//", ds), EndsInSlash(ins.dest);
    OneFileManifest();
    OneFileSelected();
    DenotedValid(ONE_FILE, "a", FILE_A);
    TargetsAcceptedExactly(ONE_FILE, FILE_A, "//", ds, slash);
    assert [FILE_A][1..] == [] && [FILE_A][..0] == [];
    assert FirstError([FILE_A], dest, slash) == None;
    assert PlanAll([], dest, slash) == [];
    assert |PlanAll([FILE_A], dest, slash)| == 1;
  }

  /** What the preparation of an instruction that copies the file must come to. */
  lemma FileOutcome(ins: CopyInstruction, files: ContextFiles) returns (r: PrepareOutcome)
    requires ins.srcs == ["a"] && CopyDestination(ins.dest, "/").Some?
    ensures forall q :: PreparesTo(ONE_FILE, ins, "/", files, q) <==> q == r
    ensures r.Hangs? <==> EndlessCopy(ONE_FILE, ins, "/")
    ensures r == Failed(Rejected(FileOverDescendant)) <==> OntoDoubleSlash(ONE_FILE, ins, "/")
  {
    OneFileManifest();
    OneFileSelected();
    var selected := Chosen([FILE_A]);
    assert SourcesSelectTo(ONE_FILE, ins.srcs, selected);
    r := SelectedOutcome(selected, CopyDestination(ins.dest, "/").value, ins, files);
    OutcomeExactly(ONE_FILE, ins, "/", files, r);
    forall q | PreparesTo(ONE_FILE, ins, "/", files, q) ensures q == r {
      PreparesOnce(ONE_FILE, ins, "/", files, q, r);
    }
  }

  lemma AppIsEndless(ins: CopyInstruction)
    requires LaysOut(ONE_FILE, ins, "//app", [FILE_A]) && CopyDestination(ins.dest, "/") == Some("//app")
    ensures EndlessCopy(ONE_FILE, ins, "/")
  {
    assert "//app"[..2] == "//" && "//app" != "//";
  }

  /** `COPY a //app/` keeps both slashes, so the preparation does not return. */
  lemma DoubleSlashDirectoryHangs(files: ContextFiles)
    ensures forall r :: PreparesTo(ONE_FILE, CopyInstruction(["a"], "//app/", None, false), "/", files, r) <==> r == Hangs
  {
    var ins := CopyInstruction(["a"], "//app/", None, false);
    DoubleSlashApp();
    AppLaysOut(ins);
    var r := FileOutcome(ins, files);
    AppIsEndless(ins);
  }

  lemma AppLaysOut(ins: CopyInstruction)
    requires ins.srcs == ["a"]
    ensures LaysOut(ONE_FILE, ins, "//app", [FILE_A])
  {
    SplitAtom("app");
    assert Abs("//", ["app"]) == "//app";
    FileLaysOut(ins, ["app"]);
  }

  /** `COPY a //.` lays the file onto `//`, above itself. */
  lemma DoubleSlashFileRejected(files: ContextFiles)
    ensures forall r :: PreparesTo(ONE_FILE, CopyInstruction(["a"], "//.", None, false), "/", files, r) <==>
                        r == Failed(Rejected(FileOverDescendant))
  {
    var ins := CopyInstruction(["a"], "//.", None, false);
    DoubleSlashDot();
    assert Abs("//", []) == "//";
    FileLaysOut(ins, []);
    var r := FileOutcome(ins, files);
    assert LoneFile([FILE_A], EndsInSlash(ins.dest));
    assert OntoDoubleSlash(ONE_FILE, ins, "/");
  }
}
