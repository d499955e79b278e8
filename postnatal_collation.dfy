/** `find_files` of the postnatal script: for each specimen number, walk the
    storage roots in their fixed order, copy every matching CEL file whose
    name is free, and warn unless exactly one file was copied. */
module PostnatalCollation {

  import opened FileSystem

  /** A console message of `find_files`. */
  datatype Report =
    | NotAFolder(root: nat)                 // the root at this index is not a directory
    | CountWarning(spec: string, count: nat) // a number of copies other than one

  /** The scan of the roots for one specimen number: the folder afterwards,
      the number of files copied, and the not-a-folder reports. */
  function ScanRoots(files: map<string, Entry>, roots: seq<Root>, spec: string): (map<string, Entry>, nat, seq<Report>)
  {
    if |roots| == 0 then (files, 0, [])
    else
      var (f, count, reports) := ScanRoots(files, roots[..|roots| - 1], spec);
      match roots[|roots| - 1]
      case NotADirectory => (f, count, reports + [NotAFolder(|roots| - 1)])
      case Directory(walk) =>
        var (g, copied) := CopyNew(f, walk, spec, "CEL");
        (g, count + copied, reports)
  }

  /** One specimen number: the scan, then a warning when the count is not 1. */
  function SpecStep(files: map<string, Entry>, roots: seq<Root>, spec: string): (map<string, Entry>, seq<Report>)
  {
    var (f, count, reports) := ScanRoots(files, roots, spec);
    (f, reports + if count != 1 then [CountWarning(spec, count)] else [])
  }

  /** All specimen numbers in order. */
  function PostnatalCollate(files: map<string, Entry>, roots: seq<Root>, specs: seq<string>): (map<string, Entry>, seq<Report>)
  {
    if |specs| == 0 then (files, [])
    else
      var (f, log) := PostnatalCollate(files, roots, specs[..|specs| - 1]);
      var (g, reports) := SpecStep(f, roots, specs[|specs| - 1]);
      (g, log + reports)
  }

  /** The loop of `find_files` over the specimen numbers, with the messages
      printed, in order. */
  method FindFiles(specs: seq<string>, roots: seq<Root>, out: Folder) returns (log: seq<Report>)
    modifies out
    ensures (out.files, log) == PostnatalCollate(old(out.files), roots, specs)
  {
    log := [];
    for k := 0 to |specs|
      invariant (out.files, log) == PostnatalCollate(old(out.files), roots, specs[..k])
    {
      assert specs[..k + 1][..k] == specs[..k];
      var reports := CollateSpecimen(specs[k], roots, out);
      log := log + reports;
    }
    assert specs[..|specs|] == specs;
  }

  /** The body of that loop for one specimen number: the folders in turn,
      `count` summed over them, then the warning when it is not 1. */
  method CollateSpecimen(spec: string, roots: seq<Root>, out: Folder) returns (reports: seq<Report>)
    modifies out
    ensures (out.files, reports) == SpecStep(old(out.files), roots, spec)
  {
    ghost var before := out.files;
    var count := 0;
    reports := [];
    for r := 0 to |roots|
      invariant (out.files, count, reports) == ScanRoots(before, roots[..r], spec)
    {
      assert roots[..r + 1][..r] == roots[..r] && roots[..r + 1][r] == roots[r];
      if roots[r].Directory? {
        var copied := CopyFromTree(spec, roots[r].walk, out);
        count := count + copied;
      } else {
        reports := reports + [NotAFolder(r)];
      }
    }
    assert roots[..|roots|] == roots;
    ghost var scanned := reports;
    assert ScanRoots(before, roots, spec) == (out.files, count, scanned);
    if count != 1 {
      reports := reports + [CountWarning(spec, count)];
    }
    assert reports == scanned + if count != 1 then [CountWarning(spec, count)] else [];
  }

  /** The `os.walk` loops over one folder: every matching file whose name is
      free is copied and counted. */
  method CopyFromTree(spec: string, walk: seq<Entry>, out: Folder) returns (copied: nat)
    modifies out
    ensures (out.files, copied) == CopyNew(old(out.files), walk, spec, "CEL")
  {
    ghost var atRoot := out.files;
    copied := 0;
    for i := 0 to |walk|
      invariant (out.files, copied) == CopyNew(atRoot, walk[..i], spec, "CEL")
    {
      var file := walk[i];
      assert walk[..i + 1][..i] == walk[..i] && walk[..i + 1][i] == file;
      if Matches(spec, "CEL", file.name) {
        if file.name !in out.files {
          out.CopyFile(file, file.name);
          copied := copied + 1;
        }
      }
    }
    assert walk[..|walk|] == walk;
  }


  /** The names matching the specimen number in the roots that are
      directories. */
  function RootMatches(roots: seq<Root>, spec: string): set<string>
  {
    if |roots| == 0 then {}
    else
      RootMatches(roots[..|roots| - 1], spec) +
        match roots[|roots| - 1]
        case NotADirectory => {}
        case Directory(walk) => MatchNames(walk, spec, "CEL")
  }

  /** Names added in two steps, counted once each. */
  lemma AddedInTwoSteps(a: set<string>, b: set<string>, c: set<string>)
    requires a <= b <= c
    ensures |c - a| == |c - b| + |b - a|
  {
    assert c - a == (c - b) + (b - a);
    assert (c - b) * (b - a) == {};
  }

  /** The scan over one more root. */
  lemma ScanRootsLast(files: map<string, Entry>, roots: seq<Root>, spec: string)
    requires |roots| > 0
    ensures var last := roots[|roots| - 1];
      var prev, cur := ScanRoots(files, roots[..|roots| - 1], spec), ScanRoots(files, roots, spec);
      && (last.NotADirectory? ==> cur.0 == prev.0 && cur.1 == prev.1)
      && (last.Directory? ==> var (g, copied) := CopyNew(prev.0, last.walk, spec, "CEL"); cur.0 == g && cur.1 == prev.1 + copied)
      && RootMatches(roots, spec) == RootMatches(roots[..|roots| - 1], spec) + (if last.Directory? then MatchNames(last.walk, spec, "CEL") else {})
  {
  }

  /** The scan never overwrites a file already in the folder. */
  lemma {:induction false} ScanRootsKeeps(files: map<string, Entry>, roots: seq<Root>, spec: string)
    ensures var f := ScanRoots(files, roots, spec).0;
      forall n :: n in files ==> n in f && f[n] == files[n]
  {
    if |roots| > 0 {
      var init := roots[..|roots| - 1];
      ScanRootsKeeps(files, init, spec);
      ScanRootsLast(files, roots, spec);
      if roots[|roots| - 1].Directory? {
        CopyNewKeeps(ScanRoots(files, init, spec).0, roots[|roots| - 1].walk, spec, "CEL");
      }
    }
  }

  /** Every root is scanned, with no early exit: the folder gains exactly the
      matching names of all the directory roots. */
  lemma {:induction false} ScanRootsNames(files: map<string, Entry>, roots: seq<Root>, spec: string)
    ensures ScanRoots(files, roots, spec).0.Keys == files.Keys + RootMatches(roots, spec)
  {
    if |roots| > 0 {
      var init := roots[..|roots| - 1];
      ScanRootsNames(files, init, spec);
      ScanRootsLast(files, roots, spec);
      if roots[|roots| - 1].Directory? {
        CopyNewNames(ScanRoots(files, init, spec).0, roots[|roots| - 1].walk, spec, "CEL");
      }
    }
  }

  /** `count` is the number of files actually copied: names the folder did
      not hold before. */
  lemma {:induction false} ScanRootsCount(files: map<string, Entry>, roots: seq<Root>, spec: string)
    ensures var (f, count, reports) := ScanRoots(files, roots, spec);
      files.Keys <= f.Keys && count == |f.Keys - files.Keys|
  {
    if |roots| > 0 {
      var init := roots[..|roots| - 1];
      ScanRootsCount(files, init, spec);
      ScanRootsLast(files, roots, spec);
      var f0 := ScanRoots(files, init, spec).0;
      if roots[|roots| - 1].Directory? {
        CopyNewCount(f0, roots[|roots| - 1].walk, spec, "CEL");
        AddedInTwoSteps(files.Keys, f0.Keys, ScanRoots(files, roots, spec).0.Keys);
      }
    }
  }

  /** Each root that is not a directory is reported once, in root order,
      and the scan reports nothing else. */
  lemma {:induction false} ScanRootsReports(files: map<string, Entry>, roots: seq<Root>, spec: string)
    ensures var reports := ScanRoots(files, roots, spec).2;
      && (forall k :: 0 <= k < |reports| ==> reports[k].NotAFolder? && reports[k].root < |roots|)
      && (forall a, b :: 0 <= a < b < |reports| ==> reports[a].root < reports[b].root)
      && (forall i :: 0 <= i < |roots| ==> (roots[i].NotADirectory? <==> NotAFolder(i) in reports))
  {
    if |roots| > 0 {
      var init := roots[..|roots| - 1];
      ScanRootsReports(files, init, spec);
      var (f0, c0, r0) := ScanRoots(files, init, spec);
      var reports := ScanRoots(files, roots, spec).2;
      assert forall i :: 0 <= i < |init| ==> roots[i] == init[i];
      match roots[|roots| - 1]
      case NotADirectory =>
        assert reports == r0 + [NotAFolder(|roots| - 1)];
      case Directory(walk) =>
        assert reports == r0;
    }
  }

  /** A warning for the specimen number is printed exactly when the number
      of files copied for it is not one, and it gives that number. */
  lemma WarningIffNotOne(files: map<string, Entry>, roots: seq<Root>, spec: string)
    ensures var (f, reports) := SpecStep(files, roots, spec);
      && ((exists c :: CountWarning(spec, c) in reports) <==> |f.Keys - files.Keys| != 1)
      && (|f.Keys - files.Keys| != 1 ==> CountWarning(spec, |f.Keys - files.Keys|) in reports)
  {
    ScanRootsCount(files, roots, spec);
    ScanRootsReports(files, roots, spec);
    var scanned := ScanRoots(files, roots, spec).2;
    assert forall r :: r in scanned ==> r.NotAFolder?;
  }

  /** When every matching file is already in the output folder nothing is
      copied, and the specimen number gets a warning with a count of zero. */
  lemma AlreadyPresentWarns(files: map<string, Entry>, roots: seq<Root>, spec: string)
    requires RootMatches(roots, spec) <= files.Keys
    ensures var (f, reports) := SpecStep(files, roots, spec);
      f == files && CountWarning(spec, 0) in reports
  {
    ScanRootsNames(files, roots, spec);
    ScanRootsCount(files, roots, spec);
    ScanRootsKeeps(files, roots, spec);
    var (f, count, scanned) := ScanRoots(files, roots, spec);
    assert f.Keys == files.Keys;
    assert f.Keys - files.Keys == {};
  }

  /** The matching names of every specimen number. */
  function AllMatches(roots: seq<Root>, specs: seq<string>): set<string>
  {
    if |specs| == 0 then {}
    else AllMatches(roots, specs[..|specs| - 1]) + RootMatches(roots, specs[|specs| - 1])
  }

  /** After all specimen numbers the output folder holds what it held and
      every matching file of every specimen number, and nothing else. */
  lemma {:induction false} PostnatalCollateContents(files: map<string, Entry>, roots: seq<Root>, specs: seq<string>)
    ensures var (f, log) := PostnatalCollate(files, roots, specs);
      && (forall n :: n in files ==> n in f && f[n] == files[n])
      && f.Keys == files.Keys + AllMatches(roots, specs)
  {
    if |specs| > 0 {
      PostnatalCollateContents(files, roots, specs[..|specs| - 1]);
      var (f0, log0) := PostnatalCollate(files, roots, specs[..|specs| - 1]);
      ScanRootsKeeps(f0, roots, specs[|specs| - 1]);
      ScanRootsNames(f0, roots, specs[|specs| - 1]);
    }
  }

  /** Two different files matching one specimen number in the same root are
      both copied into an empty folder, and the count of two draws a
      warning. */
  lemma TwoMatchesWarn(spec: string, root: string, m1: string, m2: string)
    requires |m1| > 0 && |m2| > 0 && NoNewline(m1) && NoNewline(m2) && m1 != m2
    ensures var walk := [Entry(root, spec + m1 + "CEL"), Entry(root, spec + m2 + "CEL")];
      var (f, reports) := SpecStep(map[], [Directory(walk)], spec);
      |f| == 2 && reports == [CountWarning(spec, 2)]
  {
    var n1, n2 := spec + m1 + "CEL", spec + m2 + "CEL";
    var walk := [Entry(root, n1), Entry(root, n2)];
    var roots := [Directory(walk)];
    MatchesBuilt(spec, m1, "CEL");
    MatchesBuilt(spec, m2, "CEL");
    assert n1[|spec|..|n1| - 3] == m1 && n2[|spec|..|n2| - 3] == m2;
    assert MatchNames(walk, spec, "CEL") == {n1, n2} by {
      assert walk[0].name == n1 && walk[1].name == n2;
    }
    ScanRootsLast(map[], roots, spec);
    assert roots[..0] == [];
    assert RootMatches(roots, spec) == {n1, n2};
    ScanRootsNames(map[], roots, spec);
    ScanRootsCount(map[], roots, spec);
    ScanRootsReports(map[], roots, spec);
    var (f, count, scanned) := ScanRoots(map[], roots, spec);
    assert f.Keys == {n1, n2};
    var empty: map<string, Entry> := map[];
    assert f.Keys - empty.Keys == {n1, n2};
    assert |f| == |f.Keys|;
    assert scanned == [];
  }
}
