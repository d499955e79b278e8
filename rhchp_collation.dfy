/** `find_files` of the prenatal script: for each specimen number, make sure
    the output folder holds its processed `.rhchp` file, copying every
    matching file of the input tree when none is there yet. */
module RhchpCollation {

  import opened FileSystem

  /** What happened for one specimen number. */
  datatype Outcome =
    | AlreadyCollated   // a matching name was already in the output folder
    | Collected         // matching files were found in the input tree
    | Missing           // nothing matched: the error message is printed

  /** Some name in the folder matches the specimen number. */
  predicate Collated(files: map<string, Entry>, spec: string)
  {
    exists n :: n in files && Matches(spec, "rhchp", n)
  }

  /** One specimen number: nothing is done when the output folder already
      has a match; otherwise the input tree is walked once, every matching
      file whose name is free is copied, and the specimen is missing when
      nothing matched. */
  function RhchpStep(files: map<string, Entry>, walk: seq<Entry>, spec: string): (map<string, Entry>, Outcome)
  {
    if Collated(files, spec) then (files, AlreadyCollated)
    else (CopyNew(files, walk, spec, "rhchp").0, if AnyMatch(walk, spec, "rhchp") then Collected else Missing)
  }

  /** All specimen numbers in order: the final folder and one outcome each. */
  function RhchpCollate(files: map<string, Entry>, walk: seq<Entry>, specs: seq<string>): (map<string, Entry>, seq<Outcome>)
  {
    if |specs| == 0 then (files, [])
    else
      var (f, log) := RhchpCollate(files, walk, specs[..|specs| - 1]);
      var (g, o) := RhchpStep(f, walk, specs[|specs| - 1]);
      (g, log + [o])
  }

  /** The loop of `find_files` over the specimen numbers. */
  method FindFiles(specs: seq<string>, walk: seq<Entry>, out: Folder) returns (log: seq<Outcome>)
    modifies out
    ensures (out.files, log) == RhchpCollate(old(out.files), walk, specs)
  {
    log := [];
    for k := 0 to |specs|
      invariant (out.files, log) == RhchpCollate(old(out.files), walk, specs[..k])
    {
      assert specs[..k + 1][..k] == specs[..k];
      var outcome := CollateSpecimen(specs[k], walk, out);
      log := log + [outcome];
    }
    assert specs[..|specs|] == specs;
  }

  /** The body of that loop for one specimen number: a scan of the output
      folder's names, then a `while not found` loop whose body walks the
      input tree once and either finds a match or reports and leaves. */
  method CollateSpecimen(spec: string, walk: seq<Entry>, out: Folder) returns (outcome: Outcome)
    modifies out
    ensures (out.files, outcome) == RhchpStep(old(out.files), walk, spec)
  {
    ghost var before := out.files;
    var found := ScanOutputFolder(spec, out.files.Keys);
    var alreadyCollated := found;
    while !found
      invariant alreadyCollated ==> found && out.files == before
      invariant !found ==> out.files == before
      invariant !alreadyCollated && found ==> out.files == CopyNew(before, walk, spec, "rhchp").0 && AnyMatch(walk, spec, "rhchp")
      decreases if found then 0 else 1
    {
      found := CopyMatches(spec, walk, out);
      if !found {
        CopyNewNothing(before, walk, spec, "rhchp");
        break;
      }
    }
    outcome := if alreadyCollated then AlreadyCollated else if found then Collected else Missing;
  }

  /** The `os.listdir` loop: whether some name in the output folder matches
      the specimen number. */
  method ScanOutputFolder(spec: string, names: set<string>) returns (found: bool)
    ensures found <==> exists n :: n in names && Matches(spec, "rhchp", n)
  {
    found := false;
    var left := names;
    while left != {}
      invariant left <= names
      invariant found <==> exists n :: n in names - left && Matches(spec, "rhchp", n)
      decreases |left|
    {
      var n :| n in left;
      if Matches(spec, "rhchp", n) {
        found := true;
      }
      left := left - {n};
    }
  }

  /** One pass of the `os.walk` loops: every matching file is copied unless
      its name is already in the output folder, and `found` is set by any
      match, copied or not. */
  method CopyMatches(spec: string, walk: seq<Entry>, out: Folder) returns (found: bool)
    modifies out
    ensures out.files == CopyNew(old(out.files), walk, spec, "rhchp").0
    ensures found <==> AnyMatch(walk, spec, "rhchp")
  {
    ghost var before := out.files;
    found := false;
    for i := 0 to |walk|
      invariant out.files == CopyNew(before, walk[..i], spec, "rhchp").0
      invariant found <==> AnyMatch(walk[..i], spec, "rhchp")
    {
      var file := walk[i];
      assert walk[..i + 1][..i] == walk[..i] && walk[..i + 1][i] == file;
      if Matches(spec, "rhchp", file.name) {
        if file.name !in out.files {
          out.CopyFile(file, file.name);
        }
        found := true;
      }
      assert AnyMatch(walk[..i + 1], spec, "rhchp") <==> AnyMatch(walk[..i], spec, "rhchp") || Matches(spec, "rhchp", file.name);
    }
    assert walk[..|walk|] == walk;
  }

  /** One specimen number: an existing match means nothing is done; a
      missing one means nothing matched anywhere and nothing changes;
      otherwise every matching name of the input tree is in the folder
      afterwards (not only the first, despite the comment in the script).
      Files already there are never overwritten. */
  lemma RhchpStepMeaning(files: map<string, Entry>, walk: seq<Entry>, spec: string)
    ensures var (f, o) := RhchpStep(files, walk, spec);
      && (o == AlreadyCollated <==> Collated(files, spec))
      && (o == Missing <==> !Collated(files, spec) && !AnyMatch(walk, spec, "rhchp"))
      && (o != Collected ==> f == files)
      && (o == Collected ==> f.Keys == files.Keys + MatchNames(walk, spec, "rhchp"))
      && (forall n :: n in files ==> n in f && f[n] == files[n])
      && (o != Missing <==> Collated(f, spec))
  {
    var (f, o) := RhchpStep(files, walk, spec);
    CopyNewKeeps(files, walk, spec, "rhchp");
    if !Collated(files, spec) {
      CopyNewNames(files, walk, spec, "rhchp");
      if AnyMatch(walk, spec, "rhchp") {
        var i :| 0 <= i < |walk| && Matches(spec, "rhchp", walk[i].name);
        assert walk[i].name in MatchNames(walk, spec, "rhchp");
        assert walk[i].name in f;
      } else {
        CopyNewNothing(files, walk, spec, "rhchp");
      }
    }
  }

  /** Over all specimen numbers: one outcome each; no file already in the
      output folder is overwritten; every specimen number that is not
      reported missing has a matching file in the final folder, and one
      reported missing matched nothing in the input tree. */
  lemma {:induction false} RhchpCollateResult(files: map<string, Entry>, walk: seq<Entry>, specs: seq<string>)
    ensures var (f, log) := RhchpCollate(files, walk, specs);
      && |log| == |specs|
      && (forall n :: n in files ==> n in f && f[n] == files[n])
      && (forall k :: 0 <= k < |specs| && log[k] != Missing ==> Collated(f, specs[k]))
      && (forall k :: 0 <= k < |specs| && log[k] == Missing ==> !AnyMatch(walk, specs[k], "rhchp"))
  {
    if |specs| > 0 {
      var init := specs[..|specs| - 1];
      var spec := specs[|specs| - 1];
      RhchpCollateResult(files, walk, init);
      var (f0, log0) := RhchpCollate(files, walk, init);
      var (f, o) := RhchpStep(f0, walk, spec);
      RhchpStepMeaning(f0, walk, spec);
      var log := log0 + [o];
      forall k | 0 <= k < |specs| && log[k] != Missing ensures Collated(f, specs[k]) {
        if k < |specs| - 1 {
          assert log[k] == log0[k] && specs[k] == init[k];
          var n :| n in f0 && Matches(specs[k], "rhchp", n);
          assert n in f;
        }
      }
      forall k | 0 <= k < |specs| && log[k] == Missing ensures !AnyMatch(walk, specs[k], "rhchp") {
        if k < |specs| - 1 {
          assert log[k] == log0[k] && specs[k] == init[k];
        }
      }
    }
  }
}
