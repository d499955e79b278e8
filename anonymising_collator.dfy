/** `copy_files_with_no_syndrome_overlaps`: every sample of the call report
    whose processed file is present and none of whose calls lies over a
    syndromic region has its raw CEL file copied, under a random name, into
    the syndrome-free folder. */
module AnonymisingCollator {

  import opened Results
  import opened Genomic
  import opened FileSystem
  import opened CallReportLoader
  import opened OverlapClassifier
  import opened CelSearch

  /** What happened to one sample, standing for the console message or the
      copy the script makes. */
  datatype Decision =
    | Absent                          // the sample's file is not in the output folder
    | Skipped(hits: nat)              // a call overlaps a region; `hits` added to `skip`
    | NotFound                        // kept, but no CEL file was found
    | Copied(src: Entry, dest: string) // kept and copied to `dest`

  /** Everything the collation reads: the call table, the names in the
      output folder, the regions, the two walks `find_cel_file` makes, and
      the random names drawn, in drawing order. */
  datatype Setting = Setting(
    table: CallTable,
    present: set<string>,
    regions: seq<Interval>,
    archive: seq<Entry>,
    upload: seq<Entry>,
    draws: seq<string>)

  /** The calls of a sample; a `defaultdict` gives an empty list for a
      sample it does not hold. */
  function CallsFor(t: CallTable, sample: string): seq<Interval>
  {
    if sample in t.calls then t.calls[sample] else []
  }

  /** The decision for one sample, given the random name it would get. */
  function Decide(env: Setting, sample: string, token: string): (d: Decision)
    ensures d.Absent? <==> sample !in env.present
    ensures d.Skipped? ==> d.hits == SkipHits(CallsFor(env.table, sample), env.regions)
    ensures d.Copied? ==> d.dest == token + ".CEL" && Some(d.src) == CelLookup(sample, env.archive, env.upload)
  {
    if sample !in env.present then Absent
    else
      var calls := CallsFor(env.table, sample);
      if Excluded(calls, env.regions) then Skipped(SkipHits(calls, env.regions))
      else
        match CelLookup(sample, env.archive, env.upload)
        case None => NotFound
        case Some(e) => Copied(e, token + ".CEL")
  }

  /** A sample that was kept: counted in `not_skip` and given a random name. */
  predicate IsKept(d: Decision)
  {
    d.NotFound? || d.Copied?
  }

  /** How many decisions kept their sample: the random names drawn so far. */
  function Used(ds: seq<Decision>): (n: nat)
    ensures n <= |ds|
  {
    if |ds| == 0 then 0
    else Used(ds[..|ds| - 1]) + (if IsKept(ds[|ds| - 1]) then 1 else 0)
  }

  /** The sum of what the decisions added to `skip`. */
  function SkipTotal(ds: seq<Decision>): nat
  {
    if |ds| == 0 then 0
    else SkipTotal(ds[..|ds| - 1]) + (if ds[|ds| - 1].Skipped? then ds[|ds| - 1].hits else 0)
  }

  /** How many decisions skipped their sample. */
  function SkippedCount(ds: seq<Decision>): nat
  {
    if |ds| == 0 then 0
    else SkippedCount(ds[..|ds| - 1]) + (if ds[|ds| - 1].Skipped? then 1 else 0)
  }

  /** The decisions for the samples in order, the k-th kept sample taking the
      k-th random name. */
  function Decisions(env: Setting, samples: seq<string>): (ds: seq<Decision>)
    requires |samples| <= |env.draws|
    ensures |ds| == |samples|
  {
    if |samples| == 0 then []
    else
      var prev := Decisions(env, samples[..|samples| - 1]);
      prev + [Decide(env, samples[|samples| - 1], env.draws[Used(prev)])]
  }

  /** The syndrome-free folder after the decisions' copies, made in order. */
  function ApplyCopies(files: map<string, Entry>, ds: seq<Decision>): map<string, Entry>
  {
    if |ds| == 0 then files
    else
      var f := ApplyCopies(files, ds[..|ds| - 1]);
      match ds[|ds| - 1]
      case Copied(src, dest) => f[dest := src]
      case _ => f
  }

  lemma DecisionsStep(env: Setting, samples: seq<string>, i: nat)
    requires i < |samples| <= |env.draws|
    ensures var prev := Decisions(env, samples[..i]);
      Decisions(env, samples[..i + 1]) == prev + [Decide(env, samples[i], env.draws[Used(prev)])]
  {
    assert samples[..i + 1][..i] == samples[..i];
  }

  lemma Steps(ds: seq<Decision>, d: Decision)
    ensures Used(ds + [d]) == Used(ds) + (if IsKept(d) then 1 else 0)
    ensures SkipTotal(ds + [d]) == SkipTotal(ds) + (if d.Skipped? then d.hits else 0)
  {
    assert (ds + [d])[..|ds|] == ds;
  }

  lemma ApplyCopiesStep(files: map<string, Entry>, ds: seq<Decision>, d: Decision)
    ensures ApplyCopies(files, ds + [d]) == if d.Copied? then ApplyCopies(files, ds)[d.dest := d.src] else ApplyCopies(files, ds)
  {
    assert (ds + [d])[..|ds|] == ds;
  }

  /** One pass of the loop body for `sample`: the `os.path.exists` test, the
      overlap test and, for a kept sample, the copy under the next random
      name `token` (drawn only when the sample is kept). */
  method CollateSample(env: Setting, rhchp: Folder, out: Folder, sample: string, token: string)
      returns (hits: nat, d: Decision)
    requires rhchp != out
    requires env.present == rhchp.files.Keys
    modifies out
    ensures d == Decide(env, sample, token)
    ensures hits == if d.Skipped? then d.hits else 0
    ensures out.files == if d.Copied? then old(out.files)[d.dest := d.src] else old(out.files)
  {
    hits := 0;
    if sample !in rhchp.files {
      d := Absent;
    } else {
      var calls := CallsFor(env.table, sample);
      var sampleSkip;
      sampleSkip, hits := ClassifySample(calls, env.regions);
      SkipHitsPositive(calls, env.regions);
      if sampleSkip {
        d := Skipped(hits);
      } else {
        var celFilePath := FindCelFile(sample, env.archive, env.upload);
        if celFilePath.Some? {
          out.CopyFile(celFilePath.value, token + ".CEL");
          d := Copied(celFilePath.value, token + ".CEL");
        } else {
          d := NotFound;
        }
      }
    }
  }

  /** The loop over the call table's samples, in the table's order, with the
      `skip` and `not_skip` counters. */
  method CopyFilesWithNoSyndromeOverlaps(env: Setting, rhchp: Folder, out: Folder)
      returns (skip: nat, notSkip: nat, log: seq<Decision>)
    requires rhchp != out
    requires env.present == rhchp.files.Keys
    requires |env.table.order| <= |env.draws|
    modifies out
    ensures log == Decisions(env, env.table.order)
    ensures skip == SkipTotal(log) && notSkip == Used(log)
    ensures out.files == ApplyCopies(old(out.files), log)
  {
    skip, notSkip, log := 0, 0, [];
    var samples := env.table.order;
    ghost var initial := out.files;
    for i := 0 to |samples|
      invariant log == Decisions(env, samples[..i])
      invariant |log| == i && notSkip <= i
      invariant skip == SkipTotal(log) && notSkip == Used(log)
      invariant out.files == ApplyCopies(initial, log)
    {
      skip, notSkip, log := CollateNext(env, rhchp, out, samples, i, skip, notSkip, log, initial);
    }
    assert samples[..|samples|] == samples;
  }

  /** One pass of the loop over the samples: the decision for sample `i`
      joins the log, and the counters and the output folder follow it. */
  method CollateNext(env: Setting, rhchp: Folder, out: Folder, samples: seq<string>, i: nat,
                     skip: nat, notSkip: nat, log: seq<Decision>, ghost initial: map<string, Entry>)
      returns (skip': nat, notSkip': nat, log': seq<Decision>)
    requires rhchp != out
    requires env.present == rhchp.files.Keys
    requires i < |samples| <= |env.draws|
    requires log == Decisions(env, samples[..i])
    requires skip == SkipTotal(log) && notSkip == Used(log)
    requires out.files == ApplyCopies(initial, log)
    modifies out
    ensures log' == Decisions(env, samples[..i + 1])
    ensures skip' == SkipTotal(log') && notSkip' == Used(log')
    ensures out.files == ApplyCopies(initial, log')
  {
    var hits, d := CollateSample(env, rhchp, out, samples[i], env.draws[notSkip]);
    skip' := skip + hits;
    notSkip' := if IsKept(d) then notSkip + 1 else notSkip;
    DecisionsStep(env, samples, i);
    Steps(log, d);
    ApplyCopiesStep(initial, log, d);
    log' := log + [d];
  }

  /** A sample kept for the reference: present, and no call of it overlaps a
      region. */
  predicate SampleKept(env: Setting, sample: string)
  {
    sample in env.present && !Excluded(CallsFor(env.table, sample), env.regions)
  }

  /** What the collation does with one sample: an absent sample is only
      reported; a present sample is skipped exactly when it is excluded, and
      then adds between one and the number of regions to `skip`; a kept
      sample is copied exactly when `find_cel_file` finds its file, to the
      random name with ".CEL" appended, and otherwise reported. */
  lemma DecideMeaning(env: Setting, sample: string, token: string)
    ensures var d, calls := Decide(env, sample, token), CallsFor(env.table, sample);
      && (d.Absent? <==> sample !in env.present)
      && (d.Skipped? <==> sample in env.present && Excluded(calls, env.regions))
      && (d.Skipped? ==> 1 <= d.hits <= |env.regions|)
      && (IsKept(d) <==> SampleKept(env, sample))
      && (d.Copied? <==> SampleKept(env, sample) && CelLookup(sample, env.archive, env.upload).Some?)
      && (d.Copied? ==> d.dest == token + ".CEL" && CelLookup(sample, env.archive, env.upload) == Some(d.src))
  {
    SkipHitsPositive(CallsFor(env.table, sample), env.regions);
  }

  /** The k-th decision is the decision for the k-th sample, taking the
      random name after those the earlier kept samples took. */
  lemma {:induction false} DecisionsAt(env: Setting, samples: seq<string>, k: nat)
    requires |samples| <= |env.draws| && k < |samples|
    ensures var ds := Decisions(env, samples);
      ds[k] == Decide(env, samples[k], env.draws[Used(ds[..k])])
  {
    var n := |samples|;
    var ds := Decisions(env, samples);
    var prev := Decisions(env, samples[..n - 1]);
    assert ds[..n - 1] == prev;
    if k < n - 1 {
      DecisionsAt(env, samples[..n - 1], k);
      assert ds[..k] == prev[..k];
    }
  }

  /** The samples kept for the reference, in order. */
  function KeptSamples(env: Setting, samples: seq<string>): seq<string>
  {
    if |samples| == 0 then []
    else KeptSamples(env, samples[..|samples| - 1]) + (if SampleKept(env, samples[|samples| - 1]) then [samples[|samples| - 1]] else [])
  }

  /** `not_skip` ends as the number of present samples that are not
      excluded. */
  lemma {:induction false} NotSkipCountsKept(env: Setting, samples: seq<string>)
    requires |samples| <= |env.draws|
    ensures Used(Decisions(env, samples)) == |KeptSamples(env, samples)|
  {
    if |samples| > 0 {
      var n := |samples|;
      NotSkipCountsKept(env, samples[..n - 1]);
      var prev := Decisions(env, samples[..n - 1]);
      var d := Decide(env, samples[n - 1], env.draws[Used(prev)]);
      DecideMeaning(env, samples[n - 1], env.draws[Used(prev)]);
      Steps(prev, d);
    }
  }

  /** Each skipped decision adds between one and `r` to `skip`. */
  predicate HitsBounded(ds: seq<Decision>, r: nat)
  {
    forall k :: 0 <= k < |ds| && ds[k].Skipped? ==> 1 <= ds[k].hits <= r
  }

  lemma {:induction false} SkipTotalBounds(ds: seq<Decision>, r: nat)
    requires HitsBounded(ds, r)
    ensures SkippedCount(ds) <= SkipTotal(ds) <= r * SkippedCount(ds)
  {
    if |ds| > 0 {
      var init := ds[..|ds| - 1];
      assert HitsBounded(init, r) by {
        forall k | 0 <= k < |init| && init[k].Skipped? ensures 1 <= init[k].hits <= r {
          assert init[k] == ds[k];
        }
      }
      SkipTotalBounds(init, r);
      var c := SkippedCount(init);
      if ds[|ds| - 1].Skipped? {
        assert SkippedCount(ds) == c + 1;
        assert r * (c + 1) == r * c + r;
      } else {
        assert SkippedCount(ds) == c;
      }
    }
  }

  /** `skip` is at least the number of excluded present samples and at most
      that number times the number of regions: it counts region hits, not
      samples. */
  lemma SkipBetween(env: Setting, samples: seq<string>)
    requires |samples| <= |env.draws|
    ensures var ds := Decisions(env, samples);
      SkippedCount(ds) <= SkipTotal(ds) <= |env.regions| * SkippedCount(ds)
  {
    var ds := Decisions(env, samples);
    forall k | 0 <= k < |ds| && ds[k].Skipped? ensures 1 <= ds[k].hits <= |env.regions| {
      DecisionsAt(env, samples, k);
      DecideMeaning(env, samples[k], env.draws[Used(ds[..k])]);
    }
    SkipTotalBounds(ds, |env.regions|);
  }

  /** More decisions never draw fewer names. */
  lemma {:induction false} UsedMonotone(ds: seq<Decision>, i: nat, j: nat)
    requires i <= j <= |ds|
    ensures Used(ds[..i]) <= Used(ds[..j])
    decreases j - i
  {
    if i < j {
      UsedMonotone(ds, i, j - 1);
      assert ds[..j][..j - 1] == ds[..j - 1];
    }
  }

  /** Random names that are all different give every copy its own file:
      the copies of two samples never land on the same name. */
  lemma CopiesLandApart(env: Setting, samples: seq<string>, i: nat, j: nat)
    requires |samples| <= |env.draws|
    requires forall a, b :: 0 <= a < b < |env.draws| ==> env.draws[a] != env.draws[b]
    requires i < j < |samples|
    ensures var ds := Decisions(env, samples);
      ds[i].Copied? && ds[j].Copied? ==> ds[i].dest != ds[j].dest
  {
    var ds := Decisions(env, samples);
    if ds[i].Copied? && ds[j].Copied? {
      var a, b := Used(ds[..i]), Used(ds[..j]);
      KeptTakesDraw(ds, i, j);
      DecisionsAt(env, samples, i);
      DecisionsAt(env, samples, j);
      assert ds[i].dest == env.draws[a] + ".CEL";
      assert ds[j].dest == env.draws[b] + ".CEL";
      SuffixedNamesDiffer(env.draws[a], env.draws[b], ".CEL");
    }
  }

  /** A kept decision takes a random name: the later decisions see more
      names drawn. */
  lemma KeptTakesDraw(ds: seq<Decision>, i: nat, j: nat)
    requires i < j <= |ds| && IsKept(ds[i])
    ensures Used(ds[..i]) < Used(ds[..j])
  {
    assert ds[..i + 1][..i] == ds[..i];
    UsedMonotone(ds, i + 1, j);
  }

  /** Different names with the same suffix stay different. */
  lemma SuffixedNamesDiffer(x: string, y: string, suffix: string)
    requires x != y
    ensures x + suffix != y + suffix
  {
    var u, v := x + suffix, y + suffix;
    if |x| == |y| {
      assert u[..|x|] == x && v[..|y|] == y;
    }
  }

  /** The names of the files the decisions copy. */
  function Destinations(ds: seq<Decision>): set<string>
  {
    set k | 0 <= k < |ds| && ds[k].Copied? :: ds[k].dest
  }

  /** The syndrome-free folder keeps what it held and gains one file per
      copy: when the copies land on different names, each new file is the
      CEL file of its sample. */
  lemma {:induction false} ApplyCopiesContents(files: map<string, Entry>, ds: seq<Decision>)
    requires forall i, j :: 0 <= i < j < |ds| && ds[i].Copied? && ds[j].Copied? ==> ds[i].dest != ds[j].dest
    ensures ApplyCopies(files, ds).Keys == files.Keys + Destinations(ds)
    ensures forall k :: 0 <= k < |ds| && ds[k].Copied? ==> ApplyCopies(files, ds)[ds[k].dest] == ds[k].src
    ensures forall n :: n in files && n !in Destinations(ds) ==> ApplyCopies(files, ds)[n] == files[n]
  {
    if |ds| > 0 {
      var init, last := ds[..|ds| - 1], ds[|ds| - 1];
      ApplyCopiesContents(files, init);
      assert Destinations(ds) == Destinations(init) + (if last.Copied? then {last.dest} else {}) by {
        forall x | x in Destinations(ds) ensures x in Destinations(init) || (last.Copied? && x == last.dest) {
          var k :| 0 <= k < |ds| && ds[k].Copied? && ds[k].dest == x;
          if k < |ds| - 1 {
            assert init[k] == ds[k];
          }
        }
        forall x | x in Destinations(init) ensures x in Destinations(ds) {
          var k :| 0 <= k < |init| && init[k].Copied? && init[k].dest == x;
          assert ds[k] == init[k];
        }
      }
      forall k | 0 <= k < |ds| && ds[k].Copied? ensures ApplyCopies(files, ds)[ds[k].dest] == ds[k].src {
        if k < |ds| - 1 {
          assert init[k] == ds[k];
        }
      }
    }
  }

  /** A name `random.choices(ascii_letters + digits, k=8)` can give. */
  predicate ValidToken(t: string)
  {
    |t| == 8 && forall i :: 0 <= i < 8 ==> ('a' <= t[i] <= 'z' || 'A' <= t[i] <= 'Z' || '0' <= t[i] <= '9')
  }

  /** Every copy is named by a random draw alone: the k-th kept sample's
      draw followed by ".CEL", twelve characters in all, whatever the
      sample was called. */
  lemma AnonymousDestinations(env: Setting, samples: seq<string>, k: nat)
    requires |samples| <= |env.draws|
    requires forall i :: 0 <= i < |env.draws| ==> ValidToken(env.draws[i])
    requires k < |samples|
    ensures var ds := Decisions(env, samples);
      ds[k].Copied? ==>
        && Used(ds[..k]) < |env.draws|
        && ds[k].dest == env.draws[Used(ds[..k])] + ".CEL"
        && |ds[k].dest| == 12 && ValidToken(ds[k].dest[..8])
  {
    var ds := Decisions(env, samples);
    DecisionsAt(env, samples, k);
    DecideMeaning(env, samples[k], env.draws[Used(ds[..k])]);
    if ds[k].Copied? {
      assert ds[k].dest[..8] == env.draws[Used(ds[..k])];
    }
  }
}
