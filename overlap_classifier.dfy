/** The test at the heart of `copy_files_with_no_syndrome_overlaps`: does a
    sample have a call that lies over a syndromic region, and how much does
    it add to the `skip` counter. */
module OverlapClassifier {

  import opened Genomic

  /** A call overlaps a region: same chromosome string, the call starts
      before the region stops and stops after it starts, and the same type.
      Both comparisons are strict, so intervals that only touch do not
      overlap. */
  predicate Overlaps(call: Interval, region: Interval)
    ensures call.stop == region.start || region.stop == call.start ==> !Overlaps(call, region)
    ensures && call.chrom == region.chrom && call.kind == region.kind
            && region.start <= call.start < call.stop <= region.stop
            ==> Overlaps(call, region)
  {
    region.chrom == call.chrom && call.start < region.stop && call.stop > region.start && region.kind == call.kind
  }

  /** A sample is left out of the reference when some call of it overlaps
      some region. */
  predicate Excluded(calls: seq<Interval>, regions: seq<Interval>)
  {
    exists i, j :: 0 <= i < |calls| && 0 <= j < |regions| && Overlaps(calls[i], regions[j])
  }

  /** How many regions one call overlaps. */
  function MatchCount(call: Interval, regions: seq<Interval>): nat
  {
    if |regions| == 0 then 0
    else MatchCount(call, regions[..|regions| - 1]) + (if Overlaps(call, regions[|regions| - 1]) then 1 else 0)
  }

  /** What one sample adds to `skip`: once a call has matched, the flag stops
      the later calls from being compared, but the inner loop over the
      regions is not left, so the first matching call adds one per region it
      overlaps. */
  function SkipHits(calls: seq<Interval>, regions: seq<Interval>): (h: nat)
    ensures h == 0 <==> forall k :: 0 <= k < |calls| ==> MatchCount(calls[k], regions) == 0
    ensures h > 0 ==> exists i :: FirstHit(calls, regions, i) && h == MatchCount(calls[i], regions)
  {
    if |calls| == 0 then 0
    else
      var init := calls[..|calls| - 1];
      var h := SkipHits(init, regions);
      if h > 0 then
        assert forall i :: FirstHit(init, regions, i) ==> FirstHit(calls, regions, i);
        h
      else
        assert FirstHit(calls, regions, |calls| - 1) || MatchCount(calls[|calls| - 1], regions) == 0;
        MatchCount(calls[|calls| - 1], regions)
  }

  /** Call `i` is the first call that overlaps some region. */
  predicate FirstHit(calls: seq<Interval>, regions: seq<Interval>, i: int)
  {
    && 0 <= i < |calls|
    && MatchCount(calls[i], regions) > 0
    && forall k :: 0 <= k < i ==> MatchCount(calls[k], regions) == 0
  }

  /** The `sample_skip` flag and the `skip` increments for one sample, as the
      nested loops compute them. */
  method ClassifySample(calls: seq<Interval>, regions: seq<Interval>) returns (sampleSkip: bool, hits: nat)
    ensures sampleSkip <==> Excluded(calls, regions)
    ensures hits == SkipHits(calls, regions)
  {
    sampleSkip := false;
    hits := 0;
    for i := 0 to |calls|
      invariant sampleSkip <==> hits > 0
      invariant hits == SkipHits(calls[..i], regions)
    {
      assert calls[..i + 1][..i] == calls[..i];
      if !sampleSkip {
        var call := calls[i];
        for j := 0 to |regions|
          invariant sampleSkip <==> hits > 0
          invariant hits == MatchCount(call, regions[..j])
        {
          assert regions[..j + 1][..j] == regions[..j];
          if Overlaps(call, regions[j]) {
            sampleSkip := true;
            hits := hits + 1;
          }
        }
        assert regions[..|regions|] == regions;
      }
    }
    assert calls[..|calls|] == calls;
    SkipHitsPositive(calls, regions);
  }

  /** A call overlaps at least one region exactly when it overlaps some
      region of the list; it overlaps at most all of them. */
  lemma {:induction false} MatchCountPositive(call: Interval, regions: seq<Interval>)
    ensures MatchCount(call, regions) > 0 <==> exists j :: 0 <= j < |regions| && Overlaps(call, regions[j])
    ensures MatchCount(call, regions) <= |regions|
  {
    if |regions| > 0 {
      var init := regions[..|regions| - 1];
      MatchCountPositive(call, init);
      if exists j :: 0 <= j < |regions| && Overlaps(call, regions[j]) {
        var j :| 0 <= j < |regions| && Overlaps(call, regions[j]);
        if j < |regions| - 1 {
          assert init[j] == regions[j];
        }
      }
      if exists j :: 0 <= j < |init| && Overlaps(call, init[j]) {
        var j :| 0 <= j < |init| && Overlaps(call, init[j]);
        assert regions[j] == init[j];
      }
    }
  }

  /** The sample adds to `skip` exactly when it is excluded, and never more
      than the number of regions. */
  lemma {:induction false} SkipHitsPositive(calls: seq<Interval>, regions: seq<Interval>)
    ensures SkipHits(calls, regions) > 0 <==> Excluded(calls, regions)
    ensures SkipHits(calls, regions) <= |regions|
  {
    if |calls| > 0 {
      var init, last := calls[..|calls| - 1], calls[|calls| - 1];
      SkipHitsPositive(init, regions);
      MatchCountPositive(last, regions);
      ExcludedSplit(init, [last], regions);
      assert init + [last] == calls;
      if exists j :: 0 <= j < |regions| && Overlaps(last, regions[j]) {
        var j :| 0 <= j < |regions| && Overlaps(last, regions[j]);
        assert [last][0] == last;
        assert Excluded([last], regions);
      }
      if Excluded([last], regions) {
        var i, j :| 0 <= i < 1 && 0 <= j < |regions| && Overlaps([last][i], regions[j]);
        assert Overlaps(last, regions[j]);
      }
    }
  }

  /** The calls of two parts of a report exclude the sample exactly when the
      calls of one part do: adding calls can only exclude. */
  lemma ExcludedSplit(a: seq<Interval>, b: seq<Interval>, regions: seq<Interval>)
    ensures Excluded(a + b, regions) <==> Excluded(a, regions) || Excluded(b, regions)
  {
    var ab := a + b;
    if Excluded(ab, regions) {
      var i, j :| 0 <= i < |ab| && 0 <= j < |regions| && Overlaps(ab[i], regions[j]);
      if i < |a| {
        assert a[i] == ab[i];
      } else {
        assert b[i - |a|] == ab[i];
      }
    }
    if Excluded(a, regions) {
      var i, j :| 0 <= i < |a| && 0 <= j < |regions| && Overlaps(a[i], regions[j]);
      assert ab[i] == a[i];
    }
    if Excluded(b, regions) {
      var i, j :| 0 <= i < |b| && 0 <= j < |regions| && Overlaps(b[i], regions[j]);
      assert ab[|a| + i] == b[i];
    }
  }

  /** Whether a sample is excluded does not depend on the order of its calls
      (nor on how often a call is repeated). */
  lemma ExcludedOrderFree(calls: seq<Interval>, other: seq<Interval>, regions: seq<Interval>)
    requires forall c :: c in calls <==> c in other
    ensures Excluded(calls, regions) <==> Excluded(other, regions)
  {
    if Excluded(calls, regions) {
      var i, j :| 0 <= i < |calls| && 0 <= j < |regions| && Overlaps(calls[i], regions[j]);
      assert calls[i] in other;
      var k :| 0 <= k < |other| && other[k] == calls[i];
      assert Overlaps(other[k], regions[j]);
    }
    if Excluded(other, regions) {
      var i, j :| 0 <= i < |other| && 0 <= j < |regions| && Overlaps(other[i], regions[j]);
      assert other[i] in calls;
      var k :| 0 <= k < |calls| && calls[k] == other[i];
      assert Overlaps(calls[k], regions[j]);
    }
  }

  /** The interval holds base `x`, reading start..stop as half-open. */
  predicate Covers(iv: Interval, x: int)
  {
    iv.start <= x < iv.stop
  }

  /** For calls and regions that are not empty, the test is the same as
      sharing a base on the same chromosome with the same type: the
      intervals are read as half-open, so touching ends share nothing. */
  lemma OverlapsSharesPoint(call: Interval, region: Interval)
    requires call.start < call.stop && region.start < region.stop
    ensures Overlaps(call, region) <==>
      && call.chrom == region.chrom && call.kind == region.kind
      && exists x :: Covers(call, x) && Covers(region, x)
  {
    if call.chrom == region.chrom && call.kind == region.kind && call.start < region.stop && call.stop > region.start {
      var x := if call.start < region.start then region.start else call.start;
      assert Covers(call, x) && Covers(region, x);
    }
  }

  /** A sample with no calls is never excluded, whatever the regions. */
  lemma NoCallsKept(regions: seq<Interval>)
    ensures !Excluded([], regions) && SkipHits([], regions) == 0
  {
  }

  /** One call lying over two regions adds two to `skip` although it excludes
      one sample. */
  lemma SkipCountsRegions()
    ensures var call := Interval("1", 100, 200, "Loss");
      var regions := [Interval("1", 50, 150, "Loss"), Interval("1", 150, 250, "Loss")];
      SkipHits([call], regions) == 2 && Excluded([call], regions)
  {
    var call := Interval("1", 100, 200, "Loss");
    var regions := [Interval("1", 50, 150, "Loss"), Interval("1", 150, 250, "Loss")];
    assert [call][..0] == [];
    assert regions[..1] == [regions[0]];
    assert [regions[0]][..0] == [];
    assert MatchCount(call, [regions[0]]) == 1;
    assert MatchCount(call, regions) == 2;
    assert Overlaps([call][0], regions[0]);
  }
}
