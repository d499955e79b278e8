/** `get_syndrome_regions`: the syndromic-region file, one tab-separated
    `chr start stop type` row per region. */
module RegionLoader {

  import opened Results
  import opened PyStrings
  import opened Genomic
  import opened LineParsing

  /** Why a region line is rejected: the unpacking into four names, or `int()`. */
  datatype RegionError =
    | WrongFieldCount(fields: nat)
    | BadStart(text: string)
    | BadStop(text: string)

  /** A line holding "start" or "stop" anywhere is taken for a header. */
  predicate IsRegionHeader(line: string)
    ensures IsRegionHeader(line) <==> exists i :: OccursAt(line, "start", i) || OccursAt(line, "stop", i)
    ensures IsRegionHeader(line) ==> |line| >= 4
  {
    Contains(line, "start") || Contains(line, "stop")
  }

  /** One data line: strip trailing whitespace, split on tabs into exactly
      four fields, delete every "chr" from the chromosome, parse start and
      stop; the type is kept whole. */
  function ParseRegionLine(line: string): (r: Result<Interval, RegionError>)
    ensures var f := Split(RStrip(line), '\t');
      r.Ok? <==> |f| == 4 && ParseInt(f[1]).Some? && ParseInt(f[2]).Some?
    ensures var f := Split(RStrip(line), '\t');
      && (|f| != 4 ==> r == Err(WrongFieldCount(|f|)))
      && (|f| == 4 && ParseInt(f[1]).None? ==> r == Err(BadStart(f[1])))
      && (|f| == 4 && ParseInt(f[1]).Some? && ParseInt(f[2]).None? ==> r == Err(BadStop(f[2])))
    ensures r.Ok? ==> var f := Split(RStrip(line), '\t');
      && r.value.chrom == Remove(f[0], "chr") && r.value.kind == f[3]
      && r.value.start == ParseInt(f[1]).value && r.value.stop == ParseInt(f[2]).value
    ensures r.Ok? ==> TrimmedField(r.value.kind)
  {
    var f := Split(RStrip(line), '\t');
    if |f| != 4 then Err(WrongFieldCount(|f|))
    else
      var start, stop := ParseInt(f[1]), ParseInt(f[2]);
      if start.None? then Err(BadStart(f[1]))
      else if stop.None? then Err(BadStop(f[2]))
      else
        TypeFieldTrimmed(line);
        Ok(Interval(Remove(f[0], "chr"), start.value, stop.value, f[3]))
  }

  /** A field that holds no tab and does not end in whitespace. */
  predicate TrimmedField(k: string)
  {
    '\t' !in k && (k == [] || !IsSpace(k[|k| - 1]))
  }

  /** With four fields after `rstrip()`, the last one is trimmed. */
  lemma TypeFieldTrimmed(line: string)
    requires |Split(RStrip(line), '\t')| == 4
    ensures TrimmedField(Split(RStrip(line), '\t')[3])
  {
    var t := RStrip(line);
    assert |t| > 0;
    SplitLastFieldEndsWith(t, '\t', t[|t| - 1]);
  }

  /** The whole file: headers skipped, one region per other line, in order. */
  function Regions(lines: seq<string>): Result<seq<Interval>, RegionError>
  {
    ParseLines(lines, IsRegionHeader, ParseRegionLine)
  }

  lemma RegionsStep(rest: seq<string>)
    requires |rest| > 0
    ensures Regions(rest) ==
      if IsRegionHeader(rest[0]) then Regions(rest[1..])
      else match ParseRegionLine(rest[0])
        case Err(e) => Err(e)
        case Ok(x) => Prepend([x], Regions(rest[1..]))
  {
  }

  /** The loop of `get_syndrome_regions`, appending one region per data line. */
  method GetSyndromeRegions(lines: seq<string>) returns (r: Result<seq<Interval>, RegionError>)
    ensures r == Regions(lines)
  {
    var syndromeRegion: seq<Interval> := [];
    var i := 0;
    assert lines[i..] == lines;
    PrependNothing(Regions(lines));
    while i < |lines|
      invariant 0 <= i <= |lines|
      invariant Regions(lines) == Prepend(syndromeRegion, Regions(lines[i..]))
    {
      var next := ReadRegionLine(lines, i, syndromeRegion);
      if next.Err? {
        return next;
      }
      syndromeRegion := next.value;
      i := i + 1;
    }
    assert lines[i..] == [] && syndromeRegion + [] == syndromeRegion;
    r := Ok(syndromeRegion);
  }

  /** One pass of that loop over line `i`: a header line leaves the regions
      as they are, a data line adds its region or stops the load with its
      error. */
  method ReadRegionLine(lines: seq<string>, i: nat, syndromeRegion: seq<Interval>)
      returns (next: Result<seq<Interval>, RegionError>)
    requires i < |lines|
    requires Regions(lines) == Prepend(syndromeRegion, Regions(lines[i..]))
    ensures next.Err? ==> next == Regions(lines)
    ensures next.Ok? ==> Regions(lines) == Prepend(next.value, Regions(lines[i + 1..]))
  {
    var region := lines[i];
    RegionsStep(lines[i..]);
    assert lines[i..][0] == region && lines[i..][1..] == lines[i + 1..];
    if IsRegionHeader(region) {
      next := Ok(syndromeRegion);
    } else {
      var parsed := ParseRegionLine(region);
      if parsed.Err? {
        next := Err(parsed.error);
      } else {
        PrependPrepend(syndromeRegion, [parsed.value], Regions(lines[i + 1..]));
        next := Ok(syndromeRegion + [parsed.value]);
      }
    }
  }

  /** The file loads exactly when every non-header line parses; then each
      non-header line gives exactly one region, in file order. */
  lemma RegionsContents(lines: seq<string>)
    ensures Regions(lines).Ok? <==> forall i :: 0 <= i < |lines| && !IsRegionHeader(lines[i]) ==> ParseRegionLine(lines[i]).Ok?
    ensures Regions(lines).Ok? ==>
      var rs, ks := Regions(lines).value, Kept(lines, IsRegionHeader);
      |rs| == |ks| && forall k :: 0 <= k < |ks| ==> ParseRegionLine(ks[k]) == Ok(rs[k])
  {
    ParseLinesOk(lines, IsRegionHeader, ParseRegionLine);
    if Regions(lines).Ok? {
      ParseLinesValues(lines, IsRegionHeader, ParseRegionLine);
    }
  }

  /** Any line containing "start" or "stop", wherever it stands, is ignored. */
  lemma HeaderLineIgnored(a: seq<string>, h: string, b: seq<string>)
    requires Contains(h, "start") || Contains(h, "stop")
    ensures Regions(a + [h] + b) == Regions(a + b)
  {
    SkippedLineIgnored(a, h, b, IsRegionHeader, ParseRegionLine);
  }

  /** The file row for a region, with the chromosome field as written. */
  function RegionLine(chromField: string, start: int, stop: int, kind: string): string
  {
    chromField + "\t" + IntToString(start) + "\t" + IntToString(stop) + "\t" + kind + "\n"
  }

  /** A row written as `chr<chromosome>` (or without the prefix), start,
      stop and type reads back as the region, with the prefix gone. */
  lemma RegionLineRoundTrip(iv: Interval, prefixed: bool)
    requires '\t' !in iv.chrom && forall i :: !OccursAt(iv.chrom, "chr", i)
    requires '\t' !in iv.kind && |iv.kind| > 0 && !IsSpace(iv.kind[|iv.kind| - 1])
    ensures ParseRegionLine(RegionLine(if prefixed then "chr" + iv.chrom else iv.chrom, iv.start, iv.stop, iv.kind)) == Ok(iv)
  {
    var c := if prefixed then "chr" + iv.chrom else iv.chrom;
    assert '\t' !in "chr";
    assert '\t' !in c;
    var line := RegionLine(c, iv.start, iv.stop, iv.kind);
    RegionLineFields(c, iv.start, iv.stop, iv.kind);
    ParseIntOfIntToString(iv.start);
    ParseIntOfIntToString(iv.stop);
    RemoveAbsent(iv.chrom, "chr");
    if prefixed {
      RemoveLeading("chr", iv.chrom);
    }
    assert Remove(c, "chr") == iv.chrom;
    ParseRegionFields(line, c, IntToString(iv.start), IntToString(iv.stop), iv.kind);
  }

  /** A line that splits into four fields whose middle two parse is read as
      the region they describe. */
  lemma ParseRegionFields(line: string, a: string, b: string, c: string, d: string)
    requires Split(RStrip(line), '\t') == [a, b, c, d]
    requires ParseInt(b).Some? && ParseInt(c).Some?
    ensures ParseRegionLine(line) == Ok(Interval(Remove(a, "chr"), ParseInt(b).value, ParseInt(c).value, d))
  {
  }

  /** A written row splits back into its four fields. */
  lemma RegionLineFields(c: string, start: int, stop: int, kind: string)
    requires '\t' !in c && '\t' !in kind && |kind| > 0 && !IsSpace(kind[|kind| - 1])
    ensures Split(RStrip(RegionLine(c, start, stop, kind)), '\t') == [c, IntToString(start), IntToString(stop), kind]
  {
    var s, e := IntToString(start), IntToString(stop);
    var fields := [c, s, e, kind];
    var body := Join(fields, '\t');
    JoinFour(c, s, e, kind, '\t');
    var line := RegionLine(c, start, stop, kind);
    assert line == body + "\n";
    assert line[..|line| - 1] == body;
    assert RStrip(line) == RStrip(body);
    assert RStrip(body) == body;
    IntToStringHasNoTab(start);
    IntToStringHasNoTab(stop);
    SplitJoin(fields, '\t');
  }

  /** A blank line, or a row whose type column is empty (the trailing tab
      goes with the newline), is an error rather than a region. */
  lemma EmptyTypeColumnRejected(a: string, b: string, c: string)
    requires '\t' !in a && '\t' !in b && '\t' !in c
    requires |c| > 0 && !IsSpace(c[|c| - 1])
    ensures ParseRegionLine("\n").Err?
    ensures ParseRegionLine(a + "\t" + b + "\t" + c + "\t\n").Err?
  {
    assert RStrip("\n") == RStrip("");
    var body := a + "\t" + b + "\t" + c;
    var line := body + "\t\n";
    assert line[..|line| - 1] == body + "\t";
    assert (body + "\t")[..|body|] == body;
    assert RStrip(line) == RStrip(body + "\t") == RStrip(body) == body;
    JoinThree(a, b, c, '\t');
    SplitJoin([a, b, c], '\t');
  }
}
