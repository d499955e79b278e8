/** `open_multisampleviewer_file`: the multi-sample viewer report, one
    tab-separated call per row, gathered per sample token. */
module CallReportLoader {

  import opened Results
  import opened PyStrings
  import opened Genomic
  import opened LineParsing

  /** Why a report row is rejected: the unpacking of six fields, or `int()`. */
  datatype CallError =
    | TooFewFields(fields: nat)
    | BadStart(text: string)
    | BadStop(text: string)

  /** One report row: the sample token and the call it records. */
  datatype Record = Record(sample: string, call: Interval)

  /** Rows starting with "File" are the header. */
  predicate IsReportHeader(line: string)
    ensures IsReportHeader(line) ==> |line| >= 4 && line[0] == 'F' && line[1..4] == "ile"
    ensures |line| > 0 && IsSpace(line[0]) ==> !IsReportHeader(line)
  {
    StartsWith(line, "File")
  }

  /** One data row: the first six tab fields are sample, type, state,
      chromosome, start and stop; the chromosome is kept as written and the
      type is cut to its first four characters. */
  function ParseCallLine(line: string): (r: Result<Record, CallError>)
    ensures var f := Split(line, '\t');
      r.Ok? <==> |f| >= 6 && ParseInt(f[4]).Some? && ParseInt(f[5]).Some?
    ensures var f := Split(line, '\t');
      && (|f| < 6 ==> r == Err(TooFewFields(|f|)))
      && (|f| >= 6 && ParseInt(f[4]).None? ==> r == Err(BadStart(f[4])))
      && (|f| >= 6 && ParseInt(f[4]).Some? && ParseInt(f[5]).None? ==> r == Err(BadStop(f[5])))
    ensures r.Ok? ==> var f := Split(line, '\t');
      && r.value.sample == f[0] && r.value.call.chrom == f[3]
      && r.value.call.start == ParseInt(f[4]).value && r.value.call.stop == ParseInt(f[5]).value
      && r.value.call.kind == TakeAtMost(f[1], 4)
  {
    var f := Split(line, '\t');
    if |f| < 6 then Err(TooFewFields(|f|))
    else
      match (ParseInt(f[4]), ParseInt(f[5]))
      case (None, _) => Err(BadStart(f[4]))
      case (_, None) => Err(BadStop(f[5]))
      case (Some(start), Some(stop)) => Ok(Record(f[0], Interval(f[3], start, stop, TakeAtMost(f[1], 4))))
  }

  /** The `defaultdict(list)` once filled: the sample tokens in the order
      they were first seen (a dict's iteration order), each with its calls. */
  datatype CallTable = CallTable(order: seq<string>, calls: map<string, seq<Interval>>)
  {
    /** Each sample appears once in the order, and exactly the samples in the
        order have a call list. */
    ghost predicate Valid()
    {
      && (forall i, j :: 0 <= i < j < |order| ==> order[i] != order[j])
      && (forall s :: s in calls <==> s in order)
    }
  }

  /** `call_list[file].append(call)`: the key is created on first sight. */
  function Append(t: CallTable, rec: Record): (r: CallTable)
    ensures t.Valid() ==> r.Valid()
    ensures r.calls.Keys == t.calls.Keys + {rec.sample}
    ensures r.calls[rec.sample] == (if rec.sample in t.calls then t.calls[rec.sample] else []) + [rec.call]
    ensures forall s :: s in t.calls && s != rec.sample ==> r.calls[s] == t.calls[s]
    ensures r.order == if rec.sample in t.calls then t.order else t.order + [rec.sample]
  {
    if rec.sample in t.calls then CallTable(t.order, t.calls[rec.sample := t.calls[rec.sample] + [rec.call]])
    else CallTable(t.order + [rec.sample], t.calls[rec.sample := [rec.call]])
  }

  /** The table after appending the records one by one. */
  function Group(recs: seq<Record>): CallTable
  {
    if |recs| == 0 then CallTable([], map[])
    else Append(Group(recs[..|recs| - 1]), recs[|recs| - 1])
  }

  /** The calls the records give for sample `s`, in record order. */
  function CallsOf(recs: seq<Record>, s: string): seq<Interval>
  {
    if |recs| == 0 then []
    else CallsOf(recs[..|recs| - 1], s) + (if recs[|recs| - 1].sample == s then [recs[|recs| - 1].call] else [])
  }

  /** The whole report: the first bad row fails it, otherwise its rows grouped. */
  function CallReport(lines: seq<string>): Result<CallTable, CallError>
  {
    match ParseLines(lines, IsReportHeader, ParseCallLine)
    case Err(e) => Err(e)
    case Ok(recs) => Ok(Group(recs))
  }

  lemma ReportStep(rest: seq<string>)
    requires |rest| > 0
    ensures ParseLines(rest, IsReportHeader, ParseCallLine) ==
      if IsReportHeader(rest[0]) then ParseLines(rest[1..], IsReportHeader, ParseCallLine)
      else match ParseCallLine(rest[0])
        case Err(e) => Err(e)
        case Ok(x) => Prepend([x], ParseLines(rest[1..], IsReportHeader, ParseCallLine))
  {
  }

  /** The loop of `open_multisampleviewer_file`, filling the table row by row. */
  method OpenMultiSampleViewerFile(lines: seq<string>) returns (r: Result<CallTable, CallError>)
    ensures r == CallReport(lines)
  {
    var order: seq<string> := [];
    var calls: map<string, seq<Interval>> := map[];
    ghost var recs: seq<Record> := [];
    ghost var all := ParseLines(lines, IsReportHeader, ParseCallLine);
    assert lines[0..] == lines;
    PrependNothing(all);
    for i := 0 to |lines|
      invariant all == Prepend(recs, ParseLines(lines[i..], IsReportHeader, ParseCallLine))
      invariant CallTable(order, calls) == Group(recs)
    {
      var line := lines[i];
      ReportStep(lines[i..]);
      assert lines[i..][0] == line && lines[i..][1..] == lines[i + 1..];
      if !StartsWith(line, "File") {
        var parsed := ParseCallLine(line);
        if parsed.Err? {
          return Err(parsed.error);
        }
        var rec := parsed.value;
        PrependPrepend(recs, [rec], ParseLines(lines[i + 1..], IsReportHeader, ParseCallLine));
        if rec.sample in calls {
          calls := calls[rec.sample := calls[rec.sample] + [rec.call]];
        } else {
          order := order + [rec.sample];
          calls := calls[rec.sample := [rec.call]];
        }
        assert (recs + [rec])[..|recs|] == recs;
        recs := recs + [rec];
      }
    }
    assert lines[|lines|..] == [] && recs + [] == recs;
    r := Ok(CallTable(order, calls));
  }

  /** The grouped table lists each sample once and has a call list for
      exactly the samples it lists. */
  lemma {:induction false} GroupValid(recs: seq<Record>)
    ensures Group(recs).Valid()
  {
    if |recs| > 0 {
      GroupValid(recs[..|recs| - 1]);
    }
  }

  /** A sample has a call list exactly when some record names it, and that
      list is the sample's calls in file order. */
  lemma {:induction false} GroupCalls(recs: seq<Record>, s: string)
    ensures s in Group(recs).calls <==> CallsOf(recs, s) != []
    ensures s in Group(recs).calls ==> Group(recs).calls[s] == CallsOf(recs, s)
  {
    if |recs| > 0 {
      GroupCalls(recs[..|recs| - 1], s);
    }
  }

  /** A loaded report: valid, and for every sample the calls of its rows, in
      file order, each row giving one call. */
  lemma CallReportContents(lines: seq<string>)
    ensures CallReport(lines).Ok? <==> forall i :: 0 <= i < |lines| && !IsReportHeader(lines[i]) ==> ParseCallLine(lines[i]).Ok?
    ensures CallReport(lines).Ok? ==>
      var recs, t := ParseLines(lines, IsReportHeader, ParseCallLine).value, CallReport(lines).value;
      && t.Valid()
      && (forall s :: s in t.calls <==> CallsOf(recs, s) != [])
      && (forall s :: s in t.calls ==> t.calls[s] == CallsOf(recs, s))
      && |recs| == |Kept(lines, IsReportHeader)|
      && (forall k :: 0 <= k < |recs| ==> ParseCallLine(Kept(lines, IsReportHeader)[k]) == Ok(recs[k]))
  {
    ParseLinesOk(lines, IsReportHeader, ParseCallLine);
    if CallReport(lines).Ok? {
      var recs := ParseLines(lines, IsReportHeader, ParseCallLine).value;
      ParseLinesValues(lines, IsReportHeader, ParseCallLine);
      GroupValid(recs);
      forall s ensures (s in Group(recs).calls <==> CallsOf(recs, s) != []) && (s in Group(recs).calls ==> Group(recs).calls[s] == CallsOf(recs, s)) {
        GroupCalls(recs, s);
      }
    }
  }

  /** A report row written from its fields reads back as one record, the
      type cut to four characters; the stop field still parses with the
      row's newline attached. */
  lemma CallLineRoundTrip(sample: string, kind: string, state: string, chrom: string, start: int, stop: int)
    requires '\t' !in sample && '\t' !in kind && '\t' !in state && '\t' !in chrom
    ensures ParseCallLine(sample + "\t" + kind + "\t" + state + "\t" + chrom + "\t" + IntToString(start) + "\t" + IntToString(stop) + "\n")
         == Ok(Record(sample, Interval(chrom, start, stop, TakeAtMost(kind, 4))))
  {
    var s, e := IntToString(start), IntToString(stop);
    var line := sample + "\t" + kind + "\t" + state + "\t" + chrom + "\t" + s + "\t" + e + "\n";
    JoinSix(sample, kind, state, chrom, s, e + "\n", '\t');
    assert line == Join([sample, kind, state, chrom, s, e + "\n"], '\t');
    IntToStringHasNoTab(start);
    IntToStringHasNoTab(stop);
    assert '\t' !in e + "\n";
    SplitJoin([sample, kind, state, chrom, s, e + "\n"], '\t');
    ParseIntOfIntToString(start);
    ParseIntOfIntToString(stop);
    ParseIntIgnoresNewline(e);
  }

  /** Columns after the sixth are ignored: a row with further tab-free
      columns, the newline in the last of them, reads back as the same
      record. */
  lemma CallLineExtraColumns(sample: string, kind: string, state: string, chrom: string, start: int, stop: int, rest: seq<string>)
    requires '\t' !in sample && '\t' !in kind && '\t' !in state && '\t' !in chrom
    requires |rest| > 0 && forall k :: 0 <= k < |rest| ==> '\t' !in rest[k]
    ensures ParseCallLine(Join([sample, kind, state, chrom, IntToString(start), IntToString(stop)] + rest, '\t'))
         == Ok(Record(sample, Interval(chrom, start, stop, TakeAtMost(kind, 4))))
  {
    var s, e := IntToString(start), IntToString(stop);
    IntToStringHasNoTab(start);
    IntToStringHasNoTab(stop);
    var fields := [sample, kind, state, chrom, s, e] + rest;
    SplitSixAndMore(sample, kind, state, chrom, s, e, rest);
    ParseCallFields(Join(fields, '\t'), fields, start, stop);
  }

  /** Six tab-free fields followed by more split back from their join. */
  lemma SplitSixAndMore(a: string, b: string, c: string, d: string, e: string, f: string, rest: seq<string>)
    requires '\t' !in a && '\t' !in b && '\t' !in c && '\t' !in d && '\t' !in e && '\t' !in f
    requires forall k :: 0 <= k < |rest| ==> '\t' !in rest[k]
    ensures var fields := [a, b, c, d, e, f] + rest;
      && Split(Join(fields, '\t'), '\t') == fields
      && fields[0] == a && fields[1] == b && fields[3] == d && fields[4] == e && fields[5] == f
  {
    var fields := [a, b, c, d, e, f] + rest;
    forall k | 0 <= k < |fields| ensures '\t' !in fields[k] {
      if k >= 6 {
        assert fields[k] == rest[k - 6];
      }
    }
    SplitJoin(fields, '\t');
  }

  /** A row whose fields are known, the fifth and sixth written from
      integers, reads back as the record those fields give. */
  lemma ParseCallFields(line: string, fields: seq<string>, start: int, stop: int)
    requires Split(line, '\t') == fields && |fields| >= 6
    requires fields[4] == IntToString(start) && fields[5] == IntToString(stop)
    ensures ParseCallLine(line) == Ok(Record(fields[0], Interval(fields[3], start, stop, TakeAtMost(fields[1], 4))))
  {
    ParseIntOfIntToString(start);
    ParseIntOfIntToString(stop);
  }
}
