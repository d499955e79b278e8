/** The shape shared by the two tab-separated loaders: read the file line by
    line, ignore header lines, turn every other line into one item, and stop
    at the first line that does not parse (where Python raises). */
module LineParsing {

  import opened Results

  /** The items parsed so far, put before the outcome for the rest of the file. */
  function Prepend<T, E>(done: seq<T>, rest: Result<seq<T>, E>): Result<seq<T>, E>
  {
    match rest
    case Ok(xs) => Ok(done + xs)
    case Err(e) => Err(e)
  }

  lemma PrependPrepend<T, E>(a: seq<T>, b: seq<T>, rest: Result<seq<T>, E>)
    ensures Prepend(a, Prepend(b, rest)) == Prepend(a + b, rest)
  {
    if rest.Ok? {
      assert a + (b + rest.value) == (a + b) + rest.value;
    }
  }

  lemma PrependNothing<T, E>(rest: Result<seq<T>, E>)
    ensures Prepend([], rest) == rest
  {
    if rest.Ok? {
      assert [] + rest.value == rest.value;
    }
  }

  /** Parse every line that `skip` does not pick out, in file order. */
  function ParseLines<T, E>(lines: seq<string>, skip: string -> bool, parse: string -> Result<T, E>): Result<seq<T>, E>
  {
    if |lines| == 0 then Ok([])
    else if skip(lines[0]) then ParseLines(lines[1..], skip, parse)
    else
      match parse(lines[0])
      case Err(e) => Err(e)
      case Ok(x) => Prepend([x], ParseLines(lines[1..], skip, parse))
  }

  /** The lines that are not skipped, in file order. */
  function Kept(lines: seq<string>, skip: string -> bool): seq<string>
  {
    if |lines| == 0 then []
    else (if skip(lines[0]) then [] else [lines[0]]) + Kept(lines[1..], skip)
  }

  /** The parse succeeds exactly when every line that is not skipped parses. */
  lemma {:induction false} ParseLinesOk<T, E>(lines: seq<string>, skip: string -> bool, parse: string -> Result<T, E>)
    ensures ParseLines(lines, skip, parse).Ok? <==>
      forall i :: 0 <= i < |lines| && !skip(lines[i]) ==> parse(lines[i]).Ok?
  {
    if |lines| > 0 {
      ParseLinesOk(lines[1..], skip, parse);
      assert forall i :: 1 <= i < |lines| ==> lines[1..][i - 1] == lines[i];
    }
  }

  /** On success each kept line gives exactly one item, in file order. */
  lemma {:induction false} ParseLinesValues<T, E>(lines: seq<string>, skip: string -> bool, parse: string -> Result<T, E>)
    requires ParseLines(lines, skip, parse).Ok?
    ensures var xs, ks := ParseLines(lines, skip, parse).value, Kept(lines, skip);
      |xs| == |ks| && forall k :: 0 <= k < |ks| ==> parse(ks[k]) == Ok(xs[k])
  {
    if |lines| > 0 {
      ParseLinesValues(lines[1..], skip, parse);
    }
  }

  /** On failure the error is that of the first kept line that does not parse. */
  lemma {:induction false} ParseLinesFirstError<T, E>(lines: seq<string>, skip: string -> bool, parse: string -> Result<T, E>)
    requires ParseLines(lines, skip, parse).Err?
    ensures exists i ::
              && 0 <= i < |lines| && !skip(lines[i])
              && parse(lines[i]) == Err(ParseLines(lines, skip, parse).error)
              && forall j :: 0 <= j < i && !skip(lines[j]) ==> parse(lines[j]).Ok?
  {
    var e := ParseLines(lines, skip, parse).error;
    if !skip(lines[0]) && parse(lines[0]).Err? {
      assert parse(lines[0]) == Err(e);
    } else {
      ParseLinesFirstError(lines[1..], skip, parse);
      var i :|
        && 0 <= i < |lines[1..]| && !skip(lines[1..][i]) && parse(lines[1..][i]) == Err(e)
        && forall j :: 0 <= j < i && !skip(lines[1..][j]) ==> parse(lines[1..][j]).Ok?;
      assert lines[i + 1] == lines[1..][i];
      forall j | 0 <= j < i + 1 && !skip(lines[j]) ensures parse(lines[j]).Ok? {
        if j > 0 {
          assert lines[j] == lines[1..][j - 1];
        }
      }
    }
  }

  /** A skipped line can be taken out of the file without changing the outcome. */
  lemma {:induction false} SkippedLineIgnored<T, E>(a: seq<string>, h: string, b: seq<string>, skip: string -> bool, parse: string -> Result<T, E>)
    requires skip(h)
    ensures ParseLines(a + [h] + b, skip, parse) == ParseLines(a + b, skip, parse)
  {
    if |a| == 0 {
      assert (a + [h] + b)[1..] == b;
      assert a + b == b;
    } else {
      SkippedLineIgnored(a[1..], h, b, skip, parse);
      assert (a + [h] + b)[1..] == a[1..] + [h] + b;
      assert (a + b)[1..] == a[1..] + b;
    }
  }
}
