/** `create_list_of_spec_numbers`, the same in both scripts: find the column
    headed "Specimen ID" in the first line of a comma-separated manifest and
    collect that field from every later line. */
module SpecimenList {

  import opened Results
  import opened PyStrings

  /** The header the column is found by, compared exactly. */
  const SpecimenHeader := "Specimen ID"

  /** Why the manifest cannot be read: no first line (`IndexError`), no
      column with the header while rows follow (`spec_column` unbound), or a
      row with too few fields (`IndexError`), by its line number. */
  datatype ManifestError =
    | EmptyManifest
    | NoSpecimenColumn
    | RowTooShort(line: nat)

  /** The index of the last field equal to `x`, if any. */
  function LastIndexOf(xs: seq<string>, x: string): (r: Option<nat>)
    ensures r.Some? ==> r.value < |xs| && xs[r.value] == x && forall j :: r.value < j < |xs| ==> xs[j] != x
    ensures r.None? <==> x !in xs
  {
    if |xs| == 0 then None
    else if xs[|xs| - 1] == x then Some(|xs| - 1)
    else
      var r := LastIndexOf(xs[..|xs| - 1], x);
      assert xs == xs[..|xs| - 1] + [xs[|xs| - 1]];
      r
  }

  /** The comma-separated line has a field numbered `col`. */
  predicate HasField(line: string, col: nat)
  {
    col < |Split(line, ',')|
  }

  /** Line `k` is the first line after the header too short to have field
      `col`. */
  predicate FirstShortRow(lines: seq<string>, col: nat, k: nat)
  {
    && 1 <= k < |lines|
    && !HasField(lines[k], col)
    && forall j :: 1 <= j < k ==> HasField(lines[j], col)
  }

  /** The first loop of `create_list_of_spec_numbers`: the header fields are
      scanned in order and every match overwrites `spec_column`, so the last
      "Specimen ID" column wins. */
  method FindSpecColumn(headers: seq<string>) returns (specColumn: Option<nat>)
    ensures specColumn == LastIndexOf(headers, SpecimenHeader)
  {
    specColumn := None;
    for count := 0 to |headers|
      invariant specColumn == LastIndexOf(headers[..count], SpecimenHeader)
    {
      assert headers[..count + 1][..count] == headers[..count];
      if headers[count] == SpecimenHeader {
        specColumn := Some(count);
      }
    }
    assert headers[..|headers|] == headers;
  }

  /** The two loops of `create_list_of_spec_numbers` over the lines
      `readlines()` gives, each keeping its newline. */
  method CreateListOfSpecNumbers(lines: seq<string>) returns (r: Result<seq<string>, ManifestError>)
    ensures |lines| == 0 ==> r == Err(EmptyManifest)
    ensures |lines| == 1 ==> r == Ok([])
    ensures |lines| > 1 && SpecimenHeader !in Split(lines[0], ',') ==> r == Err(NoSpecimenColumn)
    ensures |lines| > 1 && SpecimenHeader in Split(lines[0], ',') ==>
      var col := LastIndexOf(Split(lines[0], ','), SpecimenHeader).value;
      && (r.Ok? <==> forall k :: 1 <= k < |lines| ==> HasField(lines[k], col))
      && (r.Ok? ==> |r.value| == |lines| - 1 && forall k :: 1 <= k < |lines| ==> r.value[k - 1] == Split(lines[k], ',')[col])
      && (r.Err? ==> exists k :: FirstShortRow(lines, col, k) && r == Err(RowTooShort(k)))
  {
    if |lines| == 0 {
      return Err(EmptyManifest);
    }
    var specColumn := FindSpecColumn(Split(lines[0], ','));
    var specNumberList: seq<string> := [];
    for k := 1 to |lines|
      invariant |specNumberList| == k - 1
      invariant k > 1 ==> specColumn.Some?
      invariant forall j :: 1 <= j < k ==> HasField(lines[j], specColumn.value)
      invariant forall j :: 1 <= j < k ==> specNumberList[j - 1] == Split(lines[j], ',')[specColumn.value]
    {
      if specColumn.None? {
        return Err(NoSpecimenColumn);
      }
      var fields := Split(lines[k], ',');
      if specColumn.value >= |fields| {
        assert FirstShortRow(lines, specColumn.value, k);
        return Err(RowTooShort(k));
      }
      specNumberList := specNumberList + [fields[specColumn.value]];
    }
    return Ok(specNumberList);
  }

  /** The header line keeps its newline, so a "Specimen ID" written as the
      last column is never found. */
  lemma LastColumnNeverChosen(header: string)
    requires |header| > 0 && header[|header| - 1] == '\n'
    ensures var f := Split(header, ',');
      LastIndexOf(f, SpecimenHeader) != Some(|f| - 1)
  {
    SplitLastFieldEndsWith(header, ',', '\n');
  }

  /** A value taken from the last column of a row keeps the row's newline. */
  lemma LastColumnKeepsNewline(row: string, col: nat)
    requires |row| > 0 && row[|row| - 1] == '\n'
    requires col == |Split(row, ',')| - 1
    ensures var v := Split(row, ',')[col]; |v| > 0 && v[|v| - 1] == '\n'
  {
    SplitLastFieldEndsWith(row, ',', '\n');
  }
}
