# custom_reference file movers, modelled in Dafny

Two batch scripts collect microarray files for a custom reference (a "panel
of normals"):

- `file_mover_prenatal.py` does four things:
  - It reads a specimen manifest.
  - It gathers each specimen's processed `.rhchp` file into an output folder.
  - It loads a file of syndromic regions and a multi-sample viewer call report.
  - It copies the raw `.CEL` file of every present sample with no call over a syndromic region into a syndrome-free folder, under a random eight-character name.
- `file_mover_postnatal.py` reads the same manifest. It copies each specimen's CEL files from a fixed list of storage roots and warns when the number of files copied is not exactly one.

This project models those steps and proves what they do.

## How the model is built

The loaders, the classifier and the collation loops are imperative methods
that follow the scripts' loops. Each is proved equal to a specification
function: for example, `ensures r == Regions(lines)` or
`ensures (out.files, log) == RhchpCollate(old(out.files), walk, specs)`. Lemmas
then state the scripts' properties about those functions. Where one Python
function nests several loops, the body of the outer loop and the inner loops
are methods of their own, each proved against its own specification function.
Examples are `RhchpCollation.CollateSpecimen`, `ScanOutputFolder` and
`CopyMatches`, `SpecimenList.FindSpecColumn`, `RegionLoader.ReadRegionLine`
and `AnonymisingCollator.CollateNext`.

The file system and Python are represented as follows:

- **Files read line by line** are sequences of lines, as `readlines()` returns them, each keeping its `"\n"`.
- **Python builtins** are modelled in `PyStrings`, following CPython:
  - `str.split(sep)`;
  - `str.replace(p, "")` as one left-to-right pass;
  - `rstrip`/`strip` with the full `isspace` set;
  - `in`, `startswith` and slicing;
  - `int()`, which allows surrounding whitespace, a sign and single underscores between digits.
- **Directory walks** (`os.walk`) are sequences of `Entry(root, name)` in walk order. A storage root is either `NotADirectory` or `Directory(walk)`.
- **The filename test** `re.match(r'(KEY).*(.EXT$)', f)` is `FileSystem.Matches`:
  - each `.` in the key matches any character except a newline;
  - `.*.` needs at least one character that is not a newline;
  - `$` matches at the end or before one final newline.
- **Output folders** are a class `Folder` whose map gives each file name the entry it was copied from. `shutil.copyfile` creates or overwrites one name.
- **Random names** drawn by `random.choices` are an input sequence. The k-th kept sample takes the k-th draw.
- **Console messages** become returned values:
  - `AnonymisingCollator.Decision` in the collation step;
  - `RhchpCollation.Outcome` in the prenatal `find_files`;
  - `PostnatalCollation.Report` in the postnatal `find_files`.
- **Exceptions** the scripts raise on malformed input become `Err` results:
  - an empty manifest (`IndexError`);
  - an unbound `spec_column`;
  - a short row;
  - a wrong number of fields;
  - a bad integer.

### Behaviour of the scripts that is easy to miss

- **`chr` in region files.** Every `"chr"` is deleted from a region's chromosome field, wherever it occurs, not only a leading prefix (`RegionLoader.ParseRegionLine`).
- **`chr` in the call report.** The call chromosome is never normalised (`CallReportLoader.ParseCallLine`). A call written `chr1` therefore never overlaps a region written `chr1`, because the region's copy becomes `1`.
- **Header rows of the call report.** These are lines that *start* with `File`, not lines whose first field equals `File`.
- **No short-circuit in the classifier.** After the first matching call, the classifier still compares that call with every remaining region. So `skip` counts region hits, not excluded samples (`OverlapClassifier.SkipHits`, `AnonymisingCollator.SkipBetween`).
- **Every matching `.rhchp` file is copied.** The prenatal `find_files` copies every matching `.rhchp` file whose name is free, not only the first. Its `while` loop runs at most once.
- **A trailing tab is lost in region files.** An empty type column cannot occur, because `rstrip` removes the trailing tab with the newline. Such a row is an error.
- **Anonymised copies can overwrite.** The anonymised copy goes to `<token>.CEL` with `copyfile`, so a repeated random name would overwrite an earlier copy. `AnonymisingCollator.CopiesLandApart` shows that distinct draws never collide.

## Model

| member | source | states |
|---|---|---|
| `PyStrings.RStrip` | file_mover_prenatal.py:85 | `rstrip()` keeps a prefix, removes only whitespace, and leaves no trailing whitespace |
| `PyStrings.Contains` | file_mover_prenatal.py:82 | `p in s` holds exactly when `p` occurs at some position of `s` |
| `PyStrings.TakeAtMost` | file_mover_prenatal.py:101 | `type[0:4]` is a prefix of at most four characters, the whole string when it is shorter |
| `PyStrings.Split` | file_mover_prenatal.py:85 | `split` gives at least one field and no field holds the separator |
| `PyStrings.JoinSplit` | file_mover_prenatal.py:85 | joining the fields of a split with the separator gives back the string |
| `PyStrings.SplitJoin` | file_mover_prenatal.py:100 | splitting fields joined by a separator they lack gives back the fields |
| `PyStrings.SplitLastFieldEndsWith` | file_mover_prenatal.py:39 | the last field of a split ends with the string's last character (its newline) |
| `PyStrings.RemoveAbsent` | file_mover_prenatal.py:86 | `replace("chr", "")` leaves a string without `chr` unchanged |
| `PyStrings.RemoveLeading` | file_mover_prenatal.py:86 | a leading occurrence is deleted and the scan continues after it |
| `PyStrings.RemoveCleanPrefix` | file_mover_prenatal.py:151 | a prefix in which no occurrence starts passes through `replace` unchanged |
| `PyStrings.Remove` | file_mover_prenatal.py:86 | `replace(p, "")` never lengthens a string, and shortens it by at least the length of `p` when `p` occurs in it |
| `PyStrings.ParseIntOfIntToString` | file_mover_prenatal.py:86 | `int()` reads back every integer written in decimal |
| `PyStrings.ParseIntIgnoresNewline` | file_mover_prenatal.py:101 | `int()` of a field with the line's newline attached gives the same result |
| `PyStrings.ParseInt` | file_mover_prenatal.py:101 | `int()` accepts, once surrounding whitespace is stripped, only digits, underscores and one leading sign; a negative value needs a leading `-` |
| `FileSystem.MatchesBuilt` | file_mover_prenatal.py:151 | key, one or more characters, then the extension is a match, also with one final newline |
| `FileSystem.MatchesShape` | file_mover_prenatal.py:151 | every match is longer than key and extension and ends in the extension, perhaps followed by one newline |
| `FileSystem.Matches` | file_mover_prenatal.py:151 | a key without `.` matches only names that begin with the key itself |
| `FileSystem.FirstMatch` | file_mover_prenatal.py:146-152 | the index found is a match with no match before it; nothing is found iff no entry matches |
| `FileSystem.CopyNewKeeps` | file_mover_postnatal.py:62-64 | copying only into free names never changes a file already in the folder |
| `FileSystem.CopyNewNames` | file_mover_postnatal.py:58-64 | after the walk the folder holds its old names plus exactly the matching names |
| `FileSystem.CopyNewCount` | file_mover_postnatal.py:62-65 | the number of copies equals the number of names new to the folder |
| `FileSystem.CopyNewNothing` | file_mover_prenatal.py:63-73 | a walk with no match leaves the folder as it was and copies nothing |
| `FileSystem.Folder.CopyFile` | file_mover_prenatal.py:69 | `copyfile` sets the destination name to the source entry and changes nothing else |
| `LineParsing.ParseLinesOk` | file_mover_prenatal.py:81-86 | a file loads exactly when every line that is not a header parses |
| `LineParsing.ParseLinesValues` | file_mover_prenatal.py:81-86 | on success every non-header line gives exactly one item, in file order |
| `LineParsing.ParseLinesFirstError` | file_mover_prenatal.py:81-86 | on failure the error is that of the first non-header line that fails |
| `LineParsing.SkippedLineIgnored` | file_mover_prenatal.py:82-83 | a header line can be removed from anywhere in the file without changing the result |
| `RegionLoader.ParseRegionLine` | file_mover_prenatal.py:85-86 | a region needs exactly four tab fields after `rstrip`; its chromosome has every `chr` deleted; its type is the whole fourth field, with no tab and no trailing whitespace |
| `RegionLoader.GetSyndromeRegions` | file_mover_prenatal.py:75-87 | the loop returns exactly the specification `Regions(lines)` |
| `RegionLoader.ReadRegionLine` | file_mover_prenatal.py:82-86 | one pass leaves a header line out, adds a data line's region, or stops with that line's error, as `Regions(lines)` says |
| `RegionLoader.IsRegionHeader` | file_mover_prenatal.py:82 | a line is skipped iff `start` or `stop` occurs anywhere in it, so a skipped line has at least four characters |
| `RegionLoader.RegionsContents` | file_mover_prenatal.py:81-86 | the file loads iff every line without `start`/`stop` parses; then one region per such line, in order |
| `RegionLoader.HeaderLineIgnored` | file_mover_prenatal.py:82-83 | any line containing `start` or `stop`, wherever it stands, is ignored |
| `RegionLoader.RegionLineRoundTrip` | file_mover_prenatal.py:85-86 | a row written with or without a `chr` prefix reads back as the region, prefix gone |
| `RegionLoader.EmptyTypeColumnRejected` | file_mover_prenatal.py:85 | a blank line, and a row whose type column is empty, are errors |
| `CallReportLoader.ParseCallLine` | file_mover_prenatal.py:100-101 | fewer than six tab fields is an error; otherwise the sample is field 0, the chromosome is field 3 as written, and the type is a prefix of field 1 of at most four characters |
| `CallReportLoader.OpenMultiSampleViewerFile` | file_mover_prenatal.py:89-102 | the loop returns exactly the specification `CallReport(lines)` |
| `CallReportLoader.GroupValid` | file_mover_prenatal.py:96-101 | the grouped table lists each sample once, and exactly the listed samples have a call list |
| `CallReportLoader.GroupCalls` | file_mover_prenatal.py:101 | a sample has a list iff some record names it, and the list is its calls in file order |
| `CallReportLoader.CallReportContents` | file_mover_prenatal.py:98-101 | the report loads iff every non-`File` line parses; then the table is valid and each sample's calls are its rows', in order |
| `CallReportLoader.CallLineRoundTrip` | file_mover_prenatal.py:100-101 | a row written from its fields reads back as one record with the type cut to four characters |
| `CallReportLoader.CallLineExtraColumns` | file_mover_prenatal.py:100-101 | a row with more than six columns reads back as the record of its first six; the extra columns are ignored |
| `CallReportLoader.IsReportHeader` | file_mover_prenatal.py:99 | a header row begins with the four characters `File`; a row with leading whitespace is never one |
| `CallReportLoader.Append` | file_mover_prenatal.py:101 | the `defaultdict` append puts the call at the end of its sample's list, starting from an empty list on first sight; other samples are untouched, the first-seen order grows only by a new sample, and a valid table stays valid |
| `OverlapClassifier.ClassifySample` | file_mover_prenatal.py:118-127 | the flag is set iff some call overlaps some region; the hits are `SkipHits` |
| `OverlapClassifier.MatchCountPositive` | file_mover_prenatal.py:123-127 | a call hits some region iff it overlaps one, and hits at most all of them |
| `OverlapClassifier.SkipHitsPositive` | file_mover_prenatal.py:118-127 | a sample adds to `skip` iff it is excluded, and adds at most the number of regions |
| `OverlapClassifier.ExcludedSplit` | file_mover_prenatal.py:119-127 | the calls of two parts exclude a sample iff those of one part do |
| `OverlapClassifier.ExcludedOrderFree` | file_mover_prenatal.py:119-127 | exclusion depends only on which calls a sample has, not their order or repetition |
| `OverlapClassifier.OverlapsSharesPoint` | file_mover_prenatal.py:125 | for non-empty intervals the test is sharing a base on the same chromosome with the same type; touching ends share nothing |
| `OverlapClassifier.NoCallsKept` | file_mover_prenatal.py:118-128 | a sample with no calls is never excluded and adds nothing to `skip` |
| `OverlapClassifier.SkipCountsRegions` | file_mover_prenatal.py:123-127 | one call over two regions adds two to `skip` |
| `OverlapClassifier.Overlaps` | file_mover_prenatal.py:125 | intervals that only touch never overlap; a call inside a region of the same chromosome and type overlaps it |
| `OverlapClassifier.SkipHits` | file_mover_prenatal.py:118-127 | a sample adds nothing iff none of its calls overlaps a region; otherwise it adds the number of regions its first overlapping call overlaps |
| `CelSearch.CelLookup` | file_mover_prenatal.py:139-160 | the first archive match for the archive key; else the first upload match for the upload key; nothing iff neither location matches |
| `CelSearch.FindCelFile` | file_mover_prenatal.py:146-160 | the two loops return exactly `CelLookup` |
| `CelSearch.PlainTokenKeys` | file_mover_prenatal.py:151-158 | a token such as `2128184_SNP_220302.1` is its own key in both locations |
| `CelSearch.SuffixedTokenKeys` | file_mover_prenatal.py:151-158 | for `<b>._hg38CuRef.rhchp` the archive key is `<b>` but the upload key keeps `._hg38CuRef` |
| `CelSearch.LongerKeyNarrows` | file_mover_prenatal.py:151-158 | anything the upload key `<b>._hg38CuRef` matches, the key `<b>` matches too |
| `CelSearch.MatchesLongerKey` | file_mover_prenatal.py:151-158 | extending a key by characters other than newline only narrows what it matches |
| `CelSearch.ArchiveKey` | file_mover_prenatal.py:151 | the archive key is no longer than the token, and is the token itself when it holds neither `.rhchp` nor `._hg38CuRef` |
| `CelSearch.UploadKey` | file_mover_prenatal.py:158 | the upload key is no longer than the token, and is the token itself when it holds no `.rhchp` |
| `AnonymisingCollator.Decisions` | file_mover_prenatal.py:114-136 | one decision per sample of the call table |
| `AnonymisingCollator.CollateSample` | file_mover_prenatal.py:115-136 | one loop pass yields `Decide` for the sample, its `skip` hits, and the copy to the folder when there is one |
| `AnonymisingCollator.CopyFilesWithNoSyndromeOverlaps` | file_mover_prenatal.py:104-137 | the decisions, `skip`, `not_skip` and the final syndrome-free folder match their specifications |
| `AnonymisingCollator.CollateNext` | file_mover_prenatal.py:114-136 | one pass adds the next sample's decision to the log and keeps `skip`, `not_skip` and the folder equal to their specification functions |
| `AnonymisingCollator.Decide` | file_mover_prenatal.py:115-136 | absent iff the rhchp file is missing; a skipped sample adds `SkipHits` of its calls; a copy goes to the random name plus `.CEL` from the file `CelLookup` finds |
| `AnonymisingCollator.DecideMeaning` | file_mover_prenatal.py:115-136 | absent iff not in the folder; skipped iff present and excluded, with between 1 and the number of regions of hits; kept iff present and not excluded; copied iff kept and the CEL file is found, to `<token>.CEL` |
| `AnonymisingCollator.DecisionsAt` | file_mover_prenatal.py:114-136 | the k-th decision is that of the k-th sample, with the draw after those of the earlier kept samples |
| `AnonymisingCollator.NotSkipCountsKept` | file_mover_prenatal.py:128-129 | `not_skip` is the number of present samples that are not excluded |
| `AnonymisingCollator.SkipTotalBounds` | file_mover_prenatal.py:126-127 | with one to r hits per skipped sample, `skip` lies between the skipped count and r times it |
| `AnonymisingCollator.SkipBetween` | file_mover_prenatal.py:112-127 | `skip` is at least the number of excluded samples and at most that times the number of regions |
| `AnonymisingCollator.CopiesLandApart` | file_mover_prenatal.py:131-134 | with distinct draws, two copies never land on the same name |
| `AnonymisingCollator.ApplyCopiesContents` | file_mover_prenatal.py:134 | with distinct destinations the folder keeps its other files and gains each copy under its own name |
| `AnonymisingCollator.AnonymousDestinations` | file_mover_prenatal.py:131-134 | every copy is named by its draw and `.CEL`, twelve characters, whatever the sample was called |
| `RhchpCollation.FindFiles` | file_mover_prenatal.py:49-73 | the loops produce exactly `RhchpCollate`: the final output folder and one outcome per specimen |
| `RhchpCollation.CollateSpecimen` | file_mover_prenatal.py:55-73 | one specimen changes the folder and reports exactly as `RhchpStep` says |
| `RhchpCollation.ScanOutputFolder` | file_mover_prenatal.py:55-59 | `found` iff some name in the output folder matches the specimen number |
| `RhchpCollation.CopyMatches` | file_mover_prenatal.py:63-70 | one walk copies exactly what `CopyNew` copies, and `found` is set iff anything in the walk matched, copied or not |
| `RhchpCollation.RhchpStepMeaning` | file_mover_prenatal.py:54-73 | already collated iff a match is in the folder; missing iff nothing matched; otherwise every matching name is added; nothing is overwritten |
| `RhchpCollation.RhchpCollateResult` | file_mover_prenatal.py:54-73 | one outcome per specimen; nothing overwritten; each specimen not reported missing ends with a match in the folder; a missing one matched nothing |
| `PostnatalCollation.FindFiles` | file_mover_postnatal.py:47-69 | the loops produce exactly `PostnatalCollate`: the final folder and the messages in order |
| `PostnatalCollation.CollateSpecimen` | file_mover_postnatal.py:54-69 | one specimen changes the folder and reports exactly as `SpecStep` says |
| `PostnatalCollation.CopyFromTree` | file_mover_postnatal.py:58-65 | one folder's walk copies and counts exactly what `CopyNew` copies and counts |
| `PostnatalCollation.ScanRootsKeeps` | file_mover_postnatal.py:56-65 | scanning the roots never overwrites a file already in the folder |
| `PostnatalCollation.ScanRootsNames` | file_mover_postnatal.py:56-65 | every root is scanned: the folder gains exactly the matching names of all directory roots |
| `PostnatalCollation.ScanRootsCount` | file_mover_postnatal.py:58-65 | `count` is the number of files actually copied |
| `PostnatalCollation.ScanRootsReports` | file_mover_postnatal.py:56-67 | each root that is not a directory is reported once, in root order, and nothing else is reported |
| `PostnatalCollation.WarningIffNotOne` | file_mover_postnatal.py:68-69 | a warning is printed iff the number of copies is not one, and it gives that number |
| `PostnatalCollation.AlreadyPresentWarns` | file_mover_postnatal.py:62-69 | when every match is already in the folder nothing changes and a warning with count 0 follows |
| `PostnatalCollation.PostnatalCollateContents` | file_mover_postnatal.py:53-69 | the final folder keeps its files and holds every matching file of every specimen, nothing else |
| `PostnatalCollation.TwoMatchesWarn` | file_mover_postnatal.py:53-69 | two different matches in one root are both copied and draw a warning with count 2 |
| `SpecimenList.LastIndexOf` | file_mover_prenatal.py:39-41 | the column chosen is the last header field equal to `Specimen ID`; none iff there is none |
| `SpecimenList.FindSpecColumn` | file_mover_prenatal.py:39-41 | the header loop leaves `spec_column` at the last field equal to `Specimen ID`, unset when there is none |
| `SpecimenList.CreateListOfSpecNumbers` | file_mover_prenatal.py:29-47 | the outcomes are: an empty file is an error; a header alone gives `[]`; no column with rows is an error; otherwise one entry per later line, its field at the column, or the first short row's error |
| `SpecimenList.LastColumnNeverChosen` | file_mover_postnatal.py:37-39 | a `Specimen ID` in the header's last column carries the newline and is never found |
| `SpecimenList.LastColumnKeepsNewline` | file_mover_postnatal.py:41-42 | a value from a row's last column keeps the row's newline |

`create_list_of_spec_numbers` at file_mover_postnatal.py:27-45 is the same
code as file_mover_prenatal.py:29-47, and `SpecimenList` models both.

## Left out

- `get_args` and `main` are argument plumbing. `main` only calls the modelled steps in order.
- `check_for_output_dir` is left out. The prenatal version calls `os.path.mkdir`, which does not exist, so it would fail whenever a folder is missing.
- **Console output.** The text of messages is not modelled. A message is a `Decision`, `Outcome` or `Report` value. The printed specimen count is the length of the list returned.
- **Randomness.** `random.choices` is not modelled. The random names are an input sequence, and the k-th kept sample takes the k-th one.
- **The real file system.** The two hard-coded CEL locations, the three postnatal roots and the input tree are parameters given as walks. The following are not modelled:
  - walk order as the operating system produces it;
  - files appearing during a walk;
  - the difference between `os.path.exists` and `isfile` (a directory named like a sample also counts as present);
  - file contents.
- **Aliasing between the two folders.** `AnonymisingCollator.CopyFilesWithNoSyndromeOverlaps` requires the rhchp folder and the syndrome-free folder to be distinct objects. The case where both arguments name one directory is not modelled.
- **The input tree containing the output folder.** In the prenatal `find_files`, the walk is fixed before copying, so a tree that contains the output folder is not modelled.
- **Regular expressions.** Only `.` is treated as a metacharacter in a key. Other metacharacters in specimen numbers or tokens are taken literally.
- **`int()`.** Only ASCII digits are accepted, not other Unicode decimal digits.
- **Line splitting.** `readlines()` splitting a file into lines, and universal-newline translation, are not modelled. Input files are given as their lines.
- `AnonymisingCollator.CollateSample`, `OverlapClassifier.ClassifySample`: the body of the loop over samples is split into two methods.
  - `ClassifySample` computes the per-sample flag and `skip` hits.
  - `CollateSample` does the rest of one pass.
  - `skip` is increased by the hits after the inner loops, not one hit at a time.
  - The next random name is passed in on every pass but consumed only when the sample is kept, which matches drawing it only then.
- CelSearch.PlainTokenKeys: stated only for token parts in which every `.` is followed by a digit. Tokens containing `.r` or `._` are not covered.
- CelSearch.SuffixedTokenKeys: stated only for token parts in which every `.` is followed by a digit. Tokens containing `.r` or `._` are not covered.
- **Overwriting on a name collision.** When two kept samples draw the same random name, the later copy overwrites the earlier one. The model shows this through `ApplyCopies`, but no lemma states it.
