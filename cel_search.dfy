/** `find_cel_file`: the raw CEL file of a sample token, looked up first in
    the archive location and then in the upload location. */
module CelSearch {

  import opened Results
  import opened PyStrings
  import opened FileSystem

  /** The key for the archive search: the token with ".rhchp" and then
      "._hg38CuRef" deleted. */
  function ArchiveKey(sample: string): (k: string)
    ensures |k| <= |sample|
    ensures !Contains(sample, ".rhchp") && !Contains(sample, "._hg38CuRef") ==> k == sample
  {
    if !Contains(sample, ".rhchp") && !Contains(sample, "._hg38CuRef") then
      RemoveAbsent(sample, ".rhchp");
      RemoveAbsent(sample, "._hg38CuRef");
      Remove(Remove(sample, ".rhchp"), "._hg38CuRef")
    else
      Remove(Remove(sample, ".rhchp"), "._hg38CuRef")
  }

  /** The key for the upload search: only ".rhchp" is deleted. */
  function UploadKey(sample: string): (k: string)
    ensures |k| <= |sample|
    ensures !Contains(sample, ".rhchp") ==> k == sample
  {
    if !Contains(sample, ".rhchp") then
      RemoveAbsent(sample, ".rhchp");
      Remove(sample, ".rhchp")
    else
      Remove(sample, ".rhchp")
  }

  /** The file `find_cel_file` returns: the first archive entry matching the
      archive key; failing that, the first upload entry matching the upload
      key; failing that, nothing. */
  function CelLookup(sample: string, archive: seq<Entry>, upload: seq<Entry>): (r: Option<Entry>)
    ensures AnyMatch(archive, ArchiveKey(sample), "CEL") ==>
      exists i :: IsFirstMatch(archive, ArchiveKey(sample), "CEL", i) && r == Some(archive[i])
    ensures !AnyMatch(archive, ArchiveKey(sample), "CEL") && AnyMatch(upload, UploadKey(sample), "CEL") ==>
      exists i :: IsFirstMatch(upload, UploadKey(sample), "CEL", i) && r == Some(upload[i])
    ensures r.None? <==> !AnyMatch(archive, ArchiveKey(sample), "CEL") && !AnyMatch(upload, UploadKey(sample), "CEL")
  {
    match FirstMatch(archive, ArchiveKey(sample), "CEL")
    case Some(i) =>
      assert IsFirstMatch(archive, ArchiveKey(sample), "CEL", i);
      Some(archive[i])
    case None =>
      match FirstMatch(upload, UploadKey(sample), "CEL")
      case Some(i) =>
        assert IsFirstMatch(upload, UploadKey(sample), "CEL", i);
        Some(upload[i])
      case None => None
  }

  /** The two `os.walk` loops of `find_cel_file`, returning on the first
      match. */
  method FindCelFile(sample: string, archive: seq<Entry>, upload: seq<Entry>) returns (r: Option<Entry>)
    ensures r == CelLookup(sample, archive, upload)
  {
    var archiveKey := ArchiveKey(sample);
    for i := 0 to |archive|
      invariant !AnyMatch(archive[..i], archiveKey, "CEL")
    {
      if Matches(archiveKey, "CEL", archive[i].name) {
        assert IsFirstMatch(archive, archiveKey, "CEL", i) by {
          forall j | 0 <= j < i ensures !Matches(archiveKey, "CEL", archive[j].name) {
            assert archive[..i][j] == archive[j];
          }
        }
        FirstIsUnique(archive, archiveKey, "CEL", i);
        return Some(archive[i]);
      }
      assert forall j :: 0 <= j < i + 1 ==> archive[..i + 1][j] == archive[j];
      assert forall j :: 0 <= j < i ==> archive[..i][j] == archive[j];
    }
    assert archive[..|archive|] == archive;
    var uploadKey := UploadKey(sample);
    for i := 0 to |upload|
      invariant !AnyMatch(upload[..i], uploadKey, "CEL")
    {
      if Matches(uploadKey, "CEL", upload[i].name) {
        assert IsFirstMatch(upload, uploadKey, "CEL", i) by {
          forall j | 0 <= j < i ensures !Matches(uploadKey, "CEL", upload[j].name) {
            assert upload[..i][j] == upload[j];
          }
        }
        FirstIsUnique(upload, uploadKey, "CEL", i);
        return Some(upload[i]);
      }
      assert forall j :: 0 <= j < i + 1 ==> upload[..i + 1][j] == upload[j];
      assert forall j :: 0 <= j < i ==> upload[..i][j] == upload[j];
    }
    assert upload[..|upload|] == upload;
    return None;
  }

  /** There is only one first match. */
  lemma FirstIsUnique(walk: seq<Entry>, key: string, ext: string, i: int)
    requires IsFirstMatch(walk, key, ext, i)
    ensures forall k :: IsFirstMatch(walk, key, ext, k) ==> k == i
  {
  }

  /** A token part in which every `.` is followed by a digit, as in
      `2128184_SNP_220302.1`. */
  predicate PlainToken(b: string)
  {
    forall i :: 0 <= i < |b| && b[i] == '.' ==> i + 1 < |b| && IsDigit(b[i + 1])
  }

  /** No occurrence of a pattern starts inside `a` when every occurrence of
      the pattern's first character in `a` is followed, inside `a`, by a
      character other than the pattern's second one. */
  lemma NoOccurrenceIn(a: string, b: string, p: string)
    requires |p| >= 2
    requires forall i :: 0 <= i < |a| && a[i] == p[0] ==> i + 1 < |a| && a[i + 1] != p[1]
    ensures forall i :: 0 <= i < |a| ==> !OccursAt(a + b, p, i)
  {
    forall i | 0 <= i < |a| ensures !OccursAt(a + b, p, i) {
      if i + |p| <= |a + b| {
        var w := (a + b)[i..i + |p|];
        assert w[0] == a[i];
        if a[i] == p[0] {
          assert w[1] == a[i + 1] != p[1];
        }
      }
    }
  }

  /** Deleting a pattern that is the whole string leaves nothing. */
  lemma RemoveWhole(p: string)
    requires |p| > 0
    ensures Remove(p, p) == []
  {
    RemoveLeading(p, []);
    assert p + [] == p;
  }

  /** A plain token is its own key in both locations. */
  lemma PlainTokenKeys(b: string)
    requires PlainToken(b)
    ensures ArchiveKey(b) == b && UploadKey(b) == b
  {
    assert b + [] == b;
    NoOccurrenceIn(b, [], ".rhchp");
    RemoveAbsent(b, ".rhchp");
    NoOccurrenceIn(b, [], "._hg38CuRef");
    RemoveAbsent(b, "._hg38CuRef");
  }

  /** For a token `<b>._hg38CuRef.rhchp` the archive is searched for `<b>`
      but the upload location for `<b>._hg38CuRef`. */
  lemma SuffixedTokenKeys(b: string)
    requires PlainToken(b)
    ensures ArchiveKey(b + "._hg38CuRef.rhchp") == b
    ensures UploadKey(b + "._hg38CuRef.rhchp") == b + "._hg38CuRef"
  {
    var ref, rh := "._hg38CuRef", ".rhchp";
    var full := b + "._hg38CuRef.rhchp";
    assert full == b + ref + rh;
    RemoveRhchp(b);
    assert UploadKey(full) == b + ref;
    RemoveReference(b);
    assert ArchiveKey(full) == Remove(b + ref, ref);
  }

  /** Deleting ".rhchp" from `<b>._hg38CuRef.rhchp` leaves `<b>._hg38CuRef`. */
  lemma RemoveRhchp(b: string)
    requires PlainToken(b)
    ensures Remove(b + "._hg38CuRef" + ".rhchp", ".rhchp") == b + "._hg38CuRef"
  {
    var ref, rh := "._hg38CuRef", ".rhchp";
    assert b + ref + rh == b + (ref + rh);
    NoOccurrenceIn(b, ref + rh, rh);
    RemoveCleanPrefix(b, ref + rh, rh);
    assert forall i :: 0 <= i < |ref| && ref[i] == '.' ==> i == 0;
    NoOccurrenceIn(ref, rh, rh);
    RemoveCleanPrefix(ref, rh, rh);
    RemoveWhole(rh);
    assert ref + [] == ref;
  }

  /** Deleting "._hg38CuRef" from `<b>._hg38CuRef` leaves `<b>`. */
  lemma RemoveReference(b: string)
    requires PlainToken(b)
    ensures Remove(b + "._hg38CuRef", "._hg38CuRef") == b
  {
    var ref := "._hg38CuRef";
    NoOccurrenceIn(b, ref, ref);
    RemoveCleanPrefix(b, ref, ref);
    RemoveWhole(ref);
    assert b + [] == b;
  }

  /** The narrower upload key finds nothing the archive key would not: a
      file matching `<b>._hg38CuRef` also matches `<b>`. */
  lemma LongerKeyNarrows(b: string, ext: string, f: string)
    requires Matches(b + "._hg38CuRef", ext, f)
    ensures Matches(b, ext, f)
  {
    MatchesLongerKey(b, "._hg38CuRef", ext, f);
  }

  /** A key extended by characters that match no newline only narrows the
      files that match. */
  lemma MatchesLongerKey(k1: string, k2: string, ext: string, f: string)
    requires NoNewline(k2)
    requires Matches(k1 + k2, ext, f)
    ensures Matches(k1, ext, f)
  {
    var k := k1 + k2;
    KeyPartsMatch(k1, k2, f);
    var mid, tail := f[|k1|..|k|], f[|k|..];
    assert f[|k1|..] == mid + tail;
    MatchTailLonger(mid, tail, ext);
  }

  /** Where a two-part key matches, its first part matches, and the text
      under the second part holds no newline. */
  lemma KeyPartsMatch(k1: string, k2: string, f: string)
    requires NoNewline(k2) && |k1 + k2| <= |f|
    requires forall i :: 0 <= i < |k1 + k2| ==> KeyCharMatches((k1 + k2)[i], f[i])
    ensures forall i :: 0 <= i < |k1| ==> KeyCharMatches(k1[i], f[i])
    ensures NoNewline(f[|k1|..|k1 + k2|])
  {
    var k := k1 + k2;
    forall i | 0 <= i < |k1| ensures KeyCharMatches(k1[i], f[i]) {
      assert k[i] == k1[i];
    }
    var mid := f[|k1|..|k|];
    forall i | 0 <= i < |mid| ensures mid[i] != '\n' {
      assert k[|k1| + i] == k2[i];
      assert KeyCharMatches(k[|k1| + i], f[|k1| + i]);
    }
  }

  /** The tail test of `Matches`, with or without a final newline, survives
      putting characters other than newline in front. */
  lemma MatchTailLonger(mid: string, tail: string, ext: string)
    requires NoNewline(mid)
    requires TailMatches(tail, ext) || (|tail| > 0 && tail[|tail| - 1] == '\n' && TailMatches(tail[..|tail| - 1], ext))
    ensures var t := mid + tail;
      TailMatches(t, ext) || (|t| > 0 && t[|t| - 1] == '\n' && TailMatches(t[..|t| - 1], ext))
  {
    var t := mid + tail;
    if TailMatches(tail, ext) {
      TailMatchesLonger(mid, tail, ext);
    } else {
      var u := tail[..|tail| - 1];
      TailMatchesLonger(mid, u, ext);
      assert t[..|t| - 1] == mid + u;
    }
  }

  /** Characters other than newline put before a matching tail keep it a
      matching tail. */
  lemma TailMatchesLonger(mid: string, tail: string, ext: string)
    requires NoNewline(mid) && TailMatches(tail, ext)
    ensures TailMatches(mid + tail, ext)
  {
    var t := mid + tail;
    assert t[|t| - |ext|..] == tail[|tail| - |ext|..];
    assert t[..|t| - |ext|] == mid + tail[..|tail| - |ext|];
  }
}
