/** The file system as the scripts see it: directory walks as ordered lists of
    entries, the `re.match` filename test, and folders that files are copied
    into. */
module FileSystem {

  import opened Results

  /** One file listed by `os.walk`: the directory it sits in and its name. */
  datatype Entry = Entry(root: string, name: string)

  /** A storage root: not a directory, or the files a recursive walk of it
      lists, in walk order. */
  datatype Root = NotADirectory | Directory(walk: seq<Entry>)

  predicate NoNewline(s: string)
  {
    forall i :: 0 <= i < |s| ==> s[i] != '\n'
  }

  predicate EndsWith(s: string, suffix: string)
  {
    |suffix| <= |s| && s[|s| - |suffix|..] == suffix
  }

  /** One character of the key, used as a regular expression: `.` matches any
      character but a newline, every other character matches itself. */
  predicate KeyCharMatches(k: char, c: char)
  {
    if k == '.' then c != '\n' else c == k
  }

  /** The part of `re.match(r'(KEY).*(.EXT$)', f)` after the key: at least one
      non-newline character (`.*` then `.`), then EXT at the end. */
  predicate TailMatches(tail: string, ext: string)
  {
    |tail| > |ext| && EndsWith(tail, ext) && NoNewline(tail[..|tail| - |ext|])
  }

  /** `re.match(r'(%s).*(.%s$)' % (key, ext), f)` for a key and an extension
      with no regular-expression operator but `.`: the key matches at the
      start, and `$` matches at the end or before one final newline. */
  predicate Matches(key: string, ext: string, f: string)
    ensures Matches(key, ext, f) && '.' !in key ==> |key| <= |f| && f[..|key|] == key
  {
    && |key| <= |f|
    && (forall i :: 0 <= i < |key| ==> KeyCharMatches(key[i], f[i]))
    && var tail := f[|key|..];
       || TailMatches(tail, ext)
       || (|tail| > 0 && tail[|tail| - 1] == '\n' && TailMatches(tail[..|tail| - 1], ext))
  }

  /** Key, then at least one character, then the extension: a match, with or
      without one final newline. */
  lemma MatchesBuilt(key: string, mid: string, ext: string)
    requires |mid| > 0 && NoNewline(mid)
    ensures Matches(key, ext, key + mid + ext)
    ensures Matches(key, ext, key + mid + ext + "\n")
  {
    var f := key + mid + ext;
    assert f[|key|..] == mid + ext;
    assert (mid + ext)[..|mid + ext| - |ext|] == mid;
    assert (mid + ext)[|mid + ext| - |ext|..] == ext;
    var g := f + "\n";
    assert g[|key|..] == mid + ext + "\n";
    assert (mid + ext + "\n")[..|mid + ext + "\n"| - 1] == mid + ext;
  }

  /** Every match is longer than key and extension together and ends in the
      extension, perhaps followed by one newline; the extension is compared
      case-sensitively. */
  lemma MatchesShape(key: string, ext: string, f: string)
    requires Matches(key, ext, f)
    ensures |f| > |key| + |ext|
    ensures EndsWith(f, ext) || EndsWith(f, ext + "\n")
  {
    var tail := f[|key|..];
    if TailMatches(tail, ext) {
      assert f[|f| - |ext|..] == tail[|tail| - |ext|..];
    } else {
      var t := tail[..|tail| - 1];
      assert f[|f| - |ext| - 1..] == t[|t| - |ext|..] + "\n";
    }
  }

  /** Entry `i` is the first entry of the walk whose name matches. */
  predicate IsFirstMatch(walk: seq<Entry>, key: string, ext: string, i: int)
  {
    && 0 <= i < |walk|
    && Matches(key, ext, walk[i].name)
    && forall j :: 0 <= j < i ==> !Matches(key, ext, walk[j].name)
  }

  /** Index of the first entry of a walk whose name matches, as the
      `for ... return` loops find it. */
  function FirstMatch(walk: seq<Entry>, key: string, ext: string): (r: Option<nat>)
    ensures r.Some? ==> IsFirstMatch(walk, key, ext, r.value)
    ensures r.None? <==> forall j :: 0 <= j < |walk| ==> !Matches(key, ext, walk[j].name)
  {
    if |walk| == 0 then None
    else if Matches(key, ext, walk[0].name) then Some(0)
    else
      match FirstMatch(walk[1..], key, ext)
      case None => None
      case Some(i) => Some(i + 1)
  }

  /** Some entry of the walk matches. */
  predicate AnyMatch(walk: seq<Entry>, key: string, ext: string)
  {
    exists i :: 0 <= i < |walk| && Matches(key, ext, walk[i].name)
  }

  /** The names of the entries of a walk that match. */
  function MatchNames(walk: seq<Entry>, key: string, ext: string): set<string>
  {
    set i | 0 <= i < |walk| && Matches(key, ext, walk[i].name) :: walk[i].name
  }

  /** Walking `walk` in order and copying each matching file whose name the
      folder does not yet hold: the new folder contents and how many files
      were copied. */
  function CopyNew(files: map<string, Entry>, walk: seq<Entry>, key: string, ext: string): (map<string, Entry>, nat)
  {
    if |walk| == 0 then (files, 0)
    else
      var (f, n) := CopyNew(files, walk[..|walk| - 1], key, ext);
      var e := walk[|walk| - 1];
      if Matches(key, ext, e.name) && e.name !in f then (f[e.name := e], n + 1) else (f, n)
  }

  /** The matching names of a walk grow by the last entry's name when it
      matches. */
  lemma MatchNamesSnoc(walk: seq<Entry>, key: string, ext: string)
    requires |walk| > 0
    ensures var e := walk[|walk| - 1];
      MatchNames(walk, key, ext) ==
        MatchNames(walk[..|walk| - 1], key, ext) + (if Matches(key, ext, e.name) then {e.name} else {})
  {
    var init := walk[..|walk| - 1];
    forall x | x in MatchNames(walk, key, ext)
      ensures x in MatchNames(init, key, ext) || (x == walk[|walk| - 1].name && Matches(key, ext, x))
    {
      var i :| 0 <= i < |walk| && Matches(key, ext, walk[i].name) && walk[i].name == x;
      if i < |walk| - 1 {
        assert init[i] == walk[i];
      }
    }
    forall x | x in MatchNames(init, key, ext) ensures x in MatchNames(walk, key, ext) {
      var i :| 0 <= i < |init| && Matches(key, ext, init[i].name) && init[i].name == x;
      assert walk[i] == init[i];
    }
  }

  /** Copying only into free names never overwrites a file already there. */
  lemma {:induction false} CopyNewKeeps(files: map<string, Entry>, walk: seq<Entry>, key: string, ext: string)
    ensures var f := CopyNew(files, walk, key, ext).0;
      forall x :: x in files ==> x in f && f[x] == files[x]
  {
    if |walk| > 0 {
      CopyNewKeeps(files, walk[..|walk| - 1], key, ext);
    }
  }

  /** The folder ends up holding every matching name and nothing else new. */
  lemma {:induction false} CopyNewNames(files: map<string, Entry>, walk: seq<Entry>, key: string, ext: string)
    ensures CopyNew(files, walk, key, ext).0.Keys == files.Keys + MatchNames(walk, key, ext)
  {
    if |walk| > 0 {
      CopyNewNames(files, walk[..|walk| - 1], key, ext);
      MatchNamesSnoc(walk, key, ext);
    }
  }

  /** Adding a name the folder lacks adds one to the names new since `files`. */
  lemma AddedGrowsByOne(files: map<string, Entry>, f: map<string, Entry>, x: string, e: Entry)
    requires files.Keys <= f.Keys && x !in f
    ensures files.Keys <= f[x := e].Keys
    ensures |f[x := e].Keys - files.Keys| == |f.Keys - files.Keys| + 1
  {
    assert f[x := e].Keys - files.Keys == (f.Keys - files.Keys) + {x};
  }

  /** The count is the number of names the walk added to the folder. */
  lemma {:induction false} CopyNewCount(files: map<string, Entry>, walk: seq<Entry>, key: string, ext: string)
    ensures var (f, n) := CopyNew(files, walk, key, ext);
      files.Keys <= f.Keys && n == |f.Keys - files.Keys|
  {
    if |walk| > 0 {
      var e := walk[|walk| - 1];
      CopyNewCount(files, walk[..|walk| - 1], key, ext);
      var prev := CopyNew(files, walk[..|walk| - 1], key, ext);
      if Matches(key, ext, e.name) && e.name !in prev.0 {
        AddedGrowsByOne(files, prev.0, e.name, e);
      }
    }
  }

  /** Some entry of a walk matches exactly when some name matches. */
  lemma MatchNamesNonEmpty(walk: seq<Entry>, key: string, ext: string)
    ensures AnyMatch(walk, key, ext) <==> MatchNames(walk, key, ext) != {}
  {
    if AnyMatch(walk, key, ext) {
      var i :| 0 <= i < |walk| && Matches(key, ext, walk[i].name);
      assert walk[i].name in MatchNames(walk, key, ext);
    }
  }

  /** A walk with no match copies nothing. */
  lemma CopyNewNothing(files: map<string, Entry>, walk: seq<Entry>, key: string, ext: string)
    requires !AnyMatch(walk, key, ext)
    ensures CopyNew(files, walk, key, ext) == (files, 0)
  {
    var (f, n) := CopyNew(files, walk, key, ext);
    MatchNamesNonEmpty(walk, key, ext);
    CopyNewNames(files, walk, key, ext);
    CopyNewKeeps(files, walk, key, ext);
    CopyNewCount(files, walk, key, ext);
    assert f.Keys == files.Keys;
    assert f.Keys - files.Keys == {};
  }

  /** An output folder: each file name and the walked entry it was copied
      from. */
  class Folder {
    var files: map<string, Entry>

    constructor (initial: map<string, Entry>)
      ensures files == initial
    {
      files := initial;
    }

    /** `shutil.copyfile(src, join(folder, name))`: creates or overwrites. */
    method CopyFile(src: Entry, name: string)
      modifies this
      ensures files == old(files)[name := src]
    {
      files := files[name := src];
    }
  }
}
