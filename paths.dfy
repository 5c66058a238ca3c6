/**
  File discovery and subject-ID derivation of ETL.load: which walked files are
  taken as CSV files, the optional "tiny" truncation, the file stem and the
  subject ID derived from it.
*/
module Paths {
  import opened Wrappers

  /** os.sep on a POSIX host. */
  const Sep: char := '/'

  /** One triple produced by os.walk: a directory, its sub-directories and its file names. */
  datatype WalkEntry = WalkEntry(root: string, dirs: seq<string>, files: seq<string>)

  /** The number of files "tiny" mode keeps. */
  const TinyCount: nat := 5

  /** os.path.join(root, name) for a relative name: a separator is inserted unless root is empty or already ends with one. */
  function PathJoin(root: string, name: string): string
  {
    if root == [] || root[|root| - 1] == Sep then root + name else root + [Sep] + name
  }

  /** The joined path starts with the directory, ends with the name, and has a separator between the two. */
  lemma PathJoinShape(root: string, name: string)
    ensures var p := PathJoin(root, name);
      && |p| >= |root| + |name| && p[..|root|] == root && p[|p| - |name|..] == name
      && (root != [] ==> |p| > |name| && p[|p| - |name| - 1] == Sep)
      && (root == [] ==> p == name)
  {
  }

  /**
    `filename[-4:] == ".csv"`: Python's negative slice keeps the whole name when
    it is shorter than four characters, so the test is exactly "ends with .csv".
  */
  function IsCsvName(name: string): (b: bool)
    ensures b <==> |name| >= 4 && name[|name| - 4..] == ".csv"
  {
    var from := if |name| < 4 then 0 else |name| - 4;
    name[from..] == ".csv"
  }

  /** The position just after the last separator among the first i characters of s, or 0 when there is none. */
  function ComponentStart(s: string, i: nat): (k: nat)
    requires i <= |s|
    ensures k <= i
  {
    if i == 0 then 0
    else if s[i - 1] == Sep then i
    else ComponentStart(s, i - 1)
  }

  /** ComponentStart stops right after a separator, or at the start, with no separator after it. */
  lemma {:induction false} ComponentStartSpec(s: string, i: nat)
    requires i <= |s|
    ensures var k := ComponentStart(s, i);
      && (k == 0 || s[k - 1] == Sep)
      && forall m :: k <= m < i ==> s[m] != Sep
  {
    if i > 0 && s[i - 1] != Sep {
      ComponentStartSpec(s, i - 1);
    }
  }

  /** `s.split(Sep)[-1]`: the text after the last separator, or all of s when it has none. */
  function LastComponent(s: string): string
  {
    s[ComponentStart(s, |s|)..]
  }

  /** The last component is a suffix free of separators, and is either all of s or preceded by a separator. */
  lemma LastComponentSpec(s: string)
    ensures var r := LastComponent(s);
      && |r| <= |s| && r == s[|s| - |r|..]
      && Sep !in r
      && (|r| == |s| || s[|s| - |r| - 1] == Sep)
  {
    ComponentStartSpec(s, |s|);
  }

  /** The position of the first d at or after position i of s, or |s| when there is none. */
  function DelimiterAt(s: string, d: char, i: nat): (k: nat)
    requires i <= |s|
    ensures i <= k <= |s|
    decreases |s| - i
  {
    if i == |s| then |s|
    else if s[i] == d then i
    else DelimiterAt(s, d, i + 1)
  }

  /** DelimiterAt stops at a d, or at the end, with no d before it. */
  lemma {:induction false} DelimiterAtSpec(s: string, d: char, i: nat)
    requires i <= |s|
    ensures var k := DelimiterAt(s, d, i);
      && (k == |s| || s[k] == d)
      && forall m :: i <= m < k ==> s[m] != d
    decreases |s| - i
  {
    if i < |s| && s[i] != d {
      DelimiterAtSpec(s, d, i + 1);
    }
  }

  /** `s.split(d)[0]`: the text before the first d, or all of s when it has none. */
  function FirstComponent(s: string, d: char): string
  {
    s[..DelimiterAt(s, d, 0)]
  }

  /** The first component is a prefix free of d, and is either all of s or followed by d. */
  lemma FirstComponentSpec(s: string, d: char)
    ensures var r := FirstComponent(s, d);
      && |r| <= |s| && r == s[..|r|]
      && d !in r
      && (|r| == |s| || s[|r|] == d)
  {
    DelimiterAtSpec(s, d, 0);
  }

  /** `file.split(os.sep)[-1].split(".")[0]`: the file name up to its first dot. */
  function Stem(path: string): string
  {
    FirstComponent(LastComponent(path), '.')
  }

  /** `s[:n]` */
  function Take(s: string, n: nat): (r: string)
    ensures |r| == Min(n, |s|) && r == s[..|r|]
  {
    if n <= |s| then s[..n] else s
  }

  /** `c.isnumeric()`, restricted to the ASCII digits. */
  predicate IsDigit(c: char)
  {
    '0' <= c <= '9'
  }

  /**
    The subject ID of a file stem: its first 3 characters when it starts with a
    digit, otherwise its first 7. An empty stem has no first character, and
    `file_name[0]` raises IndexError: that is None here.
  */
  function SubjectId(stem: string): (r: Option<string>)
    ensures r.None? <==> stem == []
    ensures r.Some? ==> |r.value| <= |stem| && r.value == stem[..|r.value|]
    ensures r.Some? ==> |r.value| == Min(if IsDigit(stem[0]) then 3 else 7, |stem|)
  {
    if stem == [] then None
    else if IsDigit(stem[0]) then Some(Take(stem, 3))
    else Some(Take(stem, 7))
  }

  /** The file list after the optional "tiny" truncation, `cima_files[:5]`. */
  function Select(files: seq<string>, tiny: bool): (r: seq<string>)
    ensures |r| == if tiny then Min(TinyCount, |files|) else |files|
    ensures r == files[..|r|]
  {
    if tiny then files[..Min(TinyCount, |files|)] else files
  }

  /** The CSV paths found under one walked directory, in the order of its file names. */
  function CsvPathsIn(root: string, names: seq<string>): seq<string>
  {
    if names == [] then []
    else
      var last := names[|names| - 1];
      CsvPathsIn(root, names[..|names| - 1]) + (if IsCsvName(last) then [PathJoin(root, last)] else [])
  }

  /** The CSV paths of a whole walk, in discovery order. */
  function CsvPaths(walk: seq<WalkEntry>): seq<string>
  {
    if walk == [] then []
    else
      var last := walk[|walk| - 1];
      CsvPaths(walk[..|walk| - 1]) + CsvPathsIn(last.root, last.files)
  }

  lemma CsvPathsInStep(root: string, names: seq<string>, j: nat)
    requires j < |names|
    ensures CsvPathsIn(root, names[..j + 1]) ==
      CsvPathsIn(root, names[..j]) + (if IsCsvName(names[j]) then [PathJoin(root, names[j])] else [])
  {
    assert names[..j + 1][..j] == names[..j];
  }

  lemma CsvPathsStep(walk: seq<WalkEntry>, i: nat)
    requires i < |walk|
    ensures CsvPaths(walk[..i + 1]) == CsvPaths(walk[..i]) + CsvPathsIn(walk[i].root, walk[i].files)
  {
    assert walk[..i + 1][..i] == walk[..i];
  }

  /** The discovery loop of ETL.load: every walked file name ending in ".csv", joined to its directory. */
  method CollectCsvFiles(walk: seq<WalkEntry>) returns (paths: seq<string>)
    ensures paths == CsvPaths(walk)
  {
    paths := [];
    var i := 0;
    while i < |walk|
      invariant 0 <= i <= |walk|
      invariant paths == CsvPaths(walk[..i])
    {
      var entry := walk[i];
      var j := 0;
      while j < |entry.files|
        invariant 0 <= j <= |entry.files|
        invariant paths == CsvPaths(walk[..i]) + CsvPathsIn(entry.root, entry.files[..j])
      {
        var filename := entry.files[j];
        CsvPathsInStep(entry.root, entry.files, j);
        if IsCsvName(filename) {
          paths := paths + [PathJoin(entry.root, filename)];
        }
        j := j + 1;
      }
      assert entry.files[..j] == entry.files;
      CsvPathsStep(walk, i);
      i := i + 1;
    }
    assert walk[..i] == walk;
  }

  /** p is the path of the walked file `name` of directory root, and that name ends in ".csv". */
  predicate CsvPathOf(root: string, name: string, p: string)
  {
    IsCsvName(name) && p == PathJoin(root, name)
  }

  /** A path is collected from one directory exactly when it is one of its ".csv" names joined to it. */
  lemma {:induction false} CsvPathsInMembership(root: string, names: seq<string>, p: string)
    ensures p in CsvPathsIn(root, names) <==> exists j :: 0 <= j < |names| && CsvPathOf(root, names[j], p)
  {
    if names != [] {
      var n := |names| - 1;
      var last := names[n];
      var earlier := CsvPathsIn(root, names[..n]);
      var tail := if IsCsvName(last) then [PathJoin(root, last)] else [];
      CsvPathsInMembership(root, names[..n], p);
      assert CsvPathsIn(root, names) == earlier + tail;
      assert p in tail <==> CsvPathOf(root, last, p);
      if p in earlier {
        var j :| 0 <= j < n && CsvPathOf(root, names[..n][j], p);
        assert names[..n][j] == names[j];
      }
      if exists j :: 0 <= j < |names| && CsvPathOf(root, names[j], p) {
        var j :| 0 <= j < |names| && CsvPathOf(root, names[j], p);
        if j < n {
          assert names[..n][j] == names[j];
        }
      }
    }
  }

  lemma {:induction false} CsvPathsDirs(walk: seq<WalkEntry>, p: string)
    ensures p in CsvPaths(walk) <==> exists e :: e in walk && p in CsvPathsIn(e.root, e.files)
  {
    if walk != [] {
      var n := |walk| - 1;
      var last := walk[n];
      CsvPathsDirs(walk[..n], p);
      assert CsvPaths(walk) == CsvPaths(walk[..n]) + CsvPathsIn(last.root, last.files);
      if p in CsvPaths(walk[..n]) {
        var e :| e in walk[..n] && p in CsvPathsIn(e.root, e.files);
        assert e in walk;
      }
      if exists e :: e in walk && p in CsvPathsIn(e.root, e.files) {
        var e :| e in walk && p in CsvPathsIn(e.root, e.files);
        if e != last {
          var k :| 0 <= k < |walk| && walk[k] == e;
          assert walk[..n][k] == e;
        }
      }
    }
  }

  /** A path is collected exactly when it is a ".csv" name of some walked directory joined to that directory. */
  lemma CsvPathsMembership(walk: seq<WalkEntry>, p: string)
    ensures p in CsvPaths(walk) <==> exists e, j :: e in walk && 0 <= j < |e.files| && CsvPathOf(e.root, e.files[j], p)
  {
    CsvPathsDirs(walk, p);
    forall e | e in walk
      ensures p in CsvPathsIn(e.root, e.files) <==> exists j :: 0 <= j < |e.files| && CsvPathOf(e.root, e.files[j], p)
    {
      CsvPathsInMembership(e.root, e.files, p);
    }
  }

  /** Discovery order: the paths of a longer walk extend those of its beginning, in order. */
  lemma {:induction false} CsvPathsAppend(w1: seq<WalkEntry>, w2: seq<WalkEntry>)
    ensures CsvPaths(w1 + w2) == CsvPaths(w1) + CsvPaths(w2)
  {
    if w2 == [] {
      assert w1 + w2 == w1;
    } else {
      var n := |w2| - 1;
      var last := CsvPathsIn(w2[n].root, w2[n].files);
      var w := w1 + w2;
      assert w[..|w| - 1] == w1 + w2[..n] && w[|w| - 1] == w2[n];
      calc {
        CsvPaths(w);
        CsvPaths(w1 + w2[..n]) + last;
        { CsvPathsAppend(w1, w2[..n]); }
        (CsvPaths(w1) + CsvPaths(w2[..n])) + last;
        { assert (CsvPaths(w1) + CsvPaths(w2[..n])) + last == CsvPaths(w1) + (CsvPaths(w2[..n]) + last); }
        CsvPaths(w1) + (CsvPaths(w2[..n]) + last);
        CsvPaths(w1) + CsvPaths(w2);
      }
    }
  }

  /** The last component of `root/name` is the file name itself, whatever the directory. */
  lemma LastComponentOfJoin(root: string, name: string)
    requires Sep !in name
    ensures LastComponent(PathJoin(root, name)) == name
  {
    PathJoinShape(root, name);
    LastComponentSpec(PathJoin(root, name));
  }

  /** The first component is fixed by the position of the first delimiter. */
  lemma FirstComponentAt(s: string, d: char, k: nat)
    requires k < |s| && s[k] == d && d !in s[..k]
    ensures FirstComponent(s, d) == s[..k]
  {
    FirstComponentSpec(s, d);
  }

  /** The stem of a discovered path depends only on the file name up to its first dot. */
  lemma StemOfJoin(root: string, name: string)
    requires Sep !in name
    ensures Stem(PathJoin(root, name)) == FirstComponent(name, '.')
  {
    LastComponentOfJoin(root, name);
  }

  /** "a.b.csv" has stem "a"; ".csv" has the empty stem, for which no ID exists. */
  lemma StemExamples(root: string)
    ensures Stem(PathJoin(root, "a.b.csv")) == "a"
    ensures Stem(PathJoin(root, ".csv")) == []
    ensures SubjectId(Stem(PathJoin(root, ".csv"))).None?
  {
    var name, hidden := "a.b.csv", ".csv";
    assert name[1] == '.' && name[..1] == "a" && name[0] != '.';
    StemOfJoin(root, name);
    FirstComponentAt(name, '.', 1);
    assert hidden[0] == '.' && hidden[..0] == [];
    StemOfJoin(root, hidden);
    FirstComponentAt(hidden, '.', 0);
  }

  /** A derived ID derives itself: the rule never shortens an ID further. */
  lemma SubjectIdIdempotent(stem: string)
    requires SubjectId(stem).Some?
    ensures SubjectId(SubjectId(stem).value) == SubjectId(stem)
  {
    var id := SubjectId(stem).value;
    var n := if IsDigit(stem[0]) then 3 else 7;
    assert id[0] == stem[0];
    assert Take(id, n) == id;
  }

  /** The ID is the whole stem exactly when the stem is no longer than the prefix length. */
  lemma SubjectIdWholeStem(stem: string)
    requires stem != []
    ensures SubjectId(stem) == Some(stem) <==> |stem| <= (if IsDigit(stem[0]) then 3 else 7)
  {
    var n := if IsDigit(stem[0]) then 3 else 7;
    assert SubjectId(stem) == Some(Take(stem, n));
    if |stem| <= n {
      assert stem[..|stem|] == stem;
    }
  }
}
