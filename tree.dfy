/** The directory tree a walk reads, the naming conventions it applies, and the
    sequence of paths a walk hands to the parser, in the order it hands them. */
module FileTree {
  import opened Sequences

  /** What reading one directory yields: its entries in the order the listing
      gives them, or nothing usable when the directory cannot be read. */
  datatype Listing = Unreadable | Entries(entries: seq<Entry>)

  /** One directory entry: a plain file, or a sub-directory with its own listing. */
  datatype Entry = File(name: string) | Dir(name: string, contents: Listing)

  predicate HasPrefix(s: string, prefix: string) {
    prefix <= s
  }

  predicate HasSuffix(s: string, suffix: string) {
    |suffix| <= |s| && s[|s| - |suffix|..] == suffix
  }

  /** Entries whose name starts with "." (hidden) or "_" (private) are skipped
      together with everything beneath them. */
  predicate Hidden(name: string)
    ensures Hidden(name) <==> |name| > 0 && (name[0] == '.' || name[0] == '_')
  {
    HasPrefix(name, ".") || HasPrefix(name, "_")
  }

  /** A path is handed to the parser when it names a Go source file that is not a test file. */
  predicate IsSourcePath(path: string) {
    HasSuffix(path, ".go") && !HasSuffix(path, "_test.go")
  }

  /** The path of entry `name` inside directory `dir`. */
  function JoinPath(dir: string, name: string): (path: string)
    ensures HasSuffix(path, name)
  {
    if dir == "" then name else dir + "/" + name
  }

  /** A suffix without a separator can be tested on the joined path or on the
      entry name alone, with the same answer. */
  lemma SuffixOfJoin(dir: string, name: string, suffix: string)
    requires '/' !in suffix
    ensures HasSuffix(JoinPath(dir, name), suffix) <==> HasSuffix(name, suffix)
  {
    var path := JoinPath(dir, name);
    if dir != "" && |name| < |suffix| <= |path| {
      // The separator then lies inside the compared tail of the path.
      var k := |path| - |name| - 1;
      assert path[k] == '/';
      assert path[|path| - |suffix|..][k - (|path| - |suffix|)] == '/';
    } else if |name| >= |suffix| {
      assert path[|path| - |suffix|..] == name[|name| - |suffix|..];
    }
  }

  /** The source-file test on the joined path is the same test on the entry name. */
  lemma SourcePathOfJoin(dir: string, name: string)
    ensures IsSourcePath(JoinPath(dir, name)) <==> IsSourcePath(name)
  {
    SuffixOfJoin(dir, name, ".go");
    SuffixOfJoin(dir, name, "_test.go");
  }

  /** The paths a walk of the entries `es` of directory `dir` hands to the
      parser, in depth-first pre-order: each entry in listing order contributes
      its own paths. */
  function EntriesPaths(dir: string, es: seq<Entry>, recursive: bool): seq<string>
    decreases es
  {
    if es == [] then []
    else EntriesPaths(dir, es[..|es| - 1], recursive) + EntryPaths(dir, es[|es| - 1], recursive)
  }

  /** The paths one entry of directory `dir` contributes: none for a hidden
      entry whatever lies beneath it; for a directory, its own walk when
      `recursive` is set and none otherwise (an unreadable directory has none);
      for a file, its path when that path is a source path. */
  function EntryPaths(dir: string, e: Entry, recursive: bool): seq<string>
    decreases e
  {
    if Hidden(e.name) then []
    else
      match e
      case File(n) => if IsSourcePath(JoinPath(dir, n)) then [JoinPath(dir, n)] else []
      case Dir(n, Unreadable) => []
      case Dir(n, Entries(children)) =>
        if recursive then EntriesPaths(JoinPath(dir, n), children, recursive) else []
  }

  /** Walking one more entry adds that entry's paths at the end. */
  lemma EntriesPathsNext(dir: string, es: seq<Entry>, i: nat, recursive: bool)
    requires i < |es|
    ensures EntriesPaths(dir, es[..i + 1], recursive) == EntriesPaths(dir, es[..i], recursive) + EntryPaths(dir, es[i], recursive)
  {
    assert es[..i + 1][..i] == es[..i];
  }

  /** The paths a walk of directory `dir`, whose listing is `l`, hands to the parser. */
  function ListingPaths(dir: string, l: Listing, recursive: bool): seq<string>
  {
    match l
    case Unreadable => []
    case Entries(es) => EntriesPaths(dir, es, recursive)
  }

  /** Walking two runs of entries one after the other hands over the paths of
      the first run, then those of the second. */
  lemma {:induction false} EntriesPathsAppend(dir: string, a: seq<Entry>, b: seq<Entry>, recursive: bool)
    ensures EntriesPaths(dir, a + b, recursive) == EntriesPaths(dir, a, recursive) + EntriesPaths(dir, b, recursive)
    decreases |b|
  {
    if b == [] {
      assert a + b == a;
    } else {
      var b' := b[..|b| - 1];
      assert (a + b)[..|a + b| - 1] == a + b';
      assert (a + b)[|a + b| - 1] == b[|b| - 1];
      EntriesPathsAppend(dir, a, b', recursive);
      AppendAssoc(EntriesPaths(dir, a, recursive), EntriesPaths(dir, b', recursive), EntryPaths(dir, b[|b| - 1], recursive));
    }
  }

  /** Joins a sequence of entry names onto `dir`, one level at a time. */
  function JoinAll(dir: string, names: seq<string>): string
    decreases |names|
  {
    if names == [] then dir else JoinAll(JoinPath(dir, names[0]), names[1..])
  }

  /** Reference definition, independent of visiting order: `names` leads from
      the entries `es`, through visible directories (entered only when
      `recursive` is set) and never through an unreadable one, to a visible
      entry that is a file with a source-file name. */
  ghost predicate Reaches(es: seq<Entry>, names: seq<string>, recursive: bool)
    decreases |names|
  {
    |names| > 0 && !Hidden(names[0]) &&
    exists e :: e in es && e.name == names[0] &&
      ((e.File? && |names| == 1 && IsSourcePath(names[0])) ||
       (e.Dir? && recursive && e.contents.Entries? && Reaches(e.contents.entries, names[1..], recursive)))
  }

  lemma ReachesMonotonic(es: seq<Entry>, es': seq<Entry>, names: seq<string>, recursive: bool)
    requires forall e :: e in es ==> e in es'
    requires Reaches(es, names, recursive)
    ensures Reaches(es', names, recursive)
  {
  }

  /** Every path the walk hands over is reached through visible names. */
  lemma {:induction false} WalkedPathReached(dir: string, es: seq<Entry>, recursive: bool, x: string)
      returns (names: seq<string>)
    requires x in EntriesPaths(dir, es, recursive)
    ensures Reaches(es, names, recursive) && x == JoinAll(dir, names)
    decreases es
  {
    var prefix := es[..|es| - 1];
    var e := es[|es| - 1];
    assert e in es;
    if x in EntriesPaths(dir, prefix, recursive) {
      names := WalkedPathReached(dir, prefix, recursive, x);
      ReachesMonotonic(prefix, es, names, recursive);
    } else {
      match e
      case File(n) =>
        SourcePathOfJoin(dir, n);
        names := [n];
        assert JoinAll(dir, names) == JoinAll(JoinPath(dir, n), []);
      case Dir(n, Entries(children)) =>
        var rest := WalkedPathReached(JoinPath(dir, n), children, recursive, x);
        names := [n] + rest;
        assert names[1..] == rest;
    }
  }

  /** Every reached source file is handed to the parser. */
  lemma {:induction false} ReachedPathWalked(dir: string, es: seq<Entry>, recursive: bool, names: seq<string>)
    requires Reaches(es, names, recursive)
    ensures JoinAll(dir, names) in EntriesPaths(dir, es, recursive)
    decreases es
  {
    var e :| e in es && e.name == names[0] &&
      ((e.File? && |names| == 1 && IsSourcePath(names[0])) ||
       (e.Dir? && recursive && e.contents.Entries? && Reaches(e.contents.entries, names[1..], recursive)));
    var j :| 0 <= j < |es| && es[j] == e;
    var prefix := es[..|es| - 1];
    if j < |es| - 1 {
      assert prefix[j] == e;
      ReachedPathWalked(dir, prefix, recursive, names);
    } else {
      assert e == es[|es| - 1];
      match e
      case File(n) =>
        SourcePathOfJoin(dir, n);
        assert JoinAll(dir, names) == JoinPath(dir, n) by {
          assert names[1..] == [];
        }
        assert EntryPaths(dir, e, recursive) == [JoinPath(dir, n)];
      case Dir(n, Entries(children)) =>
        ReachedPathWalked(JoinPath(dir, n), children, recursive, names[1..]);
        assert JoinAll(dir, names) == JoinAll(JoinPath(dir, n), names[1..]);
        assert EntryPaths(dir, e, recursive) == EntriesPaths(JoinPath(dir, n), children, recursive);
    }
  }

  /** The walk hands over exactly the reached source files: both directions. */
  lemma WalkedIffReached(dir: string, es: seq<Entry>, recursive: bool, x: string)
    ensures x in EntriesPaths(dir, es, recursive) <==>
            exists names :: Reaches(es, names, recursive) && x == JoinAll(dir, names)
  {
    if x in EntriesPaths(dir, es, recursive) {
      var names := WalkedPathReached(dir, es, recursive, x);
    }
    forall names | Reaches(es, names, recursive) && x == JoinAll(dir, names)
      ensures x in EntriesPaths(dir, es, recursive)
    {
      ReachedPathWalked(dir, es, recursive, names);
    }
  }

  /** A reached file lies beneath visible names only, and is a source file. */
  lemma {:induction false} ReachedNamesVisible(es: seq<Entry>, names: seq<string>, recursive: bool)
    requires Reaches(es, names, recursive)
    ensures forall k :: 0 <= k < |names| ==> !Hidden(names[k])
    ensures IsSourcePath(names[|names| - 1])
    ensures !recursive ==> |names| == 1
    decreases |names|
  {
    var e :| e in es && e.name == names[0] &&
      ((e.File? && |names| == 1 && IsSourcePath(names[0])) ||
       (e.Dir? && recursive && e.contents.Entries? && Reaches(e.contents.entries, names[1..], recursive)));
    if !e.File? {
      ReachedNamesVisible(e.contents.entries, names[1..], recursive);
      forall k | 0 <= k < |names| ensures !Hidden(names[k]) {
        if k > 0 { assert names[k] == names[1..][k - 1]; }
      }
    }
  }

  /** Without recursion, the walk hands over exactly the source files listed
      directly in the directory, and no path from any sub-directory. */
  lemma {:induction false} NonRecursiveTopLevelOnly(dir: string, es: seq<Entry>, x: string)
    ensures x in EntriesPaths(dir, es, false) <==> exists e :: e in es && TopLevelSource(dir, e, x)
    decreases es
  {
    if es != [] {
      var prefix, last := es[..|es| - 1], es[|es| - 1];
      NonRecursiveTopLevelOnly(dir, prefix, x);
      TopLevelEntry(dir, last, x);
      assert es == prefix + [last];
      if exists e :: e in es && TopLevelSource(dir, e, x) {
        var e :| e in es && TopLevelSource(dir, e, x);
        if e != last {
          assert e in prefix;
        }
      }
    }
  }

  /** Without recursion, one entry contributes `x` exactly when it is a
      visible source file whose path is `x`. */
  lemma TopLevelEntry(dir: string, e: Entry, x: string)
    ensures x in EntryPaths(dir, e, false) <==> TopLevelSource(dir, e, x)
  {
    SourcePathOfJoin(dir, e.name);
  }

  /** Entry `e` of directory `dir` is a visible file with a source-file name
      whose path is `x`. */
  predicate TopLevelSource(dir: string, e: Entry, x: string) {
    e.File? && !Hidden(e.name) && IsSourcePath(e.name) && x == JoinPath(dir, e.name)
  }

  /** What lies beneath entry `j` does not matter when that entry is hidden, or
      is a directory and the walk is not recursive: the walk never looks inside. */
  lemma {:induction false} UnvisitedSubtreeIrrelevant(dir: string, es: seq<Entry>, j: nat, other: Listing, recursive: bool)
    requires j < |es| && es[j].Dir?
    requires Hidden(es[j].name) || !recursive
    ensures EntriesPaths(dir, es[j := Dir(es[j].name, other)], recursive) == EntriesPaths(dir, es, recursive)
    decreases es
  {
    var es' := es[j := Dir(es[j].name, other)];
    if j < |es| - 1 {
      assert es'[..|es'| - 1] == es[..|es| - 1][j := Dir(es[j].name, other)];
      assert es'[|es'| - 1] == es[|es| - 1];
      UnvisitedSubtreeIrrelevant(dir, es[..|es| - 1], j, other, recursive);
    } else {
      assert es'[..|es'| - 1] == es[..|es| - 1];
      UnvisitedEntry(dir, es[j], other, recursive);
    }
  }

  /** A directory entry the walk does not enter contributes nothing, whatever it holds. */
  lemma UnvisitedEntry(dir: string, e: Entry, other: Listing, recursive: bool)
    requires e.Dir? && (Hidden(e.name) || !recursive)
    ensures EntryPaths(dir, e, recursive) == [] && EntryPaths(dir, Dir(e.name, other), recursive) == []
  {
  }
}
