/**
 * The pruning directory walk (`walk_the_repo`). The file system is an in-memory
 * tree whose entries are listed in the order the operating system gives them;
 * a path is the list of component names below the walk's root. Like `os.walk`
 * from the top down, a directory's own files come out first, then each kept
 * subdirectory is walked in listing order; a subdirectory whose base name is in
 * `SkipDirs` is removed from the listing before the descent and never entered.
 */
module Walker {
  import opened ScannerTables
  import opened PathNames

  /** A directory: its base name, its file names and its subdirectories, in listing order. */
  datatype Dir = Dir(name: string, files: seq<string>, subdirs: seq<Dir>)

  /** The number of directories in a tree (a termination measure). */
  function Size(d: Dir): (r: nat)
    ensures r >= 1
    decreases d
  {
    1 + SizeAll(d.subdirs)
  }

  function SizeAll(ds: seq<Dir>): nat
    decreases ds
  {
    if ds == [] then 0 else Size(ds[0]) + SizeAll(ds[1..])
  }

  /** The subdirectory listing after the in-place filter on base names. */
  function Kept(subdirs: seq<Dir>): (r: seq<Dir>)
    ensures forall d :: d in r <==> d in subdirs && d.name !in SkipDirs
    ensures SizeAll(r) <= SizeAll(subdirs)
  {
    if subdirs == [] then []
    else if subdirs[0].name in SkipDirs then Kept(subdirs[1..])
    else [subdirs[0]] + Kept(subdirs[1..])
  }

  /** The paths of the files of one directory, in listing order. */
  function FilePaths(files: seq<string>, prefix: Path): (r: seq<Path>)
    ensures |r| == |files|
    ensures forall i :: 0 <= i < |r| ==> r[i] == prefix + [files[i]]
  {
    if files == [] then [] else [prefix + [files[0]]] + FilePaths(files[1..], prefix)
  }

  /**
   * The paths the walk yields for directory `d` reached at `prefix`: every path
   * lies strictly below `prefix`.
   */
  function Walk(d: Dir, prefix: Path): (r: seq<Path>)
    ensures forall i :: 0 <= i < |r| ==> |r[i]| > |prefix| && r[i][..|prefix|] == prefix
    decreases Size(d), 0
  {
    FilePaths(d.files, prefix) + WalkList(Kept(d.subdirs), prefix)
  }

  /** The walks of the directories `ds` below `prefix`, one after another. */
  function WalkList(ds: seq<Dir>, prefix: Path): (r: seq<Path>)
    ensures forall i :: 0 <= i < |r| ==> |r[i]| > |prefix| + 1 && r[i][..|prefix|] == prefix
    decreases SizeAll(ds), 1
  {
    if ds == [] then []
    else
      var here := Walk(ds[0], prefix + [ds[0].name]);
      assert forall i :: 0 <= i < |here| ==> here[i][..|prefix|] == (prefix + [ds[0].name])[..|prefix|];
      here + WalkList(ds[1..], prefix)
  }

  /**
   * An independent statement of what the walk reaches: `p` is a file of `d`, or
   * `p[0]` names a subdirectory of `d` that is not skipped and `p[1..]` is reached
   * from it. Only subdirectory names are tested, never the name of `d` itself.
   */
  predicate Listed(d: Dir, p: Path)
    decreases d
  {
    (|p| == 1 && p[0] in d.files) ||
    (|p| > 1 && p[0] !in SkipDirs && exists s :: s in d.subdirs && s.name == p[0] && Listed(s, p[1..]))
  }

  lemma {:induction false} FilePathsExactly(files: seq<string>, prefix: Path, p: Path)
    ensures p in FilePaths(files, prefix) <==>
      |p| == |prefix| + 1 && p[..|prefix|] == prefix && p[|prefix|] in files
  {
    var r := FilePaths(files, prefix);
    if p in r {
      var i :| 0 <= i < |r| && r[i] == p;
      assert p == prefix + [files[i]];
    }
    if |p| == |prefix| + 1 && p[..|prefix|] == prefix && p[|prefix|] in files {
      var i :| 0 <= i < |files| && files[i] == p[|prefix|];
      assert r[i] == p;
    }
  }

  /**
   * The walk of `d` at `prefix` yields exactly the paths below `prefix` whose
   * remainder is listed in `d`.
   */
  lemma {:induction false} WalkExactly(d: Dir, prefix: Path, p: Path)
    ensures p in Walk(d, prefix) <==>
      |p| > |prefix| && p[..|prefix|] == prefix && Listed(d, p[|prefix|..])
    decreases Size(d), 0
  {
    FilePathsExactly(d.files, prefix, p);
    WalkListExactly(Kept(d.subdirs), prefix, p);
    if |p| > |prefix| + 1 && p[..|prefix|] == prefix {
      var q := p[|prefix|..];
      assert q[0] == p[|prefix|] && q[1..] == p[|prefix| + 1..];
    }
  }

  /** Some directory of `ds` named `name` has `rest` listed. */
  predicate Through(ds: seq<Dir>, name: string, rest: Path)
  {
    exists s :: s in ds && s.name == name && Listed(s, rest)
  }

  lemma ThroughCons(ds: seq<Dir>, name: string, rest: Path)
    requires ds != []
    ensures Through(ds, name, rest) <==>
      (ds[0].name == name && Listed(ds[0], rest)) || Through(ds[1..], name, rest)
  {
    if Through(ds, name, rest) {
      var s :| s in ds && s.name == name && Listed(s, rest);
      if s != ds[0] {
        assert s in ds[1..];
      }
    }
    if Through(ds[1..], name, rest) {
      var s :| s in ds[1..] && s.name == name && Listed(s, rest);
      assert s in ds;
    }
  }

  /** The walks of `ds` yield exactly the paths that run through one of them. */
  lemma {:induction false} WalkListExactly(ds: seq<Dir>, prefix: Path, p: Path)
    ensures p in WalkList(ds, prefix) <==>
      |p| > |prefix| + 1 && p[..|prefix|] == prefix && Through(ds, p[|prefix|], p[|prefix| + 1..])
    decreases SizeAll(ds), 1
  {
    if ds != [] && |p| > |prefix| + 1 {
      var s0, rest := ds[0], p[|prefix| + 1..];
      var sub := prefix + [s0.name];
      assert p in WalkList(ds, prefix) <==> p in Walk(s0, sub) || p in WalkList(ds[1..], prefix);
      WalkExactly(s0, sub, p);
      WalkListExactly(ds[1..], prefix, p);
      assert p[..|sub|] == p[..|prefix|] + [p[|prefix|]];
      ThroughCons(ds, p[|prefix|], rest);
    }
  }

  /** From the root, the walk yields exactly the listed paths. */
  lemma WalkTheRepoExactly(root: Dir, p: Path)
    ensures p in Walk(root, []) <==> Listed(root, p)
  {
    WalkExactly(root, [], p);
    assert p[..0] == [] && p[0..] == p;
  }

  /**
   * Only subdirectory names are tested against `SkipDirs`: the root's own name
   * plays no part, so a root called ".git" is walked like any other.
   */
  lemma RootNameIrrelevant(root: Dir, n: string)
    ensures Walk(root.(name := n), []) == Walk(root, [])
    ensures forall p :: Listed(root.(name := n), p) <==> Listed(root, p)
  {
  }

  /** A listed path never passes through a directory whose name is skipped. */
  lemma {:induction false} ListedAvoidsSkipDirs(d: Dir, p: Path)
    requires Listed(d, p)
    ensures |p| >= 1
    ensures forall i :: 0 <= i < |p| - 1 ==> p[i] !in SkipDirs
    decreases d
  {
    if |p| > 1 {
      var s :| s in d.subdirs && s.name == p[0] && Listed(s, p[1..]);
      ListedAvoidsSkipDirs(s, p[1..]);
      assert forall i :: 1 <= i < |p| - 1 ==> p[i] == p[1..][i - 1];
    }
  }

  /** The subdirectories' names are pairwise distinct. */
  predicate DistinctNames(ds: seq<Dir>)
  {
    forall i, j :: 0 <= i < j < |ds| ==> ds[i].name != ds[j].name
  }

  /**
   * A tree a file system can hold: within each directory the file names are
   * distinct, the subdirectory names are distinct, and no name contains '/'.
   */
  predicate WellFormed(d: Dir)
    decreases d
  {
    (forall i, j :: 0 <= i < j < |d.files| ==> d.files[i] != d.files[j]) &&
    (forall i :: 0 <= i < |d.files| ==> '/' !in d.files[i]) &&
    DistinctNames(d.subdirs) &&
    (forall s :: s in d.subdirs ==> '/' !in s.name && WellFormed(s))
  }

  /** No path occurs twice. */
  predicate Distinct(ps: seq<Path>)
  {
    forall i, j :: 0 <= i < j < |ps| ==> ps[i] != ps[j]
  }

  lemma DistinctAppend(a: seq<Path>, b: seq<Path>)
    requires Distinct(a) && Distinct(b)
    requires forall x :: x in a ==> x !in b
    ensures Distinct(a + b)
  {
    forall i, j | 0 <= i < j < |a + b|
      ensures (a + b)[i] != (a + b)[j]
    {
      if j < |a| {
      } else if i >= |a| {
        assert (a + b)[i] == b[i - |a|] && (a + b)[j] == b[j - |a|];
      } else {
        assert (a + b)[i] == a[i] && (a + b)[j] in b;
      }
    }
  }

  /** Filtering keeps distinct names distinct. */
  lemma {:induction false} KeptDistinctNames(ds: seq<Dir>)
    requires DistinctNames(ds)
    ensures DistinctNames(Kept(ds))
  {
    if ds != [] {
      KeptDistinctNames(ds[1..]);
      if ds[0].name !in SkipDirs {
        var r := Kept(ds);
        forall j | 1 <= j < |r|
          ensures r[0].name != r[j].name
        {
          assert r[j] in Kept(ds[1..]);
          var k :| 0 <= k < |ds[1..]| && ds[1..][k] == r[j];
          assert ds[k + 1] == r[j];
        }
      }
    }
  }

  /**
   * In a well-formed tree the walk yields every path at most once: no file is
   * reported twice.
   */
  lemma {:induction false} WalkDistinct(d: Dir, prefix: Path)
    requires WellFormed(d)
    ensures Distinct(Walk(d, prefix))
    decreases Size(d), 0
  {
    var files, kept := FilePaths(d.files, prefix), Kept(d.subdirs);
    KeptDistinctNames(d.subdirs);
    WalkListDistinct(kept, prefix);
    forall i, j | 0 <= i < j < |files|
      ensures files[i] != files[j]
    {
      assert files[i][|prefix|] == d.files[i] && files[j][|prefix|] == d.files[j];
    }
    DistinctAppend(files, WalkList(kept, prefix));
  }

  lemma {:induction false} WalkListDistinct(ds: seq<Dir>, prefix: Path)
    requires DistinctNames(ds)
    requires forall s :: s in ds ==> WellFormed(s)
    ensures Distinct(WalkList(ds, prefix))
    decreases SizeAll(ds), 1
  {
    if ds != [] {
      var sub := prefix + [ds[0].name];
      var head, tail := Walk(ds[0], sub), WalkList(ds[1..], prefix);
      WalkDistinct(ds[0], sub);
      WalkListDistinct(ds[1..], prefix);
      forall x | x in head
        ensures x !in tail
      {
        assert x[..|sub|] == sub;
        assert x[|prefix|] == sub[|prefix|];
        WalkListExactly(ds[1..], prefix, x);
      }
      DistinctAppend(head, tail);
    }
  }

  /** In a well-formed tree no component of a listed path contains '/'. */
  lemma {:induction false} ListedNoSeparator(d: Dir, p: Path)
    requires WellFormed(d) && Listed(d, p)
    ensures NoSeparator(p)
    decreases d
  {
    if |p| == 1 {
      var i :| 0 <= i < |d.files| && d.files[i] == p[0];
    } else {
      var s :| s in d.subdirs && s.name == p[0] && Listed(s, p[1..]);
      ListedNoSeparator(s, p[1..]);
      assert forall k :: 1 <= k < |p| ==> p[k] == p[1..][k - 1];
    }
  }

  /**
   * Files first: the walk starts with the directory's own files, in listing order,
   * and every later path lies inside a subdirectory.
   */
  lemma FilesFirst(d: Dir, prefix: Path)
    ensures var r := Walk(d, prefix);
      |d.files| <= |r| &&
      (forall i :: 0 <= i < |d.files| ==> r[i] == prefix + [d.files[i]]) &&
      (forall i :: |d.files| <= i < |r| ==> |r[i]| > |prefix| + 1)
  {
    var r := Walk(d, prefix);
    var tail := WalkList(Kept(d.subdirs), prefix);
    assert forall i :: |d.files| <= i < |r| ==> r[i] == tail[i - |d.files|];
  }

  lemma {:induction false} KeptAppend(a: seq<Dir>, x: Dir)
    ensures Kept(a + [x]) == Kept(a) + if x.name in SkipDirs then [] else [x]
  {
    if a == [] {
      assert a + [x] == [x];
    } else {
      assert (a + [x])[1..] == a[1..] + [x];
      KeptAppend(a[1..], x);
    }
  }

  lemma {:induction false} WalkListAppend(a: seq<Dir>, x: Dir, prefix: Path)
    ensures WalkList(a + [x], prefix) == WalkList(a, prefix) + Walk(x, prefix + [x.name])
  {
    if a == [] {
      assert a + [x] == [x];
    } else {
      assert (a + [x])[1..] == a[1..] + [x];
      WalkListAppend(a[1..], x, prefix);
    }
  }

  /**
   * Regrouping a concatenation. Dafny knows this fact, but stated inside `WalkDir`'s
   * loop it is proved among all of that loop's sequence facts; proved here it is
   * proved alone.
   */
  lemma AppendAssociative(a: seq<Path>, b: seq<Path>, c: seq<Path>)
    ensures (a + b) + c == a + (b + c)
  {
  }

  lemma {:induction false} SizeOfMember(ds: seq<Dir>, x: Dir)
    requires x in ds
    ensures Size(x) <= SizeAll(ds)
  {
    if ds[0] != x {
      SizeOfMember(ds[1..], x);
    }
  }

  /**
   * `subdirectories[:] = [d for d in subdirectories if d not in SKIP_DIRS]`: the
   * listing is replaced by its kept entries, in their order.
   */
  method PruneSubdirs(subdirs: seq<Dir>) returns (kept: seq<Dir>)
    ensures kept == Kept(subdirs)
  {
    kept := [];
    var i := 0;
    while i < |subdirs|
      invariant 0 <= i <= |subdirs|
      invariant kept == Kept(subdirs[..i])
    {
      KeptAppend(subdirs[..i], subdirs[i]);
      assert subdirs[..i + 1] == subdirs[..i] + [subdirs[i]];
      if subdirs[i].name !in SkipDirs {
        kept := kept + [subdirs[i]];
      }
      i := i + 1;
    }
    assert subdirs[..i] == subdirs;
  }

  /** `for fname in filenames: yield Path(dirpath) / fname`. */
  method YieldFiles(files: seq<string>, prefix: Path) returns (paths: seq<Path>)
    ensures paths == FilePaths(files, prefix)
  {
    paths := [];
    var i := 0;
    while i < |files|
      invariant 0 <= i <= |files|
      invariant |paths| == i
      invariant forall k :: 0 <= k < i ==> paths[k] == prefix + [files[k]]
    {
      paths := paths + [prefix + [files[i]]];
      i := i + 1;
    }
  }

  /**
   * The top-down walk of `d`, entered at `prefix`: yield the directory's files,
   * prune its listing, then walk each kept subdirectory in turn.
   */
  method WalkDir(d: Dir, prefix: Path) returns (paths: seq<Path>)
    ensures paths == Walk(d, prefix)
    decreases Size(d)
  {
    paths := YieldFiles(d.files, prefix);
    ghost var files := paths;
    var listing := d.subdirs;
    listing := PruneSubdirs(listing);
    assert paths == files + WalkList(listing[..0], prefix);
    var j := 0;
    while j < |listing|
      invariant 0 <= j <= |listing|
      invariant paths == files + WalkList(listing[..j], prefix)
    {
      var sub := listing[j];
      SizeOfMember(d.subdirs, sub);
      var below := WalkDir(sub, prefix + [sub.name]);
      ghost var done := WalkList(listing[..j], prefix);
      assert listing[..j + 1] == listing[..j] + [sub];
      WalkListAppend(listing[..j], sub, prefix);
      assert WalkList(listing[..j + 1], prefix) == done + below;
      AppendAssociative(files, done, below);
      paths := paths + below;
      j := j + 1;
    }
    assert listing[..j] == listing;
  }

  /**
   * `walk_the_repo`: the walk from the root yields, in walk order, exactly the
   * listed paths.
   */
  method WalkTheRepo(root: Dir) returns (paths: seq<Path>)
    ensures paths == Walk(root, [])
    ensures forall p :: p in paths <==> Listed(root, p)
  {
    paths := WalkDir(root, []);
    forall p
      ensures p in paths <==> Listed(root, p)
    {
      WalkTheRepoExactly(root, p);
    }
  }
}
