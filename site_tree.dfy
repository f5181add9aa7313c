/**
 * The navigation tree of the generated site (`mk_site_tree` / `mk_site_tree_core`
 * in print_docs.py).  Every module `[project] + parts` is a path in the tree: at
 * each level the directories come first, deduplicated and sorted, then the files,
 * sorted; the projects are the top-level directories.
 */
module SiteTree {
  import opened Strings
  import opened ImportNames

  /** A tree entry: a directory (kind "project" at the top, "dir" below) or a page ("file"). */
  datatype Entry =
    | Dir(kind: string, name: string, path: string, children: seq<Entry>)
    | File(name: string, path: string)

  /** A module as a list of path components: its project, then its parts. */
  type Filename = seq<string>

  /** The unpacking `dirname, *rest = filename` needs at least one component. */
  predicate NonEmpty(fs: seq<Filename>) {
    forall f :: f in fs ==> f != []
  }

  /** The longest filename: the depth bound the recursion descends along. */
  function Height(fs: seq<Filename>): nat {
    if fs == [] then 0
    else
      var h := Height(fs[1..]);
      if |fs[0]| > h then |fs[0]| else h
  }

  lemma {:induction false} HeightBounds(fs: seq<Filename>)
    ensures forall f :: f in fs ==> |f| <= Height(fs)
  {
    if fs != [] {
      HeightBounds(fs[1..]);
      assert forall f :: f in fs ==> f == fs[0] || f in fs[1..];
    }
  }

  lemma {:induction false} HeightBelow(fs: seq<Filename>, h: nat)
    requires h >= 1 && forall f :: f in fs ==> |f| < h
    ensures Height(fs) < h
  {
    if fs != [] {
      assert forall f :: f in fs[1..] ==> f in fs;
      HeightBelow(fs[1..], h);
    }
  }

  /** Some filename continues below this level under directory `d`. */
  predicate HasDir(fs: seq<Filename>, d: string) {
    exists f :: f in fs && |f| > 1 && f[0] == d
  }

  /** The first components of the filenames that continue below this level. */
  function DirNames(fs: seq<Filename>): seq<string>
    requires NonEmpty(fs)
  {
    if fs == [] then []
    else
      assert forall f :: f in fs[1..] ==> f in fs;
      (if |fs[0]| > 1 then [fs[0][0]] else []) + DirNames(fs[1..])
  }

  lemma {:induction false} DirNamesSpec(fs: seq<Filename>)
    requires NonEmpty(fs)
    ensures forall d :: d in DirNames(fs) <==> HasDir(fs, d)
  {
    if fs != [] {
      assert forall f :: f in fs <==> f == fs[0] || f in fs[1..];
      DirNamesSpec(fs[1..]);
    }
  }

  /** The filenames that end at this level, in input order. */
  function FileNames(fs: seq<Filename>): seq<string>
    requires NonEmpty(fs)
  {
    if fs == [] then []
    else
      assert forall f :: f in fs[1..] ==> f in fs;
      (if |fs[0]| == 1 then [fs[0][0]] else []) + FileNames(fs[1..])
  }

  lemma {:induction false} FileNamesSpec(fs: seq<Filename>)
    requires NonEmpty(fs)
    ensures forall n :: n in FileNames(fs) <==> [n] in fs
  {
    if fs != [] {
      assert forall f :: f in fs <==> f == fs[0] || f in fs[1..];
      FileNamesSpec(fs[1..]);
      if |fs[0]| == 1 { assert fs[0] == [fs[0][0]]; }
    }
  }

  /** The rests of the filenames under directory `d`. */
  function Children(fs: seq<Filename>, d: string): (r: seq<Filename>)
    requires NonEmpty(fs)
    ensures NonEmpty(r)
  {
    if fs == [] then []
    else
      assert forall f :: f in fs <==> f == fs[0] || f in fs[1..];
      (if |fs[0]| > 1 && fs[0][0] == d then [fs[0][1..]] else []) + Children(fs[1..], d)
  }

  /** The children of `d` are the rests, all non-empty, of the filenames under `d`. */
  lemma {:induction false} ChildrenSpec(fs: seq<Filename>, d: string)
    requires NonEmpty(fs)
    ensures forall c :: c in Children(fs, d) <==> exists f :: f in fs && |f| > 1 && f[0] == d && f[1..] == c
  {
    if fs != [] {
      assert forall f :: f in fs <==> f == fs[0] || f in fs[1..];
      ChildrenSpec(fs[1..], d);
    }
  }

  /** Descending into a directory shortens the longest filename: the recursion terminates. */
  lemma ChildrenLower(fs: seq<Filename>, d: string)
    requires NonEmpty(fs) && fs != []
    ensures Height(Children(fs, d)) < Height(fs)
  {
    ChildrenSpec(fs, d);
    HeightBounds(fs);
    var cs := Children(fs, d);
    assert fs[0] in fs;
    assert forall c :: c in cs ==> |c| < Height(fs);
    HeightBelow(cs, Height(fs));
  }

  /** The `path` field: the components after the project, joined with '/'. */
  function EntryPath(newPath: seq<string>): string
    requires newPath != []
  {
    Join(newPath[1..], "/")
  }

  lemma SortedDirsAreDirs(fs: seq<Filename>)
    requires NonEmpty(fs)
    ensures forall d :: d in SortUnique(DirNames(fs)) <==> HasDir(fs, d)
  {
    var dirs := SortUnique(DirNames(fs));
    SortUniqueSpec(DirNames(fs));
    DirNamesSpec(fs);
    assert forall d :: d in dirs <==> d in Elems(dirs);
    assert forall d :: d in DirNames(fs) <==> d in Elems(DirNames(fs));
  }

  function DirEntry(fs: seq<Filename>, path: seq<string>, d: string): Entry
    requires NonEmpty(fs) && fs != []
    decreases Height(fs), 0, 0
  {
    ChildrenLower(fs, d);
    Dir(DirKind(path), d, EntryPath(path + [d]), Tree(Children(fs, d), path + [d]))
  }

  /** The directory entries of one level, one per name of `dirs`. */
  function DirEntries(fs: seq<Filename>, path: seq<string>, dirs: seq<string>): seq<Entry>
    requires NonEmpty(fs) && (dirs != [] ==> fs != [])
    decreases Height(fs), 1, |dirs|
  {
    if dirs == [] then []
    else DirEntries(fs, path, dirs[..|dirs| - 1]) + [DirEntry(fs, path, dirs[|dirs| - 1])]
  }

  /** The file entries of one level, one per name of `files`. */
  function FileEntries(path: seq<string>, files: seq<string>): seq<Entry> {
    if files == [] then []
    else FileEntries(path, files[..|files| - 1]) + [File(files[|files| - 1], EntryPath(path + [files[|files| - 1]]) + ".html")]
  }

  /** What `mk_site_tree_core(fs, path)` returns. */
  function Tree(fs: seq<Filename>, path: seq<string>): seq<Entry>
    requires NonEmpty(fs)
    decreases Height(fs), 2, 0
  {
    DirEntries(fs, path, SortUnique(DirNames(fs))) + FileEntries(path, Sort(FileNames(fs)))
  }

  /** `mk_site_tree_core`: the directory loop (recursing into each), then the file loop. */
  method MkSiteTreeCore(fs: seq<Filename>, path: seq<string>) returns (entries: seq<Entry>)
    requires NonEmpty(fs)
    ensures entries == Tree(fs, path)
    decreases Height(fs)
  {
    entries := [];
    var dirs := SortUnique(DirNames(fs));
    var files := Sort(FileNames(fs));
    TreeSplit(fs, path, dirs, files);
    for i := 0 to |dirs|
      invariant entries == DirEntries(fs, path, dirs[..i])
    {
      var newPath := path + [dirs[i]];
      ChildrenLower(fs, dirs[i]);
      var children := MkSiteTreeCore(Children(fs, dirs[i]), newPath);
      DirEntriesSnoc(fs, path, dirs, i);
      entries := entries + [Dir(DirKind(path), dirs[i], EntryPath(newPath), children)];
    }
    ghost var dirPart := entries;
    for i := 0 to |files|
      invariant entries == dirPart + FileEntries(path, files[..i])
    {
      var newPath := path + [files[i]];
      FileEntriesSnoc(dirPart, path, files, i);
      entries := entries + [File(files[i], EntryPath(newPath) + ".html")];
    }
    assert dirs[..|dirs|] == dirs && files[..|files|] == files;
  }

  lemma DirEntriesSnoc(fs: seq<Filename>, path: seq<string>, dirs: seq<string>, i: nat)
    requires NonEmpty(fs) && (dirs != [] ==> fs != [])
    requires i < |dirs|
    ensures DirEntries(fs, path, dirs[..i + 1])
      == DirEntries(fs, path, dirs[..i])
        + [Dir(DirKind(path), dirs[i], EntryPath(path + [dirs[i]]), Tree(Children(fs, dirs[i]), path + [dirs[i]]))]
  {
    assert dirs[..i + 1][..i] == dirs[..i];
  }

  lemma FileEntriesSnoc(before: seq<Entry>, path: seq<string>, files: seq<string>, i: nat)
    requires i < |files|
    ensures before + FileEntries(path, files[..i + 1])
      == before + FileEntries(path, files[..i]) + [File(files[i], EntryPath(path + [files[i]]) + ".html")]
  {
    assert files[..i + 1][..i] == files[..i];
  }

  lemma TreeSplit(fs: seq<Filename>, path: seq<string>, dirs: seq<string>, files: seq<string>)
    requires NonEmpty(fs)
    requires dirs == SortUnique(DirNames(fs)) && files == Sort(FileNames(fs))
    ensures dirs != [] ==> fs != []
    ensures Tree(fs, path) == DirEntries(fs, path, dirs) + FileEntries(path, files)
  {
  }

  /** `[filename.project] + list(filename.parts)` for every module. */
  function Filenames(modules: seq<ImportName>): (r: seq<Filename>)
    ensures |r| == |modules| && NonEmpty(r)
    ensures forall i :: 0 <= i < |modules| ==> r[i] == [modules[i].project] + modules[i].parts
  {
    seq(|modules|, i requires 0 <= i < |modules| => [modules[i].project] + modules[i].parts)
  }

  /** `mk_site_tree(partition)` over the modules of `file_map`. */
  method MkSiteTree(modules: seq<ImportName>) returns (entries: seq<Entry>)
    ensures entries == Tree(Filenames(modules), [])
  {
    entries := MkSiteTreeCore(Filenames(modules), []);
  }

  // ---------------------------------------------------------------------------
  // The shape of one level

  /** The entry kind of the directories directly under `path`. */
  function DirKind(path: seq<string>): string {
    if path == [] then "project" else "dir"
  }

  lemma {:induction false} DirEntriesLength(fs: seq<Filename>, path: seq<string>, dirs: seq<string>)
    requires NonEmpty(fs) && (dirs != [] ==> fs != [])
    ensures |DirEntries(fs, path, dirs)| == |dirs|
  {
    if dirs != [] {
      DirEntriesLength(fs, path, dirs[..|dirs| - 1]);
    }
  }

  lemma DirEntriesShape(fs: seq<Filename>, path: seq<string>, dirs: seq<string>)
    requires NonEmpty(fs) && (dirs != [] ==> fs != [])
    ensures var r := DirEntries(fs, path, dirs);
      |r| == |dirs|
      && forall i :: 0 <= i < |dirs| ==>
        r[i].Dir? && r[i].name == dirs[i] && r[i].kind == DirKind(path) && r[i].path == EntryPath(path + [dirs[i]])
  {
    DirEntriesLength(fs, path, dirs);
    forall i | 0 <= i < |dirs|
      ensures var r := DirEntries(fs, path, dirs);
        r[i].Dir? && r[i].name == dirs[i] && r[i].kind == DirKind(path) && r[i].path == EntryPath(path + [dirs[i]])
    {
      DirEntryAt(fs, path, dirs, i);
    }
  }

  /** Entry `i` of a level's directory entries is the directory named `dirs[i]`, with its subtree. */
  lemma {:induction false} DirEntryAt(fs: seq<Filename>, path: seq<string>, dirs: seq<string>, i: nat)
    requires NonEmpty(fs) && (dirs != [] ==> fs != []) && i < |dirs|
    ensures var r := DirEntries(fs, path, dirs);
      && i < |r| && r[i].Dir?
      && r[i].name == dirs[i] && r[i].kind == DirKind(path) && r[i].path == EntryPath(path + [dirs[i]])
      && r[i].children == Tree(Children(fs, dirs[i]), path + [dirs[i]])
  {
    var init := dirs[..|dirs| - 1];
    if i < |init| {
      DirEntryAt(fs, path, init, i);
      assert init[i] == dirs[i];
    } else {
      DirEntriesLength(fs, path, init);
    }
  }

  lemma DirEntriesChildren(fs: seq<Filename>, path: seq<string>, dirs: seq<string>)
    requires NonEmpty(fs) && (dirs != [] ==> fs != [])
    ensures var r := DirEntries(fs, path, dirs);
      |r| == |dirs|
      && forall i :: 0 <= i < |dirs| ==> r[i].Dir? && r[i].children == Tree(Children(fs, dirs[i]), path + [dirs[i]])
  {
    DirEntriesLength(fs, path, dirs);
    forall i | 0 <= i < |dirs|
      ensures var r := DirEntries(fs, path, dirs);
        r[i].Dir? && r[i].children == Tree(Children(fs, dirs[i]), path + [dirs[i]])
    {
      DirEntryAt(fs, path, dirs, i);
    }
  }

  lemma {:induction false} FileEntriesShape(path: seq<string>, files: seq<string>)
    ensures var r := FileEntries(path, files);
      |r| == |files|
      && forall i :: 0 <= i < |files| ==> r[i] == File(files[i], EntryPath(path + [files[i]]) + ".html")
  {
    if files != [] {
      FileEntriesShape(path, files[..|files| - 1]);
    }
  }

  /** The first entries of a level are its directories, one per sorted distinct directory name. */
  lemma LevelDirEntries(fs: seq<Filename>, path: seq<string>)
    requires NonEmpty(fs)
    ensures var r := Tree(fs, path);
      var dirs := SortUnique(DirNames(fs));
      |dirs| <= |r|
      && forall i :: 0 <= i < |dirs| ==>
        r[i].Dir? && r[i].name == dirs[i] && r[i].kind == DirKind(path) && r[i].path == EntryPath(path + [dirs[i]])
  {
    var dirs := SortUnique(DirNames(fs));
    TreeSplit(fs, path, dirs, Sort(FileNames(fs)));
    DirEntriesShape(fs, path, dirs);
  }

  /** The directory entries of a level hold the trees of their children. */
  lemma LevelDirChildren(fs: seq<Filename>, path: seq<string>)
    requires NonEmpty(fs)
    ensures var r := Tree(fs, path);
      var dirs := SortUnique(DirNames(fs));
      |dirs| <= |r|
      && forall i :: 0 <= i < |dirs| ==> r[i].Dir? && r[i].children == Tree(Children(fs, dirs[i]), path + [dirs[i]])
  {
    var dirs := SortUnique(DirNames(fs));
    TreeSplit(fs, path, dirs, Sort(FileNames(fs)));
    DirEntriesChildren(fs, path, dirs);
  }

  /** From index `n` on, `r` holds exactly one file entry per name of `files`, in order. */
  predicate FilesFrom(r: seq<Entry>, n: nat, path: seq<string>, files: seq<string>) {
    && |r| == n + |files|
    && forall i :: n <= i < |r| ==> r[i] == File(files[i - n], EntryPath(path + [files[i - n]]) + ".html")
  }

  /** The last entries of a level are its files, one per sorted file name. */
  lemma LevelFileEntries(fs: seq<Filename>, path: seq<string>)
    requires NonEmpty(fs)
    ensures FilesFrom(Tree(fs, path), |SortUnique(DirNames(fs))|, path, Sort(FileNames(fs)))
  {
    var dirs := SortUnique(DirNames(fs));
    var files := Sort(FileNames(fs));
    TreeSplit(fs, path, dirs, files);
    DirEntriesLength(fs, path, dirs);
    var a := DirEntries(fs, path, dirs);
    var b := FileEntries(path, files);
    assert (a + b)[|dirs|..] == b;
    FilesAfter(a + b, |dirs|, path, files);
  }

  lemma FilesAfter(r: seq<Entry>, n: nat, path: seq<string>, files: seq<string>)
    requires n <= |r| && r[n..] == FileEntries(path, files)
    ensures FilesFrom(r, n, path, files)
  {
    FileEntriesShape(path, files);
    forall i | n <= i < |r|
      ensures r[i] == File(files[i - n], EntryPath(path + [files[i - n]]) + ".html")
    {
      assert r[i] == r[n..][i - n];
    }
  }

  /**
   * One level is ordered as the source builds it: every directory entry precedes
   * every file entry, directory names are strictly ascending and file names ascending.
   */
  lemma LevelOrder(fs: seq<Filename>, path: seq<string>)
    requires NonEmpty(fs)
    ensures var r := Tree(fs, path);
      && (forall i, j :: 0 <= i < j < |r| && r[j].Dir? ==> r[i].Dir?)
      && (forall i, j :: 0 <= i < j < |r| && r[i].Dir? && r[j].Dir? ==> LexLe(r[i].name, r[j].name) && r[i].name != r[j].name)
      && (forall i, j :: 0 <= i < j < |r| && r[i].File? && r[j].File? ==> LexLe(r[i].name, r[j].name))
  {
    LevelDirEntries(fs, path);
    LevelFileEntries(fs, path);
    SortUniqueSpec(DirNames(fs));
    SortSpec(FileNames(fs));
  }

  /**
   * The directory entries of one level are exactly the first components of the
   * filenames that continue below it; each is a "project" at the top and a "dir"
   * below, and holds the tree of the rests of the filenames under it.
   */
  lemma LevelDirs(fs: seq<Filename>, path: seq<string>)
    requires NonEmpty(fs)
    ensures var r := Tree(fs, path);
      && (forall d :: HasDir(fs, d) <==> exists i :: 0 <= i < |r| && r[i].Dir? && r[i].name == d)
      && (forall i :: 0 <= i < |r| && r[i].Dir? ==> r[i].kind == DirKind(path))
      && (forall i :: 0 <= i < |r| && r[i].Dir? ==> r[i].children == Tree(Children(fs, r[i].name), path + [r[i].name]))
  {
    LevelDirEntries(fs, path);
    LevelDirChildren(fs, path);
    LevelFileEntries(fs, path);
    var r := Tree(fs, path);
    var dirs := SortUnique(DirNames(fs));
    SortedDirsAreDirs(fs);
    forall d | HasDir(fs, d)
      ensures exists i :: 0 <= i < |r| && r[i].Dir? && r[i].name == d
    {
      var i :| 0 <= i < |dirs| && dirs[i] == d;
      assert r[i].Dir? && r[i].name == d;
    }
  }

  /** Entry paths drop the project; file entries end in ".html". */
  lemma LevelPaths(fs: seq<Filename>, path: seq<string>)
    requires NonEmpty(fs)
    ensures var r := Tree(fs, path);
      forall i :: 0 <= i < |r| ==> r[i].path == EntryPath(path + [r[i].name]) + (if r[i].File? then ".html" else "")
  {
    LevelDirEntries(fs, path);
    LevelFileEntries(fs, path);
  }

  /** The file entries of one level are, with multiplicity, the filenames that end there. */
  lemma LevelFiles(fs: seq<Filename>, path: seq<string>)
    requires NonEmpty(fs)
    ensures multiset(FileEntryNames(Tree(fs, path))) == multiset(FileNames(fs))
  {
    FileEntryNamesOfLevel(fs, path);
    SortSpec(FileNames(fs));
  }

  /** The names of the file entries of a level, in order. */
  function FileEntryNames(es: seq<Entry>): seq<string> {
    if es == [] then []
    else FileEntryNames(es[..|es| - 1]) + (if es[|es| - 1].File? then [es[|es| - 1].name] else [])
  }

  lemma {:induction false} FileEntryNamesOfDirs(fs: seq<Filename>, path: seq<string>, dirs: seq<string>)
    requires NonEmpty(fs) && (dirs != [] ==> fs != [])
    ensures FileEntryNames(DirEntries(fs, path, dirs)) == []
  {
    if dirs != [] {
      FileEntryNamesOfDirs(fs, path, dirs[..|dirs| - 1]);
    }
  }

  lemma {:induction false} FileEntryNamesOfFiles(path: seq<string>, files: seq<string>)
    ensures FileEntryNames(FileEntries(path, files)) == files
  {
    if files != [] {
      FileEntryNamesOfFiles(path, files[..|files| - 1]);
    }
  }

  lemma {:induction false} FileEntryNamesAppend(a: seq<Entry>, b: seq<Entry>)
    ensures FileEntryNames(a + b) == FileEntryNames(a) + FileEntryNames(b)
    decreases |b|
  {
    if b != [] {
      assert (a + b)[..|a + b| - 1] == a + b[..|b| - 1];
      FileEntryNamesAppend(a, b[..|b| - 1]);
    } else {
      assert a + b == a;
    }
  }

  lemma FileEntryNamesOfLevel(fs: seq<Filename>, path: seq<string>)
    requires NonEmpty(fs)
    ensures FileEntryNames(Tree(fs, path)) == Sort(FileNames(fs))
  {
    var dirs := SortUnique(DirNames(fs));
    TreeSplit(fs, path, dirs, Sort(FileNames(fs)));
    FileEntryNamesAppend(DirEntries(fs, path, dirs), FileEntries(path, Sort(FileNames(fs))));
    FileEntryNamesOfDirs(fs, path, dirs);
    FileEntryNamesOfFiles(path, Sort(FileNames(fs)));
  }

  // ---------------------------------------------------------------------------
  // The set of page paths in the tree is the set of the modules' urls

  /** The `path` of every file entry anywhere in the tree. */
  function PagePaths(es: seq<Entry>): set<string> {
    if es == [] then {}
    else
      (match es[0]
       case File(_, p) => {p}
       case Dir(_, _, _, children) => PagePaths(children))
      + PagePaths(es[1..])
  }

  /** The page path of a full filename: its components after the project, joined with '/', then ".html". */
  function PagePath(full: seq<string>): string
    requires full != []
  {
    EntryPath(full) + ".html"
  }

  lemma {:induction false} PagePathsAppend(a: seq<Entry>, b: seq<Entry>)
    ensures PagePaths(a + b) == PagePaths(a) + PagePaths(b)
  {
    if a != [] {
      assert (a + b)[1..] == a[1..] + b;
      PagePathsAppend(a[1..], b);
    } else {
      assert a + b == b;
    }
  }

  lemma {:induction false} PagePathsOfFiles(path: seq<string>, files: seq<string>)
    ensures PagePaths(FileEntries(path, files)) == set n | n in files :: PagePath(path + [n])
  {
    if files != [] {
      var init := files[..|files| - 1];
      var n := files[|files| - 1];
      PagePathsOfFiles(path, init);
      var e := File(n, EntryPath(path + [n]) + ".html");
      PagePathsAppend(FileEntries(path, init), [e]);
      assert PagePaths([e]) == {PagePath(path + [n])};
      assert forall x :: x in files <==> x in init || x == n;
    }
  }

  /** The page paths of the filenames `fs` placed under `path`. */
  function PagesOf(fs: seq<Filename>, path: seq<string>): set<string>
    requires NonEmpty(fs)
  {
    set f | f in fs :: PagePath(path + f)
  }

  /** The page paths of the filenames of `fs` that continue below one of `dirs`. */
  function PagesUnder(fs: seq<Filename>, path: seq<string>, dirs: seq<string>): set<string> {
    set f | f in fs && |f| > 1 && f[0] in dirs :: PagePath(path + f)
  }

  /** The page paths of the filenames of `fs` that end at this level. */
  function PagesHere(fs: seq<Filename>, path: seq<string>): set<string> {
    set f | f in fs && |f| == 1 :: PagePath(path + f)
  }

  lemma PagesUnderSnoc(fs: seq<Filename>, path: seq<string>, dirs: seq<string>)
    requires dirs != []
    ensures PagesUnder(fs, path, dirs)
      == PagesUnder(fs, path, dirs[..|dirs| - 1]) + PagesUnder(fs, path, [dirs[|dirs| - 1]])
  {
    assert forall x :: x in dirs <==> x in dirs[..|dirs| - 1] || x == dirs[|dirs| - 1];
  }

  lemma ChildPages(fs: seq<Filename>, path: seq<string>, d: string)
    requires NonEmpty(fs)
    ensures PagesOf(Children(fs, d), path + [d]) == PagesUnder(fs, path, [d])
  {
    ChildrenSpec(fs, d);
    assert forall f :: f in fs && |f| > 1 && f[0] == d ==> f[1..] in Children(fs, d);
    ChildPagesAreUnder(fs, path, d);
    UnderPagesAreChildren(fs, path, d);
  }

  lemma ChildPagesAreUnder(fs: seq<Filename>, path: seq<string>, d: string)
    requires NonEmpty(fs)
    requires forall c :: c in Children(fs, d) ==> exists f :: f in fs && |f| > 1 && f[0] == d && f[1..] == c
    ensures PagesOf(Children(fs, d), path + [d]) <= PagesUnder(fs, path, [d])
  {
    var cs := Children(fs, d);
    forall x | x in PagesOf(cs, path + [d])
      ensures x in PagesUnder(fs, path, [d])
    {
      var c :| c in cs && x == PagePath(path + [d] + c);
      var f :| f in fs && |f| > 1 && f[0] == d && f[1..] == c;
      PathOfRest(path, f);
    }
  }

  /** A filename under `d` continues the path through `d` with its rest. */
  lemma PathOfRest(path: seq<string>, f: Filename)
    requires |f| > 1
    ensures path + f == path + [f[0]] + f[1..]
  {
    assert f == [f[0]] + f[1..];
  }

  lemma UnderPagesAreChildren(fs: seq<Filename>, path: seq<string>, d: string)
    requires NonEmpty(fs)
    requires forall f :: f in fs && |f| > 1 && f[0] == d ==> f[1..] in Children(fs, d)
    ensures PagesUnder(fs, path, [d]) <= PagesOf(Children(fs, d), path + [d])
  {
    var cs := Children(fs, d);
    forall x | x in PagesUnder(fs, path, [d])
      ensures x in PagesOf(cs, path + [d])
    {
      var f :| f in fs && |f| > 1 && f[0] in [d] && x == PagePath(path + f);
      PathOfRest(path, f);
      assert f[1..] in cs;
    }
  }

  lemma DirEntryPages(fs: seq<Filename>, path: seq<string>, d: string)
    requires NonEmpty(fs) && fs != []
    ensures PagePaths([DirEntry(fs, path, d)]) == PagePaths(Tree(Children(fs, d), path + [d]))
  {
    var e := DirEntry(fs, path, d);
    assert PagePaths([e]) == PagePaths(e.children) + PagePaths([]);
  }

  lemma {:induction false} PagePathsOfDirs(fs: seq<Filename>, path: seq<string>, dirs: seq<string>)
    requires NonEmpty(fs) && (dirs != [] ==> fs != [])
    ensures PagePaths(DirEntries(fs, path, dirs)) == PagesUnder(fs, path, dirs)
    decreases Height(fs), 1, |dirs|
  {
    if dirs != [] {
      var init := dirs[..|dirs| - 1];
      var d := dirs[|dirs| - 1];
      PagePathsOfDirs(fs, path, init);
      PagePathsAppend(DirEntries(fs, path, init), [DirEntry(fs, path, d)]);
      ChildrenLower(fs, d);
      DirEntryPages(fs, path, d);
      PagePathsOfTree(Children(fs, d), path + [d]);
      ChildPages(fs, path, d);
      PagesUnderSnoc(fs, path, dirs);
    } else {
      assert PagesUnder(fs, path, dirs) == {};
    }
  }

  /** Each filename either continues below one of the level's directories or ends at the level. */
  lemma PagesSplit(fs: seq<Filename>, path: seq<string>)
    requires NonEmpty(fs)
    ensures PagesOf(fs, path) == PagesUnder(fs, path, SortUnique(DirNames(fs))) + PagesHere(fs, path)
  {
    var dirs := SortUnique(DirNames(fs));
    SortedDirsAreDirs(fs);
    forall x | x in PagesOf(fs, path)
      ensures x in PagesUnder(fs, path, dirs) + PagesHere(fs, path)
    {
      var f :| f in fs && x == PagePath(path + f);
      if |f| > 1 {
        assert HasDir(fs, f[0]);
      }
    }
  }

  lemma FilePages(fs: seq<Filename>, path: seq<string>)
    requires NonEmpty(fs)
    ensures (set n | n in Sort(FileNames(fs)) :: PagePath(path + [n])) == PagesHere(fs, path)
  {
    var files := Sort(FileNames(fs));
    SortSpec(FileNames(fs));
    FileNamesSpec(fs);
    forall x | x in PagesHere(fs, path)
      ensures x in set n | n in files :: PagePath(path + [n])
    {
      var f :| f in fs && |f| == 1 && x == PagePath(path + f);
      assert f == [f[0]];
      assert f[0] in multiset(FileNames(fs));
      assert f[0] in multiset(files);
    }
    forall x | x in set n | n in files :: PagePath(path + [n])
      ensures x in PagesHere(fs, path)
    {
      var n :| n in files && x == PagePath(path + [n]);
      assert n in multiset(files);
      assert n in multiset(FileNames(fs));
      assert [n] in fs;
    }
  }

  /**
   * The set of page paths in the tree is exactly the set of page paths of the input
   * filenames (as sets; `LevelFiles` gives each level's file entries with multiplicity).
   */
  lemma {:induction false} PagePathsOfTree(fs: seq<Filename>, path: seq<string>)
    requires NonEmpty(fs)
    ensures PagePaths(Tree(fs, path)) == PagesOf(fs, path)
    decreases Height(fs), 2, 0
  {
    var dirs := SortUnique(DirNames(fs));
    var files := Sort(FileNames(fs));
    TreeSplit(fs, path, dirs, files);
    PagePathsAppend(DirEntries(fs, path, dirs), FileEntries(path, files));
    PagePathsOfDirs(fs, path, dirs);
    PagePathsOfFiles(path, files);
    FilePages(fs, path);
    PagesSplit(fs, path);
  }

  /** The page of module `n` sits at its URL. */
  lemma ModulePages(modules: seq<ImportName>)
    ensures PagesOf(Filenames(modules), []) == set n | n in modules :: Url(n)
  {
    var fs := Filenames(modules);
    forall x | x in PagesOf(fs, [])
      ensures x in set n | n in modules :: Url(n)
    {
      var f :| f in fs && x == PagePath([] + f);
      var i :| 0 <= i < |fs| && fs[i] == f;
      var n := modules[i];
      assert ([] + f)[1..] == n.parts;
      assert n in modules && x == Url(n);
    }
    forall n | n in modules
      ensures Url(n) in PagesOf(fs, [])
    {
      var i :| 0 <= i < |modules| && modules[i] == n;
      assert fs[i] in fs;
      assert ([] + fs[i])[1..] == n.parts;
      assert Url(n) == PagePath([] + fs[i]);
    }
  }

  /** The page paths in the site tree are exactly the modules' URLs, as sets. */
  lemma SiteTreePagesAreModuleUrls(modules: seq<ImportName>)
    ensures PagePaths(Tree(Filenames(modules), [])) == set n | n in modules :: Url(n)
  {
    PagePathsOfTree(Filenames(modules), []);
    ModulePages(modules);
  }
}
