/**
 * Module identity resolution: how a raw source path from the declaration export
 * becomes an `ImportName` (project, module parts, raw path), and the dotted name
 * and page URL derived from it.
 *
 * A path is modelled as the tuple of its components, as Python's `PurePath.parts`
 * gives it; an absolute path starts with the component "/". Parsing a path string
 * into components, `Path.resolve()`, reading `leanpkg.toml` and running
 * `lean --path` happen outside the model: each candidate root arrives as a `Root`
 * holding the path as listed, the resolved path and the manifest's package name.
 */
module ImportNames {
  import opened Wrappers
  import opened Strings

  type Path = seq<string>

  datatype ImportName = ImportName(project: string, parts: seq<string>, rawPath: Path)

  /** A directory from `lean --path`: as listed, after `resolve()`, and the name in its `../leanpkg.toml`, if any. */
  datatype Root = Root(listed: Path, resolved: Path, manifestName: Option<string>)

  datatype ResolveError =
    | NotUnderAnyRoot(fname: Path, tried: seq<Path>)  // the RuntimeError raised after the loop
    | EmptyName(fname: Path)                          // `with_suffix('')` on the empty remainder

  // ---------------------------------------------------------------------------
  // Path operations of `pathlib`

  /** `PurePath.name`: the last component, or "" for the empty path and for "/" alone. */
  function FileName(p: Path): string {
    if p == [] || p == ["/"] then "" else p[|p| - 1]
  }

  /** `PurePath.suffix` of a name: from its last dot, unless that dot starts or ends the name. */
  function Suffix(name: string): (r: string)
    ensures r == [] || (|r| >= 2 && r[0] == '.' && |r| < |name|)
    ensures EndsWith(name, r)
  {
    var i := LastDot(name);
    if 0 < i < |name| - 1 then name[i..] else ""
  }

  /** A suffix holds exactly one dot, its first character. */
  lemma SuffixHasOneDot(name: string)
    ensures Suffix(name) != [] ==> '.' !in Suffix(name)[1..]
  {
    var i := LastDot(name);
    LastDotIsLast(name);
    if 0 < i < |name| - 1 {
      assert name[i..][1..] == name[i + 1..];
    }
  }

  /** Index of the last '.' in `s`, or -1. */
  function LastDot(s: string): (i: int)
    ensures -1 <= i < |s|
    ensures i >= 0 ==> s[i] == '.'
  {
    if s == [] then -1
    else if s[|s| - 1] == '.' then |s| - 1
    else LastDot(s[..|s| - 1])
  }

  /** No dot follows the one `LastDot` finds. */
  lemma {:induction false} LastDotIsLast(s: string)
    ensures forall j :: LastDot(s) < j < |s| ==> s[j] != '.'
  {
    if s != [] && s[|s| - 1] != '.' {
      LastDotIsLast(s[..|s| - 1]);
    }
  }

  /** The name without its suffix (`PurePath.stem`). */
  function Stem(name: string): (r: string)
    ensures r + Suffix(name) == name
  {
    name[..|name| - |Suffix(name)|]
  }

  /** `PurePath.with_suffix(suffix)`; `None` where Python raises ValueError for an empty name. */
  function WithSuffix(p: Path, suffix: string): (r: Option<Path>)
    ensures r.None? <==> FileName(p) == ""
    ensures r.Some? ==> |r.value| == |p| && r.value[..|p| - 1] == p[..|p| - 1]
    ensures r.Some? ==> r.value[|p| - 1] == Stem(p[|p| - 1]) + suffix
  {
    if FileName(p) == "" then None
    else Some(p[..|p| - 1] + [Stem(p[|p| - 1]) + suffix])
  }

  predicate IsPrefix(prefix: Path, p: Path) {
    |prefix| <= |p| && p[..|prefix|] == prefix
  }

  predicate IsAbsolute(p: Path) {
    |p| > 0 && p[0] == "/"
  }

  /**
   * `fname.relative_to(root)`: the components after `root` when `root` is a
   * component-wise prefix; the empty path '.' is a prefix of every relative path only.
   */
  function RelativeTo(fname: Path, root: Path): (r: Option<Path>)
  {
    if root == [] then (if IsAbsolute(fname) then None else Some(fname))
    else if IsPrefix(root, fname) then Some(fname[|root|..])
    else None
  }

  lemma RelativeToSplitsPath(fname: Path, root: Path)
    requires RelativeTo(fname, root).Some?
    ensures IsPrefix(root, fname) && RelativeTo(fname, root).value == fname[|root|..]
    ensures fname == root + RelativeTo(fname, root).value
  {
    assert fname == fname[..|root|] + fname[|root|..];
  }

  /** `str(path)` for a POSIX path. */
  function PathString(p: Path): string {
    if p == [] then "."
    else if p[0] == "/" then "/" + Join(p[1..], "/")
    else Join(p, "/")
  }

  // ---------------------------------------------------------------------------
  // Package names

  /** Python's `parts[-n:]`: the last `n` components, or all of them when there are fewer. */
  function LastParts(p: Path, n: nat): (r: Path)
    ensures |r| == if |p| < n then |p| else n
    ensures r == p[|p| - |r|..]
  {
    if |p| <= n then p else p[|p| - n..]
  }

  /** The two layouts of the core library: `.../bin/../lib/lean/library` and `.../bin/../library`. */
  predicate IsCoreLibraryPath(p: Path) {
    LastParts(p, 5) == ["bin", "..", "lib", "lean", "library"]
    || LastParts(p, 3) == ["bin", "..", "library"]
  }

  /** `get_name_from_leanpkg_path`: "core", else the manifest's package name, else "<unknown>". */
  function PackageName(root: Root): (r: string)
    ensures IsCoreLibraryPath(root.listed) ==> r == "core"
    ensures !IsCoreLibraryPath(root.listed) && root.manifestName.Some? ==> r == root.manifestName.value
    ensures !IsCoreLibraryPath(root.listed) && root.manifestName.None? ==> r == "<unknown>"
  {
    if IsCoreLibraryPath(root.listed) then "core"
    else match root.manifestName
      case Some(name) => name
      case None => "<unknown>"
  }

  lemma CoreLibraryPathNeedsLength(p: Path)
    requires IsCoreLibraryPath(p)
    ensures |p| >= 3 && p[|p| - 3] in {"bin", "lib"} && p[|p| - 1] == "library"
  {
  }

  // ---------------------------------------------------------------------------
  // ImportName.of

  /** The resolved paths of the roots, in the order they are tried. */
  function ResolvedPaths(roots: seq<Root>): seq<Path> {
    seq(|roots|, k requires 0 <= k < |roots| => roots[k].resolved)
  }

  /** The import name built from a matching root: the remainder without its suffix. */
  function FromRoot(root: Root, rel: Path, fname: Path): Result<ImportName, ResolveError> {
    match WithSuffix(rel, "")
    case None => Err(EmptyName(fname))
    case Some(stripped) => Ok(ImportName(PackageName(root), stripped, fname))
  }

  predicate IsUnder(fname: Path, root: Root) {
    RelativeTo(fname, root.resolved).Some?
  }

  /**
   * The loop of `ImportName.of` from root `k` on: the index of the first root that
   * `fname` lies under, or `|roots|` when the loop runs out.
   */
  function FirstRootFrom(roots: seq<Root>, fname: Path, k: nat): (i: nat)
    requires k <= |roots|
    ensures k <= i <= |roots|
    ensures i < |roots| ==> IsUnder(fname, roots[i])
    decreases |roots| - k
  {
    if k == |roots| || IsUnder(fname, roots[k]) then k else FirstRootFrom(roots, fname, k + 1)
  }

  /** `ImportName.of(fname)`: the first root, in list order, under which `fname` lies. */
  function Of(roots: seq<Root>, fname: Path): Result<ImportName, ResolveError> {
    var i := FirstRootFrom(roots, fname, 0);
    if i == |roots| then Err(NotUnderAnyRoot(fname, ResolvedPaths(roots)))
    else FromRoot(roots[i], RelativeTo(fname, roots[i].resolved).value, fname)
  }

  /** The loop stops at the first root `fname` lies under: no root before it contains `fname`. */
  lemma {:induction false} FirstRootIsFirst(roots: seq<Root>, fname: Path, k: nat)
    requires k <= |roots|
    ensures forall m :: k <= m < FirstRootFrom(roots, fname, k) ==> !IsUnder(fname, roots[m])
    decreases |roots| - k
  {
    if k < |roots| && !IsUnder(fname, roots[k]) {
      FirstRootIsFirst(roots, fname, k + 1);
    }
  }

  /** Conversely, a root that no earlier root precedes in containing `fname` is where the loop stops. */
  lemma {:induction false} FirstRootAt(roots: seq<Root>, fname: Path, j: nat, k: nat)
    requires j <= k <= |roots|
    requires forall m :: j <= m < k ==> !IsUnder(fname, roots[m])
    requires k == |roots| || IsUnder(fname, roots[k])
    ensures FirstRootFrom(roots, fname, j) == k
    decreases k - j
  {
    if j < k {
      FirstRootAt(roots, fname, j + 1, k);
    }
  }

  /**
   * The first root in list order that contains `fname` decides the result, whatever
   * later roots contain it too: its package name, the remaining components with the
   * last one's suffix removed, and `fname` itself as the raw path.
   */
  lemma OfUsesFirstMatchingRoot(roots: seq<Root>, fname: Path, k: nat)
    requires k < |roots| && IsUnder(fname, roots[k])
    requires forall i :: 0 <= i < k ==> !IsUnder(fname, roots[i])
    ensures var rel := fname[|roots[k].resolved|..];
      && fname == roots[k].resolved + rel
      && (FileName(rel) == "" ==> Of(roots, fname) == Err(EmptyName(fname)))
      && (FileName(rel) != "" ==>
            && Of(roots, fname).Ok?
            && Of(roots, fname).value.project == PackageName(roots[k])
            && Of(roots, fname).value.rawPath == fname
            && Of(roots, fname).value.parts == rel[..|rel| - 1] + [Stem(rel[|rel| - 1])])
  {
    FirstRootAt(roots, fname, 0, k);
    RelativeToSplitsPath(fname, roots[k].resolved);
    FromRootShape(roots[k], fname[|roots[k].resolved|..], fname);
  }

  lemma FromRootShape(root: Root, rel: Path, fname: Path)
    ensures FileName(rel) == "" ==> FromRoot(root, rel, fname) == Err(EmptyName(fname))
    ensures FileName(rel) != "" ==>
      FromRoot(root, rel, fname) == Ok(ImportName(PackageName(root), rel[..|rel| - 1] + [Stem(rel[|rel| - 1])], fname))
  {
    if FileName(rel) != "" {
      assert Stem(rel[|rel| - 1]) + "" == Stem(rel[|rel| - 1]);
    }
  }

  /** `of` fails listing every root exactly when no root contains `fname`. */
  lemma OfFailsOnlyOutsideAllRoots(roots: seq<Root>, fname: Path)
    ensures (forall i :: 0 <= i < |roots| ==> !IsUnder(fname, roots[i]))
        <==> Of(roots, fname) == Err(NotUnderAnyRoot(fname, ResolvedPaths(roots)))
  {
    if forall i :: 0 <= i < |roots| ==> !IsUnder(fname, roots[i]) {
      FirstRootAt(roots, fname, 0, |roots|);
    } else {
      FirstRootIsFirst(roots, fname, 0);
    }
  }

  // ---------------------------------------------------------------------------
  // The error message

  function RootLine(p: Path): string {
    " - " + PathString(p) + "\n"
  }

  function RootLines(tried: seq<Path>): string {
    if tried == [] then "" else RootLine(tried[0]) + RootLines(tried[1..])
  }

  function NoRootIntro(fname: Path): string {
    "Cannot determine import name for " + PathString(fname)
    + "; it is not within any of the directories returned by `lean --path`:\n"
  }

  const NoRootHint := "Did you generate `export.json` using a different Lean installation to the one this script is running with?"

  /** The text of the RuntimeError raised when no root matches. */
  function ErrorMessage(e: ResolveError): string {
    match e
    case NotUnderAnyRoot(fname, tried) => NoRootIntro(fname) + RootLines(tried) + NoRootHint
    case EmptyName(fname) =>
      "PosixPath('.') has an empty name"
  }

  lemma {:induction false} RootLinesContain(tried: seq<Path>, k: nat)
    requires k < |tried|
    ensures IsInfix(RootLine(tried[k]), RootLines(tried))
  {
    var first := RootLine(tried[0]);
    var rest := RootLines(tried[1..]);
    assert RootLines(tried) == first + rest;
    if k == 0 {
      InfixOfLeft(first, rest);
    } else {
      RootLinesContain(tried[1..], k - 1);
      InfixOfRight(first, rest);
      InfixTransitive(RootLine(tried[k]), rest, first + rest);
    }
  }

  /** The message of the no-root error names every root that was tried, one line each. */
  lemma ErrorMessageListsEveryRoot(roots: seq<Root>, fname: Path, k: nat)
    requires k < |roots|
    requires Of(roots, fname).Err? && Of(roots, fname).error.NotUnderAnyRoot?
    ensures IsInfix(" - " + PathString(roots[k].resolved) + "\n", ErrorMessage(Of(roots, fname).error))
  {
    OfNotUnderListsRoots(roots, fname);
    MessageListsEveryPath(fname, ResolvedPaths(roots), k);
  }

  /** The only `NotUnderAnyRoot` error `of` raises carries the resolved path of every root. */
  lemma OfNotUnderListsRoots(roots: seq<Root>, fname: Path)
    requires Of(roots, fname).Err? && Of(roots, fname).error.NotUnderAnyRoot?
    ensures Of(roots, fname).error == NotUnderAnyRoot(fname, ResolvedPaths(roots))
  {
  }

  lemma MessageListsEveryPath(fname: Path, tried: seq<Path>, k: nat)
    requires k < |tried|
    ensures IsInfix(" - " + PathString(tried[k]) + "\n", ErrorMessage(NotUnderAnyRoot(fname, tried)))
  {
    RootLinesContain(tried, k);
    var lines := RootLines(tried);
    InfixOfMiddle(NoRootIntro(fname), lines, NoRootHint);
    InfixTransitive(RootLine(tried[k]), lines, NoRootIntro(fname) + lines + NoRootHint);
  }

  // ---------------------------------------------------------------------------
  // The `name` and `url` properties

  /** `ImportName.name`: the parts joined with dots; splitting it on dots gives the parts back. */
  function DottedName(n: ImportName): (r: string)
    ensures |n.parts| >= 1 && (forall i :: 0 <= i < |n.parts| ==> '.' !in n.parts[i])
      ==> Split(r, '.') == n.parts
  {
    var r := Join(n.parts, ".");
    assert |n.parts| >= 1 && (forall i :: 0 <= i < |n.parts| ==> '.' !in n.parts[i])
      ==> Split(r, '.') == n.parts by {
      if |n.parts| >= 1 && (forall i :: 0 <= i < |n.parts| ==> '.' !in n.parts[i]) {
        SplitJoin(n.parts, '.');
      }
    }
    r
  }

  /** `ImportName.url`: the parts joined with slashes, then ".html"; the page path splits back into the parts. */
  function Url(n: ImportName): (r: string)
    ensures EndsWith(r, ".html")
    ensures |n.parts| >= 1 && (forall i :: 0 <= i < |n.parts| ==> '/' !in n.parts[i])
      ==> Split(r[..|r| - 5], '/') == n.parts
  {
    var page := Join(n.parts, "/");
    assert |n.parts| >= 1 && (forall i :: 0 <= i < |n.parts| ==> '/' !in n.parts[i])
      ==> Split(page, '/') == n.parts by {
      if |n.parts| >= 1 && (forall i :: 0 <= i < |n.parts| ==> '/' !in n.parts[i]) {
        SplitJoin(n.parts, '/');
      }
    }
    assert (page + ".html")[..|page|] == page;
    page + ".html"
  }
}
