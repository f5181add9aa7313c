/**
 * The small per-declaration helpers of print_docs.py that page templates and the
 * export database use: the import hint (`import_options`), the displayed kind
 * (`kind_of_decl`), tag anchors (`tag_id_of_name`), the dotted-name markup
 * (`htmlify_name`), the name test `name_in_decl`, source links (`library_link`,
 * `library_link_from_decl_name`), declaration links (`link_to_decl`) and the
 * export database (`mk_export_map_entry`, `mk_export_db`).
 */
module DeclInfo {
  import opened Wrappers
  import opened Strings
  import opened ImportNames
  import opened Exports
  import opened DocTables
  import opened Linkify

  /**
   * The generator's global settings: `SITE_ROOT`, `MATHLIB_GITHUB_ROOT` (the
   * mathlib git URL without surrounding slashes), `MATHLIB_COMMIT` and `LEAN_COMMIT`.
   */
  datatype Config = Config(siteRoot: string, githubRoot: string, mathlibCommit: string, leanCommit: string)

  // ---------------------------------------------------------------------------
  // import_options

  /** The list `direct_import_paths` that `import_options` builds. */
  function ImportPathsOf(locMap: LocMap, declName: string, importString: string): seq<string> {
    var own := if declName in locMap then [DottedName(locMap[declName])] else [];
    own + (if importString != "" && importString !in own then [importString] else [])
  }

  /** The two appends of `import_options`. */
  method ImportPaths(locMap: LocMap, declName: string, importString: string) returns (paths: seq<string>)
    ensures paths == ImportPathsOf(locMap, declName, importString)
  {
    paths := [];
    if declName in locMap {
      paths := paths + [DottedName(locMap[declName])];
    }
    if importString != "" && importString !in paths {
      paths := paths + [importString];
    }
  }

  /**
   * The declaration's own module comes first when the declaration is known; a
   * non-empty import string is always offered, once; nothing else is.
   */
  lemma ImportPathsSpec(locMap: LocMap, declName: string, importString: string)
    ensures var paths := ImportPathsOf(locMap, declName, importString);
      && |paths| <= 2
      && (|paths| == 2 ==> paths[0] != paths[1])
      && (declName in locMap ==> paths != [] && paths[0] == DottedName(locMap[declName]))
      && (importString != "" ==> importString in paths)
      && (forall p :: p in paths ==> p == importString || (declName in locMap && p == DottedName(locMap[declName])))
      && (paths == [] <==> declName !in locMap && importString == "")
  {
  }

  const ImportsHead := "<details class=\"imports\"><summary>Import using</summary><ul>"
  const DefaultImport := "<li>imported by default</li>"

  function ImportLines(paths: seq<string>): (r: seq<string>)
    ensures |r| == |paths|
    ensures forall i :: 0 <= i < |paths| ==> r[i] == "<li>import " + paths[i] + "</li>"
  {
    if paths == [] then [] else ["<li>import " + paths[0] + "</li>"] + ImportLines(paths[1..])
  }

  predicate InInit(paths: seq<string>) {
    exists i :: 0 <= i < |paths| && StartsWith(paths[i], "init.")
  }

  /** `import_options(loc_map, decl_name, import_string)`. */
  function ImportOptions(locMap: LocMap, declName: string, importString: string): string {
    var paths := ImportPathsOf(locMap, declName, importString);
    if InInit(paths) then ImportsHead + DefaultImport + "</ul>"
    else if |paths| > 0 then ImportsHead + Join(ImportLines(paths), "\n") + "</ul>"
    else ""
  }

  /**
   * The hint is empty exactly when there is nothing to import; a path under `init.`
   * turns it into "imported by default"; otherwise every path is offered as an import line.
   */
  lemma ImportOptionsSpec(locMap: LocMap, declName: string, importString: string)
    ensures var paths := ImportPathsOf(locMap, declName, importString);
      var r := ImportOptions(locMap, declName, importString);
      && (r == "" <==> paths == [])
      && (InInit(paths) ==> r == ImportsHead + DefaultImport + "</ul>")
      && (!InInit(paths) ==> forall p :: p in paths ==> IsInfix("<li>import " + p + "</li>", r))
  {
    var paths := ImportPathsOf(locMap, declName, importString);
    var r := ImportOptions(locMap, declName, importString);
    ImportPathsSpec(locMap, declName, importString);
    if !InInit(paths) && paths != [] {
      var body := Join(ImportLines(paths), "\n");
      assert r == ImportsHead + body + "</ul>";
      InfixOfMiddle(ImportsHead, body, "</ul>");
      forall p | p in paths ensures IsInfix("<li>import " + p + "</li>", r) {
        ImportLineInfix(paths, p);
        InfixTransitive("<li>import " + p + "</li>", body, r);
      }
    }
  }

  /** Each of at most two paths has its import line in the joined lines. */
  lemma ImportLineInfix(paths: seq<string>, p: string)
    requires |paths| <= 2 && p in paths
    ensures IsInfix("<li>import " + p + "</li>", Join(ImportLines(paths), "\n"))
  {
    var lines := ImportLines(paths);
    if |paths| == 1 {
      LineInfixOfOne(lines);
    } else if p == paths[0] {
      LineInfixOfTwo(lines, 0);
    } else {
      LineInfixOfTwo(lines, 1);
    }
  }

  lemma LineInfixOfOne(lines: seq<string>)
    requires |lines| == 1
    ensures IsInfix(lines[0], Join(lines, "\n"))
  {
    InfixOfMiddle("", lines[0], "");
    assert "" + lines[0] + "" == lines[0];
  }

  lemma LineInfixOfTwo(lines: seq<string>, k: nat)
    requires |lines| == 2 && k < 2
    ensures IsInfix(lines[k], Join(lines, "\n"))
  {
    JoinTwo(lines, "\n");
    if k == 0 {
      InfixOfMiddle("", lines[0], "\n" + lines[1]);
      assert "" + lines[0] + ("\n" + lines[1]) == lines[0] + "\n" + lines[1];
    } else {
      InfixOfMiddle(lines[0] + "\n", lines[1], "");
      assert lines[0] + "\n" + lines[1] + "" == lines[0] + "\n" + lines[1];
    }
  }

  lemma JoinTwo(lines: seq<string>, sep: string)
    requires |lines| == 2
    ensures Join(lines, sep) == lines[0] + sep + lines[1]
  {
    assert Join(lines[1..], sep) == lines[1];
  }

  // ---------------------------------------------------------------------------
  // kind_of_decl

  /**
   * `kind_of_decl(decl)`: a declaration with structure fields is a structure, one
   * with constructors an inductive type, and otherwise the export's kind is shown
   * with the abbreviations "thm", "cnst" and "ax" spelled out.
   */
  function KindOfDecl(d: Decl): (r: string)
    ensures |d.structureFields| > 0 ==> r == "structure"
    ensures |d.structureFields| == 0 && |d.constructors| > 0 ==> r == "inductive"
    ensures |d.structureFields| == 0 && |d.constructors| == 0 ==>
      r == (if d.kind == "thm" then "theorem" else if d.kind == "cnst" then "constant"
            else if d.kind == "ax" then "axiom" else d.kind)
  {
    var kind := if |d.structureFields| > 0 then "structure" else if |d.constructors| > 0 then "inductive" else d.kind;
    if kind == "thm" then "theorem"
    else if kind == "cnst" then "constant"
    else if kind == "ax" then "axiom"
    else kind
  }

  /** The shown kind is never one of the export's abbreviations. */
  lemma KindOfDeclSpelledOut(d: Decl)
    ensures KindOfDecl(d) != "thm" && KindOfDecl(d) != "cnst" && KindOfDecl(d) != "ax"
  {
  }

  // ---------------------------------------------------------------------------
  // tag_id_of_name

  /** `tag_id_of_name(tag)`: the stripped tag with its spaces turned into hyphens. */
  function TagIdOfName(tag: string): (r: string)
    ensures ' ' !in r
    ensures |r| <= |tag|
  {
    var s := PyStrip(tag);
    var r := ReplaceChar(s, ' ', '-');
    assert IsInfix(s, tag);
    r
  }

  lemma ReplaceAbsent(s: string, a: char, b: char)
    requires a !in s
    ensures ReplaceChar(s, a, b) == s
  {
  }

  /** A tag id is its own tag id. */
  lemma TagIdIdempotent(tag: string)
    ensures TagIdOfName(TagIdOfName(tag)) == TagIdOfName(tag)
  {
    var s := PyStrip(tag);
    var r := TagIdOfName(tag);
    if r != [] {
      assert r[0] == s[0] && r[|r| - 1] == s[|s| - 1];
    }
    StripUnchanged(r, IsPySpace);
    ReplaceAbsent(r, ' ', '-');
  }

  // ---------------------------------------------------------------------------
  // htmlify_name

  /** `html.escape(s)` (with `quote=True`) on one character. */
  function EscapeChar(c: char): string {
    if c == '&' then "&amp;"
    else if c == '<' then "&lt;"
    else if c == '>' then "&gt;"
    else if c == '"' then "&quot;"
    else if c == '\'' then "&#x27;"
    else [c]
  }

  /** `html.escape(s)`: the five replacements, `&` first, amount to escaping each character. */
  function Escape(s: string): (r: string)
    ensures forall i :: 0 <= i < |r| ==> r[i] != '<' && r[i] != '>' && r[i] != '"' && r[i] != '\''
    ensures '.' !in s ==> '.' !in r
  {
    if s == [] then "" else EscapeChar(s[0]) + Escape(s[1..])
  }

  /** Reverses `Escape`: the five entities back to their characters, anything else kept. */
  function Unescape(s: string): string
    decreases |s|
  {
    if s == [] then ""
    else if StartsWith(s, "&amp;") then "&" + Unescape(s[5..])
    else if StartsWith(s, "&lt;") then "<" + Unescape(s[4..])
    else if StartsWith(s, "&gt;") then ">" + Unescape(s[4..])
    else if StartsWith(s, "&quot;") then "\"" + Unescape(s[6..])
    else if StartsWith(s, "&#x27;") then "'" + Unescape(s[6..])
    else [s[0]] + Unescape(s[1..])
  }

  lemma UnescapeAfter(c: char, rest: string)
    ensures Unescape(EscapeChar(c) + rest) == [c] + Unescape(rest)
  {
    var e := EscapeChar(c);
    var s := e + rest;
    assert s[..|e|] == e && s[|e|..] == rest;
    if c == '&' {
    } else if c == '<' {
      Mismatch(s, "&amp;", 1);
    } else if c == '>' {
      Mismatch(s, "&amp;", 1);
      Mismatch(s, "&lt;", 1);
    } else if c == '"' {
      Mismatch(s, "&amp;", 1);
      Mismatch(s, "&lt;", 1);
      Mismatch(s, "&gt;", 1);
    } else if c == '\'' {
      Mismatch(s, "&amp;", 1);
      Mismatch(s, "&lt;", 1);
      Mismatch(s, "&gt;", 1);
      Mismatch(s, "&quot;", 1);
    } else {
      Mismatch(s, "&amp;", 0);
      Mismatch(s, "&lt;", 0);
      Mismatch(s, "&gt;", 0);
      Mismatch(s, "&quot;", 0);
      Mismatch(s, "&#x27;", 0);
    }
  }

  lemma Mismatch(s: string, p: string, i: nat)
    requires i < |p| && (i < |s| ==> s[i] != p[i])
    ensures !StartsWith(s, p)
  {
  }

  /** Escaping loses nothing: unescaping gives the string back. */
  lemma {:induction false} UnescapeEscape(s: string)
    ensures Unescape(Escape(s)) == s
  {
    if s != [] {
      UnescapeAfter(s[0], Escape(s[1..]));
      UnescapeEscape(s[1..]);
      assert [s[0]] + s[1..] == s;
    }
  }

  const NameOpen := "<span class=\"name\">"
  const NameClose := "</span>"

  function WrapParts(parts: seq<string>): (r: seq<string>)
    ensures |r| == |parts|
    ensures forall i :: 0 <= i < |parts| ==> r[i] == NameOpen + Escape(parts[i]) + NameClose
  {
    if parts == [] then [] else [NameOpen + Escape(parts[0]) + NameClose] + WrapParts(parts[1..])
  }

  /** `htmlify_name(n)`: every dot-separated part escaped and wrapped in a name span, joined with dots. */
  function HtmlifyName(n: string): string {
    Join(WrapParts(Split(n, '.')), ".")
  }

  /** Reads a wrapped part back: the text between the span tags, unescaped. */
  function UnwrapPart(x: string): string {
    if |x| >= |NameOpen| + |NameClose| then Unescape(x[|NameOpen|..|x| - |NameClose|]) else x
  }

  function UnwrapParts(xs: seq<string>): (r: seq<string>)
    ensures |r| == |xs|
    ensures forall i :: 0 <= i < |xs| ==> r[i] == UnwrapPart(xs[i])
  {
    if xs == [] then [] else [UnwrapPart(xs[0])] + UnwrapParts(xs[1..])
  }

  /** The dotted name shown by `htmlify_name`'s markup. */
  function NameOfHtml(h: string): string {
    Join(UnwrapParts(Split(h, '.')), ".")
  }

  /** The markup of a name reads back as the name: no part is lost, reordered or altered. */
  lemma NameOfHtmlify(n: string)
    ensures NameOfHtml(HtmlifyName(n)) == n
  {
    var parts := Split(n, '.');
    var wrapped := WrapParts(parts);
    forall i | 0 <= i < |wrapped| ensures '.' !in wrapped[i] {
      assert '.' !in Escape(parts[i]);
      assert wrapped[i] == NameOpen + Escape(parts[i]) + NameClose;
    }
    SplitJoin(wrapped, '.');
    assert Split(HtmlifyName(n), '.') == wrapped;
    forall i | 0 <= i < |parts| ensures UnwrapPart(wrapped[i]) == parts[i] {
      var x := wrapped[i];
      assert x[|NameOpen|..|x| - |NameClose|] == Escape(parts[i]);
      UnescapeEscape(parts[i]);
    }
    assert UnwrapParts(wrapped) == parts;
    JoinSplit(n, '.');
  }

  // ---------------------------------------------------------------------------
  // name_in_decl

  /** `name_in_decl(decl_name, dmap)`: the declaration itself, one of its structure fields or one of its constructors. */
  predicate NameInDecl(name: string, d: Decl) {
    d.name == name || name in FieldNames(d.structureFields) || name in FieldNames(d.constructors)
  }

  /**
   * The names `name_in_decl` recognises are among those `loc_map` records for the
   * declaration, and the only one it misses is the `.mk` name made up for a structure.
   */
  lemma NameInDeclVersusNames(name: string, d: Decl)
    ensures NameInDecl(name, d) ==> name in Names(d)
    ensures name in Names(d) && !NameInDecl(name, d) ==> name == d.name + ".mk" && |d.structureFields| > 0
  {
  }

  // ---------------------------------------------------------------------------
  // library_link and library_link_from_decl_name

  /** The source roots of `library_link_roots`, keyed by project. */
  function SourceRoot(cfg: Config, project: string): Option<string> {
    if project == "core" then Some("https://github.com/leanprover-community/lean/blob/" + cfg.leanCommit + "/library/")
    else if project == "mathlib" then Some(cfg.githubRoot + "/blob/" + cfg.mathlibCommit + "/src/")
    else None
  }

  /** The line anchor `#L<line>` when a line is given. */
  function LineAnchor(line: Option<nat>): string {
    if line.Some? then "#L" + Decimal(line.value) else ""
  }

  /**
   * `library_link(filename, line)`: the module's `.lean` file under its project's
   * source root, or the empty string (a self-link) for any other project.
   */
  function LibraryLink(cfg: Config, filename: ImportName, line: Option<nat>): string {
    var root := SourceRoot(cfg, filename.project);
    if root.None? then "" else root.value + Join(filename.parts, "/") + ".lean" + LineAnchor(line)
  }

  /**
   * Only core and mathlib modules get a source link; it is the module's path under
   * the project's root with `.lean` appended, and the line given, if any, is the one
   * written after `#L`.
   */
  lemma LibraryLinkSpec(cfg: Config, filename: ImportName, line: Option<nat>)
    ensures LibraryLink(cfg, filename, line) == "" <==> filename.project != "core" && filename.project != "mathlib"
    ensures SourceRoot(cfg, filename.project).Some? ==>
      var r := LibraryLink(cfg, filename, line);
      var root := SourceRoot(cfg, filename.project).value;
      && StartsWith(r, root + Join(filename.parts, "/") + ".lean")
      && (line.None? ==> EndsWith(r, ".lean"))
      && (line.Some? ==> EndsWith(r, "#L" + Decimal(line.value)) && ParseDecimal(Decimal(line.value)) == line.value)
  {
    var root := SourceRoot(cfg, filename.project);
    if root.Some? {
      var r := LibraryLink(cfg, filename, line);
      var stem := root.value + Join(filename.parts, "/") + ".lean";
      assert r == stem + LineAnchor(line);
      assert r[..|stem|] == stem;
      if line.Some? {
        DecimalRoundTrip(line.value);
        assert r[|r| - |LineAnchor(line)|..] == LineAnchor(line);
      } else {
        assert r[|r| - 5..] == ".lean";
      }
    }
  }

  /** The index of the first declaration at or after `k` that `name_in_decl` accepts, or `|decls|`. */
  function FirstNaming(decls: seq<Decl>, name: string, k: nat): (i: nat)
    requires k <= |decls|
    ensures k <= i <= |decls|
    ensures i < |decls| ==> NameInDecl(name, decls[i])
    ensures forall j :: k <= j < i ==> !NameInDecl(name, decls[j])
    decreases |decls| - k
  {
    if k == |decls| || NameInDecl(name, decls[k]) then k else FirstNaming(decls, name, k + 1)
  }

  /** The bare lookup `file_map[decl_loc]` of a defaultdict: an absent module has no declarations. */
  function DeclsOf(fm: FileMap, m: ImportName): seq<Decl> {
    if m in fm.entries then fm.entries[m] else []
  }

  /**
   * `library_link_from_decl_name(decl_name, decl_loc, file_map)`: the source link at
   * the line of the first declaration of the module that carries the name; failing
   * that, the same search for the name without a trailing `.mk`; failing that, the
   * error for the last name tried.
   */
  function LibraryLinkFromDeclName(cfg: Config, name: string, loc: ImportName, fm: FileMap): Result<string, string>
    decreases |name|
  {
    var decls := DeclsOf(fm, loc);
    var i := FirstNaming(decls, name, 0);
    if i < |decls| then Ok(LibraryLink(cfg, loc, Some(decls[i].line)))
    else if EndsWith(name, ".mk") then LibraryLinkFromDeclName(cfg, name[..|name| - 3], loc, fm)
    else Err(name)
  }

  /** How many trailing `.mk` the search may strip from `name`. */
  function MkDepth(name: string): nat
    decreases |name|
  {
    if EndsWith(name, ".mk") then 1 + MkDepth(name[..|name| - 3]) else 0
  }

  /** `name` with `k` trailing `.mk` stripped. */
  function DropMk(name: string, k: nat): string
    requires k <= MkDepth(name)
    decreases k
  {
    if k == 0 then name else DropMk(name[..|name| - 3], k - 1)
  }

  /** Some declaration of `decls` carries `name`. */
  predicate Named(decls: seq<Decl>, name: string) {
    exists i :: 0 <= i < |decls| && NameInDecl(name, decls[i])
  }

  /**
   * The search succeeds exactly when the name, with some number of trailing `.mk`
   * stripped, is carried by a declaration of the module.
   */
  lemma {:induction false} LibraryLinkFromDeclNameOkIff(cfg: Config, name: string, loc: ImportName, fm: FileMap)
    ensures LibraryLinkFromDeclName(cfg, name, loc, fm).Ok? <==>
      exists k: nat :: k <= MkDepth(name) && Named(DeclsOf(fm, loc), DropMk(name, k))
    decreases |name|
  {
    var decls := DeclsOf(fm, loc);
    var i := FirstNaming(decls, name, 0);
    assert DropMk(name, 0) == name;
    if i < |decls| {
      assert LibraryLinkFromDeclName(cfg, name, loc, fm).Ok?;
      assert NameInDecl(DropMk(name, 0), decls[i]);
      assert Named(decls, DropMk(name, 0));
      assert 0 <= MkDepth(name) && Named(decls, DropMk(name, 0));
      assert exists k: nat :: k <= MkDepth(name) && Named(decls, DropMk(name, k));
    } else {
      assert !Named(decls, DropMk(name, 0));
      if EndsWith(name, ".mk") {
        var shorter := name[..|name| - 3];
        LibraryLinkFromDeclNameOkIff(cfg, shorter, loc, fm);
        assert MkDepth(name) == 1 + MkDepth(shorter);
        if LibraryLinkFromDeclName(cfg, shorter, loc, fm).Ok? {
          var k :| 0 <= k <= MkDepth(shorter) && Named(decls, DropMk(shorter, k));
          assert DropMk(name, k + 1) == DropMk(shorter, k);
          assert 0 <= k + 1 <= MkDepth(name) && Named(decls, DropMk(name, k + 1));
        } else {
          forall k | 0 <= k <= MkDepth(name) ensures !Named(decls, DropMk(name, k)) {
            if k > 0 {
              assert DropMk(name, k) == DropMk(shorter, k - 1);
              assert !(0 <= k - 1 <= MkDepth(shorter) && Named(decls, DropMk(shorter, k - 1)));
            }
          }
        }
      } else {
        assert MkDepth(name) == 0;
        forall k | 0 <= k <= MkDepth(name) ensures !Named(decls, DropMk(name, k)) {
          assert k == 0;
        }
      }
    }
  }

  /**
   * When a declaration of the module carries the name, the link is to the line of
   * the first such declaration.
   */
  lemma LibraryLinkFromDeclNameFirst(cfg: Config, name: string, loc: ImportName, fm: FileMap, i: nat)
    requires i < |DeclsOf(fm, loc)| && NameInDecl(name, DeclsOf(fm, loc)[i])
    requires forall j :: 0 <= j < i ==> !NameInDecl(name, DeclsOf(fm, loc)[j])
    ensures LibraryLinkFromDeclName(cfg, name, loc, fm) == Ok(LibraryLink(cfg, loc, Some(DeclsOf(fm, loc)[i].line)))
  {
    var k := FirstNaming(DeclsOf(fm, loc), name, 0);
    assert k == i;
  }

  /**
   * Every name `loc_map` records for a declaration of the module, the made-up `.mk`
   * name of a structure included, finds a source link.
   */
  lemma LibraryLinkFromTableName(cfg: Config, name: string, loc: ImportName, fm: FileMap, d: Decl)
    requires d in DeclsOf(fm, loc) && name in Names(d)
    ensures LibraryLinkFromDeclName(cfg, name, loc, fm).Ok?
  {
    var decls := DeclsOf(fm, loc);
    var j :| 0 <= j < |decls| && decls[j] == d;
    LibraryLinkFromDeclNameOkIff(cfg, name, loc, fm);
    NameInDeclVersusNames(name, d);
    assert DropMk(name, 0) == name;
    if NameInDecl(name, d) {
      assert Named(decls, DropMk(name, 0));
    } else {
      assert name == d.name + ".mk";
      assert name[..|name| - 3] == d.name;
      assert EndsWith(name, ".mk");
      assert DropMk(name, 1) == d.name;
      assert NameInDecl(d.name, decls[j]);
      assert Named(decls, DropMk(name, 1));
    }
  }

  // ---------------------------------------------------------------------------
  // link_to_decl

  /** `link_to_decl(decl_name, loc_map)`: `None` where the lookup raises KeyError. */
  function LinkToDecl(cfg: Config, name: string, locMap: LocMap): Option<string> {
    if name in locMap then Some(cfg.siteRoot + Url(locMap[name]) + "#" + name) else None
  }

  /**
   * `link_to_decl` is the target `linkify_core` links a known name to: the link that
   * shows the name itself is exactly an anchor to that address.
   */
  lemma LinkToDeclIsLinkTarget(cfg: Config, name: string, locMap: LocMap)
    ensures LinkToDecl(cfg, name, locMap).Some? <==> name in locMap
    ensures name in locMap ==>
      LinkifyCore(cfg.siteRoot, locMap, name, name) == "<a href=\"" + LinkToDecl(cfg, name, locMap).value + "\">" + name + "</a>"
  {
  }

  // ---------------------------------------------------------------------------
  // mk_export_map_entry and mk_export_db

  /**
   * One record of the export database. `header` marks the records that also carry
   * the rendered `decl_header_html` of their declaration (its text comes from a page
   * template and is not modelled).
   */
  datatype ExportEntry = ExportEntry(
    filename: string,
    kind: string,
    isMeta: bool,
    line: nat,
    srcLink: string,
    docsLink: string,
    header: bool)

  /** `mk_export_map_entry(decl_name, filename, kind, is_meta, line)`. */
  function MkExportMapEntry(cfg: Config, name: string, filename: ImportName, kind: string, isMeta: bool, line: nat): ExportEntry {
    ExportEntry(PathString(filename.rawPath), kind, isMeta, line,
      LibraryLink(cfg, filename, Some(line)), cfg.siteRoot + Url(filename) + "#" + name, false)
  }

  /**
   * A record's documentation link is the one `link_to_decl` gives for the name
   * whenever `loc_map` places the name in the same module, and it always ends in
   * the name's anchor; its source link points at the line given.
   */
  lemma MkExportMapEntrySpec(cfg: Config, name: string, filename: ImportName, kind: string, isMeta: bool, line: nat, locMap: LocMap)
    ensures var e := MkExportMapEntry(cfg, name, filename, kind, isMeta, line);
      && EndsWith(e.docsLink, "#" + name)
      && (name in locMap && locMap[name] == filename ==> LinkToDecl(cfg, name, locMap) == Some(e.docsLink))
      && (e.srcLink == "" <==> filename.project != "core" && filename.project != "mathlib")
      && (e.srcLink != "" ==> EndsWith(e.srcLink, "#L" + Decimal(line)))
      && !e.header
  {
    var e := MkExportMapEntry(cfg, name, filename, kind, isMeta, line);
    assert e.docsLink[|e.docsLink| - |"#" + name|..] == "#" + name;
    LibraryLinkSpec(cfg, filename, Some(line));
  }

  /** The names `mk_export_db` writes for one declaration: `loc_map`'s names without the `.mk` name. */
  function ExportNames(d: Decl): seq<string> {
    [d.name] + FieldNames(d.constructors) + FieldNames(d.structureFields)
  }

  /**
   * The record a declaration leaves under one of its names once all of that
   * declaration's writes are done: later writes (constructors, then structure
   * fields) replace the declaration's own record, which alone has a header.
   */
  function EntryOfDecl(cfg: Config, name: string, d: Decl): ExportEntry
    requires d.filename.Resolved?
  {
    MkExportMapEntry(cfg, name, d.filename.name, d.kind, d.isMeta, d.line)
      .(header := name !in FieldNames(d.constructors) && name !in FieldNames(d.structureFields))
  }

  /** `db` after writing the plain record of every name of `names`, in order. */
  function AddEntries(cfg: Config, db: map<string, ExportEntry>, names: seq<string>, d: Decl): map<string, ExportEntry>
    requires d.filename.Resolved?
  {
    if names == [] then db
    else
      var k := names[|names| - 1];
      AddEntries(cfg, db, names[..|names| - 1], d)[k := MkExportMapEntry(cfg, k, d.filename.name, d.kind, d.isMeta, d.line)]
  }

  /** Every name written gets its plain record; every other name keeps what it had. */
  lemma {:induction false} AddEntriesSpec(cfg: Config, db: map<string, ExportEntry>, names: seq<string>, d: Decl, k: string)
    requires d.filename.Resolved?
    ensures k in AddEntries(cfg, db, names, d) <==> k in db || k in names
    ensures k in names ==> AddEntries(cfg, db, names, d)[k] == MkExportMapEntry(cfg, k, d.filename.name, d.kind, d.isMeta, d.line)
    ensures k !in names && k in db ==> AddEntries(cfg, db, names, d)[k] == db[k]
  {
    if names != [] {
      var init := names[..|names| - 1];
      assert names == init + [names[|names| - 1]];
      AddEntriesSpec(cfg, db, init, d, k);
    }
  }

  /** The writes of the loop body for one declaration. */
  function AddDecl(cfg: Config, db: map<string, ExportEntry>, d: Decl): map<string, ExportEntry>
    requires d.filename.Resolved?
  {
    var own := db[d.name := MkExportMapEntry(cfg, d.name, d.filename.name, d.kind, d.isMeta, d.line).(header := true)];
    AddEntries(cfg, AddEntries(cfg, own, FieldNames(d.constructors), d), FieldNames(d.structureFields), d)
  }

  /**
   * After one declaration's writes, each of its names holds the record
   * `EntryOfDecl` describes and every other name is untouched.
   */
  lemma AddDeclSpec(cfg: Config, db: map<string, ExportEntry>, d: Decl, k: string)
    requires d.filename.Resolved?
    ensures k in AddDecl(cfg, db, d) <==> k in db || k in ExportNames(d)
    ensures k in ExportNames(d) ==> AddDecl(cfg, db, d)[k] == EntryOfDecl(cfg, k, d)
    ensures k !in ExportNames(d) && k in db ==> AddDecl(cfg, db, d)[k] == db[k]
  {
    var own := db[d.name := MkExportMapEntry(cfg, d.name, d.filename.name, d.kind, d.isMeta, d.line).(header := true)];
    AddEntriesSpec(cfg, own, FieldNames(d.constructors), d, k);
    AddEntriesSpec(cfg, AddEntries(cfg, own, FieldNames(d.constructors), d), FieldNames(d.structureFields), d, k);
  }

  predicate AllResolved(ds: seq<Decl>) {
    forall i :: 0 <= i < |ds| ==> ds[i].filename.Resolved?
  }

  /** The database after the loop body has run for every declaration of `ds`, in order. */
  function DbOf(cfg: Config, ds: seq<Decl>): map<string, ExportEntry>
    requires AllResolved(ds)
  {
    if ds == [] then map[] else AddDecl(cfg, DbOf(cfg, ds[..|ds| - 1]), ds[|ds| - 1])
  }

  lemma DbOfSnoc(cfg: Config, ds: seq<Decl>, d: Decl)
    requires AllResolved(ds) && d.filename.Resolved?
    ensures AllResolved(ds + [d])
    ensures DbOf(cfg, ds + [d]) == AddDecl(cfg, DbOf(cfg, ds), d)
  {
    assert (ds + [d])[..|ds|] == ds;
    assert forall i :: 0 <= i < |ds| ==> ds[i] == (ds + [d])[i];
  }

  lemma PrefixSnoc<T>(a: seq<T>, b: seq<T>, j: nat)
    requires j < |b|
    ensures a + b[..j + 1] == (a + b[..j]) + [b[j]]
    ensures a + b[..0] == a
  {
    assert b[..j + 1] == b[..j] + [b[j]];
  }

  /** The declarations of `file_map`, module after module in key order. */
  function AllDecls(fm: FileMap, keys: seq<ImportName>): seq<Decl> {
    if keys == [] then [] else AllDecls(fm, keys[..|keys| - 1]) + DeclsOf(fm, keys[|keys| - 1])
  }

  /** Every declaration filed in `file_map` has had its path replaced by its import name. */
  predicate FileMapResolved(fm: FileMap) {
    forall m, i :: m in fm.entries && 0 <= i < |fm.entries[m]| ==> fm.entries[m][i].filename.Resolved?
  }

  lemma {:induction false} AllDeclsResolved(fm: FileMap, keys: seq<ImportName>)
    requires FileMapResolved(fm)
    ensures AllResolved(AllDecls(fm, keys))
  {
    if keys != [] {
      AllDeclsResolved(fm, keys[..|keys| - 1]);
    }
  }

  /** The database `mk_export_db(file_map)` returns. */
  function ExportDbOf(cfg: Config, fm: FileMap): map<string, ExportEntry>
    requires FileMapResolved(fm)
  {
    AllDeclsResolved(fm, fm.keys);
    DbOf(cfg, AllDecls(fm, fm.keys))
  }

  /** The index of the last declaration of `ds` that writes `k`, or -1. */
  function LastWriterOf(ds: seq<Decl>, k: string): (i: int)
    ensures -1 <= i < |ds|
    ensures i >= 0 ==> k in ExportNames(ds[i])
    ensures forall j :: i < j < |ds| ==> k !in ExportNames(ds[j])
  {
    if ds == [] then -1
    else if k in ExportNames(ds[|ds| - 1]) then |ds| - 1
    else LastWriterOf(ds[..|ds| - 1], k)
  }

  /**
   * The database has a record for exactly the names some declaration writes, and
   * each record is the one the last declaration writing that name leaves.
   */
  lemma {:induction false} DbOfLastWriter(cfg: Config, ds: seq<Decl>, k: string)
    requires AllResolved(ds)
    ensures k in DbOf(cfg, ds) <==> LastWriterOf(ds, k) >= 0
    ensures k in DbOf(cfg, ds) ==> DbOf(cfg, ds)[k] == EntryOfDecl(cfg, k, ds[LastWriterOf(ds, k)])
  {
    if ds != [] {
      var init := ds[..|ds| - 1];
      assert AllResolved(init);
      DbOfLastWriter(cfg, init, k);
      AddDeclSpec(cfg, DbOf(cfg, init), ds[|ds| - 1], k);
      if k !in ExportNames(ds[|ds| - 1]) {
        assert LastWriterOf(ds, k) == LastWriterOf(init, k);
        if LastWriterOf(init, k) >= 0 {
          assert ds[LastWriterOf(ds, k)] == init[LastWriterOf(init, k)];
        }
      }
    }
  }

  /** Writes the plain record of every name of `names`, in order. */
  method WriteEntries(cfg: Config, db0: map<string, ExportEntry>, names: seq<string>, d: Decl) returns (db: map<string, ExportEntry>)
    requires d.filename.Resolved?
    ensures db == AddEntries(cfg, db0, names, d)
  {
    db := db0;
    var c := 0;
    while c < |names|
      invariant 0 <= c <= |names|
      invariant db == AddEntries(cfg, db0, names[..c], d)
    {
      assert names[..c + 1] == names[..c] + [names[c]];
      db := db[names[c] := MkExportMapEntry(cfg, names[c], d.filename.name, d.kind, d.isMeta, d.line)];
      c := c + 1;
    }
    assert names[..c] == names;
  }

  /** The body of the loop over one module's declarations. */
  method WriteDecl(cfg: Config, db0: map<string, ExportEntry>, d: Decl) returns (db: map<string, ExportEntry>)
    requires d.filename.Resolved?
    ensures db == AddDecl(cfg, db0, d)
  {
    db := db0[d.name := MkExportMapEntry(cfg, d.name, d.filename.name, d.kind, d.isMeta, d.line).(header := true)];
    db := WriteEntries(cfg, db, FieldNames(d.constructors), d);
    db := WriteEntries(cfg, db, FieldNames(d.structureFields), d);
  }

  /** The loop over one module's declarations, continuing the database of the modules before it. */
  method WriteModule(cfg: Config, db0: map<string, ExportEntry>, done: seq<Decl>, decls: seq<Decl>) returns (db: map<string, ExportEntry>)
    requires AllResolved(done) && AllResolved(decls) && db0 == DbOf(cfg, done)
    ensures AllResolved(done + decls) && db == DbOf(cfg, done + decls)
  {
    db := db0;
    assert done + decls[..0] == done;
    var j := 0;
    while j < |decls|
      invariant 0 <= j <= |decls|
      invariant AllResolved(done + decls[..j])
      invariant db == DbOf(cfg, done + decls[..j])
    {
      PrefixSnoc(done, decls, j);
      DbOfSnoc(cfg, done + decls[..j], decls[j]);
      db := WriteDecl(cfg, db, decls[j]);
      j := j + 1;
    }
    assert decls[..j] == decls;
  }

  /**
   * `mk_export_db`: a record for every declaration, constructor and structure-field
   * name in `file_map`, in key order; a later write to the same name replaces an
   * earlier one.
   */
  method MkExportDb(cfg: Config, fm: FileMap) returns (db: map<string, ExportEntry>)
    requires FileMapResolved(fm)
    ensures db == ExportDbOf(cfg, fm)
  {
    AllDeclsResolved(fm, fm.keys);
    db := map[];
    var i := 0;
    while i < |fm.keys|
      invariant 0 <= i <= |fm.keys|
      invariant AllResolved(AllDecls(fm, fm.keys[..i]))
      invariant db == DbOf(cfg, AllDecls(fm, fm.keys[..i]))
    {
      assert fm.keys[..i + 1][..i] == fm.keys[..i];
      AllDeclsResolved(fm, fm.keys[..i + 1]);
      db := WriteModule(cfg, db, AllDecls(fm, fm.keys[..i]), DeclsOf(fm, fm.keys[i]));
      i := i + 1;
    }
    assert fm.keys[..i] == fm.keys;
  }
}
