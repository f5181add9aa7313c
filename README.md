# doc-gen name resolution, cross-linking and search, in Dafny

This project models the core of the mathlib documentation generator (doc-gen) and proves properties of that model. The generator reads the declaration export of a Lean library and writes a static HTML site. The model covers five parts:

- **Module identity.** A raw source path becomes an `ImportName` (project, module parts, raw path) by a first-match search over the roots `lean --path` reports. The dotted module name and the page URL follow from it.
- **Lookup tables.** These are built from the export:
  - `file_map`: each module's declarations, in export order;
  - `loc_map`: every declaration, constructor, structure field and made-up `.mk` name, mapped to its module;
  - the navigation tree of the site;
  - the module import graph;
  - the export database used by the site's `find` pages.
- **Cross-link rewriting:**
  - `linkify_core` turns a name into a link, a tooltip span, or the text itself;
  - `linkify_efmt` renders a pretty-printed expression with the private-use markers U+E000/U+E001/U+E002 around names;
  - `linkify_markdown` re-links the tokens of `<code>` and `<span class="n">` bodies;
  - the small per-declaration helpers: import hints, displayed kinds, tag ids, name markup, and source and documentation links.
- **Markdown extras.** GitHub-style heading anchors, library note links `Note [...]`, and math passed through for MathJax.
- **Search helpers of the site:**
  - Levenshtein edit distance filled into a matrix;
  - ranking of declaration names by that distance;
  - the search worker's attribute/kind filter and the replies it posts for a query.

Every module has a file:

| module | file | models |
|---|---|---|
| `Wrappers` | `wrappers.dfy` | `Option` and `Result` |
| `Strings` | `strings.dfy` | The string operations the code relies on: Python `split`/`join`/`strip`/`sorted`/`set`, JavaScript `trim`, and decimal rendering. |
| `ImportNames` | `import_name.dfy` | `import_name.py` |
| `Exports` | `exports.dfy` | The records of the export. |
| `DocTables` | `tables.dfy` | `separate_results` and `read_src_data` |
| `DepGraph` | `deps.dfy` | `trace_deps` |
| `SiteTree` | `site_tree.dfy` | `mk_site_tree` and `mk_site_tree_core` |
| `Linkify` | `linkify.dfy` | `linkify_core`, `linkify_efmt` and `linkify_markdown` |
| `DeclInfo` | `decl_info.dfy` | The remaining helpers of `print_docs.py`, and the export database. |
| `Markdown` | `markdown.dfy` | `mistletoe_renderer.py` |
| `Search` | `search.dfy` | `search.js` |
| `SearchWorker` | `search_worker.dfy` | `searchWorker.js` |

The model takes the source's own form:
- **Imperative code is methods with loops and invariants.** This covers:
  - the in-place filename replacement over the declaration array;
  - the tag defaulting over the tactic-doc array;
  - the graph-building loops;
  - the export-database loops;
  - the DP matrix of `editDistance` (an `array2`);
  - the ranking loop of `getMatches`;
  - the attribute loop with `break` of `filterItemResult`.

  Each of these methods is proved equal to a specification function. The properties are proved about that function.
- **Pure code is functions and lemmas.**
- **Regular expressions are hand-written scanners over character sequences.**
- **Global settings and environment results are parameters.** The settings are `SITE_ROOT`, the mathlib GitHub root and the two commits. The environment results are the roots from `lean --path` and the dependency query.

## Model

| member | source | states |
|---|---|---|
| ImportNames.Suffix | import_name.py:24 | A `PurePath.suffix` is empty, or a dot followed by at least one character, and it ends the name. |
| ImportNames.Stem | import_name.py:24 | The stem followed by the suffix is the whole name. |
| ImportNames.WithSuffix | import_name.py:24 | `with_suffix` fails exactly on an empty file name. Otherwise it keeps every component but the last, which becomes stem + new suffix. |
| ImportNames.RelativeToSplitsPath | import_name.py:20 | A successful `relative_to` means the root is a component-wise prefix, and the result is the rest of the path. |
| ImportNames.PackageName | import_name.py:39-55 | Gives "core" for the two core-library layouts, else the manifest's package name, else "<unknown>". |
| ImportNames.CoreLibraryPathNeedsLength | import_name.py:41 | A core-library path has at least three components and ends in `library`. |
| ImportNames.FirstRootIsFirst | import_name.py:18-24 | No root before the one the loop stops at contains the file. |
| ImportNames.FirstRootAt | import_name.py:18-24 | Conversely, the loop stops at the first root that contains the file. |
| ImportNames.OfUsesFirstMatchingRoot | import_name.py:13-24 | The first root in list order that contains the file decides the result: that root's package name, the remaining components with the last one's suffix removed, and the file as raw path. An empty remaining name is an error. |
| ImportNames.FromRootShape | import_name.py:24 | The import name built from a matching root, or the `with_suffix` error. |
| ImportNames.OfFailsOnlyOutsideAllRoots | import_name.py:16-29 | `of` fails with the no-root error, carrying every resolved root, exactly when no root contains the file. |
| ImportNames.OfNotUnderListsRoots | import_name.py:15-26 | The no-root error lists the resolved path of every root. |
| ImportNames.ErrorMessageListsEveryRoot | import_name.py:16-29 | The error message contains the line ` - <root>` for every root tried. |
| ImportNames.MessageListsEveryPath | import_name.py:16-29 | The message built from any list of tried paths contains a line for each of them. |
| ImportNames.DottedName | import_name.py:31-33 | `name` is the parts joined with dots. Splitting it on dots gives the parts back when no part contains a dot. |
| ImportNames.Url | import_name.py:35-37 | `url` ends in ".html", and its page path splits on '/' back into the parts. |
| DocTables.Append | print_docs.py:93 | `file_map[m].append(d)` appends `d` to `m`'s list, adds `m` to the key order on first use, and leaves other keys unchanged. |
| DocTables.Touch | print_docs.py:121 | The bare defaultdict lookup inserts an empty list for a missing key and changes nothing else. |
| DocTables.AddAll | print_docs.py:94-100 | After the writes, each written name maps to the module, and every other name keeps its old entry. |
| DocTables.AddNames | print_docs.py:94-100 | The loop of writes for one declaration equals `AddAll` over its name, constructors, fields and, for a structure, `<name>.mk`. |
| DocTables.SeparateResults | print_docs.py:84-101 | The in-place loop replaces every filename by its import name and returns the tables of the fold `Separate`, or the first resolution error. |
| DocTables.SeparateKeepsError | print_docs.py:89 | A resolution failure aborts the whole run with that error. |
| DocTables.SeparateFailsAtFirstUnresolvable | print_docs.py:87-89 | The run fails exactly when some record's file does not resolve, with the error of the first such record. |
| DocTables.SeparateResolvesEveryRecord | print_docs.py:88-91 | Every record, including doc-gen's own (project '.'), has its filename replaced by its import name. |
| DocTables.LocMapComplete | print_docs.py:94-100 | Every name of every kept record is a key of `loc_map`. |
| DocTables.LocMapLastWriterWins | print_docs.py:87-100 | Every `loc_map` entry is the module of the last kept record that carries the name. |
| DocTables.StepKeepsLastWriter | print_docs.py:89-100 | One loop iteration preserves the last-writer property. |
| DocTables.FileMapGroupsByModule | print_docs.py:85-93 | `file_map` has a key for exactly the modules of kept records, in order of first appearance. Each key maps to that module's kept records in input order, and records of project '.' appear nowhere. |
| DocTables.StepKeepsFileMapShape | print_docs.py:89-93 | One loop iteration preserves the shape of `file_map`. |
| DocTables.KeptNames | print_docs.py:90-93 | Lists exactly the modules of the kept records. |
| DocTables.Grouped | print_docs.py:93 | Holds only kept records of the given module. |
| DocTables.Dedup | print_docs.py:85-93 | The key order of a dict has no repeats and holds exactly the inserted keys. |
| DocTables.WithDefaultTag | print_docs.py:113-114 | An empty tag list becomes `['untagged']`. Any other entry is unchanged, and no other field changes. |
| DocTables.DefaultTags | print_docs.py:112-114 | The in-place loop applies `WithDefaultTag` to every tactic doc. |
| DocTables.ResolveModDocs | print_docs.py:116 | Every module-doc path is resolved in order, or the run fails with the error of the first path, in `mod_docs` order, that does not resolve. |
| DocTables.ToMap | print_docs.py:116 | The keys of the comprehension's dict are exactly the resolved module names. |
| DocTables.BuildModDocs | print_docs.py:116 | The dict comprehension, built with a loop: its values by key, and its keys in first-insertion order. |
| DocTables.SeedAll | print_docs.py:118-121 | Seeding adds an empty entry for each documented module outside doc-gen that is missing, and keeps existing entries. |
| DocTables.SeedModules | print_docs.py:118-121 | The seeding loop computes `SeedAll`. |
| DocTables.ReadSrcData | print_docs.py:108-123 | Separates the records in place, defaults the tags in place, and resolves and seeds the module docs. On a `separate_results` error the tactic docs are untouched. After a successful separation the tags are defaulted even when a module-doc path then fails to resolve. |
| DocTables.ReadSrcDataCoversModules | print_docs.py:111-121 | After `read_src_data`, `file_map` has entries for exactly the modules with a kept declaration or with module docs (outside doc-gen). Each entry is that module's declarations in export order. |
| DepGraph.ByPath | print_docs.py:145 | `import_name_by_path` maps every module's raw path to a module with that raw path. |
| DepGraph.IndexByPath | print_docs.py:145 | The comprehension loop computes `ByPath`. |
| DepGraph.LeanFile | print_docs.py:154 | `with_suffix('.lean')` fails exactly on an empty file name. |
| DepGraph.TargetsAreLinks | print_docs.py:151-158 | A module is a target exactly when some reported dependency names it. |
| DepGraph.TraceDeps | print_docs.py:143-161 | The nested loops add nodes and edges and count links. They compute `TraceDepsOf`. |
| DepGraph.AddLinksAdds | print_docs.py:151-159 | One module's links add its targets as nodes and edges. `n` grows by the links seen and `n_ok` by the links resolved. |
| DepGraph.AddLinksOkIffNamed | print_docs.py:154 | The inner loop completes exactly when every reported dependency has a file name. |
| DepGraph.TraceOkIff | print_docs.py:148-159 | The outer loop completes exactly when every dependency of every module has a file name. |
| DepGraph.TraceShape | print_docs.py:148-160 | On completion the nodes are the modules plus their targets and the edges are exactly the resolved links; `n` counts every link and `n_ok <= n`. |
| DepGraph.TraceDepsShape | print_docs.py:143-161 | `trace_deps` fails exactly on an empty dependency file name. Otherwise its nodes are exactly `file_map`'s modules and its edges exactly the links that name a known module. |
| SiteTree.DirNamesSpec | print_docs.py:170 | The directory names of a level are the first components of the filenames that continue below it. |
| SiteTree.FileNamesSpec | print_docs.py:179 | The file names of a level are the filenames that end there. |
| SiteTree.ChildrenSpec | print_docs.py:176 | A directory's children are the rests of the filenames under it. |
| SiteTree.ChildrenLower | print_docs.py:176 | Descending into a directory shortens the longest filename, so the recursion ends. |
| SiteTree.SortedDirsAreDirs | print_docs.py:170 | `sorted(set(...))` holds exactly the directory names. |
| SiteTree.MkSiteTreeCore | print_docs.py:167-187 | The directory loop, recursing into each directory, then the file loop, compute the tree function `Tree`. |
| SiteTree.Filenames | print_docs.py:164 | Each module becomes `[project] + parts`. |
| SiteTree.MkSiteTree | print_docs.py:163-165 | `mk_site_tree` is the tree of those filenames at the root. |
| SiteTree.LevelOrder | print_docs.py:170-186 | At every level all directory entries precede all file entries. Directory names are strictly ascending (deduplicated) and file names ascending. |
| SiteTree.LevelDirs | print_docs.py:170-177 | The directory entries of a level are exactly the first components of the continuing filenames. Their kind is "project" at the top and "dir" below, and each holds the tree of its children. |
| SiteTree.LevelDirEntries | print_docs.py:170-177 | The first entries of a level are one directory per sorted distinct name, with kind, name and path. |
| SiteTree.LevelDirChildren | print_docs.py:176 | Each directory entry holds the tree of its children. |
| SiteTree.LevelFileEntries | print_docs.py:179-185 | The last entries of a level are one file per sorted file name. |
| SiteTree.LevelPaths | print_docs.py:175-184 | Every entry's path omits the project component. File paths end in ".html". |
| SiteTree.LevelFiles | print_docs.py:179 | The file entries of a level are the file names that end there, with their multiplicity. |
| SiteTree.FileEntryNamesOfLevel | print_docs.py:179-185 | The file entries' names are the sorted file names. |
| SiteTree.PagePathsOfTree | print_docs.py:167-187 | The page paths anywhere in the tree are exactly the page paths of the input filenames. |
| SiteTree.SiteTreePagesAreModuleUrls | print_docs.py:163-187 | The set of page paths in the site tree is exactly the set of the modules' `url`s. |
| Linkify.LinkifyCore | print_docs.py:213-221 | The output is never shorter than the text, and is strictly longer unless it is the identity case. |
| Linkify.LinkifyCoreIdentity | print_docs.py:213-221 | The text comes back unchanged exactly when the name is unknown and the text is the name itself. |
| Linkify.LinkifyCoreKeepsText | print_docs.py:213-221 | In every case the text appears in the output as one piece. |
| Linkify.LinkifyCoreLinksKnown | print_docs.py:214-217 | A known name becomes an `<a>` to `SITE_ROOT + url + '#' + name` around the text. It carries a title exactly when the text differs from the name. |
| Linkify.LinkifyCoreTooltip | print_docs.py:218-219 | An unknown name shown under another text becomes a span titled with the name. |
| Linkify.IndexFrom | print_docs.py:228 | Finds the first occurrence of a character at or after a position. |
| Linkify.CutText | print_docs.py:228 | `(\s*)(.*?)(\s*)` splits the text into leading whitespace, a trimmed middle and trailing whitespace, which concatenate to the text; the middle is the text with Python's `strip()` applied. |
| Linkify.LinkAtSpec | print_docs.py:228 | The marked-name alternative matches exactly when U+E001 follows the name's first character and U+E002 follows that. The name is non-empty, and the text holds no U+E002. |
| Linkify.LinkAtRaw | print_docs.py:228 | A matched marked name accounts for exactly the characters it consumes. |
| Linkify.TokensRoundTrip | print_docs.py:228 | The `findall` tokens account for every character of the leaf, in order. |
| Linkify.LinkifyLinkedNoMarker | print_docs.py:224-228 | A leaf without U+E000 comes back unchanged. |
| Linkify.GoOkIffWellFormed | print_docs.py:230-240 | `go` succeeds exactly when every node is 'n' with a child or 'c' with two. Any other tag raises. |
| Linkify.GoRendersPieces | print_docs.py:230-240 | `go` is the in-order reading of the tree: leaves linked in place, with an fn span around every 'n' child. |
| Linkify.PiecesBalanced | print_docs.py:236 | Every fn span that is opened is also closed. |
| Linkify.LinkifyEfmtShape | print_docs.py:223-242 | `linkify_efmt` succeeds exactly on well-formed expressions, and the whole rendering sits inside one outer fn span. |
| Linkify.LeafWithoutMarker | print_docs.py:231-234 | A leaf has its newlines replaced by spaces and is otherwise unchanged when it has no U+E000. |
| Linkify.SepFrom | print_docs.py:246 | Finds the first separator (whitespace or bracket) at or after a position. |
| Linkify.SplitKeep | print_docs.py:246 | `re.split` with a capturing group alternates pieces and separators, so the count is odd. |
| Linkify.SplitKeepRoundTrip | print_docs.py:246 | Pieces and separators concatenate back to the string. |
| Linkify.SplitKeepInfixes | print_docs.py:246 | Every piece and separator is a contiguous piece of the string. |
| Linkify.LinkifyTokensLength | print_docs.py:247-248 | Linking never shortens, and keeps the length exactly when no token is a known name. |
| Linkify.LinkifyTypeIdentity | print_docs.py:245-248 | A code body comes back unchanged exactly when none of its tokens is a known name. |
| Linkify.TagAt | print_docs.py:250-252 | A match of `open([^<]+)close` has a non-empty body and fits in the string. |
| Linkify.SubTaggedIdentity | print_docs.py:250-253 | When the replacement gives back every body that `re.sub` matches, scanning as the substitution does, the substitution gives back the text. |
| Linkify.SubTaggedGrows | print_docs.py:250-253 | With a replacement that either fixes or lengthens its argument, the substitution never shortens the text, and lengthens it when some matched body is changed. |
| Linkify.RelinkGrowsOrFixes | print_docs.py:244-249 | Relinking a `<code>` or `<span class="n">` body either leaves it as it is or makes it longer. |
| Linkify.LinkifyMarkdownIdentity | print_docs.py:244-254 | `linkify_markdown` returns the text unchanged exactly when every `<code>` body and every `<span class="n">` body the two substitutions match is relinked to itself, that is, when none of its tokens is a `loc_map` key (`LinkifyTypeIdentity`). |
| DeclInfo.ImportPaths | print_docs.py:190-194 | The two appends compute `direct_import_paths`. |
| DeclInfo.ImportPathsSpec | print_docs.py:190-194 | The list has at most two distinct paths. The declaration's module comes first when the declaration is known. A non-empty import string is always offered, and nothing else is. The list is empty exactly when neither is present. |
| DeclInfo.ImportLines | print_docs.py:199 | One `<li>import p</li>` per path. |
| DeclInfo.ImportOptionsSpec | print_docs.py:189-201 | The hint is empty exactly when there is nothing to import. A path under `init.` gives "imported by default". Otherwise every path appears as an import line. |
| DeclInfo.KindOfDecl | print_docs.py:203-208 | Structure if it has fields, inductive if it has constructors, otherwise the export kind with "thm", "cnst" and "ax" spelled out. |
| DeclInfo.KindOfDeclSpelledOut | print_docs.py:203-208 | The shown kind is never one of the abbreviations. |
| DeclInfo.TagIdOfName | print_docs.py:210-211 | A tag id has no spaces and is no longer than the tag. |
| DeclInfo.TagIdIdempotent | print_docs.py:210-211 | A tag id is its own tag id. |
| DeclInfo.Escape | print_docs.py:288 | `html.escape` leaves no `<`, `>`, `"` or `'`, and adds no dot. |
| DeclInfo.UnescapeEscape | print_docs.py:288 | Escaping loses nothing: unescaping gives the string back. |
| DeclInfo.WrapParts | print_docs.py:288 | Each part is escaped and wrapped in a name span. |
| DeclInfo.NameOfHtmlify | print_docs.py:287-288 | The markup of a dotted name reads back as the name: no part is lost, reordered or altered. |
| DeclInfo.NameInDeclVersusNames | print_docs.py:402-409 | The names `name_in_decl` accepts are among those `loc_map` records for the declaration. The only one it misses is the `.mk` name of a structure. |
| DeclInfo.LibraryLinkSpec | print_docs.py:290-308 | Only core and mathlib modules get a source link: the module path under the project's root plus `.lean`, with `#L<line>` when a line is given. Other projects get "". |
| DeclInfo.FirstNaming | print_docs.py:413 | `next(...)` finds the first declaration that carries the name. |
| DeclInfo.LibraryLinkFromDeclNameOkIff | print_docs.py:411-420 | The lookup succeeds exactly when the name, with some number of trailing `.mk` stripped, is carried by a declaration of the module. |
| DeclInfo.LibraryLinkFromDeclNameFirst | print_docs.py:412-420 | The link is to the line of the first declaration that carries the name. |
| DeclInfo.LibraryLinkFromTableName | print_docs.py:411-420 | Every name `loc_map` records for a declaration of the module finds a source link, including a structure's `.mk`. |
| DeclInfo.LinkToDeclIsLinkTarget | print_docs.py:256-257 | `link_to_decl` is defined exactly for known names. It is the address `linkify_core` links the name to. |
| DeclInfo.MkExportMapEntrySpec | print_docs.py:475-483 | `docs_link` ends in the name's anchor and equals `link_to_decl` when `loc_map` places the name in that module. `src_link` is empty exactly outside core and mathlib, and otherwise ends at the given line. |
| DeclInfo.AddEntriesSpec | print_docs.py:491-494 | Each written name gets its record, and other names keep theirs. |
| DeclInfo.AddDeclSpec | print_docs.py:489-494 | After one declaration's writes, each of its names holds the record of its last write, and other names are untouched. |
| DeclInfo.DbOfLastWriter | print_docs.py:485-495 | The database has a record for exactly the names some declaration writes. Each record is the one the last writing declaration leaves. |
| DeclInfo.LastWriterOf | print_docs.py:487-494 | Finds the last declaration that writes a name. |
| DeclInfo.WriteEntries | print_docs.py:491-494 | The constructor and field loops compute `AddEntries`. |
| DeclInfo.WriteDecl | print_docs.py:489-494 | The loop body for one declaration computes `AddDecl`. |
| DeclInfo.WriteModule | print_docs.py:488-494 | The inner loop continues the database over one module's declarations. |
| DeclInfo.MkExportDb | print_docs.py:485-495 | The nested loops compute the database over `file_map` in key order. |
| Markdown.KeepAnchorChars | mistletoe_renderer.py:63 | Deletes exactly the characters outside `[\w\- ]` and keeps the rest. |
| Markdown.HeadingAnchorChars | mistletoe_renderer.py:62-63 | The anchor has no space and no upper-case letter, only word characters and `-`. It keeps exactly the word characters of the stripped, lower-cased text. Position by position against the characters `[\w\- ]` keeps, it has a `-` exactly where they have a `-` or a space, and their character everywhere else. |
| Markdown.AnchorOfChars | mistletoe_renderer.py:63 | The same, for already lower-cased text: only word characters and `-`, the same word characters, and position by position a `-` exactly where the kept characters have a `-` or a space. |
| Markdown.HeadingAnchorIdempotent | mistletoe_renderer.py:62-63 | The anchor of an anchor is itself. |
| Markdown.RenderHeadingSpec | mistletoe_renderer.py:52-64 | The element opens and closes with tag `h<level>` for the token's level, uses the anchor both as `id` and in the hover link's `href="#anchor"`, and shows the inner text unchanged. |
| Markdown.HeadingHtmlSpec | mistletoe_renderer.py:58 | The template starts with the head, ends with the tail and contains the inner text. |
| Markdown.FoldsAtSpec | mistletoe_renderer.py:22 | `Note [` is matched ignoring the case of ASCII letters. |
| Markdown.LineEnd | mistletoe_renderer.py:22 | Finds the first line feed at or after a position: how far `.` can reach. |
| Markdown.LastClose | mistletoe_renderer.py:22 | Finds the last `]` in a range: where the greedy `.*` backs off to. |
| Markdown.MatchAtIff | mistletoe_renderer.py:22 | A match starts at `i` exactly when the prefix matches there and a `]` follows on the same line. |
| Markdown.SearchFromFirst | mistletoe_renderer.py:22 | The search skips no match. |
| Markdown.FindNoteLinkSpec | mistletoe_renderer.py:17-26 | The first note link: `body` is `Note [` in any case, then `note` on one line, then `]`. No `]` follows on that line, and no match starts earlier. Nothing is found exactly when no position matches. |
| Markdown.MatchShape | mistletoe_renderer.py:22-26 | A match at a given position has the shape of a note link: `Note [` in any case, a note on one line, `]`, and no `]` after it on that line. |
| Markdown.FindNoteLinkUpToCase | mistletoe_renderer.py:22 | Texts that differ only in letter case have their first note link at the same place, with the same extent. |
| Markdown.MatchAtUpToCase | mistletoe_renderer.py:22 | The same, at any position. |
| Markdown.RenderNoteLinkSpec | mistletoe_renderer.py:98-102 | The note link points to `site_root + 'notes.html#' + note` and shows the matched text exactly as written. |
| Markdown.RenderNoteLinkShape | mistletoe_renderer.py:98-102 | The link starts with the note's anchor and ends with the body. |
| Markdown.RenderMath | mistletoe_renderer.py:104-106 | Math content passes through unchanged. |
| Search.FillRow | search.js:13-20 | The inner loop fills row `j` with the prefix distances and leaves other rows alone. |
| Search.EditDistance | search.js:2-23 | `editDistance` returns the Levenshtein distance of the two strings. |
| Search.LevEmpty | search.js:6-11 | Distance to the empty string is the length. |
| Search.DistZero | search.js:14-22 | A zero distance between prefixes means they are equal. |
| Search.LevZeroIff | search.js:14-22 | The distance is 0 exactly when the strings are equal. |
| Search.DistSymmetric | search.js:14-19 | The prefix distance is symmetric. |
| Search.LevSymmetric | search.js:2-23 | `editDistance(a, b) == editDistance(b, a)`. |
| Search.DistLower | search.js:14-19 | A prefix distance is at least the length difference. |
| Search.DistUpper | search.js:14-19 | A prefix distance is at most the longer length. |
| Search.LevBounds | search.js:2-23 | The length difference is at most the distance, which is at most the longer length. |
| Search.Scores | search.js:31-34 | One result per declaration, in order, carrying its distance. |
| Search.InsertByDistMultiset | search.js:35 | Inserting adds exactly the element. |
| Search.InsertByDistSorted | search.js:35 | Inserting keeps the list sorted by distance. |
| Search.InsertByDistAtDist | search.js:35 | Inserting puts the element after those of equal distance. |
| Search.SortByDistSorted | search.js:35 | The sort orders by non-decreasing distance. |
| Search.SortByDistPermutes | search.js:35 | The sort is a permutation. |
| Search.SortByDistStable | search.js:35 | The sort keeps the input order among results of equal distance. |
| Search.SortByDistSpec | search.js:35 | `results.sort(...)` is a stable permutation sorted by distance. |
| Search.GetMatches | search.js:29-36 | The loop computes `Matches`, the sorted scores sliced to `maxResults`. |
| Search.MatchesSpec | search.js:29-36 | The length is `slice`'s length, at most `maxResults` when that is non-negative. Each result's `decl` comes from `decls`, and its `dist` is the edit distance of the lower-cased names. Results are sorted and drawn from the scores, and no dropped score is closer than a kept one. |
| Search.TopOfSorted | search.js:35 | A slice of the sorted scores is sorted and keeps the closest ones. |
| Search.DefaultMatches | search.js:29-36 | With the default `maxResults = 20`: the twenty closest names (all of them when there are fewer), sorted by distance, each with its lower-cased edit distance. |
| Search.JsSliceIsPrefix | search.js:35 | `slice(0, n)` is a prefix, with negative `n` counting from the end. |
| Search.PrefixOfSorted | search.js:35 | A prefix of a sorted list is sorted and no later element is closer. |
| Search.MatchesOfNothing | search.js:29-36 | No declarations give no matches. |
| Search.ExactNameFirst | search.js:29-36 | A declaration equal to the pattern up to case puts a distance-0 result first when `maxResults > 0`. |
| Search.SplitDeclsSpec | search.js:25-27 | At least one piece, no piece holds a line feed, and the pieces joined with line feeds are the trimmed text. |
| Search.SplitDeclsJoin | search.js:25-27 | Names without line feeds whose joined text is already trimmed split back into the names. |
| SearchWorker.FilterItemResult | searchWorker.js:40-71 | The flag-and-loop method with its `break` returns exactly `Accepts`: every filter that takes part must be met. |
| SearchWorker.AcceptsCases | searchWorker.js:42-70 | With no filter, true. With only attributes, true iff some attribute is in the filter. With only kinds, true iff the kind is in the filter. With both, the conjunction of the two. |
| SearchWorker.AcceptsWiden | searchWorker.js:40-70 | Widening the filter lists that take part, while absent or empty lists stay absent or empty, never turns a result away. Switching a list on is not covered, since it can reject. |
| SearchWorker.EmptyListIsNoFilter | searchWorker.js:42-47 | An empty list is no filter. |
| SearchWorker.Filtered | searchWorker.js:25-31 | Results are exactly the hits the filter accepts. |
| SearchWorker.AnswerSpec | searchWorker.js:21-35 | An empty trimmed query performs no search and gets the empty reply. Otherwise `total` counts every accepted hit, and the response is a prefix of them, at most `maxCount` long for a non-negative number and whole otherwise. Every response item is accepted. |
| SearchWorker.AnswerIgnoresOuterSpace | searchWorker.js:23 | White space around the query changes nothing. |
| SearchWorker.AnswerOfTrimmed | searchWorker.js:23-35 | The answer depends on the query only through its trimmed form. |
| SearchWorker.TruncatePrefix | searchWorker.js:33 | The truncated response is a prefix of at most `maxCount` items, and the whole list when `maxCount` is absent or negative. |
| SearchWorker.Port.PostMessage | searchWorker.js:35-37 | A post appends the reply to the port's record. |
| SearchWorker.Port.OnMessage | searchWorker.js:19-38 | The handler as written appends the answer (for a non-empty query) and then an empty reply. |
| SearchWorker.PostedRepliesExtraEmpty | searchWorker.js:35-37 | For a non-empty query the handler posts two replies. The second is empty and differs from the first whenever something was found. |
| SearchWorker.FirstReplyIsAnswer | searchWorker.js:35-37 | The first reply is always the answer. |
| SearchWorker.Port.Respond | searchWorker.js:19-38 | The corrected handler posts exactly one reply, the answer. |
| Strings.JoinSplit | import_name.py:33 | Joining the pieces of a split gives the string back. |
| Strings.SplitJoin | import_name.py:33 | Splitting a join of separator-free parts gives the parts back. |
| Strings.Strip | print_docs.py:211 | The result is a piece of the input that neither starts nor ends with white space. It is empty exactly when the input is all white space. |
| Strings.StripRemovesOnlySpaces | print_docs.py:211 | The strip is the piece of the input that follows its leading white space; everything after that piece is white space too. |
| Strings.StripUnchanged | print_docs.py:211 | A string that neither starts nor ends with white space is its own strip. |
| Strings.StripPadded | searchWorker.js:23 | Stripping padding on both sides gives the inner string back. |
| Strings.DecimalRoundTrip | print_docs.py:307 | The decimal rendering of a line number reads back as that number. |
| Strings.SortSpec | print_docs.py:179 | `sorted` returns its input in ascending order with every multiplicity. |
| Strings.SortUniqueSpec | print_docs.py:170 | `sorted(set(...))` returns the distinct elements in strictly ascending order. |
| Strings.LexLeTotal | print_docs.py:170-179 | The code-point order on strings is total. |
| Strings.LexLeTransitive | print_docs.py:170-179 | The code-point order on strings is transitive. |
| Strings.LexLeAntisymmetric | print_docs.py:170-179 | The code-point order on strings is antisymmetric. |

## Left out

- **File and network I/O in print_docs.py and import_name.py.** This is not part of this model:
  - reading `export.json`, `leanpkg.toml` and the mathlib data;
  - the `lean --run`, `lean --path` and `lean --deps` subprocesses;
  - `open_outfile`, the `write_*` functions (including `write_redirects` and its Windows skip, `write_decl_txt` and `write_export_db`'s gzip);
  - the `copy_*` functions;
  - `argparse` and `main`.

  The roots that `lean --path` reports and the output of `lean --deps` are inputs instead: `ImportNames.Root` and the `DepQuery` function.
- **Path handling.** `Path(str)` parsing and `Path.resolve()` are left out: a path is given as its list of components, and each root arrives already resolved.
- **Template rendering.** `setup_jinja_env`, the page templates and the `decl_header_html` field of the export database are left out. `DeclInfo.ExportEntry` only flags the records that carry a header.
- **Library-defined text processing:**
  - `plaintext_summary`, made of `re` substitutions and `textwrap.shorten`;
  - `split_tactic_list`, a regex with lookbehind, unused by the modelled code;
  - `convert_markdown` (markdown2);
  - mistletoe's `Document` parsing and span tokenisation. The model finds the first `Note [...]` of a text only.
  - `render_block_code`, which uses Pygments.
- **`read_src_data` pass-throughs.** The notes and instances lists are passed through untouched and are not modelled.
- **trace_deps console output.** The `print` calls are left out. The counters `n` and `n_ok` are modelled.
- **Search worker plumbing.** The XHR, MiniSearch and SharedWorker plumbing in searchWorker.js is left out. The hits MiniSearch returns for a query are an input function, assumed already in MiniSearch's order. The `console.log` call is left out.
- **search.js NodeJS block.** The NodeJS entry block at search.js:38-41 reads a file, so it is left out.
- Search.Score: `toLowerCase` is modelled on ASCII letters only. Other characters keep their case.
- Search.EditDistance: strings are sequences of code points, while JavaScript indexes UTF-16 code units. The two differ for characters outside the Basic Multilingual Plane.
- Search.Matches: `maxResults` is an integer. JavaScript's `slice` also accepts a fractional bound (truncated toward zero, so `slice(0, 2.5)` keeps two), `Infinity` (keeps all) and `NaN` (keeps none). These are not modelled.
- SearchWorker.Truncate: `maxCount` is an integer or absent. A fractional `maxCount` truncates toward zero in `slice`, `Infinity` keeps the whole list, and `NaN` fails `>= 0` so the whole list is returned. These are not modelled.
- SearchWorker.Answer: a `maxCount` that is not a number is `None`. A query that is not a string, or a request without a query, is not modelled: `query.trim()` would throw.
- Markdown.HeadingAnchor: `lower()` and `\w` are modelled on ASCII only. Python's Unicode case mapping and Unicode word characters are not.
- SiteTree.SiteTreePagesAreModuleUrls: the statement is an equality of sets, so it says nothing about multiplicity. `url` omits the project, so two modules from different projects with the same parts get two page entries with the same path. The set form merges them and does not show it.
- Linkify.CutText: `\s` is Python's Unicode white space (`str.isspace`). The model treats `.` as any character, since newlines are replaced before the scan.
- **Browser UI code.** nav.js, color_scheme.js, theme_toggler.js and detect_color_scheme.js are browser UI code and are not part of this model.
- **Scripts and test drivers.** make_nav.py, mathlib_data_structures.py and test/test_latex.py are not part of this model.

## Findings

| source | as written | input that shows it | evidently intended | confidence | as-written member | corrected member |
|---|---|---|---|---|---|---|
| searchWorker.js:35-37 | After posting the answer to a non-empty query, the handler falls through and also posts `{response: [], total: 0}` | Any request whose trimmed query is non-empty and whose search finds at least one accepted hit: the second reply is empty and contradicts the first | One reply per request. The empty reply belongs only to an empty query (a `return` or an `else`). The site's client in nav.js settles on the first message, so the extra reply is ignored there. | not executed | SearchWorker.PostedRepliesExtraEmpty | SearchWorker.Port.Respond |
