/**
 * Cross-link rewriting in print_docs.py: `linkify_core` (a declaration name to a
 * link, a tooltip span, or the text itself), `linkify_linked` (the scanner over
 * the private-use markers U+E000 name U+E001 text U+E002 that the export puts
 * around names in pretty-printed expressions), `linkify_efmt` (the renderer of the
 * tagged expression tree) and `linkify_markdown` (re-linking the tokens of
 * `<code>` and `<span class="n">` bodies).
 *
 * `SITE_ROOT` is the parameter `siteRoot`; the name table `loc_map` is `locMap`.
 */
module Linkify {
  import opened Wrappers
  import opened Strings
  import opened ImportNames
  import opened Exports

  type LocMap = map<string, ImportName>

  // ---------------------------------------------------------------------------
  // linkify_core

  /** The opening of the link to `name`: its page in the site plus the declaration anchor. */
  function LinkHead(siteRoot: string, locMap: LocMap, name: string): string
    requires name in locMap
  {
    "<a href=\"" + siteRoot + Url(locMap[name]) + "#" + name + "\""
  }

  /** `linkify_core(decl_name, text, loc_map)`. */
  function LinkifyCore(siteRoot: string, locMap: LocMap, name: string, text: string): (r: string)
    ensures |r| >= |text|
    ensures name in locMap || text != name ==> |r| > |text|
  {
    if name in locMap then
      LinkHead(siteRoot, locMap, name) + (if text != name then " title=\"" + name + "\"" else "") + ">" + text + "</a>"
    else if text != name then
      "<span title=\"" + name + "\">" + text + "</span>"
    else text
  }

  /** The text comes back unchanged exactly when the name is unknown and the text is the name itself. */
  lemma LinkifyCoreIdentity(siteRoot: string, locMap: LocMap, name: string, text: string)
    ensures LinkifyCore(siteRoot, locMap, name, text) == text <==> name !in locMap && text == name
  {
  }

  /** Whatever the case, the text appears in the output as one contiguous piece. */
  lemma LinkifyCoreKeepsText(siteRoot: string, locMap: LocMap, name: string, text: string)
    ensures IsInfix(text, LinkifyCore(siteRoot, locMap, name, text))
  {
    if name in locMap {
      var head := LinkHead(siteRoot, locMap, name) + (if text != name then " title=\"" + name + "\"" else "") + ">";
      assert LinkifyCore(siteRoot, locMap, name, text) == head + text + "</a>";
      InfixOfMiddle(head, text, "</a>");
    } else if text != name {
      InfixOfMiddle("<span title=\"" + name + "\">", text, "</span>");
    } else {
      assert text[0..|text|] == text;
      InfixAt(text, text, 0);
    }
  }

  /**
   * A known name becomes a link to its module's page anchored at the name, and the
   * link carries a title exactly when the shown text differs from the name: right
   * after the link head comes `>` when it does not and the title attribute when it does.
   */
  lemma LinkifyCoreLinksKnown(siteRoot: string, locMap: LocMap, name: string, text: string)
    requires name in locMap
    ensures var r := LinkifyCore(siteRoot, locMap, name, text);
      var head := LinkHead(siteRoot, locMap, name);
      && StartsWith(r, head)
      && EndsWith(r, ">" + text + "</a>")
      && |r| > |head|
      && (r[|head|] == '>' <==> text == name)
  {
    var r := LinkifyCore(siteRoot, locMap, name, text);
    var head := LinkHead(siteRoot, locMap, name);
    var title := if text != name then " title=\"" + name + "\"" else "";
    assert r == head + (title + ">" + text + "</a>");
    assert r[|head|] == (title + ">" + text + "</a>")[0];
    assert r[|r| - |">" + text + "</a>"|..] == ">" + text + "</a>";
  }

  /** An unknown name shown under another text becomes a span whose title is the name. */
  lemma LinkifyCoreTooltip(siteRoot: string, locMap: LocMap, name: string, text: string)
    requires name !in locMap && text != name
    ensures StartsWith(LinkifyCore(siteRoot, locMap, name, text), "<span title=\"" + name + "\">")
    ensures EndsWith(LinkifyCore(siteRoot, locMap, name, text), text + "</span>")
  {
    var r := LinkifyCore(siteRoot, locMap, name, text);
    assert r == ("<span title=\"" + name + "\">") + (text + "</span>");
  }

  // ---------------------------------------------------------------------------
  // linkify_linked: scanning the marked-up names of a leaf

  const Open: char := '\U{E000}'
  const Mid: char := '\U{E001}'
  const Close: char := '\U{E002}'

  /**
   * One match of the `findall` in `linkify_linked`: a marked name with the text shown
   * for it and the whitespace around that text, a run without U+E000, or a U+E000
   * where neither alternative matches (which `findall` steps over and drops).
   */
  datatype Token = Linked(name: string, lead: string, text: string, trail: string) | Plain(run: string) | Stray

  /** The characters of the input a token stands for. */
  function Raw(t: Token): string {
    match t
    case Linked(n, l, x, tr) => [Open] + n + [Mid] + (l + x + tr) + [Close]
    case Plain(s) => s
    case Stray => [Open]
  }

  function RawAll(ts: seq<Token>): string {
    if ts == [] then "" else Raw(ts[0]) + RawAll(ts[1..])
  }

  /** The index of the first `c` in `s` at or after `k`, or `|s|` when there is none. */
  function IndexFrom(s: string, c: char, k: nat): (i: nat)
    requires k <= |s|
    ensures k <= i <= |s|
    ensures i < |s| ==> s[i] == c
    ensures forall j :: k <= j < i ==> s[j] != c
    decreases |s| - k
  {
    if k == |s| || s[k] == c then k else IndexFrom(s, c, k + 1)
  }

  /**
   * What lies between U+E001 and U+E002, cut as `(\s*)(.*?)(\s*)` cuts it: the leading
   * whitespace as long as it can be, then the text up to the trailing whitespace.
   */
  function CutText(body: string): (r: (string, string, string))
    ensures r.0 + r.1 + r.2 == body
    ensures forall i :: 0 <= i < |r.0| ==> IsPySpace(r.0[i])
    ensures forall i :: 0 <= i < |r.2| ==> IsPySpace(r.2[i])
    ensures r.1 != [] ==> !IsPySpace(r.1[0]) && !IsPySpace(r.1[|r.1| - 1])
    ensures r.1 == PyStrip(body)
  {
    var a := LeadingRun(body, IsPySpace);
    if a == |body| then
      assert body[..a] + [] + [] == body;
      (body, [], [])
    else
      var b := |body| - TrailingRun(body, IsPySpace);
      assert !IsPySpace(body[a]);
      assert body[..a] + body[a..b] + body[b..] == body;
      (body[..a], body[a..b], body[b..])
  }

  /**
   * The first alternative of the pattern at the start of `s`, with the length it
   * consumes: the lazy name runs to the first U+E001 after at least one character,
   * the lazy text to the first U+E002 after it.
   */
  function LinkAt(s: string): (r: Option<(Token, nat)>)
    requires |s| >= 1 && s[0] == Open
    ensures r.Some? ==> r.value.0.Linked? && 3 < r.value.1 <= |s|
  {
    if |s| < 2 then None
    else
      var c := IndexFrom(s, Mid, 2);
      if c == |s| then None
      else
        var e := IndexFrom(s, Close, c + 1);
        if e == |s| then None
        else
          var cut := CutText(s[c + 1..e]);
          Some((Linked(s[1..c], cut.0, cut.1, cut.2), e + 1))
  }

  lemma LinkAtRaw(s: string)
    requires |s| >= 1 && s[0] == Open && LinkAt(s).Some?
    ensures Raw(LinkAt(s).value.0) == s[..LinkAt(s).value.1]
  {
    var c, e := LinkAtFound(s);
    CutFive(s, c, e);
  }

  lemma CutFive<T>(s: seq<T>, c: nat, e: nat)
    requires 1 <= c < e < |s|
    ensures s[..e + 1] == [s[0]] + s[1..c] + [s[c]] + s[c + 1..e] + [s[e]]
  {
  }

  /**
   * The first alternative matches exactly when a U+E001 follows the name's first
   * character and a U+E002 follows that; the matched name is non-empty and holds no
   * U+E001 after its first character, and the text and its whitespace hold no U+E002.
   */
  lemma LinkAtSpec(s: string)
    requires |s| >= 1 && s[0] == Open
    ensures LinkAt(s).Some? <==>
      exists c, e :: 2 <= c < e < |s| && s[c] == Mid && s[e] == Close
    ensures LinkAt(s).Some? ==>
      var t := LinkAt(s).value.0;
      && t.name != [] && Mid !in t.name[1..]
      && Close !in t.lead + t.text + t.trail
  {
    if LinkAt(s).Some? {
      var c, e := LinkAtFound(s);
      var t := LinkAt(s).value.0;
      assert t.name[1..] == s[2..c];
    } else {
      LinkAtNone(s);
    }
  }

  /** Where a match has its U+E001 and U+E002, and what its token holds. */
  lemma LinkAtFound(s: string) returns (c: nat, e: nat)
    requires |s| >= 1 && s[0] == Open && LinkAt(s).Some?
    ensures 2 <= c < e < |s| && s[c] == Mid && s[e] == Close
    ensures forall j :: 2 <= j < c ==> s[j] != Mid
    ensures forall j :: c < j < e ==> s[j] != Close
    ensures var t := LinkAt(s).value.0;
      t.name == s[1..c] && t.lead + t.text + t.trail == s[c + 1..e]
  {
    c := IndexFrom(s, Mid, 2);
    e := IndexFrom(s, Close, c + 1);
  }

  /** Without a match there is no U+E001 followed by a U+E002 after the name's first character. */
  lemma LinkAtNone(s: string)
    requires |s| >= 1 && s[0] == Open && LinkAt(s).None?
    ensures forall c, e :: 2 <= c < e < |s| && s[c] == Mid ==> s[e] != Close
  {
    if |s| >= 2 {
      var c := IndexFrom(s, Mid, 2);
      if c < |s| {
        forall c', e' | 2 <= c' < e' < |s| && s[c'] == Mid
          ensures s[e'] != Close
        {
          assert c <= c';
        }
      }
    }
  }

  /** `re.findall` with the pattern of `linkify_linked`, as tokens. */
  function Tokens(s: string): seq<Token>
    decreases |s|
  {
    if s == [] then []
    else if s[0] == Open then
      match LinkAt(s)
      case Some((t, n)) => [t] + Tokens(s[n..])
      case None => [Stray] + Tokens(s[1..])
    else
      var n := IndexFrom(s, Open, 0);
      [Plain(s[..n])] + Tokens(s[n..])
  }

  /** The tokens account for every character of the leaf, in order. */
  lemma {:induction false} TokensRoundTrip(s: string)
    ensures RawAll(Tokens(s)) == s
    decreases |s|
  {
    if s != [] {
      var n := TokensHead(s);
      var ts := Tokens(s);
      TokensRoundTrip(s[n..]);
      assert RawAll(ts) == Raw(ts[0]) + RawAll(ts[1..]);
      assert s[..n] + s[n..] == s;
    }
  }

  /** The first token of a non-empty leaf stands for its first `n` characters, `n > 0`. */
  lemma TokensHead(s: string) returns (n: nat)
    requires s != []
    ensures 0 < n <= |s|
    ensures Tokens(s) != [] && Raw(Tokens(s)[0]) == s[..n] && Tokens(s)[1..] == Tokens(s[n..])
  {
    if s[0] == Open {
      match LinkAt(s)
      case Some((t, k)) =>
        LinkAtRaw(s);
        n := k;
      case None =>
        n := 1;
    } else {
      n := IndexFrom(s, Open, 0);
    }
  }

  /** What one match contributes to the output: the linked name with its whitespace, the run, or nothing. */
  function Render(siteRoot: string, locMap: LocMap, t: Token): string {
    match t
    case Linked(n, l, x, tr) => l + LinkifyCore(siteRoot, locMap, n, x) + tr
    case Plain(s) => s
    case Stray => ""
  }

  function RenderAll(siteRoot: string, locMap: LocMap, ts: seq<Token>): string {
    if ts == [] then "" else Render(siteRoot, locMap, ts[0]) + RenderAll(siteRoot, locMap, ts[1..])
  }

  /**
   * `linkify_linked(string, loc_map)`. The pattern's `.` stands for any character:
   * the leaves it is applied to have had their newlines replaced already.
   */
  function LinkifyLinked(siteRoot: string, locMap: LocMap, s: string): string {
    RenderAll(siteRoot, locMap, Tokens(s))
  }

  /** A leaf without a U+E000 is a single run and comes back unchanged. */
  lemma LinkifyLinkedNoMarker(siteRoot: string, locMap: LocMap, s: string)
    requires Open !in s
    ensures LinkifyLinked(siteRoot, locMap, s) == s
  {
    if s != [] {
      assert s[0] != Open;
      var n := IndexFrom(s, Open, 0);
      assert n == |s|;
      assert s[..n] == s;
      assert s[n..] == [];
      assert Tokens(s) == [Plain(s)];
      assert RenderAll(siteRoot, locMap, [Plain(s)]) == s + RenderAll(siteRoot, locMap, []);
    }
  }

  // ---------------------------------------------------------------------------
  // linkify_efmt

  /** Why `go` raises: a tag other than 'n' and 'c', or a node without the children its tag reads. */
  datatype EfmtError = UnknownTag(tag: string) | MissingArgument(tag: string)

  const FnOpen := "<span class=\"fn\">"
  const FnClose := "</span>"

  /** A string leaf: newlines become spaces, then the marked names are linked. */
  function Leaf(siteRoot: string, locMap: LocMap, t: string): string {
    LinkifyLinked(siteRoot, locMap, ReplaceChar(t, '\n', ' '))
  }

  /**
   * The inner `go` of `linkify_efmt`. Children are read and rendered left to right,
   * so a 'c' node whose first child fails reports that failure even when its second
   * child is missing.
   */
  function Go(siteRoot: string, locMap: LocMap, f: Efmt): Result<string, EfmtError>
    decreases f
  {
    match f
    case Str(t) => Ok(Leaf(siteRoot, locMap, t))
    case Node(tag, args) =>
      if tag == "n" then
        if |args| < 1 then Err(MissingArgument(tag))
        else
          match Go(siteRoot, locMap, args[0])
          case Err(e) => Err(e)
          case Ok(x) => Ok(FnOpen + x + FnClose)
      else if tag == "c" then
        if |args| < 1 then Err(MissingArgument(tag))
        else
          match Go(siteRoot, locMap, args[0])
          case Err(e) => Err(e)
          case Ok(x) =>
            if |args| < 2 then Err(MissingArgument(tag))
            else
              match Go(siteRoot, locMap, args[1])
              case Err(e) => Err(e)
              case Ok(y) => Ok(x + y)
      else Err(UnknownTag(tag))
  }

  /** `linkify_efmt(f, loc_map)`: the whole expression rendered inside one function-position span. */
  function LinkifyEfmt(siteRoot: string, locMap: LocMap, f: Efmt): Result<string, EfmtError> {
    Go(siteRoot, locMap, Node("n", [f]))
  }

  /** Every node `go` reaches has tag 'n' with a child or tag 'c' with two. */
  predicate WellFormed(f: Efmt)
    decreases f
  {
    match f
    case Str(_) => true
    case Node(tag, args) =>
      || (tag == "n" && |args| >= 1 && WellFormed(args[0]))
      || (tag == "c" && |args| >= 2 && WellFormed(args[0]) && WellFormed(args[1]))
  }

  /** `go` succeeds exactly on well-formed expressions. */
  lemma {:induction false} GoOkIffWellFormed(siteRoot: string, locMap: LocMap, f: Efmt)
    ensures Go(siteRoot, locMap, f).Ok? <==> WellFormed(f)
    decreases f
  {
    match f
    case Str(_) =>
    case Node(tag, args) =>
      if |args| >= 1 {
        GoOkIffWellFormed(siteRoot, locMap, args[0]);
      }
      if |args| >= 2 {
        GoOkIffWellFormed(siteRoot, locMap, args[1]);
      }
  }

  /** The in-order reading of an expression: its leaves, and where function-position spans open and close. */
  datatype Piece = OpenFn | CloseFn | Text(leaf: string)

  function Pieces(f: Efmt): seq<Piece>
    requires WellFormed(f)
    decreases f
  {
    match f
    case Str(t) => [Text(t)]
    case Node(tag, args) =>
      if tag == "n" then [OpenFn] + Pieces(args[0]) + [CloseFn]
      else Pieces(args[0]) + Pieces(args[1])
  }

  function RenderPiece(siteRoot: string, locMap: LocMap, p: Piece): string {
    match p
    case OpenFn => FnOpen
    case CloseFn => FnClose
    case Text(t) => Leaf(siteRoot, locMap, t)
  }

  function RenderPieces(siteRoot: string, locMap: LocMap, ps: seq<Piece>): string {
    if ps == [] then "" else RenderPiece(siteRoot, locMap, ps[0]) + RenderPieces(siteRoot, locMap, ps[1..])
  }

  lemma {:induction false} RenderPiecesAppend(siteRoot: string, locMap: LocMap, a: seq<Piece>, b: seq<Piece>)
    ensures RenderPieces(siteRoot, locMap, a + b) == RenderPieces(siteRoot, locMap, a) + RenderPieces(siteRoot, locMap, b)
  {
    if a != [] {
      assert (a + b)[0] == a[0];
      assert (a + b)[1..] == a[1..] + b;
      RenderPiecesAppend(siteRoot, locMap, a[1..], b);
    } else {
      assert a + b == b;
    }
  }

  /**
   * The renderer is the in-order reading of the tree: each leaf linked in place, with
   * a span opened before and closed after every 'n' node's child.
   */
  lemma {:induction false} GoRendersPieces(siteRoot: string, locMap: LocMap, f: Efmt)
    requires WellFormed(f)
    ensures Go(siteRoot, locMap, f) == Ok(RenderPieces(siteRoot, locMap, Pieces(f)))
    decreases f
  {
    match f
    case Str(t) =>
      assert RenderPiece(siteRoot, locMap, Text(t)) == Leaf(siteRoot, locMap, t);
      assert RenderPieces(siteRoot, locMap, [Text(t)]) == Leaf(siteRoot, locMap, t) + RenderPieces(siteRoot, locMap, []);
      assert Leaf(siteRoot, locMap, t) + "" == Leaf(siteRoot, locMap, t);
    case Node(tag, args) =>
      GoRendersPieces(siteRoot, locMap, args[0]);
      var p0 := Pieces(args[0]);
      if tag == "n" {
        var x := RenderPieces(siteRoot, locMap, p0);
        RenderPiecesAppend(siteRoot, locMap, [OpenFn] + p0, [CloseFn]);
        RenderPiecesAppend(siteRoot, locMap, [OpenFn], p0);
        assert RenderPieces(siteRoot, locMap, [OpenFn]) == FnOpen + RenderPieces(siteRoot, locMap, []) == FnOpen;
        assert RenderPieces(siteRoot, locMap, [CloseFn]) == FnClose + RenderPieces(siteRoot, locMap, []) == FnClose;
        assert Pieces(f) == [OpenFn] + p0 + [CloseFn];
        assert Go(siteRoot, locMap, f) == Ok(FnOpen + x + FnClose);
      } else {
        GoRendersPieces(siteRoot, locMap, args[1]);
        RenderPiecesAppend(siteRoot, locMap, p0, Pieces(args[1]));
      }
  }

  /** Every function-position span the renderer opens it also closes. */
  lemma {:induction false} PiecesBalanced(f: Efmt)
    requires WellFormed(f)
    ensures multiset(Pieces(f))[OpenFn] == multiset(Pieces(f))[CloseFn]
    decreases f
  {
    match f
    case Str(_) =>
    case Node(tag, args) =>
      PiecesBalanced(args[0]);
      if tag != "n" {
        PiecesBalanced(args[1]);
      }
  }

  /**
   * `linkify_efmt` succeeds exactly on well-formed expressions, and then renders the
   * expression's in-order reading inside one outer span.
   */
  lemma LinkifyEfmtShape(siteRoot: string, locMap: LocMap, f: Efmt)
    ensures LinkifyEfmt(siteRoot, locMap, f).Ok? <==> WellFormed(f)
    ensures WellFormed(f) ==>
      LinkifyEfmt(siteRoot, locMap, f) == Ok(FnOpen + RenderPieces(siteRoot, locMap, Pieces(f)) + FnClose)
  {
    GoOkIffWellFormed(siteRoot, locMap, f);
    if WellFormed(f) {
      GoRendersPieces(siteRoot, locMap, f);
    }
  }

  /** A leaf is rendered with its newlines turned into spaces and is otherwise unchanged when it has no U+E000. */
  lemma LeafWithoutMarker(siteRoot: string, locMap: LocMap, t: string)
    requires Open !in t
    ensures Leaf(siteRoot, locMap, t) == ReplaceChar(t, '\n', ' ')
  {
    var u := ReplaceChar(t, '\n', ' ');
    assert Open !in u by {
      forall i | 0 <= i < |u| ensures u[i] != Open {
        assert t[i] != Open;
      }
    }
    LinkifyLinkedNoMarker(siteRoot, locMap, u);
  }

  // ---------------------------------------------------------------------------
  // linkify_markdown

  /** The separators of `linkify_type`'s split: whitespace and the six brackets. */
  predicate IsTypeSep(c: char) {
    IsPySpace(c) || c == '[' || c == ']' || c == '(' || c == ')' || c == '{' || c == '}'
  }

  /** The index of the first separator at or after `k`, or `|s|`. */
  function SepFrom(s: string, k: nat): (i: nat)
    requires k <= |s|
    ensures k <= i <= |s|
    ensures i < |s| ==> IsTypeSep(s[i])
    ensures forall j :: k <= j < i ==> !IsTypeSep(s[j])
    decreases |s| - k
  {
    if k == |s| || IsTypeSep(s[k]) then k else SepFrom(s, k + 1)
  }

  /** `re.split` on one separator character with the separator kept: pieces and separators alternate. */
  function SplitKeep(s: string): (r: seq<string>)
    ensures |r| % 2 == 1
    decreases |s|
  {
    var i := SepFrom(s, 0);
    if i == |s| then [s] else [s[..i], [s[i]]] + SplitKeep(s[i + 1..])
  }

  function Concat(ps: seq<string>): string {
    if ps == [] then "" else ps[0] + Concat(ps[1..])
  }

  /** The pieces and separators of the split, put back together, are the string. */
  lemma {:induction false} SplitKeepRoundTrip(s: string)
    ensures Concat(SplitKeep(s)) == s
    decreases |s|
  {
    var i := SepFrom(s, 0);
    if i == |s| {
      assert Concat([s]) == s + Concat([]);
    } else {
      var rest := SplitKeep(s[i + 1..]);
      SplitKeepRoundTrip(s[i + 1..]);
      ConcatPair(s[..i], [s[i]], rest);
      SplitAround(s, i);
    }
  }

  lemma SplitAround<T>(s: seq<T>, i: nat)
    requires i < |s|
    ensures s[..i] + [s[i]] + s[i + 1..] == s
  {
  }

  lemma ConcatPair(a: string, b: string, rest: seq<string>)
    ensures Concat([a, b] + rest) == a + b + Concat(rest)
  {
    assert ([a, b] + rest)[1..] == [b] + rest;
    assert ([b] + rest)[1..] == rest;
  }

  /** Every piece and every separator of the split is a contiguous piece of the string. */
  lemma {:induction false} SplitKeepInfixes(s: string)
    ensures forall p :: p in SplitKeep(s) ==> IsInfix(p, s)
    decreases |s|
  {
    var i := SepFrom(s, 0);
    if i == |s| {
      assert s[0..|s|] == s;
      InfixAt(s, s, 0);
    } else {
      var tail := s[i + 1..];
      SplitKeepInfixes(tail);
      assert s[0..i] == s[..i];
      InfixAt(s[..i], s, 0);
      assert s[i..i + 1] == [s[i]];
      InfixAt([s[i]], s, i);
      assert s[i + 1..i + 1 + |tail|] == tail;
      InfixAt(tail, s, i + 1);
      forall p | p in SplitKeep(tail) ensures IsInfix(p, s) {
        InfixTransitive(p, tail, s);
      }
    }
  }

  /** Every piece and separator looked up as a name and shown as itself. */
  function LinkifyTokens(siteRoot: string, locMap: LocMap, ps: seq<string>): string {
    if ps == [] then "" else LinkifyCore(siteRoot, locMap, ps[0], ps[0]) + LinkifyTokens(siteRoot, locMap, ps[1..])
  }

  /** `linkify_type` inside `linkify_markdown`. */
  function LinkifyType(siteRoot: string, locMap: LocMap, s: string): string {
    LinkifyTokens(siteRoot, locMap, SplitKeep(s))
  }

  /** Linking never shortens, and keeps the length exactly when no token is a known name. */
  lemma {:induction false} LinkifyTokensLength(siteRoot: string, locMap: LocMap, ps: seq<string>)
    ensures |LinkifyTokens(siteRoot, locMap, ps)| >= |Concat(ps)|
    ensures |LinkifyTokens(siteRoot, locMap, ps)| == |Concat(ps)| <==> forall i :: 0 <= i < |ps| ==> ps[i] !in locMap
  {
    if ps != [] {
      LinkifyTokensLength(siteRoot, locMap, ps[1..]);
      assert forall i :: 1 <= i < |ps| ==> ps[i] == ps[1..][i - 1];
    }
  }

  lemma {:induction false} LinkifyTokensUnlinked(siteRoot: string, locMap: LocMap, ps: seq<string>)
    requires forall i :: 0 <= i < |ps| ==> ps[i] !in locMap
    ensures LinkifyTokens(siteRoot, locMap, ps) == Concat(ps)
  {
    if ps != [] {
      LinkifyCoreIdentity(siteRoot, locMap, ps[0], ps[0]);
      LinkifyTokensUnlinked(siteRoot, locMap, ps[1..]);
    }
  }

  /** A code body comes back unchanged exactly when none of its tokens is a known name. */
  lemma LinkifyTypeIdentity(siteRoot: string, locMap: LocMap, s: string)
    ensures LinkifyType(siteRoot, locMap, s) == s <==>
      forall i :: 0 <= i < |SplitKeep(s)| ==> SplitKeep(s)[i] !in locMap
  {
    var ps := SplitKeep(s);
    SplitKeepRoundTrip(s);
    LinkifyTokensLength(siteRoot, locMap, ps);
    if forall i :: 0 <= i < |ps| ==> ps[i] !in locMap {
      LinkifyTokensUnlinked(siteRoot, locMap, ps);
    }
  }

  /**
   * A match of `open([^<]+)close` at the start of `s`, as the length of its body: the
   * body is the longest run without `<` after `open`, and `close` must follow it.
   */
  function TagAt(s: string, open: string, close: string): (r: Option<nat>)
    ensures r.Some? ==> r.value >= 1 && |open| + r.value + |close| <= |s|
  {
    if !StartsWith(s, open) then None
    else
      var rest := s[|open|..];
      var b := IndexFrom(rest, '<', 0);
      if b >= 1 && StartsWith(rest[b..], close) then Some(b) else None
  }

  /** `re.sub(open([^<]+)close, ...)`: every matched body rewritten by `f`, scanning left to right. */
  function SubTagged(s: string, open: string, close: string, f: string -> string): string
    decreases |s|
  {
    if s == [] then ""
    else
      var t := TagAt(s, open, close);
      if t.Some? then
        open + f(s[|open|..|open| + t.value]) + close + SubTagged(s[|open| + t.value + |close|..], open, close, f)
      else [s[0]] + SubTagged(s[1..], open, close, f)
  }

  /** The replacement function of both substitutions. */
  function Relink(siteRoot: string, locMap: LocMap): string -> string {
    body => LinkifyType(siteRoot, locMap, body)
  }

  /** `linkify_markdown(string, loc_map)`: the `<code>` bodies, then the `<span class="n">` bodies. */
  function LinkifyMarkdown(siteRoot: string, locMap: LocMap, s: string): string {
    var codes := SubTagged(s, "<code>", "</code>", Relink(siteRoot, locMap));
    SubTagged(codes, "<span class=\"n\">", "</span>", Relink(siteRoot, locMap))
  }

  /**
   * `f` leaves alone every body that `re.sub(open([^<]+)close, ...)` hands it, following the
   * substitution's own scan: on past a match, or one character on where none starts.
   */
  predicate BodiesFixed(s: string, open: string, close: string, f: string -> string)
    decreases |s|
  {
    if s == [] then true
    else
      var t := TagAt(s, open, close);
      if t.Some? then
        f(s[|open|..|open| + t.value]) == s[|open|..|open| + t.value]
        && BodiesFixed(s[|open| + t.value + |close|..], open, close, f)
      else BodiesFixed(s[1..], open, close, f)
  }

  /** At a match, the substitution and `BodiesFixed` both move on past the match. */
  lemma SubTaggedMatch(s: string, open: string, close: string, f: string -> string)
    requires TagAt(s, open, close).Some?
    ensures var b := TagAt(s, open, close).value;
      var body, rest := s[|open|..|open| + b], s[|open| + b + |close|..];
      && s == open + body + close + rest
      && SubTagged(s, open, close, f) == open + f(body) + close + SubTagged(rest, open, close, f)
      && (BodiesFixed(s, open, close, f) <==> f(body) == body && BodiesFixed(rest, open, close, f))
  {
    TagAtCuts(s, open, close);
  }

  /** Where no match starts, the substitution and `BodiesFixed` both move on one character. */
  lemma SubTaggedSkip(s: string, open: string, close: string, f: string -> string)
    requires s != [] && TagAt(s, open, close).None?
    ensures s == [s[0]] + s[1..]
    ensures SubTagged(s, open, close, f) == [s[0]] + SubTagged(s[1..], open, close, f)
    ensures BodiesFixed(s, open, close, f) <==> BodiesFixed(s[1..], open, close, f)
  {
  }

  /** A substitution whose replacement leaves every matched body alone leaves the text alone. */
  lemma {:induction false} SubTaggedIdentity(s: string, open: string, close: string, f: string -> string)
    requires BodiesFixed(s, open, close, f)
    ensures SubTagged(s, open, close, f) == s
    decreases |s|
  {
    if s != [] {
      if TagAt(s, open, close).Some? {
        var b := TagAt(s, open, close).value;
        SubTaggedMatch(s, open, close, f);
        SubTaggedIdentity(s[|open| + b + |close|..], open, close, f);
      } else {
        SubTaggedSkip(s, open, close, f);
        SubTaggedIdentity(s[1..], open, close, f);
      }
    }
  }

  /** `f` either gives its argument back or lengthens it. */
  ghost predicate GrowsOrFixes(f: string -> string) {
    forall x :: f(x) == x || |f(x)| > |x|
  }

  /**
   * With such a replacement the substitution never shortens the text, and it lengthens the
   * text as soon as one matched body is changed.
   */
  lemma {:induction false} SubTaggedGrows(s: string, open: string, close: string, f: string -> string)
    requires GrowsOrFixes(f)
    ensures |SubTagged(s, open, close, f)| >= |s|
    ensures !BodiesFixed(s, open, close, f) ==> |SubTagged(s, open, close, f)| > |s|
    decreases |s|
  {
    if s != [] {
      if TagAt(s, open, close).Some? {
        var b := TagAt(s, open, close).value;
        SubTaggedMatch(s, open, close, f);
        SubTaggedGrows(s[|open| + b + |close|..], open, close, f);
        var body := s[|open|..|open| + b];
        assert f(body) == body || |f(body)| > |body|;
      } else {
        SubTaggedSkip(s, open, close, f);
        SubTaggedGrows(s[1..], open, close, f);
      }
    }
  }

  /** Relinking a body changes it only by making it longer. */
  lemma RelinkGrowsOrFixes(siteRoot: string, locMap: LocMap)
    ensures GrowsOrFixes(Relink(siteRoot, locMap))
  {
    var f := Relink(siteRoot, locMap);
    forall x ensures f(x) == x || |f(x)| > |x| {
      LinkifyTypeIdentity(siteRoot, locMap, x);
      SplitKeepRoundTrip(x);
      LinkifyTokensLength(siteRoot, locMap, SplitKeep(x));
    }
  }

  /** A match is the opening tag, the body and the closing tag, in place. */
  lemma TagAtCuts(s: string, open: string, close: string)
    requires TagAt(s, open, close).Some?
    ensures var b := TagAt(s, open, close).value;
      s == open + s[|open|..|open| + b] + close + s[|open| + b + |close|..]
  {
    var b := TagAt(s, open, close).value;
    var m := |open| + b + |close|;
    assert s[..|open|] == open;
    assert s[|open| + b..m] == close by {
      assert s[|open|..][b..][..|close|] == close;
    }
    assert s == s[..|open|] + s[|open|..|open| + b] + s[|open| + b..m] + s[m..];
  }

  /**
   * `linkify_markdown` returns the text unchanged exactly when every `<code>` body and every
   * `<span class="n">` body its two substitutions meet is relinked to itself, which by
   * `LinkifyTypeIdentity` means that none of that body's tokens is a known name.
   */
  lemma LinkifyMarkdownIdentity(siteRoot: string, locMap: LocMap, s: string)
    ensures LinkifyMarkdown(siteRoot, locMap, s) == s <==>
      BodiesFixed(s, "<code>", "</code>", Relink(siteRoot, locMap))
      && BodiesFixed(s, "<span class=\"n\">", "</span>", Relink(siteRoot, locMap))
  {
    var f := Relink(siteRoot, locMap);
    var codes := SubTagged(s, "<code>", "</code>", f);
    RelinkGrowsOrFixes(siteRoot, locMap);
    SubTaggedGrows(s, "<code>", "</code>", f);
    SubTaggedGrows(codes, "<span class=\"n\">", "</span>", f);
    if BodiesFixed(s, "<code>", "</code>", f) {
      SubTaggedIdentity(s, "<code>", "</code>", f);
      if BodiesFixed(s, "<span class=\"n\">", "</span>", f) {
        SubTaggedIdentity(s, "<span class=\"n\">", "</span>", f);
      }
    }
  }
}
