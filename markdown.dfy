/**
 * The custom pieces of the Markdown renderer (mistletoe_renderer.py): GitHub-style
 * heading anchors, library note links `Note [...]`, and math passed through for
 * MathJax.
 */
module Markdown {
  import opened Wrappers
  import opened Strings

  // ---------------------------------------------------------------------------
  // Heading anchors

  /** A word character of `\w`, restricted to ASCII. */
  predicate IsWordChar(c: char) {
    ('a' <= c <= 'z') || ('A' <= c <= 'Z') || ('0' <= c <= '9') || c == '_'
  }

  /** The characters `[^\w\- ]+` does not remove. */
  predicate IsAnchorChar(c: char) {
    IsWordChar(c) || c == '-' || c == ' '
  }

  /** `re.sub(r'[^\w\- ]+', '', s)`: every other character is deleted, the rest keep their order. */
  function KeepAnchorChars(s: string): (r: string)
    ensures |r| <= |s|
    ensures forall c :: c in r <==> c in s && IsAnchorChar(c)
  {
    if s == [] then []
    else
      assert forall c :: c in s <==> c == s[0] || c in s[1..];
      (if IsAnchorChar(s[0]) then [s[0]] else []) + KeepAnchorChars(s[1..])
  }

  /** The anchor made from already stripped and lower-cased text. */
  function AnchorOf(lowered: string): string {
    ReplaceChar(KeepAnchorChars(lowered), ' ', '-')
  }

  /** The anchor `render_heading` derives from a heading's rendered inner text. */
  function HeadingAnchor(inner: string): string {
    AnchorOf(LowerAscii(PyStrip(inner)))
  }

  lemma AnchorOfChars(lowered: string)
    requires forall i :: 0 <= i < |lowered| ==> !IsAsciiUpper(lowered[i])
    ensures var a := AnchorOf(lowered);
      && ' ' !in a
      && |a| <= |lowered|
      && (forall c :: c in a ==> (IsWordChar(c) && !IsAsciiUpper(c)) || c == '-')
      && (forall c :: IsWordChar(c) ==> (c in a <==> c in lowered))
      && ('-' in a <==> '-' in lowered || ' ' in lowered)
      && var kept := KeepAnchorChars(lowered);
        && |a| == |kept|
        && (forall i :: 0 <= i < |a| ==> (a[i] == '-' <==> kept[i] == '-' || kept[i] == ' '))
        && (forall i :: 0 <= i < |a| && a[i] != '-' ==> a[i] == kept[i])
  {
    var kept := KeepAnchorChars(lowered);
    var a := AnchorOf(lowered);
    forall c | c in a ensures c != ' ' && ((IsWordChar(c) && !IsAsciiUpper(c)) || c == '-') {
      var i :| 0 <= i < |a| && a[i] == c;
      assert kept[i] in kept;
      var j :| 0 <= j < |lowered| && lowered[j] == kept[i];
    }
    forall c | IsWordChar(c) && c in lowered ensures c in a {
      var i :| 0 <= i < |kept| && kept[i] == c;
      assert a[i] == c;
    }
    forall c | IsWordChar(c) && c in a ensures c in lowered {
      var i :| 0 <= i < |a| && a[i] == c;
      assert kept[i] == c;
    }
    if '-' in lowered || ' ' in lowered {
      var d := if '-' in lowered then '-' else ' ';
      assert d in kept;
      var i :| 0 <= i < |kept| && kept[i] == d;
      assert a[i] == '-';
    }
    if '-' in a {
      var i :| 0 <= i < |a| && a[i] == '-';
      assert kept[i] in kept;
    }
    AnchorPositions(lowered);
  }

  /**
   * Position by position against the kept characters, the anchor has a `-` exactly
   * where they have a `-` or a space, and their character everywhere else.
   */
  lemma AnchorPositions(lowered: string)
    ensures var a := AnchorOf(lowered);
      var kept := KeepAnchorChars(lowered);
      && |a| == |kept|
      && (forall i :: 0 <= i < |a| ==> (a[i] == '-' <==> kept[i] == '-' || kept[i] == ' '))
      && (forall i :: 0 <= i < |a| && a[i] != '-' ==> a[i] == kept[i])
  {
  }

  lemma LowerHasNoUpper(s: string)
    ensures forall i :: 0 <= i < |s| ==> !IsAsciiUpper(LowerAscii(s)[i])
  {
  }

  /** Word characters and `-` are not white space. */
  lemma AnchorHasNoSpace(a: string)
    requires forall c :: c in a ==> (IsWordChar(c) && !IsAsciiUpper(c)) || c == '-'
    ensures forall i :: 0 <= i < |a| ==> !IsPySpace(a[i])
  {
    forall i | 0 <= i < |a| ensures !IsPySpace(a[i]) {
      assert a[i] in a;
    }
  }

  lemma StripShortens(s: string)
    ensures |PyStrip(s)| <= |s|
  {
    var i :| OccursAt(PyStrip(s), s, i);
  }

  /**
   * An anchor holds no space and no upper-case letter, only word characters and
   * `-`; it keeps exactly the word characters of the stripped, lower-cased text;
   * and, position by position against the characters of that text that `[\w\- ]`
   * keeps, it has a `-` exactly where they have a `-` or a space and their
   * character everywhere else.
   */
  lemma HeadingAnchorChars(inner: string)
    ensures var a := HeadingAnchor(inner);
      var lowered := LowerAscii(PyStrip(inner));
      && ' ' !in a
      && |a| <= |inner|
      && (forall c :: c in a ==> (IsWordChar(c) && !IsAsciiUpper(c)) || c == '-')
      && (forall c :: IsWordChar(c) ==> (c in a <==> c in lowered))
      && ('-' in a <==> '-' in lowered || ' ' in lowered)
      && var kept := KeepAnchorChars(lowered);
        && |a| == |kept|
        && (forall i :: 0 <= i < |a| ==> (a[i] == '-' <==> kept[i] == '-' || kept[i] == ' '))
        && (forall i :: 0 <= i < |a| && a[i] != '-' ==> a[i] == kept[i])
  {
    LowerHasNoUpper(PyStrip(inner));
    AnchorOfChars(LowerAscii(PyStrip(inner)));
    StripShortens(inner);
  }

  lemma {:induction false} KeepAllAnchorChars(s: string)
    requires forall i :: 0 <= i < |s| ==> IsAnchorChar(s[i])
    ensures KeepAnchorChars(s) == s
  {
    if s != [] {
      KeepAllAnchorChars(s[1..]);
    }
  }

  /** An anchor is its own anchor. */
  lemma AnchorFixed(a: string)
    requires forall c :: c in a ==> (IsWordChar(c) && !IsAsciiUpper(c)) || c == '-'
    ensures AnchorOf(LowerAscii(a)) == a
  {
    assert forall i :: 0 <= i < |a| ==> a[i] in a;
    assert LowerAscii(a) == a;
    KeepAllAnchorChars(a);
  }

  /** The anchor of an anchor is the anchor itself: a link to a heading can be recomputed from its own id. */
  lemma HeadingAnchorIdempotent(inner: string)
    ensures HeadingAnchor(HeadingAnchor(inner)) == HeadingAnchor(inner)
  {
    var a := HeadingAnchor(inner);
    HeadingAnchorChars(inner);
    AnchorHasNoSpace(a);
    StripUnchanged(a, IsPySpace);
    AnchorFixed(a);
  }

  /** The tag name `h<level>`. */
  function HeadingTag(level: nat): string {
    "h" + Decimal(level)
  }

  // The fixed pieces of the heading template.
  const IdOpen: string := " id=\""
  const ClassClose: string := "\" class=\"markdown-heading\">"
  const HoverOpen: string := " <a class=\"hover-link\" href=\"#"
  const HoverClose: string := "\">#</a></"

  /** The opening tag up to the end of the id's value. */
  function HeadingHead(level: nat, anchor: string): string {
    "<" + HeadingTag(level) + IdOpen + anchor
  }

  /** The hover link to the anchor and the closing tag. */
  function HeadingTail(level: nat, anchor: string): string {
    HoverOpen + anchor + HoverClose + HeadingTag(level) + ">"
  }

  /** The heading element for a given anchor. */
  function HeadingHtml(level: nat, inner: string, anchor: string): string {
    HeadingHead(level, anchor) + ClassClose + inner + HeadingTail(level, anchor)
  }

  /**
   * `render_heading`: the heading element of the token's level, with the anchor as
   * its id and a hover link to that same anchor after the inner text.
   */
  function RenderHeading(level: nat, inner: string): string {
    HeadingHtml(level, inner, HeadingAnchor(inner))
  }

  lemma Pieces(a: string, b: string, c: string, d: string)
    ensures StartsWith(a + b + c + d, a)
    ensures EndsWith(a + b + c + d, d)
    ensures IsInfix(c, a + b + c + d)
  {
    var r := a + b + c + d;
    assert r[..|a|] == a;
    assert r[|r| - |d|..] == d;
    assert r[|a + b|..|a + b| + |c|] == c;
    InfixAt(c, r, |a + b|);
  }

  lemma HeadingHtmlSpec(level: nat, inner: string, anchor: string)
    ensures var r := HeadingHtml(level, inner, anchor);
      && StartsWith(r, HeadingHead(level, anchor))
      && EndsWith(r, HeadingTail(level, anchor))
      && IsInfix(inner, r)
  {
    Pieces(HeadingHead(level, anchor), ClassClose, inner, HeadingTail(level, anchor));
  }

  /**
   * The element opens and closes with the token's level, names the anchor as its id
   * and links to the same anchor, and shows the inner text unchanged.
   */
  lemma RenderHeadingSpec(level: nat, inner: string)
    ensures var r := RenderHeading(level, inner);
      var anchor := HeadingAnchor(inner);
      && StartsWith(r, "<" + HeadingTag(level) + IdOpen + anchor)
      && EndsWith(r, HoverOpen + anchor + HoverClose + HeadingTag(level) + ">")
      && IsInfix(inner, r)
      && ParseDecimal(HeadingTag(level)[1..]) == level
  {
    HeadingHtmlSpec(level, inner, HeadingAnchor(inner));
    assert HeadingTag(level)[1..] == Decimal(level);
    DecimalRoundTrip(level);
  }

  // ---------------------------------------------------------------------------
  // Library note links: `Note \[(.*)\]` matched ignoring case

  /** The literal part of the pattern, in lower case. */
  const NotePrefix: string := "note ["

  /** `s` from `i` on starts with the lower-case `p`, ignoring the case of `s`. */
  predicate FoldsAt(s: string, i: nat, p: string)
    decreases |p|
  {
    p == [] || (i < |s| && AsciiLower(s[i]) == p[0] && FoldsAt(s, i + 1, p[1..]))
  }

  lemma {:induction false} FoldsAtSpec(s: string, i: nat, p: string)
    requires i + |p| <= |s|
    ensures FoldsAt(s, i, p) <==> forall t :: 0 <= t < |p| ==> AsciiLower(s[i + t]) == p[t]
    decreases |p|
  {
    if p != [] {
      FoldsAtSpec(s, i + 1, p[1..]);
      if forall t :: 0 <= t < |p| ==> AsciiLower(s[i + t]) == p[t] {
        forall t | 0 <= t < |p| - 1 ensures AsciiLower(s[i + 1 + t]) == p[1..][t] {
          assert AsciiLower(s[i + (t + 1)]) == p[t + 1];
        }
      }
    }
  }

  /** The pattern's literal `Note [` matches at `i`, ignoring case. */
  predicate PrefixAt(s: string, i: nat) {
    i + |NotePrefix| <= |s| && FoldsAt(s, i, NotePrefix)
  }

  /** The index of the first line feed at or after `k`, or `|s|`: how far `.` can reach. */
  function LineEnd(s: string, k: nat): (e: nat)
    requires k <= |s|
    ensures k <= e <= |s|
    ensures e < |s| ==> s[e] == '\n'
    ensures forall j :: k <= j < e ==> s[j] != '\n'
    decreases |s| - k
  {
    if k == |s| || s[k] == '\n' then k else LineEnd(s, k + 1)
  }

  /** The last `]` in `s[lo..hi]`. */
  function LastClose(s: string, lo: nat, hi: nat): (r: Option<nat>)
    requires lo <= hi <= |s|
    ensures r.Some? ==> (lo <= r.value < hi && s[r.value] == ']' && forall j :: r.value < j < hi ==> s[j] != ']')
    ensures r.None? ==> forall j :: lo <= j < hi ==> s[j] != ']'
    decreases hi - lo
  {
    if hi == lo then None
    else if s[hi - 1] == ']' then Some(hi - 1)
    else LastClose(s, lo, hi - 1)
  }

  /**
   * Where a match starting at `i` ends: the greedy `.*` runs to the end of the
   * line and backs off to the last `]` on it.
   */
  function MatchAt(s: string, i: nat): Option<nat> {
    if !PrefixAt(s, i) then None else CloseOnLine(s, i + |NotePrefix|)
  }

  /** The last `]` between `lo` and the end of its line. */
  function CloseOnLine(s: string, lo: nat): Option<nat>
    requires lo <= |s|
  {
    LastClose(s, lo, LineEnd(s, lo))
  }

  /** A match needs the prefix and a `]` later on the same line. */
  lemma MatchAtIff(s: string, i: nat)
    ensures MatchAt(s, i).Some? <==>
      (PrefixAt(s, i) && exists j :: i + |NotePrefix| <= j < LineEnd(s, i + |NotePrefix|) && s[j] == ']')
  {
  }

  /** The first position at or after `k` where a match starts. */
  function SearchFrom(s: string, k: nat): (r: Option<nat>)
    requires k <= |s|
    ensures r.Some? ==> k <= r.value < |s| && MatchAt(s, r.value).Some?
    decreases |s| - k
  {
    if MatchAt(s, k).Some? then Some(k)
    else if k == |s| then None
    else SearchFrom(s, k + 1)
  }

  /** The search skips no match. */
  lemma {:induction false} SearchFromFirst(s: string, k: nat)
    requires k <= |s|
    ensures forall i :: k <= i < (if SearchFrom(s, k).Some? then SearchFrom(s, k).value else |s| + 1) ==> MatchAt(s, i).None?
    decreases |s| - k
  {
    if MatchAt(s, k).None? && k < |s| {
      SearchFromFirst(s, k + 1);
    }
  }

  /** The fields of a `NoteLink` token: where it starts, `group(0)` and `group(1)`. */
  datatype NoteMatch = NoteMatch(start: nat, body: string, note: string)

  /** The first `Note [...]` link of `s`, as the pattern's search finds it. */
  function FindNoteLink(s: string): Option<NoteMatch> {
    var i := SearchFrom(s, 0);
    if i.None? then None
    else
      Some(MatchFields(s, i.value, MatchAt(s, i.value).value))
  }

  /** The token fields of the match from `k` to the `]` at `j`. */
  function MatchFields(s: string, k: nat, j: nat): NoteMatch
    requires k + |NotePrefix| <= j < |s|
  {
    NoteMatch(k, s[k..j + 1], s[k + |NotePrefix|..j])
  }

  /** Starting the line scan inside the line finds the same line end. */
  lemma {:induction false} LineEndFrom(s: string, k: nat, j: nat)
    requires k <= |s| && k <= j <= LineEnd(s, k)
    ensures LineEnd(s, j) == LineEnd(s, k)
    decreases j - k
  {
    if j > k {
      LineEndFrom(s, k + 1, j);
    }
  }

  lemma SubSlice<T>(s: seq<T>, lo: nat, hi: nat, a: nat, b: nat)
    requires lo <= hi <= |s| && a <= b <= hi - lo
    ensures s[lo..hi][a..b] == s[lo + a..lo + b]
  {
    forall i | 0 <= i < b - a ensures s[lo..hi][a..b][i] == s[lo + a..lo + b][i] {
    }
  }

  lemma NotInSlice<T>(s: seq<T>, lo: nat, hi: nat, c: T)
    requires lo <= hi <= |s| && forall i :: lo <= i < hi ==> s[i] != c
    ensures c !in s[lo..hi]
  {
  }

  /**
   * `m` is a note link of `s`: a piece of the text made of `Note [` in any case,
   * the note (which stays on one line), and `]`, with no `]` after it on that line.
   */
  predicate NoteLinkShape(s: string, m: NoteMatch) {
    var end := m.start + |m.body|;
    && OccursAt(m.body, s, m.start)
    && |m.body| == |NotePrefix| + |m.note| + 1
    && (forall t :: 0 <= t < |NotePrefix| ==> AsciiLower(m.body[t]) == NotePrefix[t])
    && m.body[|NotePrefix|..|m.body| - 1] == m.note
    && m.body[|m.body| - 1] == ']'
    && '\n' !in m.note
    && (forall q :: end <= q < LineEnd(s, end) ==> s[q] != ']')
  }

  /** The shape of the match that starts at `k`. */
  lemma MatchShape(s: string, k: nat, j: nat)
    requires MatchAt(s, k) == Some(j)
    ensures NoteLinkShape(s, MatchFields(s, k, j))
  {
    var lo := MatchAtFacts(s, k, j);
    var m := MatchFields(s, k, j);
    MatchBodyShape(s, k, j);
    NotInSlice(s, lo, j, '\n');
    LineEndFrom(s, lo, j + 1);
  }

  /** What a match from `k` to `j` says about the text, with `lo` the end of the prefix. */
  lemma MatchAtFacts(s: string, k: nat, j: nat) returns (lo: nat)
    requires MatchAt(s, k) == Some(j)
    ensures lo == k + |NotePrefix| && lo <= j < LineEnd(s, lo) && s[j] == ']'
    ensures forall q :: j < q < LineEnd(s, lo) ==> s[q] != ']'
    ensures forall t :: 0 <= t < |NotePrefix| ==> AsciiLower(s[k + t]) == NotePrefix[t]
  {
    lo := k + |NotePrefix|;
    FoldsAtSpec(s, k, NotePrefix);
  }

  lemma MatchBodyShape(s: string, k: nat, j: nat)
    requires k + |NotePrefix| <= j < |s| && s[j] == ']'
    requires forall t :: 0 <= t < |NotePrefix| ==> AsciiLower(s[k + t]) == NotePrefix[t]
    ensures var m := MatchFields(s, k, j);
      && OccursAt(m.body, s, m.start)
      && |m.body| == |NotePrefix| + |m.note| + 1
      && (forall t :: 0 <= t < |NotePrefix| ==> AsciiLower(m.body[t]) == NotePrefix[t])
      && m.body[|NotePrefix|..|m.body| - 1] == m.note
      && m.body[|m.body| - 1] == ']'
  {
    var m := MatchFields(s, k, j);
    forall t | 0 <= t < |NotePrefix| ensures AsciiLower(m.body[t]) == NotePrefix[t] {
      assert m.body[t] == s[k + t];
    }
    SubSlice(s, k, j + 1, |NotePrefix|, j - k);
  }

  /**
   * A found link has the shape of a note link and no link starts earlier.
   * Nothing is found exactly when no position starts a match.
   */
  lemma FindNoteLinkSpec(s: string)
    ensures FindNoteLink(s).None? <==> forall i :: 0 <= i <= |s| ==> MatchAt(s, i).None?
    ensures FindNoteLink(s).Some? ==>
      var m := FindNoteLink(s).value;
      && NoteLinkShape(s, m)
      && (forall i :: 0 <= i < m.start ==> MatchAt(s, i).None?)
  {
    var i := SearchFrom(s, 0);
    SearchFromFirst(s, 0);
    if i.Some? {
      MatchShape(s, i.value, MatchAt(s, i.value).value);
    }
  }

  /** `s` and `t` differ at most in the case of ASCII letters. */
  predicate SameUpToCase(s: string, t: string) {
    |s| == |t| && (s == [] || (AsciiLower(s[0]) == AsciiLower(t[0]) && SameUpToCase(s[1..], t[1..])))
  }

  lemma {:induction false} SameUpToCaseAt(s: string, t: string, k: nat)
    requires SameUpToCase(s, t) && k < |s|
    ensures AsciiLower(s[k]) == AsciiLower(t[k])
  {
    if k > 0 {
      SameUpToCaseAt(s[1..], t[1..], k - 1);
    }
  }

  /** A text and its lower-cased copy differ only in case. */
  lemma {:induction false} LowerIsSameUpToCase(s: string)
    ensures SameUpToCase(s, LowerAscii(s))
  {
    if s != [] {
      LowerIsSameUpToCase(s[1..]);
      assert LowerAscii(s)[1..] == LowerAscii(s[1..]);
    }
  }

  /** Characters that agree up to case are both line feeds or neither, and both `]` or neither. */
  lemma SameUpToCaseKeepsMarks(c: char, d: char)
    requires AsciiLower(c) == AsciiLower(d)
    ensures (c == '\n') == (d == '\n') && (c == ']') == (d == ']')
  {
  }

  lemma {:induction false} FoldsAtUpToCase(s: string, t: string, i: nat, p: string)
    requires SameUpToCase(s, t)
    ensures FoldsAt(s, i, p) == FoldsAt(t, i, p)
    decreases |p|
  {
    if p != [] && i < |s| {
      SameUpToCaseAt(s, t, i);
      FoldsAtUpToCase(s, t, i + 1, p[1..]);
    }
  }

  lemma {:induction false} LineEndUpToCase(s: string, t: string, k: nat)
    requires SameUpToCase(s, t) && k <= |s|
    ensures LineEnd(s, k) == LineEnd(t, k)
    decreases |s| - k
  {
    if k < |s| {
      SameUpToCaseAt(s, t, k);
      SameUpToCaseKeepsMarks(s[k], t[k]);
      if s[k] != '\n' {
        LineEndUpToCase(s, t, k + 1);
      }
    }
  }

  lemma {:induction false} LastCloseUpToCase(s: string, t: string, lo: nat, hi: nat)
    requires SameUpToCase(s, t) && lo <= hi <= |s|
    ensures LastClose(s, lo, hi) == LastClose(t, lo, hi)
    decreases hi - lo
  {
    if hi > lo {
      SameUpToCaseAt(s, t, hi - 1);
      SameUpToCaseKeepsMarks(s[hi - 1], t[hi - 1]);
      if s[hi - 1] != ']' {
        LastCloseUpToCase(s, t, lo, hi - 1);
      }
    }
  }

  /**
   * The pattern ignores case: two texts that differ only in the case of letters
   * have matches at the same places, with the same extent.
   */
  lemma MatchAtUpToCase(s: string, t: string, i: nat)
    requires SameUpToCase(s, t)
    ensures MatchAt(s, i) == MatchAt(t, i)
  {
    FoldsAtUpToCase(s, t, i, NotePrefix);
    if i + |NotePrefix| <= |s| {
      CloseOnLineUpToCase(s, t, i + |NotePrefix|);
    }
    MatchAtAgrees(s, t, i);
  }

  lemma CloseOnLineUpToCase(s: string, t: string, lo: nat)
    requires SameUpToCase(s, t) && lo <= |s|
    ensures CloseOnLine(s, lo) == CloseOnLine(t, lo)
  {
    LineEndUpToCase(s, t, lo);
    LastCloseUpToCase(s, t, lo, LineEnd(s, lo));
  }

  /** Two texts of one length with the same prefix test and the same closing bracket at `i` match alike there. */
  lemma MatchAtAgrees(s: string, t: string, i: nat)
    requires |s| == |t| && PrefixAt(s, i) == PrefixAt(t, i)
    requires i + |NotePrefix| <= |s| ==> CloseOnLine(s, i + |NotePrefix|) == CloseOnLine(t, i + |NotePrefix|)
    ensures MatchAt(s, i) == MatchAt(t, i)
  {
  }

  lemma {:induction false} SearchFromUpToCase(s: string, t: string, k: nat)
    requires SameUpToCase(s, t) && k <= |s|
    ensures SearchFrom(s, k) == SearchFrom(t, k)
    decreases |s| - k
  {
    MatchAtUpToCase(s, t, k);
    if MatchAt(s, k).None? && k < |s| {
      SearchFromUpToCase(s, t, k + 1);
    }
  }

  /** In particular, a `NOTE [...]` or `note [...]` is found wherever `Note [...]` would be, with the same extent. */
  lemma FindNoteLinkUpToCase(s: string, t: string)
    requires SameUpToCase(s, t)
    ensures FindNoteLink(s).Some? <==> FindNoteLink(t).Some?
    ensures FindNoteLink(s).Some? ==>
      (FindNoteLink(s).value.start == FindNoteLink(t).value.start
       && |FindNoteLink(s).value.body| == |FindNoteLink(t).value.body|)
  {
    SearchFromUpToCase(s, t, 0);
    var i := SearchFrom(s, 0);
    if i.Some? {
      MatchAtUpToCase(s, t, i.value);
    }
  }

  /** The opening tag of a note link: the notes page, at the note's anchor. */
  function NoteHead(siteRoot: string, note: string): string {
    "<a href=\"" + siteRoot + "notes.html#" + note + "\">"
  }

  /** `render_note_link`: a link into the notes page at the note's anchor, showing the whole match. */
  function RenderNoteLink(siteRoot: string, m: NoteMatch): string {
    NoteHead(siteRoot, m.note) + m.body + "</a>"
  }

  lemma RenderNoteLinkShape(siteRoot: string, m: NoteMatch)
    ensures StartsWith(RenderNoteLink(siteRoot, m), NoteHead(siteRoot, m.note))
    ensures EndsWith(RenderNoteLink(siteRoot, m), m.body + "</a>")
  {
    var r := RenderNoteLink(siteRoot, m);
    assert r[..|NoteHead(siteRoot, m.note)|] == NoteHead(siteRoot, m.note);
    assert r[|r| - |m.body + "</a>"|..] == m.body + "</a>";
  }

  /**
   * The rendered link for the first note link of a text points at the words between
   * the brackets and shows the matched text exactly as written.
   */
  lemma RenderNoteLinkSpec(siteRoot: string, s: string)
    requires FindNoteLink(s).Some?
    ensures var m := FindNoteLink(s).value;
      var r := RenderNoteLink(siteRoot, m);
      && StartsWith(r, "<a href=\"" + siteRoot + "notes.html#" + m.note + "\">")
      && EndsWith(r, s[m.start..m.start + |m.body|] + "</a>")
      && IsInfix(m.note, s)
  {
    var m := FindNoteLink(s).value;
    FindNoteLinkSpec(s);
    NoteInLink(s, m);
    RenderNoteLinkShape(siteRoot, m);
    OccursAtTransitive(m.note, m.body, s, |NotePrefix|, m.start);
  }

  /** The note of a note link is a piece of its body, which is a piece of the text. */
  lemma NoteInLink(s: string, m: NoteMatch)
    requires NoteLinkShape(s, m)
    ensures OccursAt(m.note, m.body, |NotePrefix|) && OccursAt(m.body, s, m.start)
  {
  }

  // ---------------------------------------------------------------------------
  // Math

  /** `render_math`: the math text goes out exactly as it came in, for MathJax to typeset. */
  function RenderMath(content: string): (r: string)
    ensures r == content
  {
    content
  }
}
