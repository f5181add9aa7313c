/**
 * Character classes and string helpers shared by the documentation generator's
 * model: Python's `str.split`/`str.join`/`str.strip`, JavaScript's `trim`,
 * prefix and suffix tests, decimal rendering, and code-point ordering of strings
 * (the order Python's `sorted` uses on `str`).
 */
module Strings {

  // ---------------------------------------------------------------------------
  // Character classes

  /** Python's `str.isspace()`, which is also what `\s` and `str.strip()` use on `str`. */
  predicate IsPySpace(c: char) {
    c == ' ' || ('\t' <= c <= '\r') || ('\U{1C}' <= c <= '\U{1F}')
    || c == '\U{85}' || c == '\U{A0}' || c == '\U{1680}'
    || ('\U{2000}' <= c <= '\U{200A}') || c == '\U{2028}' || c == '\U{2029}'
    || c == '\U{202F}' || c == '\U{205F}' || c == '\U{3000}'
  }

  /** The characters JavaScript's `String.prototype.trim` removes (white space and line terminators). */
  predicate IsJsSpace(c: char) {
    c == ' ' || ('\t' <= c <= '\r') || c == '\U{A0}' || c == '\U{1680}'
    || ('\U{2000}' <= c <= '\U{200A}') || c == '\U{2028}' || c == '\U{2029}'
    || c == '\U{202F}' || c == '\U{205F}' || c == '\U{3000}' || c == '\U{FEFF}'
  }

  predicate IsAsciiUpper(c: char) { 'A' <= c <= 'Z' }

  /** Lower-casing restricted to ASCII letters; every other character is unchanged. */
  function AsciiLower(c: char): (r: char)
    ensures !IsAsciiUpper(r)
    ensures IsAsciiUpper(c) ==> r as int == c as int + 32
    ensures !IsAsciiUpper(c) ==> r == c
  {
    if IsAsciiUpper(c) then (c as int + 32) as char else c
  }

  function LowerAscii(s: string): (r: string)
    ensures |r| == |s|
    ensures forall i :: 0 <= i < |s| ==> r[i] == AsciiLower(s[i])
  {
    if s == [] then [] else [AsciiLower(s[0])] + LowerAscii(s[1..])
  }

  // ---------------------------------------------------------------------------
  // Prefixes, suffixes, infixes

  predicate StartsWith(s: string, prefix: string) {
    |prefix| <= |s| && s[..|prefix|] == prefix
  }

  predicate EndsWith(s: string, suffix: string) {
    |suffix| <= |s| && s[|s| - |suffix|..] == suffix
  }

  /** `needle` occurs in `s` starting at index `i`. */
  predicate OccursAt(needle: string, s: string, i: int) {
    0 <= i <= |s| - |needle| && s[i..i + |needle|] == needle
  }

  /** `needle` occurs somewhere in `s` as a contiguous piece. */
  predicate IsInfix(needle: string, s: string) {
    exists i | 0 <= i <= |s| - |needle| :: OccursAt(needle, s, i)
  }

  lemma InfixAt(needle: string, s: string, i: int)
    requires OccursAt(needle, s, i)
    ensures IsInfix(needle, s)
  {
  }

  lemma OccursAtTransitive(a: string, b: string, c: string, i: int, j: int)
    requires OccursAt(a, b, i) && OccursAt(b, c, j)
    ensures OccursAt(a, c, j + i)
  {
    forall k | 0 <= k < |a| ensures c[j + i + k] == a[k] {
      assert a[k] == b[i..i + |a|][k] == b[i + k];
      assert b[i + k] == c[j..j + |b|][i + k];
    }
  }

  lemma InfixOfMiddle(a: string, b: string, c: string)
    ensures IsInfix(b, a + b + c)
  {
    assert (a + b + c)[|a|..|a| + |b|] == b;
    InfixAt(b, a + b + c, |a|);
  }

  lemma InfixOfLeft(a: string, b: string)
    ensures IsInfix(a, a + b)
  {
    InfixOfMiddle("", a, b);
    assert "" + a + b == a + b;
  }

  lemma InfixOfRight(a: string, b: string)
    ensures IsInfix(b, a + b)
  {
    InfixOfMiddle(a, b, "");
    assert a + b + "" == a + b;
  }

  lemma InfixTransitive(a: string, b: string, c: string)
    requires IsInfix(a, b) && IsInfix(b, c)
    ensures IsInfix(a, c)
  {
    var i :| OccursAt(a, b, i);
    var j :| OccursAt(b, c, j);
    OccursAtTransitive(a, b, c, i, j);
  }

  // ---------------------------------------------------------------------------
  // Replacement and stripping

  /** `s.replace(a, b)` for single characters. */
  function ReplaceChar(s: string, a: char, b: char): (r: string)
    ensures |r| == |s|
    ensures forall i :: 0 <= i < |s| ==> r[i] == if s[i] == a then b else s[i]
  {
    if s == [] then [] else [if s[0] == a then b else s[0]] + ReplaceChar(s[1..], a, b)
  }

  /** The number of leading characters of `s` that satisfy `isSpace`. */
  function LeadingRun(s: string, isSpace: char -> bool): (n: nat)
    ensures n <= |s|
    ensures forall i :: 0 <= i < n ==> isSpace(s[i])
    ensures n < |s| ==> !isSpace(s[n])
  {
    if s != [] && isSpace(s[0]) then
      var n := 1 + LeadingRun(s[1..], isSpace);
      assert forall i :: 1 <= i < n ==> s[i] == s[1..][i - 1];
      n
    else 0
  }

  /** The number of trailing characters of `s` that satisfy `isSpace`. */
  function TrailingRun(s: string, isSpace: char -> bool): (n: nat)
    ensures n <= |s|
    ensures forall i :: |s| - n <= i < |s| ==> isSpace(s[i])
    ensures n < |s| ==> !isSpace(s[|s| - 1 - n])
  {
    if s != [] && isSpace(s[|s| - 1]) then
      var n := 1 + TrailingRun(s[..|s| - 1], isSpace);
      assert forall i :: |s| - n <= i < |s| - 1 ==> s[i] == s[..|s| - 1][i];
      n
    else 0
  }

  /**
   * Removes the longest leading and trailing runs of `isSpace` characters:
   * what is left is a contiguous piece of `s` that neither starts nor ends with one,
   * and it is empty exactly when `s` holds nothing else.
   */
  function Strip(s: string, isSpace: char -> bool): (r: string)
    ensures IsInfix(r, s)
    ensures r != [] ==> !isSpace(r[0]) && !isSpace(r[|r| - 1])
    ensures r == [] <==> forall i :: 0 <= i < |s| ==> isSpace(s[i])
  {
    var a := LeadingRun(s, isSpace);
    if a == |s| then
      InfixAt([], s, 0);
      []
    else
      var b := TrailingRun(s, isSpace);
      assert !isSpace(s[a]);
      InfixAt(s[a..|s| - b], s, a);
      s[a..|s| - b]
  }

  /** Strip keeps the piece of `s` after its leading spaces and removes nothing but spaces after it. */
  lemma StripRemovesOnlySpaces(s: string, isSpace: char -> bool)
    ensures var r := Strip(s, isSpace);
      var a := LeadingRun(s, isSpace);
      && a + |r| <= |s| && s[a..a + |r|] == r
      && (forall i :: 0 <= i < a ==> isSpace(s[i]))
      && (forall i :: a + |r| <= i < |s| ==> isSpace(s[i]))
  {
    var a := LeadingRun(s, isSpace);
    var r := Strip(s, isSpace);
    if a == |s| {
      assert r == [];
      assert s[a..a + |r|] == [];
    } else {
      var b := TrailingRun(s, isSpace);
      assert a < |s| - b && r == s[a..|s| - b] by {
        assert !isSpace(s[a]);
      }
      var e := a + |r|;
      assert e == |s| - b;
      assert s[a..e] == r;
    }
  }

  /** A string that neither starts nor ends with a space is its own strip. */
  lemma StripUnchanged(s: string, isSpace: char -> bool)
    requires s != [] ==> !isSpace(s[0]) && !isSpace(s[|s| - 1])
    ensures Strip(s, isSpace) == s
  {
    if s != [] {
      assert LeadingRun(s, isSpace) == 0 && TrailingRun(s, isSpace) == 0;
      assert s[0..|s|] == s;
    }
  }

  /** Stripping a string padded on both sides with spaces gives back the stripped string. */
  lemma StripPadded(pad: string, s: string, isSpace: char -> bool)
    requires forall k :: 0 <= k < |pad| ==> isSpace(pad[k])
    requires s != [] ==> !isSpace(s[0]) && !isSpace(s[|s| - 1])
    ensures Strip(pad + s + pad, isSpace) == s
  {
    var w := pad + s + pad;
    if s == [] {
      assert forall k :: 0 <= k < |w| ==> w[k] == pad[if k < |pad| then k else k - |pad|];
    } else {
      assert forall k :: 0 <= k < |pad| ==> w[k] == pad[k];
      assert forall k :: 0 <= k < |pad| ==> w[|w| - |pad| + k] == pad[k];
      assert w[|pad|] == s[0] && w[|w| - 1 - |pad|] == s[|s| - 1];
      assert LeadingRun(w, isSpace) == |pad| && TrailingRun(w, isSpace) == |pad|;
      assert w[|pad|..|w| - |pad|] == s;
    }
  }

  /** Python's `str.strip()` with no argument. */
  function PyStrip(s: string): string {
    Strip(s, IsPySpace)
  }

  /** JavaScript's `String.prototype.trim()`. */
  function JsTrim(s: string): string {
    Strip(s, IsJsSpace)
  }

  // ---------------------------------------------------------------------------
  // Join and split

  /** `sep.join(parts)`. */
  function Join(parts: seq<string>, sep: string): string {
    if |parts| == 0 then ""
    else if |parts| == 1 then parts[0]
    else parts[0] + sep + Join(parts[1..], sep)
  }

  /** `s.split(c)` for one separator character, in Python and in JavaScript alike. */
  function Split(s: string, c: char): (r: seq<string>)
    ensures |r| >= 1
    ensures forall i :: 0 <= i < |r| ==> c !in r[i]
  {
    if |s| == 0 then [""]
    else
      var rest := Split(s[1..], c);
      if s[0] == c then [""] + rest else [[s[0]] + rest[0]] + rest[1..]
  }

  /** Joining the pieces of a split with the separator gives back the string. */
  lemma {:induction false} JoinSplit(s: string, c: char)
    ensures Join(Split(s, c), [c]) == s
  {
    if |s| > 0 {
      var rest := Split(s[1..], c);
      JoinSplit(s[1..], c);
      if s[0] == c {
        assert Split(s, c) == [""] + rest;
        assert ([""] + rest)[1..] == rest;
      } else {
        var r := Split(s, c);
        assert r == [[s[0]] + rest[0]] + rest[1..];
        if |rest| > 1 {
          assert r[1..] == rest[1..];
          assert Join(rest, [c]) == rest[0] + [c] + Join(rest[1..], [c]);
        }
      }
    }
  }

  lemma {:induction false} SplitNoSeparator(a: string, c: char)
    requires c !in a
    ensures Split(a, c) == [a]
  {
    if |a| > 0 {
      SplitNoSeparator(a[1..], c);
      assert [a[0]] + a[1..] == a;
    }
  }

  lemma {:induction false} SplitAtSeparator(a: string, c: char, b: string)
    requires c !in a
    ensures Split(a + [c] + b, c) == [a] + Split(b, c)
  {
    if |a| == 0 {
      assert a + [c] + b == [c] + b;
      assert ([c] + b)[1..] == b;
    } else {
      SplitAtSeparator(a[1..], c, b);
      var s := a + [c] + b;
      assert s[0] == a[0] != c;
      assert s[1..] == a[1..] + [c] + b;
      var rest := Split(s[1..], c);
      assert rest[0] == a[1..] && rest[1..] == Split(b, c);
      assert Split(s, c) == [[a[0]] + rest[0]] + rest[1..];
      assert [a[0]] + a[1..] == a;
    }
  }

  /** Splitting a join whose parts do not contain the separator gives back the parts. */
  lemma {:induction false} SplitJoin(parts: seq<string>, c: char)
    requires |parts| >= 1
    requires forall i :: 0 <= i < |parts| ==> c !in parts[i]
    ensures Split(Join(parts, [c]), c) == parts
  {
    if |parts| == 1 {
      SplitNoSeparator(parts[0], c);
    } else {
      SplitJoin(parts[1..], c);
      SplitAtSeparator(parts[0], c, Join(parts[1..], [c]));
      assert [parts[0]] + parts[1..] == parts;
    }
  }

  // ---------------------------------------------------------------------------
  // Decimal rendering (Python's `str(n)` / f-string of a non-negative int)

  function DigitChar(d: nat): (r: char)
    requires d < 10
    ensures '0' <= r <= '9' && r as int - '0' as int == d
  {
    ('0' as int + d) as char
  }

  function Decimal(n: nat): (r: string)
    ensures |r| >= 1
    ensures forall i :: 0 <= i < |r| ==> '0' <= r[i] <= '9'
    decreases n
  {
    if n < 10 then [DigitChar(n)] else Decimal(n / 10) + [DigitChar(n % 10)]
  }

  /** Reads a string of decimal digits back as a number. */
  function ParseDecimal(s: string): nat
    requires forall i :: 0 <= i < |s| ==> '0' <= s[i] <= '9'
  {
    if s == [] then 0
    else ParseDecimal(s[..|s| - 1]) * 10 + (s[|s| - 1] as int - '0' as int)
  }

  lemma {:induction false} DecimalRoundTrip(n: nat)
    ensures ParseDecimal(Decimal(n)) == n
  {
    if n >= 10 {
      DecimalRoundTrip(n / 10);
      var d := Decimal(n);
      assert d[..|d| - 1] == Decimal(n / 10);
    }
  }

  // ---------------------------------------------------------------------------
  // Code-point order on strings (Python's `<` on `str`)

  predicate LexLe(a: string, b: string)
    decreases |a|
  {
    |a| == 0 || (|b| > 0 && (a[0] < b[0] || (a[0] == b[0] && LexLe(a[1..], b[1..]))))
  }

  lemma {:induction false} LexLeReflexive(a: string)
    ensures LexLe(a, a)
  {
    if |a| > 0 { LexLeReflexive(a[1..]); }
  }

  lemma {:induction false} LexLeAntisymmetric(a: string, b: string)
    requires LexLe(a, b) && LexLe(b, a)
    ensures a == b
  {
    if |a| > 0 && |b| > 0 {
      LexLeAntisymmetric(a[1..], b[1..]);
      assert a == [a[0]] + a[1..] && b == [b[0]] + b[1..];
    }
  }

  lemma {:induction false} LexLeTransitive(a: string, b: string, c: string)
    requires LexLe(a, b) && LexLe(b, c)
    ensures LexLe(a, c)
  {
    if |a| > 0 && |b| > 0 && |c| > 0 && a[0] == b[0] == c[0] {
      LexLeTransitive(a[1..], b[1..], c[1..]);
    }
  }

  lemma {:induction false} LexLeTotal(a: string, b: string)
    ensures LexLe(a, b) || LexLe(b, a)
  {
    if |a| > 0 && |b| > 0 && a[0] == b[0] {
      LexLeTotal(a[1..], b[1..]);
    }
  }

  predicate Sorted(xs: seq<string>) {
    forall i, j :: 0 <= i < j < |xs| ==> LexLe(xs[i], xs[j])
  }

  predicate StrictlySorted(xs: seq<string>) {
    forall i, j :: 0 <= i < j < |xs| ==> LexLe(xs[i], xs[j]) && xs[i] != xs[j]
  }

  /** Inserts `x` before the first element it does not exceed. */
  function Insert(x: string, xs: seq<string>): (r: seq<string>)
    ensures multiset(r) == multiset(xs) + multiset{x}
  {
    if xs == [] then [x]
    else if LexLe(x, xs[0]) then [x] + xs
    else
      assert xs == [xs[0]] + xs[1..];
      [xs[0]] + Insert(x, xs[1..])
  }

  /** Inserting into an ascending list keeps it ascending. */
  lemma {:induction false} InsertSorted(x: string, xs: seq<string>)
    requires Sorted(xs)
    ensures Sorted(Insert(x, xs))
  {
    if xs == [] {
    } else if LexLe(x, xs[0]) {
      forall j | 0 <= j < |xs| ensures LexLe(x, xs[j]) {
        if j > 0 { LexLeTransitive(x, xs[0], xs[j]); }
      }
    } else {
      LexLeTotal(x, xs[0]);
      InsertSorted(x, xs[1..]);
      var tail := Insert(x, xs[1..]);
      assert xs == [xs[0]] + xs[1..];
      forall j | 0 <= j < |tail| ensures LexLe(xs[0], tail[j]) {
        assert tail[j] in multiset(tail);
        if tail[j] != x {
          assert tail[j] in multiset(xs[1..]);
          var k :| 0 <= k < |xs[1..]| && xs[1..][k] == tail[j];
        }
      }
    }
  }

  /** Python's `sorted` on a list of strings (insertion sort; the order is all that matters). */
  function Sort(xs: seq<string>): seq<string> {
    if xs == [] then [] else Insert(xs[0], Sort(xs[1..]))
  }

  /** `sorted` returns its input in ascending order, every element with its multiplicity. */
  lemma {:induction false} SortSpec(xs: seq<string>)
    ensures Sorted(Sort(xs))
    ensures multiset(Sort(xs)) == multiset(xs)
  {
    if xs != [] {
      SortSpec(xs[1..]);
      InsertSorted(xs[0], Sort(xs[1..]));
      assert xs == [xs[0]] + xs[1..];
    }
  }

  /** The set of elements of a list, as Python's `set(xs)`. */
  function Elems(xs: seq<string>): set<string> {
    set x | x in xs
  }

  /** Inserts `x` into a strictly sorted list unless it is already there. */
  function InsertUnique(x: string, xs: seq<string>): (r: seq<string>)
    ensures Elems(r) == Elems(xs) + {x}
  {
    if xs == [] then [x]
    else if x == xs[0] then xs
    else if LexLe(x, xs[0]) then [x] + xs
    else
      var tail := InsertUnique(x, xs[1..]);
      assert xs == [xs[0]] + xs[1..];
      assert Elems(xs) == {xs[0]} + Elems(xs[1..]);
      assert Elems([xs[0]] + tail) == {xs[0]} + Elems(tail);
      [xs[0]] + tail
  }

  /** Inserting into a strictly ascending list keeps it strictly ascending. */
  lemma {:induction false} InsertUniqueSorted(x: string, xs: seq<string>)
    requires StrictlySorted(xs)
    ensures StrictlySorted(InsertUnique(x, xs))
  {
    if xs == [] || x == xs[0] {
    } else if LexLe(x, xs[0]) {
      InsertUniqueAtHead(x, xs);
    } else {
      LexLeTotal(x, xs[0]);
      InsertUniqueSorted(x, xs[1..]);
      var tail := InsertUnique(x, xs[1..]);
      assert xs == [xs[0]] + xs[1..];
      forall j | 0 <= j < |tail| ensures LexLe(xs[0], tail[j]) && xs[0] != tail[j] {
        assert tail[j] in Elems(tail);
        if tail[j] != x {
          assert tail[j] in Elems(xs[1..]);
          var k :| 0 <= k < |xs[1..]| && xs[1..][k] == tail[j];
          assert xs[1..][k] == xs[k + 1];
        }
      }
      ConsStrictlySorted(xs[0], tail);
    }
  }

  lemma InsertUniqueAtHead(x: string, xs: seq<string>)
    requires StrictlySorted(xs) && xs != [] && x != xs[0] && LexLe(x, xs[0])
    ensures StrictlySorted([x] + xs)
  {
    forall j | 0 <= j < |xs| ensures LexLe(x, xs[j]) && x != xs[j] {
      if j > 0 {
        LexLeTransitive(x, xs[0], xs[j]);
        if x == xs[j] { LexLeAntisymmetric(x, xs[0]); }
      }
    }
    ConsStrictlySorted(x, xs);
  }

  lemma ConsStrictlySorted(x: string, xs: seq<string>)
    requires StrictlySorted(xs)
    requires forall j :: 0 <= j < |xs| ==> LexLe(x, xs[j]) && x != xs[j]
    ensures StrictlySorted([x] + xs)
  {
    var r := [x] + xs;
    forall a, b | 0 <= a < b < |r| ensures LexLe(r[a], r[b]) && r[a] != r[b] {
      if a == 0 {
        assert r[b] == xs[b - 1];
      } else {
        assert r[a] == xs[a - 1] && r[b] == xs[b - 1];
      }
    }
  }

  /** Python's `sorted(set(xs))`: the distinct elements of `xs` in ascending order. */
  function SortUnique(xs: seq<string>): seq<string> {
    if xs == [] then [] else InsertUnique(xs[0], SortUnique(xs[1..]))
  }

  /** `sorted(set(xs))` returns the elements of `xs`, each once, in strictly ascending order. */
  lemma {:induction false} SortUniqueSpec(xs: seq<string>)
    ensures StrictlySorted(SortUnique(xs))
    ensures Elems(SortUnique(xs)) == Elems(xs)
  {
    if xs != [] {
      SortUniqueSpec(xs[1..]);
      InsertUniqueSorted(xs[0], SortUnique(xs[1..]));
      assert xs == [xs[0]] + xs[1..];
      assert Elems(xs) == {xs[0]} + Elems(xs[1..]);
    }
  }
}
