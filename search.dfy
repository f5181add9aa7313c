/**
 * The declaration-name search helpers of the generated site (search.js): the
 * Levenshtein edit distance filled into a matrix, ranking of declaration names
 * by their distance to a pattern, and splitting the declaration list.
 */
module Search {
  import opened Strings

  // ---------------------------------------------------------------------------
  // Edit distance

  function Min3(a: nat, b: nat, c: nat): nat {
    if a <= b && a <= c then a else if b <= c then b else c
  }

  lemma Min3Swap(a: nat, b: nat, c: nat)
    ensures Min3(a, b, c) == Min3(b, a, c)
  {
  }

  function Max(a: nat, b: nat): nat {
    if a <= b then b else a
  }

  /** The substitution cost of the last characters of the prefixes. */
  function Indicator(s: string, t: string, i: nat, j: nat): nat
    requires 0 < i <= |s| && 0 < j <= |t|
  {
    if s[i - 1] == t[j - 1] then 0 else 1
  }

  /**
   * The Levenshtein distance of the prefixes `s[..i]` and `t[..j]`: a deletion, an
   * insertion and a substitution each cost one, keeping a character costs nothing.
   */
  function Dist(s: string, t: string, i: nat, j: nat): nat
    requires i <= |s| && j <= |t|
    decreases i + j
  {
    if i == 0 then j
    else if j == 0 then i
    else Min3(Dist(s, t, i - 1, j) + 1, Dist(s, t, i, j - 1) + 1, Dist(s, t, i - 1, j - 1) + Indicator(s, t, i, j))
  }

  /** The edit distance of two whole strings. */
  function Lev(s: string, t: string): nat {
    Dist(s, t, |s|, |t|)
  }

  /** One step of the recurrence, for the cell in column `i` and row `j`. */
  lemma DistStep(s: string, t: string, i: nat, j: nat)
    requires 0 < i <= |s| && 0 < j <= |t|
    ensures Dist(s, t, i, j)
      == Min3(Dist(s, t, i - 1, j) + 1, Dist(s, t, i, j - 1) + 1, Dist(s, t, i - 1, j - 1) + Indicator(s, t, i, j))
  {
  }

  /** The value the matrix cell in column `i` and row `j` is given from its three neighbours. */
  lemma CellValue(s: string, t: string, i: nat, j: nat, left: nat, above: nat, diagonal: nat)
    requires 0 < i <= |s| && 0 < j <= |t|
    requires left == Dist(s, t, i - 1, j) && above == Dist(s, t, i, j - 1) && diagonal == Dist(s, t, i - 1, j - 1)
    ensures Min3(left + 1, above + 1, diagonal + if s[i - 1] == t[j - 1] then 0 else 1) == Dist(s, t, i, j)
  {
    DistStep(s, t, i, j);
  }

  /** Row `row` of the matrix holds the distances of `t[..row]` to the first `n` prefixes of `s`. */
  ghost predicate RowHolds(matrix: array2<nat>, s: string, t: string, row: nat, n: nat)
    reads matrix
    requires matrix.Length0 == |t| + 1 && matrix.Length1 == |s| + 1
    requires row <= |t| && n <= |s| + 1
  {
    forall ii :: 0 <= ii < n ==> matrix[row, ii] == Dist(s, t, ii, row)
  }

  /**
   * The inner loop of `editDistance`: fills row `j` of the matrix (the prefix of
   * `t` of length `j`) from row `j - 1`, leaving every other row as it was.
   */
  method FillRow(matrix: array2<nat>, s: string, t: string, j: nat)
    requires matrix.Length0 == |t| + 1 && matrix.Length1 == |s| + 1
    requires 0 < j <= |t| && matrix[j, 0] == j
    requires RowHolds(matrix, s, t, j - 1, |s| + 1)
    modifies matrix
    ensures RowHolds(matrix, s, t, j, |s| + 1)
    ensures forall jj, ii :: 0 <= jj <= |t| && jj != j && 0 <= ii <= |s| ==> matrix[jj, ii] == old(matrix[jj, ii])
  {
    for i := 1 to |s| + 1
      invariant RowHolds(matrix, s, t, j, i)
      invariant forall jj, ii :: 0 <= jj <= |t| && jj != j && 0 <= ii <= |s| ==> matrix[jj, ii] == old(matrix[jj, ii])
    {
      var indicator := if s[i - 1] == t[j - 1] then 0 else 1;
      CellValue(s, t, i, j, matrix[j, i - 1], matrix[j - 1, i], matrix[j - 1, i - 1]);
      matrix[j, i] := Min3(matrix[j, i - 1] + 1, matrix[j - 1, i] + 1, matrix[j - 1, i - 1] + indicator);
    }
  }

  /**
   * `editDistance(str1, str2)`: the dynamic-programming matrix, row `j` for the
   * prefix of `str2` of length `j` and column `i` for the prefix of `str1` of
   * length `i`, filled row by row; the last cell is the edit distance.
   */
  method EditDistance(str1: string, str2: string) returns (d: nat)
    ensures d == Lev(str1, str2)
  {
    var matrix := new nat[|str2| + 1, |str1| + 1];
    for i := 0 to |str1| + 1
      invariant forall ii :: 0 <= ii < i ==> matrix[0, ii] == ii
    {
      matrix[0, i] := i;
    }
    for j := 0 to |str2| + 1
      invariant forall ii :: 0 <= ii <= |str1| ==> matrix[0, ii] == ii
      invariant forall jj :: 0 <= jj < j ==> matrix[jj, 0] == jj
    {
      matrix[j, 0] := j;
    }
    for j := 1 to |str2| + 1
      invariant RowHolds(matrix, str1, str2, j - 1, |str1| + 1)
      invariant forall jj :: j <= jj <= |str2| ==> matrix[jj, 0] == jj
    {
      FillRow(matrix, str1, str2, j);
    }
    d := matrix[|str2|, |str1|];
  }

  /** The boundary row and column: turning a prefix into the empty string deletes all of it. */
  lemma LevEmpty(s: string)
    ensures Lev(s, "") == |s| && Lev("", s) == |s|
  {
  }

  lemma {:induction false} DistSelf(s: string, i: nat)
    requires i <= |s|
    ensures Dist(s, s, i, i) == 0
  {
    if i > 0 {
      DistSelf(s, i - 1);
    }
  }

  lemma {:induction false} DistZero(s: string, t: string, i: nat, j: nat)
    requires i <= |s| && j <= |t| && Dist(s, t, i, j) == 0
    ensures i == j && s[..i] == t[..j]
    decreases i + j
  {
    if i > 0 && j > 0 {
      DistZero(s, t, i - 1, j - 1);
      assert s[..i] == s[..i - 1] + [s[i - 1]];
      assert t[..j] == t[..j - 1] + [t[j - 1]];
    }
  }

  /** The distance is zero exactly for equal strings. */
  lemma LevZeroIff(s: string, t: string)
    ensures Lev(s, t) == 0 <==> s == t
  {
    if s == t {
      DistSelf(s, |s|);
    }
    if Lev(s, t) == 0 {
      DistZero(s, t, |s|, |t|);
      assert s == s[..|s|] && t == t[..|t|];
    }
  }

  /** The distance of the prefixes is the same when the roles of the two strings are swapped. */
  ghost predicate SymmetricAt(s: string, t: string, i: nat, j: nat)
    requires i <= |s| && j <= |t|
  {
    Dist(s, t, i, j) == Dist(t, s, j, i)
  }

  lemma {:induction false} DistSymmetric(s: string, t: string, i: nat, j: nat)
    requires i <= |s| && j <= |t|
    ensures SymmetricAt(s, t, i, j)
    decreases i + j
  {
    if i > 0 && j > 0 {
      DistSymmetric(s, t, i - 1, j);
      DistSymmetric(s, t, i, j - 1);
      DistSymmetric(s, t, i - 1, j - 1);
      SymmetricStep(s, t, i, j);
    }
  }

  lemma SymmetricStep(s: string, t: string, i: nat, j: nat)
    requires 0 < i <= |s| && 0 < j <= |t|
    requires SymmetricAt(s, t, i - 1, j) && SymmetricAt(s, t, i, j - 1) && SymmetricAt(s, t, i - 1, j - 1)
    ensures SymmetricAt(s, t, i, j)
  {
    DistStep(s, t, i, j);
    DistStep(t, s, j, i);
    assert Indicator(t, s, j, i) == Indicator(s, t, i, j);
    Min3Swap(Dist(s, t, i - 1, j) + 1, Dist(s, t, i, j - 1) + 1, Dist(s, t, i - 1, j - 1) + Indicator(s, t, i, j));
  }

  /** Edit distance does not depend on which string is edited into which. */
  lemma LevSymmetric(s: string, t: string)
    ensures Lev(s, t) == Lev(t, s)
  {
    DistSymmetric(s, t, |s|, |t|);
  }

  lemma {:induction false} DistLower(s: string, t: string, i: nat, j: nat)
    requires i <= |s| && j <= |t|
    ensures i - j <= Dist(s, t, i, j) && j - i <= Dist(s, t, i, j)
    decreases i + j
  {
    if i > 0 && j > 0 {
      DistLower(s, t, i - 1, j);
      DistLower(s, t, i, j - 1);
      DistLower(s, t, i - 1, j - 1);
      DistStep(s, t, i, j);
    }
  }

  lemma {:induction false} DistUpper(s: string, t: string, i: nat, j: nat)
    requires i <= |s| && j <= |t|
    ensures Dist(s, t, i, j) <= i + j && Dist(s, t, i, j) <= Max(i, j)
    decreases i + j
  {
    if i > 0 && j > 0 {
      DistUpper(s, t, i - 1, j - 1);
      DistStep(s, t, i, j);
    }
  }

  /** The distance is at least the difference of the lengths and at most the longer length. */
  lemma LevBounds(s: string, t: string)
    ensures |s| - |t| <= Lev(s, t) && |t| - |s| <= Lev(s, t)
    ensures Lev(s, t) <= Max(|s|, |t|)
  {
    DistLower(s, t, |s|, |t|);
    DistUpper(s, t, |s|, |t|);
  }

  // ---------------------------------------------------------------------------
  // Ranking declaration names

  /** An entry of the ranking: a declaration name and its distance to the pattern. */
  datatype Match = Match(decl: string, dist: nat)

  /** The distance `getMatches` gives a name: that of the lower-cased name and pattern. */
  function Score(decl: string, patt: string): Match {
    Match(decl, Lev(LowerAscii(decl), LowerAscii(patt)))
  }

  /** The unsorted results, one per name, in the order of the names. */
  function Scores(decls: seq<string>, patt: string): (r: seq<Match>)
    ensures |r| == |decls|
    ensures forall k :: 0 <= k < |decls| ==> r[k] == Score(decls[k], patt)
  {
    if decls == [] then [] else Scores(decls[..|decls| - 1], patt) + [Score(decls[|decls| - 1], patt)]
  }

  /** Each entry is at a distance no greater than the next one's. */
  predicate SortedByDist(ms: seq<Match>) {
    |ms| <= 1 || (ms[0].dist <= ms[1].dist && SortedByDist(ms[1..]))
  }

  /** In a sorted list every entry is at a distance no greater than any later one. */
  lemma {:induction false} SortedAt(ms: seq<Match>, k: nat, l: nat)
    requires SortedByDist(ms) && k <= l < |ms|
    ensures ms[k].dist <= ms[l].dist
  {
    if k < l {
      if k == 0 {
        SortedAt(ms[1..], 0, l - 1);
      } else {
        SortedAt(ms[1..], k - 1, l - 1);
      }
    }
  }

  /** The converse: a list whose every entry is no farther than any later one is sorted. */
  lemma {:induction false} SortedOfPairs(ms: seq<Match>)
    requires forall k, l :: 0 <= k < l < |ms| ==> ms[k].dist <= ms[l].dist
    ensures SortedByDist(ms)
  {
    if |ms| > 1 {
      assert ms[0].dist <= ms[1].dist;
      var tail := ms[1..];
      forall k, l | 0 <= k < l < |tail| ensures tail[k].dist <= tail[l].dist {
        assert tail[k] == ms[k + 1] && tail[l] == ms[l + 1];
      }
      SortedOfPairs(tail);
    }
  }

  lemma {:induction false} SortedPrefix(ms: seq<Match>, n: nat)
    requires SortedByDist(ms) && n <= |ms|
    ensures SortedByDist(ms[..n])
  {
    if n > 1 {
      assert ms[..n][1..] == ms[1..][..n - 1];
      SortedPrefix(ms[1..], n - 1);
    }
  }

  /**
   * Inserts `m` into a list sorted by distance, after every entry whose distance is
   * not greater: the step of a stable sort.
   */
  function InsertByDist(ms: seq<Match>, m: Match): seq<Match> {
    if ms == [] then [m]
    else if m.dist < ms[0].dist then [m] + ms
    else [ms[0]] + InsertByDist(ms[1..], m)
  }

  /**
   * `results.sort(({dist: a}, {dist: b}) => a - b)`: JavaScript's sort is stable, so
   * entries at the same distance keep their order.
   */
  function SortByDist(ms: seq<Match>): seq<Match> {
    if ms == [] then [] else InsertByDist(SortByDist(ms[..|ms| - 1]), ms[|ms| - 1])
  }

  /** The entries at distance `d`, in order. */
  function AtDist(ms: seq<Match>, d: nat): seq<Match> {
    if ms == [] then [] else (if ms[0].dist == d then [ms[0]] else []) + AtDist(ms[1..], d)
  }

  lemma {:induction false} AtDistAppend(a: seq<Match>, b: seq<Match>, d: nat)
    ensures AtDist(a + b, d) == AtDist(a, d) + AtDist(b, d)
  {
    if a != [] {
      assert (a + b)[1..] == a[1..] + b;
      AtDistAppend(a[1..], b, d);
    } else {
      assert a + b == b;
    }
  }

  lemma {:induction false} AtDistAbove(ms: seq<Match>, d: nat)
    requires forall k :: 0 <= k < |ms| ==> d < ms[k].dist
    ensures AtDist(ms, d) == []
  {
    if ms != [] {
      AtDistAbove(ms[1..], d);
    }
  }

  lemma {:induction false} InsertByDistMultiset(ms: seq<Match>, m: Match)
    ensures multiset(InsertByDist(ms, m)) == multiset(ms) + multiset{m}
  {
    if ms != [] && m.dist >= ms[0].dist {
      InsertByDistMultiset(ms[1..], m);
      assert ms == [ms[0]] + ms[1..];
    }
  }

  /** The first entry after an insertion is the inserted one or the old first one. */
  lemma InsertByDistHead(ms: seq<Match>, m: Match)
    ensures InsertByDist(ms, m)[0] == if ms == [] || m.dist < ms[0].dist then m else ms[0]
  {
  }

  lemma {:induction false} InsertByDistSorted(ms: seq<Match>, m: Match)
    requires SortedByDist(ms)
    ensures SortedByDist(InsertByDist(ms, m))
  {
    if ms == [] {
    } else if m.dist < ms[0].dist {
      assert ([m] + ms)[1..] == ms;
    } else {
      var rest := InsertByDist(ms[1..], m);
      InsertByDistSorted(ms[1..], m);
      InsertByDistHead(ms[1..], m);
      assert ([ms[0]] + rest)[1..] == rest;
      assert ms[0].dist <= rest[0].dist;
    }
  }

  lemma InsertInFrontAtDist(ms: seq<Match>, m: Match, d: nat)
    requires SortedByDist(ms) && ms != [] && m.dist < ms[0].dist
    ensures AtDist([m] + ms, d) == AtDist(ms, d) + AtDist([m], d)
  {
    AtDistAppend([m], ms, d);
    if m.dist == d {
      forall k | 0 <= k < |ms| ensures d < ms[k].dist {
        SortedAt(ms, 0, k);
      }
      AtDistAbove(ms, d);
    } else {
      assert AtDist([m], d) == [];
    }
  }

  lemma AtDistCons(x: Match, s: seq<Match>, d: nat)
    ensures AtDist([x] + s, d) == (if x.dist == d then [x] else []) + AtDist(s, d)
  {
    assert ([x] + s)[1..] == s;
  }

  /** Putting the same entry in front of two lists keeps an equation between their entries at `d`. */
  lemma ConsAtDist(x: Match, tail: seq<Match>, rest: seq<Match>, extra: seq<Match>, d: nat)
    requires AtDist(rest, d) == AtDist(tail, d) + extra
    ensures AtDist([x] + rest, d) == AtDist([x] + tail, d) + extra
  {
    var head := if x.dist == d then [x] else [];
    AtDistCons(x, rest, d);
    AtDistCons(x, tail, d);
    assert head + (AtDist(tail, d) + extra) == (head + AtDist(tail, d)) + extra;
  }

  lemma {:induction false} InsertByDistAtDist(ms: seq<Match>, m: Match, d: nat)
    requires SortedByDist(ms)
    ensures AtDist(InsertByDist(ms, m), d) == AtDist(ms, d) + AtDist([m], d)
  {
    if ms == [] {
      assert AtDist(ms, d) == [];
    } else if m.dist < ms[0].dist {
      InsertInFrontAtDist(ms, m, d);
    } else {
      InsertByDistAtDist(ms[1..], m, d);
      ConsAtDist(ms[0], ms[1..], InsertByDist(ms[1..], m), AtDist([m], d), d);
      assert [ms[0]] + ms[1..] == ms;
    }
  }

  lemma SplitLast<T>(s: seq<T>)
    requires s != []
    ensures s == s[..|s| - 1] + [s[|s| - 1]]
  {
  }

  lemma {:induction false} SortByDistSorted(ms: seq<Match>)
    ensures SortedByDist(SortByDist(ms))
  {
    if ms != [] {
      SortByDistSorted(ms[..|ms| - 1]);
      InsertByDistSorted(SortByDist(ms[..|ms| - 1]), ms[|ms| - 1]);
    }
  }

  lemma {:induction false} SortByDistPermutes(ms: seq<Match>)
    ensures multiset(SortByDist(ms)) == multiset(ms)
  {
    if ms != [] {
      SplitLast(ms);
      SortByDistPermutes(ms[..|ms| - 1]);
      InsertByDistMultiset(SortByDist(ms[..|ms| - 1]), ms[|ms| - 1]);
    }
  }

  lemma {:induction false} SortByDistStable(ms: seq<Match>, d: nat)
    ensures AtDist(SortByDist(ms), d) == AtDist(ms, d)
  {
    if ms != [] {
      var init, last := ms[..|ms| - 1], ms[|ms| - 1];
      SplitLast(ms);
      SortByDistStable(init, d);
      SortByDistSorted(init);
      InsertByDistAtDist(SortByDist(init), last, d);
      AtDistAppend(init, [last], d);
    }
  }

  /**
   * The sort puts the entries in non-decreasing order of distance, keeps every
   * entry as many times as it occurs, and is stable: the entries at any one
   * distance come out in the order they went in.
   */
  lemma SortByDistSpec(ms: seq<Match>)
    ensures SortedByDist(SortByDist(ms))
    ensures multiset(SortByDist(ms)) == multiset(ms)
    ensures forall d: nat :: AtDist(SortByDist(ms), d) == AtDist(ms, d)
  {
    SortByDistSorted(ms);
    SortByDistPermutes(ms);
    forall d: nat ensures AtDist(SortByDist(ms), d) == AtDist(ms, d) {
      SortByDistStable(ms, d);
    }
  }

  /** `xs.slice(0, n)` for an integer `n`: a negative end counts back from the end of the list. */
  function JsSliceTo<T>(xs: seq<T>, n: int): seq<T> {
    if n >= 0 then (if n <= |xs| then xs[..n] else xs)
    else if |xs| + n >= 0 then xs[..|xs| + n]
    else []
  }

  /** The result of `getMatches(decls, patt, maxResults)`. */
  function Matches(decls: seq<string>, patt: string, maxResults: int): seq<Match> {
    JsSliceTo(SortByDist(Scores(decls, patt)), maxResults)
  }

  /** `getMatches`' default for `maxResults`. */
  const DefaultMaxResults := 20

  /**
   * `getMatches(decls, patt)` without a third argument: the twenty closest names, or all
   * of them when there are fewer, in order of distance.
   */
  function DefaultMatches(decls: seq<string>, patt: string): (r: seq<Match>)
    ensures |r| == if |decls| <= DefaultMaxResults then |decls| else DefaultMaxResults
    ensures SortedByDist(r)
    ensures forall m | m in r :: m.decl in decls && m.dist == Lev(LowerAscii(m.decl), LowerAscii(patt))
    ensures forall m, x | m in r && x in multiset(Scores(decls, patt)) - multiset(r) :: m.dist <= x.dist
  {
    MatchesSpec(decls, patt, DefaultMaxResults);
    Matches(decls, patt, DefaultMaxResults)
  }

  /**
   * `getMatches`: scores every name by its edit distance to the pattern, sorts the
   * scores and keeps the first `maxResults` of them.
   */
  method GetMatches(decls: seq<string>, patt: string, maxResults: int) returns (r: seq<Match>)
    ensures r == Matches(decls, patt, maxResults)
  {
    var results: seq<Match> := [];
    for k := 0 to |decls|
      invariant results == Scores(decls[..k], patt)
    {
      var dist := EditDistance(LowerAscii(decls[k]), LowerAscii(patt));
      results := results + [Match(decls[k], dist)];
      assert decls[..k + 1][..k] == decls[..k];
    }
    assert decls[..|decls|] == decls;
    r := JsSliceTo(SortByDist(results), maxResults);
  }

  /** The number of results `getMatches` returns for `count` names. */
  function MatchCount(count: nat, maxResults: int): nat {
    if maxResults >= 0 then (if maxResults <= count then maxResults else count)
    else if count + maxResults >= 0 then count + maxResults
    else 0
  }

  /**
   * What `getMatches` promises: as many results as the slice bound allows, each a
   * name of the input with its lower-cased edit distance to the pattern, in
   * non-decreasing order of distance, and no name left out that is closer to the
   * pattern than one kept.
   */
  lemma MatchesSpec(decls: seq<string>, patt: string, maxResults: int)
    ensures |Matches(decls, patt, maxResults)| == MatchCount(|decls|, maxResults)
    ensures maxResults >= 0 ==> |Matches(decls, patt, maxResults)| <= maxResults
    ensures forall m | m in Matches(decls, patt, maxResults) ::
      m.decl in decls && m.dist == Lev(LowerAscii(m.decl), LowerAscii(patt))
    ensures SortedByDist(Matches(decls, patt, maxResults))
    ensures multiset(Matches(decls, patt, maxResults)) <= multiset(Scores(decls, patt))
    ensures forall m, x | m in Matches(decls, patt, maxResults)
      && x in multiset(Scores(decls, patt)) - multiset(Matches(decls, patt, maxResults)) :: m.dist <= x.dist
  {
    var scores := Scores(decls, patt);
    TopOfSorted(scores, maxResults);
    forall m | m in Matches(decls, patt, maxResults)
      ensures m.decl in decls && m.dist == Lev(LowerAscii(m.decl), LowerAscii(patt))
    {
      assert m in multiset(Matches(decls, patt, maxResults));
      InScores(decls, patt, m);
    }
  }

  /** The slice of the sorted list: its length, its order, and that it keeps the closest entries. */
  lemma TopOfSorted(ms: seq<Match>, n: int)
    ensures |JsSliceTo(SortByDist(ms), n)| == MatchCount(|ms|, n)
    ensures SortedByDist(JsSliceTo(SortByDist(ms), n))
    ensures multiset(JsSliceTo(SortByDist(ms), n)) <= multiset(ms)
    ensures forall m, x | m in JsSliceTo(SortByDist(ms), n)
      && x in multiset(ms) - multiset(JsSliceTo(SortByDist(ms), n)) :: m.dist <= x.dist
  {
    var sorted := SortByDist(ms);
    SortByDistSorted(ms);
    SortByDistPermutes(ms);
    SameLength(sorted, ms);
    JsSliceIsPrefix(sorted, n);
    PrefixOfSorted(sorted, MatchCount(|ms|, n));
  }

  lemma SameLength<T>(a: seq<T>, b: seq<T>)
    requires multiset(a) == multiset(b)
    ensures |a| == |b|
  {
    assert |a| == |multiset(a)|;
  }

  /** The slice is the prefix whose length `MatchCount` gives. */
  lemma JsSliceIsPrefix<T>(xs: seq<T>, n: int)
    ensures MatchCount(|xs|, n) <= |xs| && JsSliceTo(xs, n) == xs[..MatchCount(|xs|, n)]
  {
  }

  /** An entry at distance zero puts an entry at distance zero first. */
  lemma ZeroFirst(ms: seq<Match>, n: int, k: nat)
    requires k < |ms| && ms[k].dist == 0 && n > 0
    ensures JsSliceTo(SortByDist(ms), n) != [] && JsSliceTo(SortByDist(ms), n)[0].dist == 0
  {
    var sorted := SortByDist(ms);
    SortByDistSorted(ms);
    SortByDistPermutes(ms);
    assert ms[k] in multiset(ms);
    assert ms[k] in sorted;
    var l :| 0 <= l < |sorted| && sorted[l] == ms[k];
    SortedAt(sorted, 0, l);
  }

  lemma InScores(decls: seq<string>, patt: string, m: Match)
    requires m in multiset(Scores(decls, patt))
    ensures m.decl in decls && m.dist == Lev(LowerAscii(m.decl), LowerAscii(patt))
  {
    var scores := Scores(decls, patt);
    assert m in scores;
    var k :| 0 <= k < |scores| && scores[k] == m;
    assert m == Score(decls[k], patt);
  }

  lemma KeptBeforeDropped(sorted: seq<Match>, n: nat, m: Match, x: Match)
    requires SortedByDist(sorted) && n <= |sorted|
    requires m in sorted[..n] && x in sorted[n..]
    ensures m.dist <= x.dist
  {
    var k :| 0 <= k < n && sorted[..n][k] == m;
    var l :| 0 <= l < |sorted| - n && sorted[n..][l] == x;
    SortedAt(sorted, k, n + l);
  }

  lemma PrefixMultiset(sorted: seq<Match>, n: nat)
    requires n <= |sorted|
    ensures multiset(sorted) == multiset(sorted[..n]) + multiset(sorted[n..])
  {
    assert sorted == sorted[..n] + sorted[n..];
  }

  /** A prefix of a sorted list is sorted, and no entry left out is closer than one kept. */
  lemma PrefixOfSorted(sorted: seq<Match>, n: nat)
    requires SortedByDist(sorted) && n <= |sorted|
    ensures SortedByDist(sorted[..n])
    ensures multiset(sorted[..n]) <= multiset(sorted)
    ensures forall m, x | m in sorted[..n] && x in multiset(sorted) - multiset(sorted[..n]) :: m.dist <= x.dist
  {
    SortedPrefix(sorted, n);
    PrefixMultiset(sorted, n);
    forall m, x | m in sorted[..n] && x in multiset(sorted) - multiset(sorted[..n]) ensures m.dist <= x.dist {
      assert x in multiset(sorted[n..]);
      KeptBeforeDropped(sorted, n, m, x);
    }
  }

  /** The result for the empty list of names, whatever the pattern. */
  lemma MatchesOfNothing(patt: string, maxResults: int)
    ensures Matches([], patt, maxResults) == []
  {
  }

  /** A name equal to the pattern up to ASCII case is at distance zero, so it comes first. */
  lemma ExactNameFirst(decls: seq<string>, patt: string, maxResults: int, k: nat)
    requires k < |decls| && LowerAscii(decls[k]) == LowerAscii(patt) && maxResults > 0
    ensures Matches(decls, patt, maxResults) != [] && Matches(decls, patt, maxResults)[0].dist == 0
  {
    var scores := Scores(decls, patt);
    assert scores[k].dist == 0 by {
      LevZeroIff(LowerAscii(decls[k]), LowerAscii(patt));
    }
    ZeroFirst(scores, maxResults, k);
  }

  // ---------------------------------------------------------------------------
  // The declaration list

  /** `splitDecls`: the trimmed text cut at every newline. */
  function SplitDecls(text: string): seq<string> {
    Split(JsTrim(text), '\n')
  }

  /**
   * The names are the newline-separated pieces of the trimmed text: none holds a
   * newline, and joining them back with newlines gives the trimmed text.
   */
  lemma SplitDeclsSpec(text: string)
    ensures |SplitDecls(text)| >= 1
    ensures forall k :: 0 <= k < |SplitDecls(text)| ==> '\n' !in SplitDecls(text)[k]
    ensures Join(SplitDecls(text), "\n") == JsTrim(text)
  {
    JoinSplit(JsTrim(text), '\n');
  }

  /**
   * A list of names written one per line, with no leading or trailing white space
   * around the whole, is read back exactly.
   */
  lemma SplitDeclsJoin(names: seq<string>)
    requires |names| >= 1
    requires forall k :: 0 <= k < |names| ==> '\n' !in names[k]
    requires Join(names, "\n") != [] ==> !IsJsSpace(Join(names, "\n")[0]) && !IsJsSpace(Join(names, "\n")[|Join(names, "\n")| - 1])
    ensures SplitDecls(Join(names, "\n")) == names
  {
    StripUnchanged(Join(names, "\n"), IsJsSpace);
    SplitJoin(names, '\n');
  }
}
