/**
 * The lookup tables built from the export (print_docs.py, "utils reading" and
 * "read source files"): `file_map`, which groups the declarations by the module
 * they live in, and `loc_map`, which sends every declaration, constructor and
 * structure-field name to its module.
 */
module DocTables {
  import opened Wrappers
  import opened Strings
  import opened ImportNames
  import opened Exports

  predicate Distinct<T(==)>(xs: seq<T>) {
    forall i, j :: 0 <= i < j < |xs| ==> xs[i] != xs[j]
  }

  /** The values of `xs` in order of first occurrence: the key order of a dict filled from `xs`. */
  function Dedup<T(==,!new)>(xs: seq<T>): (r: seq<T>)
    ensures Distinct(r)
    ensures forall x :: x in r <==> x in xs
  {
    if xs == [] then []
    else
      var init := xs[..|xs| - 1];
      assert xs == init + [xs[|xs| - 1]];
      Dedup(init) + (if xs[|xs| - 1] in init then [] else [xs[|xs| - 1]])
  }

  // ---------------------------------------------------------------------------
  // file_map: a defaultdict(list) keyed by import name, in insertion order

  datatype FileMap = FileMap(keys: seq<ImportName>, entries: map<ImportName, seq<Decl>>)

  /** The key order lists every key of the dict exactly once. */
  predicate ValidFileMap(fm: FileMap) {
    Distinct(fm.keys)
    && (forall m :: m in fm.entries ==> m in fm.keys)
    && (forall m :: m in fm.keys ==> m in fm.entries)
  }

  const EmptyFileMap := FileMap([], map[])

  /** `file_map[m].append(d)`: creates the entry on first use and appends at the end. */
  function Append(fm: FileMap, m: ImportName, d: Decl): (r: FileMap)
    ensures ValidFileMap(fm) ==> ValidFileMap(r)
    ensures m in r.entries && r.entries[m] == (if m in fm.entries then fm.entries[m] else []) + [d]
    ensures r.keys == if m in fm.entries then fm.keys else fm.keys + [m]
    ensures forall m' :: m' != m ==> (m' in r.entries <==> m' in fm.entries)
    ensures forall m' :: m' != m && m' in fm.entries ==> r.entries[m'] == fm.entries[m']
  {
    if m in fm.entries then FileMap(fm.keys, fm.entries[m := fm.entries[m] + [d]])
    else FileMap(fm.keys + [m], fm.entries[m := [d]])
  }

  /** The bare lookup `file_map[m]`, which inserts an empty list for a missing key. */
  function Touch(fm: FileMap, m: ImportName): (r: FileMap)
    ensures ValidFileMap(fm) ==> ValidFileMap(r)
    ensures m in r.entries && r.entries[m] == (if m in fm.entries then fm.entries[m] else [])
    ensures r.keys == if m in fm.entries then fm.keys else fm.keys + [m]
    ensures forall m' :: m' != m ==> (m' in r.entries <==> m' in fm.entries)
    ensures forall m' :: m' != m && m' in fm.entries ==> r.entries[m'] == fm.entries[m']
  {
    if m in fm.entries then fm else FileMap(fm.keys + [m], fm.entries[m := []])
  }

  // ---------------------------------------------------------------------------
  // separate_results

  /**
   * The names `loc_map` receives for one declaration, in the order they are written:
   * the declaration, its constructors, its structure fields, and `<name>.mk` when it
   * has structure fields.
   */
  function Names(d: Decl): seq<string> {
    [d.name] + FieldNames(d.constructors) + FieldNames(d.structureFields)
    + (if |d.structureFields| > 0 then [d.name + ".mk"] else [])
  }

  /** `m` after `m[k] = n` for every `k` of `names`, in order. */
  function AddAll(m: map<string, ImportName>, names: seq<string>, n: ImportName): (r: map<string, ImportName>)
    ensures forall k :: k in r <==> k in m || k in names
    ensures forall k :: k in names ==> r[k] == n
    ensures forall k :: k !in names && k in m ==> r[k] == m[k]
  {
    if names == [] then m
    else
      var init := names[..|names| - 1];
      assert forall k :: k in names <==> k in init || k == names[|names| - 1];
      AddAll(m, init, n)[names[|names| - 1] := n]
  }

  datatype Tables = Tables(objs: seq<Decl>, fileMap: FileMap, locMap: map<string, ImportName>)

  predicate AllRaw(objs: seq<Decl>) {
    forall i :: 0 <= i < |objs| ==> objs[i].filename.RawPath?
  }

  /** A path resolver: `ImportName.of` over some list of roots. */
  type Resolver = Path -> Result<ImportName, ResolveError>

  /** `ImportName.of` over the configured `roots`. */
  function OfRoots(roots: seq<Root>): Resolver {
    p => Of(roots, p)
  }

  /** The import name a raw record's file resolves to. */
  function Resolve(rv: Resolver, d: Decl): Result<ImportName, ResolveError>
    requires d.filename.RawPath?
  {
    rv(d.filename.path)
  }

  /** A record whose file was resolved to a module outside doc-gen itself (project '.'). */
  predicate Kept(d: Decl) {
    d.filename.Resolved? && d.filename.name.project != "."
  }

  /** One iteration of the loop of `separate_results`. */
  function Step(rv: Resolver, t: Tables, d: Decl): Result<Tables, ResolveError>
    requires d.filename.RawPath?
  {
    match Resolve(rv, d)
    case Err(e) => Err(e)
    case Ok(n) =>
      var d' := d.(filename := Resolved(n));
      if n.project == "." then Ok(t.(objs := t.objs + [d']))
      else Ok(Tables(t.objs + [d'], Append(t.fileMap, n, d'), AddAll(t.locMap, Names(d), n)))
  }

  /** What `separate_results` computes: the loop as a fold over the records. */
  function Separate(rv: Resolver, objs: seq<Decl>): Result<Tables, ResolveError>
    requires AllRaw(objs)
  {
    if objs == [] then Ok(Tables([], EmptyFileMap, map[]))
    else
      match Separate(rv, objs[..|objs| - 1])
      case Err(e) => Err(e)
      case Ok(t) => Step(rv, t, objs[|objs| - 1])
  }

  /**
   * `separate_results`: replaces every record's raw filename in place by its import
   * name and fills `file_map` and `loc_map`; an unresolvable file aborts the run.
   */
  method SeparateResults(roots: seq<Root>, objs: array<Decl>)
      returns (r: Result<(FileMap, map<string, ImportName>), ResolveError>)
    requires AllRaw(objs[..])
    modifies objs
    ensures Separate(OfRoots(roots), old(objs[..])).Err? ==> r == Err(Separate(OfRoots(roots), old(objs[..])).error)
    ensures Separate(OfRoots(roots), old(objs[..])).Ok? ==>
      var t := Separate(OfRoots(roots), old(objs[..])).value;
      r == Ok((t.fileMap, t.locMap)) && objs[..] == t.objs
  {
    r := SeparateWith(OfRoots(roots), objs);
  }

  /** The loop of `separate_results`, for any resolver of paths. */
  method SeparateWith(rv: Resolver, objs: array<Decl>)
      returns (r: Result<(FileMap, map<string, ImportName>), ResolveError>)
    requires AllRaw(objs[..])
    modifies objs
    ensures Separate(rv, old(objs[..])).Err? ==> r == Err(Separate(rv, old(objs[..])).error)
    ensures Separate(rv, old(objs[..])).Ok? ==>
      var t := Separate(rv, old(objs[..])).value;
      r == Ok((t.fileMap, t.locMap)) && objs[..] == t.objs
  {
    ghost var input := objs[..];
    var fileMap := EmptyFileMap;
    var locMap: map<string, ImportName> := map[];
    var i := 0;
    while i < objs.Length
      invariant 0 <= i <= objs.Length
      invariant forall k :: i <= k < objs.Length ==> objs[k] == input[k]
      invariant Separate(rv, input[..i]) == Ok(Tables(objs[..i], fileMap, locMap))
    {
      var d := objs[i];
      var res := rv(d.filename.path);
      if res.Err? {
        SeparateFailsAt(rv, input, i, objs[..i], fileMap, locMap);
        return Err(res.error);
      }
      var n := res.value;
      ghost var prefix := objs[..i];
      SeparateStepOk(rv, input, i, prefix, fileMap, locMap, n);
      objs[i] := d.(filename := Resolved(n));
      assert objs[..i + 1] == prefix + [objs[i]];
      if n.project != "." {
        fileMap := Append(fileMap, n, objs[i]);
        locMap := AddNames(locMap, d, n);
      }
      i := i + 1;
    }
    assert input[..objs.Length] == input;
    r := Ok((fileMap, locMap));
  }

  /** The loop's step when record `i` resolves: the tables grow by that record. */
  lemma SeparateStepOk(rv: Resolver, input: seq<Decl>, i: nat, prefix: seq<Decl>,
                       fm: FileMap, lm: map<string, ImportName>, n: ImportName)
    requires AllRaw(input) && i < |input|
    requires Separate(rv, input[..i]) == Ok(Tables(prefix, fm, lm))
    requires rv(input[i].filename.path) == Ok(n)
    ensures var d' := input[i].(filename := Resolved(n));
      Separate(rv, input[..i + 1]) ==
        if n.project == "." then Ok(Tables(prefix + [d'], fm, lm))
        else Ok(Tables(prefix + [d'], Append(fm, n, d'), AddAll(lm, Names(input[i]), n)))
  {
    SeparateSnoc(rv, input, i);
  }

  /** The loop's step when record `i` does not resolve: the whole run fails with its error. */
  lemma SeparateFailsAt(rv: Resolver, input: seq<Decl>, i: nat, prefix: seq<Decl>,
                        fm: FileMap, lm: map<string, ImportName>)
    requires AllRaw(input) && i < |input|
    requires Separate(rv, input[..i]) == Ok(Tables(prefix, fm, lm))
    requires rv(input[i].filename.path).Err?
    ensures Separate(rv, input) == Err(rv(input[i].filename.path).error)
  {
    SeparateSnoc(rv, input, i);
    SeparateKeepsError(rv, input, i + 1);
  }

  /** The `loc_map` writes for one kept record: its name, constructors, fields and `<name>.mk`. */
  method AddNames(locMap: map<string, ImportName>, d: Decl, n: ImportName) returns (r: map<string, ImportName>)
    ensures r == AddAll(locMap, Names(d), n)
  {
    ghost var written := [d.name];
    r := locMap[d.name := n];
    AddAllSnoc(locMap, [], d.name, n);
    for j := 0 to |d.constructors|
      invariant written == [d.name] + FieldNames(d.constructors)[..j]
      invariant r == AddAll(locMap, written, n)
    {
      AddAllSnoc(locMap, written, d.constructors[j].name, n);
      r := r[d.constructors[j].name := n];
      assert FieldNames(d.constructors)[..j + 1] == FieldNames(d.constructors)[..j] + [d.constructors[j].name];
      written := written + [d.constructors[j].name];
    }
    assert FieldNames(d.constructors)[..|d.constructors|] == FieldNames(d.constructors);
    ghost var written1 := written;
    for j := 0 to |d.structureFields|
      invariant written == written1 + FieldNames(d.structureFields)[..j]
      invariant r == AddAll(locMap, written, n)
    {
      AddAllSnoc(locMap, written, d.structureFields[j].name, n);
      r := r[d.structureFields[j].name := n];
      assert FieldNames(d.structureFields)[..j + 1] == FieldNames(d.structureFields)[..j] + [d.structureFields[j].name];
      written := written + [d.structureFields[j].name];
    }
    assert FieldNames(d.structureFields)[..|d.structureFields|] == FieldNames(d.structureFields);
    if |d.structureFields| > 0 {
      AddAllSnoc(locMap, written, d.name + ".mk", n);
      r := r[d.name + ".mk" := n];
      written := written + [d.name + ".mk"];
    }
    assert written == Names(d);
  }

  lemma AddAllSnoc(m: map<string, ImportName>, names: seq<string>, k: string, n: ImportName)
    ensures AddAll(m, names + [k], n) == AddAll(m, names, n)[k := n]
  {
    assert (names + [k])[..|names|] == names;
  }

  lemma SeparateSnoc(rv: Resolver, objs: seq<Decl>, i: nat)
    requires AllRaw(objs) && i < |objs|
    ensures Separate(rv, objs[..i + 1]) ==
      match Separate(rv, objs[..i])
      case Err(e) => Err(e)
      case Ok(t) => Step(rv, t, objs[i])
  {
    assert objs[..i + 1][..i] == objs[..i];
  }

  /** Once a prefix of the records fails to resolve, the whole run fails with that error. */
  lemma {:induction false} SeparateKeepsError(rv: Resolver, objs: seq<Decl>, k: nat)
    requires AllRaw(objs) && k <= |objs|
    requires Separate(rv, objs[..k]).Err?
    ensures Separate(rv, objs) == Separate(rv, objs[..k])
    decreases |objs| - k
  {
    if k < |objs| {
      assert objs[..k + 1][..k] == objs[..k];
      SeparateKeepsError(rv, objs, k + 1);
    } else {
      assert objs[..k] == objs;
    }
  }

  /**
   * `separate_results` fails exactly when some record's file lies under no root (or is
   * a root itself), and then with the error of the first such record.
   */
  lemma {:induction false} SeparateFailsAtFirstUnresolvable(rv: Resolver, objs: seq<Decl>)
    requires AllRaw(objs)
    ensures Separate(rv, objs).Err? <==> exists i :: 0 <= i < |objs| && Resolve(rv, objs[i]).Err?
    ensures Separate(rv, objs).Err? ==>
      exists i :: FirstUnresolvable(rv, objs, i) && Separate(rv, objs).error == Resolve(rv, objs[i]).error
  {
    if objs != [] {
      var init := objs[..|objs| - 1];
      var last := objs[|objs| - 1];
      SeparateFailsAtFirstUnresolvable(rv, init);
      SeparateLast(rv, objs);
      if Separate(rv, init).Err? {
        var i :| FirstUnresolvable(rv, init, i) && Separate(rv, init).error == Resolve(rv, init[i]).error;
        FirstUnresolvableOfInit(rv, objs, i);
      } else {
        assert forall j :: 0 <= j < |init| ==> Resolve(rv, init[j]).Ok?;
        assert forall j :: 0 <= j < |init| ==> init[j] == objs[j];
        if Resolve(rv, last).Err? {
          assert FirstUnresolvable(rv, objs, |objs| - 1);
        } else {
          assert forall j :: 0 <= j < |objs| ==> Resolve(rv, objs[j]).Ok?;
        }
      }
    }
  }

  /** Appending a record fails the fold when the prefix failed, with its error, or when the record does not resolve. */
  lemma SeparateLast(rv: Resolver, objs: seq<Decl>)
    requires AllRaw(objs) && objs != []
    ensures var init := objs[..|objs| - 1];
      var last := objs[|objs| - 1];
      && (Separate(rv, objs).Err? <==> Separate(rv, init).Err? || Resolve(rv, last).Err?)
      && (Separate(rv, init).Err? ==> Separate(rv, objs).error == Separate(rv, init).error)
      && (Separate(rv, init).Ok? && Resolve(rv, last).Err? ==> Separate(rv, objs).error == Resolve(rv, last).error)
      && (Separate(rv, init).Ok? ==> Separate(rv, objs) == Step(rv, Separate(rv, init).value, last))
  {
  }

  /** Record `i` is the first of `objs` whose file does not resolve. */
  predicate FirstUnresolvable(rv: Resolver, objs: seq<Decl>, i: int)
    requires AllRaw(objs)
  {
    0 <= i < |objs| && Resolve(rv, objs[i]).Err? && forall j :: 0 <= j < i ==> Resolve(rv, objs[j]).Ok?
  }

  lemma FirstUnresolvableOfInit(rv: Resolver, objs: seq<Decl>, i: int)
    requires AllRaw(objs) && objs != [] && FirstUnresolvable(rv, objs[..|objs| - 1], i)
    ensures FirstUnresolvable(rv, objs, i) && objs[i] == objs[..|objs| - 1][i]
  {
    assert forall j :: 0 <= j <= i ==> objs[..|objs| - 1][j] == objs[j];
  }

  /** Every record, doc-gen's own included, has its filename replaced by its import name. */
  lemma {:induction false} SeparateResolvesEveryRecord(rv: Resolver, objs: seq<Decl>)
    requires AllRaw(objs) && Separate(rv, objs).Ok?
    ensures var t := Separate(rv, objs).value;
      |t.objs| == |objs|
      && forall i :: 0 <= i < |objs| ==>
        Resolve(rv, objs[i]).Ok? && t.objs[i] == objs[i].(filename := Resolved(Resolve(rv, objs[i]).value))
  {
    if objs != [] {
      var init := objs[..|objs| - 1];
      var d := objs[|objs| - 1];
      SeparateLast(rv, objs);
      SeparateResolvesEveryRecord(rv, init);
      var t0 := Separate(rv, init).value;
      StepAppendsResolved(rv, t0, d);
      var t := Separate(rv, objs).value;
      assert t.objs == t0.objs + [d.(filename := Resolved(Resolve(rv, d).value))];
      forall i | 0 <= i < |objs|
        ensures Resolve(rv, objs[i]).Ok? && t.objs[i] == objs[i].(filename := Resolved(Resolve(rv, objs[i]).value))
      {
        if i < |init| {
          assert init[i] == objs[i];
          assert t.objs[i] == t0.objs[i];
        } else {
          assert objs[i] == d && t.objs[i] == d.(filename := Resolved(Resolve(rv, d).value));
        }
      }
    }
  }

  /** A step that succeeds appends its record, with the filename resolved, to `objs`. */
  lemma StepAppendsResolved(rv: Resolver, t: Tables, d: Decl)
    requires d.filename.RawPath? && Step(rv, t, d).Ok?
    ensures Resolve(rv, d).Ok?
    ensures Step(rv, t, d).value.objs == t.objs + [d.(filename := Resolved(Resolve(rv, d).value))]
  {
  }

  /** Every name of every kept record is in `loc_map`. */
  lemma LocMapComplete(rv: Resolver, objs: seq<Decl>)
    requires AllRaw(objs) && Separate(rv, objs).Ok?
    ensures var t := Separate(rv, objs).value;
      |t.objs| == |objs|
      && forall i, k :: 0 <= i < |objs| && Kept(t.objs[i]) && k in Names(objs[i]) ==> k in t.locMap
  {
    SeparateNamesCovered(rv, objs);
    SeparateResolvesEveryRecord(rv, objs);
    var t := Separate(rv, objs).value;
    assert forall i :: 0 <= i < |objs| ==> Names(t.objs[i]) == Names(objs[i]);
  }

  /** Every name of every kept record of `t` is in its `loc_map`. */
  ghost predicate NamesCovered(t: Tables) {
    forall i, k :: 0 <= i < |t.objs| && Kept(t.objs[i]) && k in Names(t.objs[i]) ==> k in t.locMap
  }

  lemma StepKeepsNamesCovered(rv: Resolver, t: Tables, d: Decl)
    requires d.filename.RawPath? && Step(rv, t, d).Ok? && NamesCovered(t)
    ensures NamesCovered(Step(rv, t, d).value)
  {
    var t' := Step(rv, t, d).value;
    var d' := d.(filename := Resolved(Resolve(rv, d).value));
    assert t'.objs == t.objs + [d'];
    assert Names(d') == Names(d);
    assert forall k :: k in t.locMap ==> k in t'.locMap;
    forall i, k | 0 <= i < |t'.objs| && Kept(t'.objs[i]) && k in Names(t'.objs[i])
      ensures k in t'.locMap
    {
      if i < |t.objs| {
        assert t'.objs[i] == t.objs[i];
      }
    }
  }

  lemma {:induction false} SeparateNamesCovered(rv: Resolver, objs: seq<Decl>)
    requires AllRaw(objs) && Separate(rv, objs).Ok?
    ensures NamesCovered(Separate(rv, objs).value)
  {
    if objs != [] {
      var init := objs[..|objs| - 1];
      SeparateNamesCovered(rv, init);
      StepKeepsNamesCovered(rv, Separate(rv, init).value, objs[|objs| - 1]);
    }
  }

  /** Record `i` is the last kept record of `objs` that carries the name `k`. */
  predicate LastWriter(objs: seq<Decl>, i: int, k: string) {
    0 <= i < |objs| && Kept(objs[i]) && k in Names(objs[i])
    && forall j :: i < j < |objs| && Kept(objs[j]) ==> k !in Names(objs[j])
  }

  /** Every `loc_map` entry is the module of the last kept record that carries the name. */
  ghost predicate LocMapByLastWriter(t: Tables) {
    forall k :: k in t.locMap ==> exists i :: LastWriter(t.objs, i, k) && t.locMap[k] == t.objs[i].filename.name
  }

  lemma StepKeepsLastWriter(rv: Resolver, t: Tables, d: Decl)
    requires d.filename.RawPath? && Step(rv, t, d).Ok? && LocMapByLastWriter(t)
    ensures LocMapByLastWriter(Step(rv, t, d).value)
  {
    var t' := Step(rv, t, d).value;
    var n := Resolve(rv, d).value;
    var d' := d.(filename := Resolved(n));
    assert t'.objs == t.objs + [d'];
    assert Names(d') == Names(d);
    forall k | k in t'.locMap
      ensures exists i :: LastWriter(t'.objs, i, k) && t'.locMap[k] == t'.objs[i].filename.name
    {
      if Kept(d') && k in Names(d) {
        assert t'.locMap[k] == n;
        NewLastWriter(t.objs, d', k);
      } else {
        assert k in t.locMap && t'.locMap[k] == t.locMap[k];
        var i :| LastWriter(t.objs, i, k) && t.locMap[k] == t.objs[i].filename.name;
        OldLastWriter(t.objs, d', i, k);
      }
    }
  }

  lemma NewLastWriter(objs: seq<Decl>, d: Decl, k: string)
    requires Kept(d) && k in Names(d)
    ensures LastWriter(objs + [d], |objs|, k) && (objs + [d])[|objs|] == d
  {
  }

  lemma OldLastWriter(objs: seq<Decl>, d: Decl, i: int, k: string)
    requires LastWriter(objs, i, k) && !(Kept(d) && k in Names(d))
    ensures LastWriter(objs + [d], i, k) && (objs + [d])[i] == objs[i]
  {
  }

  /**
   * Every `loc_map` entry comes from a kept record that carries the name, and it is the
   * module of the LAST such record: later records overwrite earlier ones.
   */
  lemma {:induction false} LocMapLastWriterWins(rv: Resolver, objs: seq<Decl>)
    requires AllRaw(objs) && Separate(rv, objs).Ok?
    ensures var t := Separate(rv, objs).value;
      forall k :: k in t.locMap ==>
        exists i :: LastWriter(t.objs, i, k) && t.locMap[k] == t.objs[i].filename.name
  {
    if objs != [] {
      var init := objs[..|objs| - 1];
      LocMapLastWriterWins(rv, init);
      StepKeepsLastWriter(rv, Separate(rv, init).value, objs[|objs| - 1]);
    }
  }

  // ---------------------------------------------------------------------------
  // The shape of file_map

  /** The modules of the kept records, in record order (with repetitions). */
  function KeptNames(objs: seq<Decl>): (r: seq<ImportName>)
    ensures forall m :: m in r <==> exists i :: 0 <= i < |objs| && Kept(objs[i]) && objs[i].filename.name == m
  {
    if objs == [] then []
    else
      var init := objs[..|objs| - 1];
      var d := objs[|objs| - 1];
      assert forall j :: 0 <= j < |init| ==> init[j] == objs[j];
      KeptNames(init) + (if Kept(d) then [d.filename.name] else [])
  }

  /** The kept records that belong to module `m`, in record order. */
  function Grouped(objs: seq<Decl>, m: ImportName): (r: seq<Decl>)
    ensures forall d :: d in r ==> d in objs && Kept(d) && d.filename.name == m
  {
    if objs == [] then []
    else
      var d := objs[|objs| - 1];
      Grouped(objs[..|objs| - 1], m) + (if Kept(d) && d.filename.name == m then [d] else [])
  }

  lemma {:induction false} GroupedOfAbsent(objs: seq<Decl>, m: ImportName)
    requires m !in KeptNames(objs)
    ensures Grouped(objs, m) == []
  {
    if objs != [] {
      GroupedOfAbsent(objs[..|objs| - 1], m);
    }
  }

  lemma KeptNamesSnoc(objs: seq<Decl>, d: Decl)
    ensures KeptNames(objs + [d]) == KeptNames(objs) + (if Kept(d) then [d.filename.name] else [])
  {
    assert (objs + [d])[..|objs|] == objs;
  }

  lemma GroupedSnoc(objs: seq<Decl>, d: Decl, m: ImportName)
    ensures Grouped(objs + [d], m) == Grouped(objs, m) + (if Kept(d) && d.filename.name == m then [d] else [])
  {
    assert (objs + [d])[..|objs|] == objs;
  }

  lemma DedupSnoc<T(!new)>(xs: seq<T>, x: T)
    ensures Dedup(xs + [x]) == Dedup(xs) + (if x in xs then [] else [x])
  {
    assert (xs + [x])[..|xs|] == xs;
  }

  /**
   * `file_map` has a key for exactly the modules of the kept records, in order of their
   * first record, and maps each to that module's records in record order.
   */
  ghost predicate FileMapShape(t: Tables) {
    ValidFileMap(t.fileMap)
    && t.fileMap.keys == Dedup(KeptNames(t.objs))
    && (forall m :: m in t.fileMap.entries <==> m in KeptNames(t.objs))
    && forall m :: m in t.fileMap.entries ==> t.fileMap.entries[m] == Grouped(t.objs, m)
  }

  lemma StepKeepsFileMapShape(rv: Resolver, t: Tables, d: Decl)
    requires d.filename.RawPath? && Step(rv, t, d).Ok? && FileMapShape(t)
    ensures FileMapShape(Step(rv, t, d).value)
  {
    var n := Resolve(rv, d).value;
    var d' := d.(filename := Resolved(n));
    if Kept(d') {
      KeptAppendKeepsShape(t, d');
    } else {
      UnkeptAppendKeepsShape(t, d');
    }
  }

  lemma UnkeptAppendKeepsShape(t: Tables, d: Decl)
    requires FileMapShape(t) && !Kept(d)
    ensures FileMapShape(t.(objs := t.objs + [d]))
  {
    KeptNamesSnoc(t.objs, d);
    assert KeptNames(t.objs + [d]) == KeptNames(t.objs);
    forall m {
      GroupedSnoc(t.objs, d, m);
    }
  }

  lemma KeptAppendKeepsShape(t: Tables, d: Decl)
    requires FileMapShape(t) && Kept(d)
    ensures FileMapShape(Tables(t.objs + [d], Append(t.fileMap, d.filename.name, d), t.locMap))
  {
    KeptAppendKeys(t, d);
    KeptAppendMembers(t, d);
    KeptAppendGroups(t, d);
  }

  lemma KeptAppendKeys(t: Tables, d: Decl)
    requires FileMapShape(t) && Kept(d)
    ensures Append(t.fileMap, d.filename.name, d).keys == Dedup(KeptNames(t.objs + [d]))
  {
    var n := d.filename.name;
    var ks := KeptNames(t.objs);
    KeptNamesSnoc(t.objs, d);
    DedupSnoc(ks, n);
    assert n in t.fileMap.entries <==> n in ks;
    calc {
      Dedup(KeptNames(t.objs + [d]));
      Dedup(ks + [n]);
      Dedup(ks) + (if n in ks then [] else [n]);
      Append(t.fileMap, n, d).keys;
    }
  }

  lemma KeptAppendMembers(t: Tables, d: Decl)
    requires FileMapShape(t) && Kept(d)
    ensures forall m :: m in Append(t.fileMap, d.filename.name, d).entries <==> m in KeptNames(t.objs + [d])
  {
    KeptNamesSnoc(t.objs, d);
  }

  lemma KeptAppendGroups(t: Tables, d: Decl)
    requires FileMapShape(t) && Kept(d)
    ensures var fm := Append(t.fileMap, d.filename.name, d);
      forall m :: m in fm.entries ==> fm.entries[m] == Grouped(t.objs + [d], m)
  {
    var n := d.filename.name;
    var fm := Append(t.fileMap, n, d);
    forall m | m in fm.entries
      ensures fm.entries[m] == Grouped(t.objs + [d], m)
    {
      GroupedSnoc(t.objs, d, m);
      if m == n && n !in t.fileMap.entries {
        GroupedOfAbsent(t.objs, n);
      }
    }
  }

  lemma {:induction false} FileMapGroupsByModule(rv: Resolver, objs: seq<Decl>)
    requires AllRaw(objs) && Separate(rv, objs).Ok?
    ensures FileMapShape(Separate(rv, objs).value)
  {
    if objs != [] {
      var init := objs[..|objs| - 1];
      FileMapGroupsByModule(rv, init);
      StepKeepsFileMapShape(rv, Separate(rv, init).value, objs[|objs| - 1]);
    }
  }

  // ---------------------------------------------------------------------------
  // read_src_data

  /** A tactic doc entry after `read_src_data`: an empty tag list becomes `['untagged']`. */
  function WithDefaultTag(e: TacticDoc): (r: TacticDoc)
    ensures r.tags != []
    ensures e.tags != [] ==> r == e
    ensures e.tags == [] ==> r.tags == ["untagged"]
    ensures r.(tags := e.tags) == e
  {
    if e.tags == [] then e.(tags := ["untagged"]) else e
  }

  /** The in-place tag defaulting loop over `tactic_docs`. */
  method DefaultTags(docs: array<TacticDoc>)
    modifies docs
    ensures forall i :: 0 <= i < docs.Length ==> docs[i] == WithDefaultTag(old(docs[i]))
  {
    for i := 0 to docs.Length
      invariant forall j :: 0 <= j < i ==> docs[j] == WithDefaultTag(old(docs[j]))
      invariant forall j :: i <= j < docs.Length ==> docs[j] == old(docs[j])
    {
      if |docs[i].tags| == 0 {
        docs[i] := docs[i].(tags := ["untagged"]);
      }
    }
  }

  /** `mod_docs` as it arrives: (raw file path, docs) pairs in the export's order. */
  type RawModDocs = seq<(Path, seq<ModDoc>)>

  /** The keys of the `mod_docs` dict comprehension, resolved in order; the first failure is raised. */
  function ResolveModDocs(rv: Resolver, modDocs: RawModDocs): (r: Result<seq<(ImportName, seq<ModDoc>)>, ResolveError>)
    ensures r.Ok? ==> |r.value| == |modDocs|
    ensures r.Ok? ==> forall i :: 0 <= i < |modDocs| ==>
      rv(modDocs[i].0) == Ok(r.value[i].0) && r.value[i].1 == modDocs[i].1
    ensures r.Err? ==> exists i :: FirstUnresolvedDoc(rv, modDocs, i) && rv(modDocs[i].0) == Err(r.error)
  {
    if modDocs == [] then Ok([])
    else
      match rv(modDocs[0].0)
      case Err(e) =>
        assert FirstUnresolvedDoc(rv, modDocs, 0);
        Err(e)
      case Ok(n) =>
        match ResolveModDocs(rv, modDocs[1..])
        case Err(e) =>
          var i :| FirstUnresolvedDoc(rv, modDocs[1..], i) && rv(modDocs[1..][i].0) == Err(e);
          assert forall j :: 1 <= j <= i + 1 ==> modDocs[j] == modDocs[1..][j - 1];
          assert FirstUnresolvedDoc(rv, modDocs, i + 1);
          Err(e)
        case Ok(rest) => Ok([(n, modDocs[0].1)] + rest)
  }

  /** Path `i` is the first of the module-doc paths that does not resolve. */
  predicate FirstUnresolvedDoc(rv: Resolver, modDocs: RawModDocs, i: int) {
    0 <= i < |modDocs| && rv(modDocs[i].0).Err? && forall j :: 0 <= j < i ==> rv(modDocs[j].0).Ok?
  }

  function PairKeys(pairs: seq<(ImportName, seq<ModDoc>)>): (r: seq<ImportName>)
    ensures |r| == |pairs| && forall i :: 0 <= i < |pairs| ==> r[i] == pairs[i].0
  {
    seq(|pairs|, i requires 0 <= i < |pairs| => pairs[i].0)
  }

  /** The dict the comprehension builds: a later pair with the same key overwrites. */
  function ToMap(pairs: seq<(ImportName, seq<ModDoc>)>): (r: map<ImportName, seq<ModDoc>>)
    ensures forall m :: m in r <==> m in PairKeys(pairs)
  {
    if pairs == [] then map[]
    else
      var init := pairs[..|pairs| - 1];
      assert PairKeys(pairs) == PairKeys(init) + [pairs[|pairs| - 1].0];
      ToMap(init)[pairs[|pairs| - 1].0 := pairs[|pairs| - 1].1]
  }

  /** The seeding loop: touches `file_map[m]` for every module with docs outside doc-gen. */
  function SeedAll(fm: FileMap, names: seq<ImportName>): (r: FileMap)
    ensures ValidFileMap(fm) ==> ValidFileMap(r)
    ensures forall m :: m in r.entries <==> m in fm.entries || (m in names && m.project != ".")
    ensures forall m :: m in fm.entries ==> r.entries[m] == fm.entries[m]
    ensures forall m :: m in r.entries && m !in fm.entries ==> r.entries[m] == []
  {
    if names == [] then fm
    else
      var prev := SeedAll(fm, names[..|names| - 1]);
      var m := names[|names| - 1];
      assert forall x :: x in names <==> x in names[..|names| - 1] || x == m;
      if m.project == "." then prev else Touch(prev, m)
  }

  datatype SrcData = SrcData(fileMap: FileMap, locMap: map<string, ImportName>, modDocs: map<ImportName, seq<ModDoc>>)

  /** What `read_src_data` returns (the notes and instances lists pass through and are not modelled). */
  function SrcDataOf(rv: Resolver, objs: seq<Decl>, modDocs: RawModDocs): Result<SrcData, ResolveError>
    requires AllRaw(objs)
  {
    match Separate(rv, objs)
    case Err(e) => Err(e)
    case Ok(t) =>
      match ResolveModDocs(rv, modDocs)
      case Err(e) => Err(e)
      case Ok(pairs) => Ok(SrcData(SeedAll(t.fileMap, Dedup(PairKeys(pairs))), t.locMap, ToMap(pairs)))
  }

  /** The `mod_docs` dict comprehension: values by key, keys in order of first insertion. */
  method BuildModDocs(pairs: seq<(ImportName, seq<ModDoc>)>)
      returns (docs: map<ImportName, seq<ModDoc>>, keys: seq<ImportName>)
    ensures docs == ToMap(pairs) && keys == Dedup(PairKeys(pairs))
  {
    docs := map[];
    keys := [];
    for i := 0 to |pairs|
      invariant docs == ToMap(pairs[..i])
      invariant keys == Dedup(PairKeys(pairs[..i]))
    {
      ModDocsSnoc(pairs, i);
      if pairs[i].0 !in docs {
        keys := keys + [pairs[i].0];
      }
      docs := docs[pairs[i].0 := pairs[i].1];
    }
    assert pairs[..|pairs|] == pairs;
  }

  lemma ModDocsSnoc(pairs: seq<(ImportName, seq<ModDoc>)>, i: nat)
    requires i < |pairs|
    ensures ToMap(pairs[..i + 1]) == ToMap(pairs[..i])[pairs[i].0 := pairs[i].1]
    ensures Dedup(PairKeys(pairs[..i + 1])) ==
      Dedup(PairKeys(pairs[..i])) + (if pairs[i].0 in ToMap(pairs[..i]) then [] else [pairs[i].0])
  {
    assert pairs[..i + 1][..i] == pairs[..i];
    assert PairKeys(pairs[..i + 1]) == PairKeys(pairs[..i]) + [pairs[i].0];
    DedupSnoc(PairKeys(pairs[..i]), pairs[i].0);
  }

  /** The loop over `mod_docs` that touches `file_map[i_name]` for each module outside doc-gen. */
  method SeedModules(fm: FileMap, keys: seq<ImportName>) returns (r: FileMap)
    ensures r == SeedAll(fm, keys)
  {
    r := fm;
    for i := 0 to |keys|
      invariant r == SeedAll(fm, keys[..i])
    {
      assert keys[..i + 1][..i] == keys[..i];
      if keys[i].project != "." {
        r := Touch(r, keys[i]);
      }
    }
    assert keys[..|keys|] == keys;
  }

  /**
   * `read_src_data` after the JSON is loaded: separates the declarations, defaults the
   * tactic tags, resolves the module-doc files and makes sure every documented module
   * outside doc-gen has a `file_map` entry, even one without declarations.
   */
  method ReadSrcData(roots: seq<Root>, objs: array<Decl>, tacticDocs: array<TacticDoc>, modDocs: RawModDocs)
      returns (r: Result<SrcData, ResolveError>)
    requires AllRaw(objs[..])
    modifies objs, tacticDocs
    ensures r == SrcDataOf(OfRoots(roots), old(objs[..]), modDocs)
    ensures Separate(OfRoots(roots), old(objs[..])).Ok? ==>
      objs[..] == Separate(OfRoots(roots), old(objs[..])).value.objs
      && forall i :: 0 <= i < tacticDocs.Length ==> tacticDocs[i] == WithDefaultTag(old(tacticDocs[i]))
    ensures Separate(OfRoots(roots), old(objs[..])).Err? ==> tacticDocs[..] == old(tacticDocs[..])
  {
    ghost var input := objs[..];
    var sep := SeparateResults(roots, objs);
    if sep.Err? {
      return Err(sep.error);
    }
    var (fileMap, locMap) := sep.value;
    DefaultTags(tacticDocs);
    var res := ResolveModDocs(OfRoots(roots), modDocs);
    if res.Err? {
      return Err(res.error);
    }
    var pairs := res.value;
    var docs, keys := BuildModDocs(pairs);
    fileMap := SeedModules(fileMap, keys);
    r := Ok(SrcData(fileMap, locMap, docs));
  }

  /**
   * After `read_src_data`, `file_map` has an entry for exactly the modules that hold a
   * kept declaration or have module docs (outside doc-gen), and the entry of each is
   * its declarations in export order (empty for a module with docs only).
   */
  lemma ReadSrcDataCoversModules(rv: Resolver, objs: seq<Decl>, modDocs: RawModDocs)
    requires AllRaw(objs) && SrcDataOf(rv, objs, modDocs).Ok?
    ensures var s := SrcDataOf(rv, objs, modDocs).value;
      var t := Separate(rv, objs).value;
      ValidFileMap(s.fileMap)
      && (forall m :: m in s.fileMap.entries <==> m in KeptNames(t.objs) || (m in s.modDocs && m.project != "."))
      && forall m :: m in s.fileMap.entries ==> s.fileMap.entries[m] == Grouped(t.objs, m)
  {
    var t := Separate(rv, objs).value;
    FileMapGroupsByModule(rv, objs);
    forall m | m !in KeptNames(t.objs) {
      GroupedOfAbsent(t.objs, m);
    }
  }
}
