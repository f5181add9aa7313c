/**
 * The import graph of `trace_deps` (print_docs.py): one node per module of
 * `file_map`, and an edge from a module to every dependency the Lean binary
 * reports for it that names a known module.  The dependency query itself is an
 * input (`deps`), already split into paths.
 */
module DepGraph {
  import opened Wrappers
  import opened ImportNames
  import opened DocTables

  datatype Graph = Graph(nodes: set<ImportName>, edges: set<(ImportName, ImportName)>)

  /** The graph with the two counters the run reports: links seen and links resolved. */
  datatype DepTrace = DepTrace(graph: Graph, n: nat, nOk: nat)

  /** What the dependency query reports for a module file, already split into paths. */
  type DepQuery = Path -> seq<Path>

  /** `import_name_by_path`: raw path to module, built over the keys in order (a later key wins). */
  function ByPath(keys: seq<ImportName>): (r: map<Path, ImportName>)
    ensures forall p :: p in r ==> r[p] in keys && r[p].rawPath == p
    ensures forall k :: k in keys ==> k.rawPath in r
  {
    if keys == [] then map[]
    else
      var init := keys[..|keys| - 1];
      assert forall k :: k in keys ==> k in init || k == keys[|keys| - 1];
      ByPath(init)[keys[|keys| - 1].rawPath := keys[|keys| - 1]]
  }

  /** `Path(p).with_suffix('.lean')`: `None` where it raises ValueError (an empty file name). */
  function LeanFile(p: Path): (r: Option<Path>)
    ensures r.None? <==> FileName(p) == ""
  {
    WithSuffix(p, ".lean")
  }

  /**
   * A map from a reported dependency to the source file it names (`LeanFile` in the
   * generator); the graph-building lemmas hold for any such map.
   */
  type FileOf = Path -> Option<Path>

  /** The reported dependency `p` names the known module `b`. */
  predicate LinksTo(norm: FileOf, byPath: map<Path, ImportName>, p: Path, b: ImportName) {
    norm(p).Some? && norm(p).value in byPath && byPath[norm(p).value] == b
  }

  /** The known modules named by the dependencies `ps`, in order. */
  function Targets(norm: FileOf, byPath: map<Path, ImportName>, ps: seq<Path>): (r: seq<ImportName>)
    ensures |r| <= |ps|
  {
    if ps == [] then []
    else
      var q := norm(ps[|ps| - 1]);
      Targets(norm, byPath, ps[..|ps| - 1]) + (if q.Some? && q.value in byPath then [byPath[q.value]] else [])
  }

  /** A module is a target exactly when some reported dependency names it. */
  lemma {:induction false} TargetsAreLinks(norm: FileOf, byPath: map<Path, ImportName>, ps: seq<Path>)
    ensures forall b :: b in Targets(norm, byPath, ps) <==> exists p :: p in ps && LinksTo(norm, byPath, p, b)
  {
    if ps != [] {
      var init := ps[..|ps| - 1];
      var p := ps[|ps| - 1];
      TargetsAreLinks(norm, byPath, init);
      assert forall q :: q in ps <==> q in init || q == p;
      forall b | b in Targets(norm, byPath, ps)
        ensures exists p :: p in ps && LinksTo(norm, byPath, p, b)
      {
        if b !in Targets(norm, byPath, init) {
          assert LinksTo(norm, byPath, p, b);
        }
      }
    }
  }

  /** One dependency link of module `k`; an empty file name is the ValueError of `with_suffix`. */
  function LinkStep(norm: FileOf, byPath: map<Path, ImportName>, k: ImportName, p: Path, t: DepTrace): Result<DepTrace, Path> {
    match norm(p)
    case None => Err(p)
    case Some(q) =>
      if q in byPath then
        Ok(DepTrace(Graph(t.graph.nodes + {k, byPath[q]}, t.graph.edges + {(k, byPath[q])}), t.n + 1, t.nOk + 1))
      else Ok(t.(n := t.n + 1))
  }

  /** The inner loop of `trace_deps` over the dependencies `ps` of module `k`. */
  function AddLinks(norm: FileOf, byPath: map<Path, ImportName>, k: ImportName, ps: seq<Path>, t: DepTrace): Result<DepTrace, Path> {
    if ps == [] then Ok(t)
    else
      match AddLinks(norm, byPath, k, ps[..|ps| - 1], t)
      case Err(e) => Err(e)
      case Ok(t') => LinkStep(norm, byPath, k, ps[|ps| - 1], t')
  }

  /** `graph.add_node(k)`. */
  function WithNode(t: DepTrace, k: ImportName): DepTrace {
    t.(graph := t.graph.(nodes := t.graph.nodes + {k}))
  }

  /** The outer loop of `trace_deps` over the modules `keys`. */
  function Trace(norm: FileOf, byPath: map<Path, ImportName>, keys: seq<ImportName>, deps: DepQuery): Result<DepTrace, Path> {
    if keys == [] then Ok(DepTrace(Graph({}, {}), 0, 0))
    else
      var k := keys[|keys| - 1];
      match Trace(norm, byPath, keys[..|keys| - 1], deps)
      case Err(e) => Err(e)
      case Ok(t) => AddLinks(norm, byPath, k, deps(k.rawPath), WithNode(t, k))
  }

  /** What `trace_deps` computes over `file_map`'s keys. */
  function TraceDepsOf(keys: seq<ImportName>, deps: DepQuery): Result<DepTrace, Path> {
    Trace(LeanFile, ByPath(keys), keys, deps)
  }

  /**
   * `trace_deps`: adds a node per module and an edge per dependency that names a
   * known module, counting the links seen and the links kept.
   */
  method TraceDeps(fileMap: FileMap, deps: DepQuery) returns (r: Result<DepTrace, Path>)
    ensures r == TraceDepsOf(fileMap.keys, deps)
  {
    var keys := fileMap.keys;
    var byPath := IndexByPath(keys);
    var t := DepTrace(Graph({}, {}), 0, 0);
    for i := 0 to |keys|
      invariant Trace(LeanFile, byPath, keys[..i], deps) == Ok(t)
    {
      TraceSnoc(LeanFile, byPath, keys, deps, i);
      var k := keys[i];
      var res := LinkModule(byPath, k, deps(k.rawPath), WithNode(t, k));
      if res.Err? {
        TraceKeepsError(LeanFile, byPath, keys, deps, i + 1);
        return res;
      }
      t := res.value;
    }
    assert keys[..|keys|] == keys;
    r := Ok(t);
  }

  lemma TraceSnoc(norm: FileOf, byPath: map<Path, ImportName>, keys: seq<ImportName>, deps: DepQuery, i: nat)
    requires i < |keys|
    ensures Trace(norm, byPath, keys[..i], deps).Err? ==>
      Trace(norm, byPath, keys[..i + 1], deps) == Trace(norm, byPath, keys[..i], deps)
    ensures Trace(norm, byPath, keys[..i], deps).Ok? ==>
      Trace(norm, byPath, keys[..i + 1], deps)
      == AddLinks(norm, byPath, keys[i], deps(keys[i].rawPath), WithNode(Trace(norm, byPath, keys[..i], deps).value, keys[i]))
  {
    assert keys[..i + 1][..i] == keys[..i];
  }

  /** The dict comprehension `import_name_by_path`. */
  method IndexByPath(keys: seq<ImportName>) returns (byPath: map<Path, ImportName>)
    ensures byPath == ByPath(keys)
  {
    byPath := map[];
    for i := 0 to |keys|
      invariant byPath == ByPath(keys[..i])
    {
      assert keys[..i + 1][..i] == keys[..i];
      byPath := byPath[keys[i].rawPath := keys[i]];
    }
    assert keys[..|keys|] == keys;
  }

  /** The inner loop: one link per reported dependency. */
  method LinkModule(byPath: map<Path, ImportName>, k: ImportName, ps: seq<Path>, t0: DepTrace)
      returns (r: Result<DepTrace, Path>)
    ensures r == AddLinks(LeanFile, byPath, k, ps, t0)
  {
    var nodes, edges, n, nOk := t0.graph.nodes, t0.graph.edges, t0.n, t0.nOk;
    for j := 0 to |ps|
      invariant AddLinks(LeanFile, byPath, k, ps[..j], t0) == Ok(DepTrace(Graph(nodes, edges), n, nOk))
    {
      assert ps[..j + 1][..j] == ps[..j];
      n := n + 1;
      var q := LeanFile(ps[j]);
      if q.None? {
        AddLinksKeepsError(LeanFile, byPath, k, ps, t0, j + 1);
        return Err(ps[j]);
      }
      if q.value in byPath {
        var target := byPath[q.value];
        nodes := nodes + {k, target};
        edges := edges + {(k, target)};
        nOk := nOk + 1;
      }
    }
    assert ps[..|ps|] == ps;
    r := Ok(DepTrace(Graph(nodes, edges), n, nOk));
  }

  lemma {:induction false} AddLinksKeepsError(norm: FileOf, byPath: map<Path, ImportName>, k: ImportName, ps: seq<Path>, t: DepTrace, j: nat)
    requires j <= |ps| && AddLinks(norm, byPath, k, ps[..j], t).Err?
    ensures AddLinks(norm, byPath, k, ps, t) == AddLinks(norm, byPath, k, ps[..j], t)
    decreases |ps| - j
  {
    if j < |ps| {
      assert ps[..j + 1][..j] == ps[..j];
      AddLinksKeepsError(norm, byPath, k, ps, t, j + 1);
    } else {
      assert ps[..j] == ps;
    }
  }

  lemma {:induction false} TraceKeepsError(norm: FileOf, byPath: map<Path, ImportName>, keys: seq<ImportName>, deps: DepQuery, i: nat)
    requires i <= |keys| && Trace(norm, byPath, keys[..i], deps).Err?
    ensures Trace(norm, byPath, keys, deps) == Trace(norm, byPath, keys[..i], deps)
    decreases |keys| - i
  {
    if i < |keys| {
      assert keys[..i + 1][..i] == keys[..i];
      TraceKeepsError(norm, byPath, keys, deps, i + 1);
    } else {
      assert keys[..i] == keys;
    }
  }

  // ---------------------------------------------------------------------------
  // What the graph holds

  /** Every link of one module: its targets become nodes and edges, and the counters grow by the links seen and kept. */
  lemma {:induction false} AddLinksAdds(norm: FileOf, byPath: map<Path, ImportName>, k: ImportName, ps: seq<Path>, t: DepTrace)
    requires AddLinks(norm, byPath, k, ps, t).Ok?
    ensures var t' := AddLinks(norm, byPath, k, ps, t).value;
      && t'.graph.nodes == t.graph.nodes + (if Targets(norm, byPath, ps) == [] then {} else {k}) + (set b | b in Targets(norm, byPath, ps))
      && t'.graph.edges == t.graph.edges + (set b | b in Targets(norm, byPath, ps) :: (k, b))
      && t'.n == t.n + |ps|
      && t'.nOk == t.nOk + |Targets(norm, byPath, ps)|
  {
    if ps != [] {
      var init := ps[..|ps| - 1];
      AddLinksAdds(norm, byPath, k, init, t);
    }
  }

  /** Every reported dependency in `ps` names a file. */
  predicate AllNamed(norm: FileOf, ps: seq<Path>) {
    forall j :: 0 <= j < |ps| ==> norm(ps[j]).Some?
  }

  /** Every reported dependency of every module names a file: the only case `trace_deps` completes. */
  predicate AllModulesNamed(norm: FileOf, keys: seq<ImportName>, deps: DepQuery) {
    forall i :: 0 <= i < |keys| ==> AllNamed(norm, deps(keys[i].rawPath))
  }

  /** The edges of the graph: every module to each known module its dependencies name. */
  function Edges(norm: FileOf, byPath: map<Path, ImportName>, keys: seq<ImportName>, deps: DepQuery): set<(ImportName, ImportName)> {
    set a, b | a in keys && b in Targets(norm, byPath, deps(a.rawPath)) :: (a, b)
  }

  /** Every known module that some dependency of `keys` names. */
  function AllTargets(norm: FileOf, byPath: map<Path, ImportName>, keys: seq<ImportName>, deps: DepQuery): set<ImportName> {
    set a, b | a in keys && b in Targets(norm, byPath, deps(a.rawPath)) :: b
  }

  /** The total number of dependency links reported for `keys`. */
  function LinkCount(keys: seq<ImportName>, deps: DepQuery): nat {
    if keys == [] then 0 else LinkCount(keys[..|keys| - 1], deps) + |deps(keys[|keys| - 1].rawPath)|
  }

  lemma {:induction false} AddLinksOkIffNamed(norm: FileOf, byPath: map<Path, ImportName>, k: ImportName, ps: seq<Path>, t: DepTrace)
    ensures AddLinks(norm, byPath, k, ps, t).Ok? <==> AllNamed(norm, ps)
  {
    if ps != [] {
      var init := ps[..|ps| - 1];
      AddLinksOkIffNamed(norm, byPath, k, init, t);
      assert forall j :: 0 <= j < |init| ==> init[j] == ps[j];
    }
  }

  lemma AllModulesNamedSnoc(norm: FileOf, keys: seq<ImportName>, deps: DepQuery)
    requires keys != []
    ensures AllModulesNamed(norm, keys, deps) <==>
      AllModulesNamed(norm, keys[..|keys| - 1], deps) && AllNamed(norm, deps(keys[|keys| - 1].rawPath))
  {
    var init := keys[..|keys| - 1];
    assert forall i :: 0 <= i < |init| ==> init[i] == keys[i];
  }

  /** The fold `Trace` fails exactly when some reported dependency names no file. */
  lemma {:induction false} TraceOkIff(norm: FileOf, byPath: map<Path, ImportName>, keys: seq<ImportName>, deps: DepQuery)
    ensures Trace(norm, byPath, keys, deps).Ok? <==> AllModulesNamed(norm, keys, deps)
  {
    if keys != [] {
      var init := keys[..|keys| - 1];
      var k := keys[|keys| - 1];
      TraceOkIff(norm, byPath, init, deps);
      AllModulesNamedSnoc(norm, keys, deps);
      var prev := Trace(norm, byPath, init, deps);
      if prev.Ok? {
        AddLinksOkIffNamed(norm, byPath, k, deps(k.rawPath), WithNode(prev.value, k));
      }
    }
  }

  /**
   * When `Trace` completes, its nodes are the modules and their targets, its edges
   * exactly the resolved links, `n` counts every link and `n_ok` at most as many.
   */
  lemma {:induction false} TraceShape(norm: FileOf, byPath: map<Path, ImportName>, keys: seq<ImportName>, deps: DepQuery)
    ensures Trace(norm, byPath, keys, deps).Ok? ==>
      var t := Trace(norm, byPath, keys, deps).value;
      && t.graph.nodes == (set k | k in keys) + AllTargets(norm, byPath, keys, deps)
      && t.graph.edges == Edges(norm, byPath, keys, deps)
      && t.n == LinkCount(keys, deps)
      && t.nOk <= t.n
  {
    if keys != [] {
      var init := keys[..|keys| - 1];
      var k := keys[|keys| - 1];
      TraceShape(norm, byPath, init, deps);
      var prev := Trace(norm, byPath, init, deps);
      if prev.Ok? && AddLinks(norm, byPath, k, deps(k.rawPath), WithNode(prev.value, k)).Ok? {
        AddLinksAdds(norm, byPath, k, deps(k.rawPath), WithNode(prev.value, k));
        TraceSetsSnoc(norm, byPath, keys, deps);
      }
    }
  }

  lemma TraceSetsSnoc(norm: FileOf, byPath: map<Path, ImportName>, keys: seq<ImportName>, deps: DepQuery)
    requires keys != []
    ensures var init := keys[..|keys| - 1];
      var k := keys[|keys| - 1];
      && (set a | a in keys) == (set a | a in init) + {k}
      && Edges(norm, byPath, keys, deps) == Edges(norm, byPath, init, deps) + (set b | b in Targets(norm, byPath, deps(k.rawPath)) :: (k, b))
      && AllTargets(norm, byPath, keys, deps) == AllTargets(norm, byPath, init, deps) + (set b | b in Targets(norm, byPath, deps(k.rawPath)))
  {
    var init := keys[..|keys| - 1];
    assert forall a :: a in keys <==> a in init || a == keys[|keys| - 1];
  }

  /**
   * `trace_deps` over `file_map`'s keys: it fails exactly when a reported dependency has
   * an empty file name; otherwise the nodes are exactly the modules and the edges exactly
   * the links that name a known module.
   */
  lemma TraceDepsShape(keys: seq<ImportName>, deps: DepQuery)
    ensures TraceDepsOf(keys, deps).Ok? <==>
      forall i, j :: 0 <= i < |keys| && 0 <= j < |deps(keys[i].rawPath)| ==> FileName(deps(keys[i].rawPath)[j]) != ""
    ensures TraceDepsOf(keys, deps).Ok? ==>
      var t := TraceDepsOf(keys, deps).value;
      && t.graph.nodes == set k | k in keys
      && t.graph.edges == Edges(LeanFile, ByPath(keys), keys, deps)
      && t.n == LinkCount(keys, deps)
      && t.nOk <= t.n
  {
    TraceOkIff(LeanFile, ByPath(keys), keys, deps);
    TraceShape(LeanFile, ByPath(keys), keys, deps);
    forall b | b in AllTargets(LeanFile, ByPath(keys), keys, deps)
      ensures b in keys
    {
      var a :| a in keys && b in Targets(LeanFile, ByPath(keys), deps(a.rawPath));
      TargetsAreLinks(LeanFile, ByPath(keys), deps(a.rawPath));
      var p :| p in deps(a.rawPath) && LinksTo(LeanFile, ByPath(keys), p, b);
    }
  }
}
