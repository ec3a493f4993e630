/** The dependency analyser of a service model: a vertex pass over the model at every
    depth, an edge pass over the top-level entries that aborts on the first edge closing
    a cycle, and an annotation pass that records, for each top-level entry, the entries
    producing the results its own result reads. */
module AutoDeps {
  import opened Wrappers
  import opened Dag
  import opened SrvModel

  /** The analysis failure surfaced to the caller. */
  datatype SortingError = DuplicateEntry(key: string) | Cycle(cause: CycleError)

  /** A key of the analyser's entry map. Entries are stored under their names; the
      duplicate check looks the map up with the map object itself as the key, written
      `SelfRef` here, and nothing is ever stored under it. */
  datatype LookupKey = Named(name: string) | SelfRef

  /** What the vertex pass accumulates: the graph, the entry map, and for each result
      name the key of the entry producing it. */
  datatype Registry = Registry(graph: Graph, entryMap: map<LookupKey, Value>, producer: map<string, string>)

  const NoEntries: Registry := Registry(Empty, map[], map[])

  // ---------------------------------------------------------------------------
  // Vertex pass

  /** Registers one entry: a vertex for its key, and when it declares a return path a
      vertex for the result name, which is then recorded as produced by this entry. The
      duplicate check compares against the value stored under `SelfRef`, so it passes
      whenever nothing is stored there. */
  function RegisterEntry(reg: Registry, e: Entry): (r: Result<Registry, SortingError>)
    requires Valid(reg.graph)
    ensures SelfRef !in reg.entryMap ==> r.Success?
    ensures r.Success? ==>
              && Valid(r.value.graph)
              && (SelfRef in r.value.entryMap <==> SelfRef in reg.entryMap)
              && (forall x :: HasVertex(r.value.graph, x) <==> HasVertex(reg.graph, x) || x == e.key || Declares(e, x))
              && (forall x :: ParentsOf(r.value.graph, x) == ParentsOf(reg.graph, x))
              && (forall n :: n in r.value.producer <==> n in reg.producer || Declares(e, n))
              && (forall n :: Declares(e, n) ==> r.value.producer[n] == e.key)
              && (forall n :: n in reg.producer && !Declares(e, n) ==> r.value.producer[n] == reg.producer[n])
  {
    if HasVertex(reg.graph, e.key) && SelfRef in reg.entryMap && reg.entryMap[SelfRef] != e.value then
      Failure(DuplicateEntry(e.key))
    else
      var g := AddVertex(reg.graph, e.key);
      var em := reg.entryMap[Named(e.key) := e.value];
      match ReturnPathOf(e)
      case None => Success(Registry(g, em, reg.producer))
      case Some(rp) => Success(Registry(AddVertex(g, rp.name), em, reg.producer[rp.name := e.key]))
  }

  /** Some entry of `es` publishes a result under `n`. */
  predicate DeclaredIn(es: seq<Entry>, n: string) {
    exists e :: e in es && Declares(e, n)
  }

  /** Some entry of `es` has the key `x` or publishes a result under `x`. */
  predicate NamedIn(es: seq<Entry>, x: string) {
    exists e :: e in es && (e.key == x || Declares(e, x))
  }

  /** Some entry of `es` with the key `k` publishes a result under `n`. */
  predicate DeclaredBy(es: seq<Entry>, n: string, k: string) {
    exists e :: e in es && Declares(e, n) && e.key == k
  }

  /** `es[i]` is the last entry of `es` publishing a result under `n`. */
  predicate LastDeclarer(es: seq<Entry>, i: int, n: string) {
    0 <= i < |es| && Declares(es[i], n) && forall j :: i < j < |es| ==> !Declares(es[j], n)
  }

  lemma EntriesCons(es: seq<Entry>)
    requires es != []
    ensures forall n :: DeclaredIn(es, n) <==> Declares(es[0], n) || DeclaredIn(es[1..], n)
    ensures forall x :: NamedIn(es, x) <==> es[0].key == x || Declares(es[0], x) || NamedIn(es[1..], x)
    ensures forall n, k :: DeclaredBy(es, n, k) <==> (Declares(es[0], n) && es[0].key == k) || DeclaredBy(es[1..], n, k)
    ensures forall i, n :: 0 < i && LastDeclarer(es, i, n) ==> LastDeclarer(es[1..], i - 1, n)
    ensures forall n :: LastDeclarer(es, 0, n) ==> !DeclaredIn(es[1..], n)
  {
    assert forall e :: e in es <==> e == es[0] || e in es[1..];
    forall i, n | 0 < i && LastDeclarer(es, i, n)
      ensures LastDeclarer(es[1..], i - 1, n)
    {
      forall j | i - 1 < j < |es[1..]|
        ensures !Declares(es[1..][j], n)
      {
        assert es[1..][j] == es[j + 1];
      }
    }
    forall n | LastDeclarer(es, 0, n)
      ensures !DeclaredIn(es[1..], n)
    {
      forall e | e in es[1..]
        ensures !Declares(e, n)
      {
        var k :| 0 <= k < |es[1..]| && es[1..][k] == e;
        assert es[k + 1] == e;
      }
    }
  }

  /** Registers the entries of `es` in order. It never fails, never adds an edge, and a
      result name declared more than once ends up produced by its last declarer. */
  function RegisterAll(reg: Registry, es: seq<Entry>): (r: Result<Registry, SortingError>)
    requires Valid(reg.graph) && SelfRef !in reg.entryMap
    ensures r.Success?
    ensures Valid(r.value.graph) && SelfRef !in r.value.entryMap
    ensures forall x :: HasVertex(r.value.graph, x) <==> HasVertex(reg.graph, x) || NamedIn(es, x)
    ensures forall x :: ParentsOf(r.value.graph, x) == ParentsOf(reg.graph, x)
    ensures forall n :: n in r.value.producer <==> n in reg.producer || DeclaredIn(es, n)
    ensures forall n :: n in reg.producer && !DeclaredIn(es, n) ==> r.value.producer[n] == reg.producer[n]
    ensures forall i, n :: LastDeclarer(es, i, n) ==> n in r.value.producer && r.value.producer[n] == es[i].key
    ensures forall n :: n in r.value.producer ==>
              (n in reg.producer && r.value.producer[n] == reg.producer[n]) || DeclaredBy(es, n, r.value.producer[n])
    decreases |es|
  {
    if es == [] then Success(reg)
    else
      match RegisterEntry(reg, es[0])
      case Failure(err) => Failure(err)
      case Success(reg1) =>
        EntriesCons(es);
        RegisterAll(reg1, es[1..])
  }

  /** The vertex pass: registers every entry at every depth, in descent order. It never
      fails (the duplicate check is dead), it adds no edges, its vertices are exactly the
      keys and declared result names at every depth, and each declared result name is
      produced by the last entry, in descent order, that declares it. */
  function VertexPass(m: Model): (r: Result<Registry, SortingError>)
    ensures r.Success?
    ensures Valid(r.value.graph)
    ensures forall x :: HasVertex(r.value.graph, x) <==> NamedIn(Flatten(m), x)
    ensures forall x :: ParentsOf(r.value.graph, x) == []
    ensures forall n :: n in r.value.producer <==> DeclaredIn(Flatten(m), n)
    ensures forall i, n :: LastDeclarer(Flatten(m), i, n) ==>
              n in r.value.producer && r.value.producer[n] == Flatten(m)[i].key
    ensures forall n :: n in r.value.producer ==> DeclaredBy(Flatten(m), n, r.value.producer[n])
  {
    EmptyIsValid();
    RegisterAll(NoEntries, Flatten(m))
  }

  // ---------------------------------------------------------------------------
  // Edge pass

  /** `u -> v` is one of the edges entry `e` asks for: its result name before its own
      key, and each of its inputs before its result name. */
  predicate DeclaresEdge(e: Entry, u: string, v: string) {
    match ReturnPathOf(e)
    case None => false
    case Some(rp) => (u == rp.name && v == e.key) || (u in rp.inPaths && v == rp.name)
  }

  /** The edges from each of the inputs `ins` to the result name `name`, in input order. */
  function InputEdges(name: string, ins: seq<string>): (r: seq<EdgeSpec>)
    ensures forall u, v :: (u, v) in r <==> u in ins && v == name
  {
    if ins == [] then []
    else
      var r := [(ins[0], name)] + InputEdges(name, ins[1..]);
      assert forall u :: u in ins <==> u == ins[0] || u in ins[1..];
      r
  }

  /** The edges one entry adds, in insertion order: none without a return path;
      otherwise the edge into the entry's key first, then one per input. */
  function EntryEdges(e: Entry): (r: seq<EdgeSpec>)
    ensures forall u, v :: (u, v) in r <==> DeclaresEdge(e, u, v)
  {
    match ReturnPathOf(e)
    case None => []
    case Some(rp) => [(rp.name, e.key)] + InputEdges(rp.name, rp.inPaths)
  }

  /** The edges the edge pass adds for the entries `es`, in insertion order. */
  function DeclaredEdges(es: seq<Entry>): (r: seq<EdgeSpec>)
    ensures forall u, v :: (u, v) in r <==> exists e :: e in es && DeclaresEdge(e, u, v)
  {
    if es == [] then []
    else
      var r := EntryEdges(es[0]) + DeclaredEdges(es[1..]);
      assert forall u, v :: (exists e :: e in es && DeclaresEdge(e, u, v)) <==>
                            DeclaresEdge(es[0], u, v) || exists e :: e in es[1..] && DeclaresEdge(e, u, v) by {
        forall u, v, e | e in es && DeclaresEdge(e, u, v) && e != es[0]
          ensures e in es[1..]
        {
        }
        forall e | e in es[1..]
          ensures e in es
        {
        }
      }
      r
  }

  /** The edge pass: the edges of the top-level entries only, inserted in order, with
      the whole pass failing on the first edge that would close a cycle. */
  function EdgePass(g: Graph, m: Model): Result<Graph, CycleError>
    requires Valid(g)
  {
    AddEdges(g, DeclaredEdges(m.entries))
  }

  /** The graph the two passes describe, every declared edge inserted without a check. */
  function DependencyGraph(m: Model): Graph {
    ConnectAll(VertexPass(m).value.graph, DeclaredEdges(m.entries))
  }

  /** The parents of a vertex of the dependency graph are the sources of the declared
      edges into it, in insertion order. */
  lemma DependencyGraphParents(m: Model)
    ensures Valid(DependencyGraph(m))
    ensures forall x :: ParentsOf(DependencyGraph(m), x) == ParentsIn(DeclaredEdges(m.entries), x)
  {
  }

  /** Exactly the edges the top-level entries declare are in the dependency graph;
      entries of nested models contribute none. */
  lemma DependencyGraphEdges(m: Model)
    ensures forall u, v :: Edge(DependencyGraph(m), u, v) <==> exists e :: e in m.entries && DeclaresEdge(e, u, v)
  {
    var g := VertexPass(m).value.graph;
    forall u, v
      ensures Edge(DependencyGraph(m), u, v) <==> exists e :: e in m.entries && DeclaresEdge(e, u, v)
    {
      assert !Edge(g, u, v);
    }
  }

  /** The vertices of the dependency graph are the keys and result names at every depth
      and the endpoints of the declared edges, input names included. */
  lemma DependencyGraphVertices(m: Model)
    ensures forall x :: HasVertex(DependencyGraph(m), x) <==> NamedIn(Flatten(m), x) || Touches(DeclaredEdges(m.entries), x)
  {
  }

  // ---------------------------------------------------------------------------
  // Annotation pass

  /** The producers of those of `names` that are produced results, in order; names that
      are no result contribute nothing. */
  function Producers(producer: map<string, string>, names: seq<string>): (r: seq<string>)
    ensures |r| <= |names|
    ensures forall x :: x in r <==> exists n :: n in names && n in producer && producer[n] == x
  {
    if names == [] then []
    else
      var r := (if names[0] in producer then [producer[names[0]]] else []) + Producers(producer, names[1..]);
      assert forall n :: n in names <==> n == names[0] || n in names[1..];
      r
  }

  /** Two hops from the parents `ds` of an entry: for each parent that is a produced
      result, the producers of those of its own parents that are produced results. */
  function CollectFrom(g: Graph, producer: map<string, string>, ds: seq<string>): (r: seq<string>)
    ensures forall x :: x in r <==>
              exists d :: d in ds && d in producer && x in Producers(producer, ParentsOf(g, d))
  {
    if ds == [] then []
    else
      var r := (if ds[0] in producer then Producers(producer, ParentsOf(g, ds[0])) else []) +
               CollectFrom(g, producer, ds[1..]);
      assert forall d :: d in ds <==> d == ds[0] || d in ds[1..];
      r
  }

  /** The depends-on list computed for the entry key `k`. */
  function Collect(g: Graph, producer: map<string, string>, k: string): seq<string> {
    CollectFrom(g, producer, ParentsOf(g, k))
  }

  /** The annotation loop over `order`: a name that is a top-level key, has parents and
      collects a non-empty list gets that list; every other name is skipped. */
  function AddDependsOn(keys: set<string>, g: Graph, producer: map<string, string>,
                        order: seq<string>, acc: map<string, seq<string>>): map<string, seq<string>>
    decreases |order|
  {
    if order == [] then acc
    else
      var name := order[0];
      var acc' :=
        if name !in keys then acc
        else if |ParentsOf(g, name)| > 0 && |Collect(g, producer, name)| > 0 then acc[name := Collect(g, producer, name)]
        else acc;
      AddDependsOn(keys, g, producer, order[1..], acc')
  }

  /** The annotations as a map: every top-level key whose two-hop list is non-empty,
      mapped to that list. */
  function Annotations(keys: set<string>, g: Graph, producer: map<string, string>): map<string, seq<string>> {
    map k | k in keys && Collect(g, producer, k) != [] :: Collect(g, producer, k)
  }

  /** `k` is a top-level key with a non-empty two-hop list. */
  predicate Annotated(keys: set<string>, g: Graph, producer: map<string, string>, k: string) {
    k in keys && Collect(g, producer, k) != []
  }

  /** The loop writes exactly the annotations of the top-level keys that occur in
      `order`, whatever their position, and leaves every other key of `acc` alone. */
  lemma {:induction false} AddDependsOnSpec(keys: set<string>, g: Graph, producer: map<string, string>,
                                            order: seq<string>, acc: map<string, seq<string>>)
    ensures forall k :: k in AddDependsOn(keys, g, producer, order, acc) <==>
              k in acc || (Annotated(keys, g, producer, k) && k in order)
    ensures forall k :: k in AddDependsOn(keys, g, producer, order, acc) ==>
              AddDependsOn(keys, g, producer, order, acc)[k] ==
                if Annotated(keys, g, producer, k) && k in order then Collect(g, producer, k) else acc[k]
    decreases |order|
  {
    if order != [] {
      var name := order[0];
      var acc' :=
        if name !in keys then acc
        else if |ParentsOf(g, name)| > 0 && |Collect(g, producer, name)| > 0 then acc[name := Collect(g, producer, name)]
        else acc;
      AddDependsOnSpec(keys, g, producer, order[1..], acc');
      assert forall k :: k in order <==> k == name || k in order[1..];
      assert Annotated(keys, g, producer, name) ==> |ParentsOf(g, name)| > 0;
    }
  }

  lemma EmptyUnion<K, V>(a: map<K, V>)
    ensures map[] + a == a
  {
  }

  /** Order independence: any order that lists every top-level key yields the same
      annotations. */
  lemma AnnotationsIgnoreOrder(keys: set<string>, g: Graph, producer: map<string, string>,
                               order: seq<string>, acc: map<string, seq<string>>)
    requires forall k :: k in keys ==> k in order
    ensures AddDependsOn(keys, g, producer, order, acc) == acc + Annotations(keys, g, producer)
  {
    AddDependsOnSpec(keys, g, producer, order, acc);
    assert AddDependsOn(keys, g, producer, order, acc) == acc + Annotations(keys, g, producer);
  }

  // ---------------------------------------------------------------------------
  // The analysis

  /** The order the annotation pass walks. The sorting library's order is replaced by
      the vertex insertion order, which lists every vertex once. */
  function SortedVertices(g: Graph): seq<string> {
    g.vertices
  }

  /** The whole analysis: the vertex pass over every depth, the edge pass over the top
      level, then the annotation pass over the sorted vertices, whose annotations are
      added to the model. */
  function Analyze(m: Model): (r: Result<Model, SortingError>)
  {
    match VertexPass(m)
    case Failure(err) => Failure(err)
    case Success(reg) =>
      match EdgePass(reg.graph, m)
      case Failure(cycle) => Failure(Cycle(cycle))
      case Success(g) =>
        Success(m.(dependsOn := m.dependsOn + AddDependsOn(Keys(m), g, reg.producer, SortedVertices(g), map[])))
  }

  lemma TopLevelInFlatten(m: Model, e: Entry)
    requires e in m.entries
    ensures e in Flatten(m)
  {
    var j :| 0 <= j < |m.entries| && m.entries[j] == e;
    FlattenMembers(m, 0, e);
  }

  /** The analysis fails exactly when the declared edges form a cycle, and then only
      with an edge the top-level entries declare; when it succeeds it leaves the entries
      alone and adds, for every top-level key with a non-empty two-hop list, that list. */
  lemma AnalyzeSpec(m: Model)
    ensures Analyze(m).Success? <==> Acyclic(DependencyGraph(m))
    ensures Analyze(m).Failure? ==>
              && Analyze(m).error.Cycle?
              && exists e :: e in m.entries &&
                   DeclaresEdge(e, Analyze(m).error.cause.from, Analyze(m).error.cause.to)
    ensures Analyze(m).Success? ==>
              && Analyze(m).value.entries == m.entries
              && Analyze(m).value.dependsOn ==
                   m.dependsOn + Annotations(Keys(m), DependencyGraph(m), VertexPass(m).value.producer)
  {
    var reg := VertexPass(m).value;
    var es := DeclaredEdges(m.entries);
    assert Acyclic(reg.graph);
    AddEdgesSpec(reg.graph, es);
    if AddEdges(reg.graph, es).Success? {
      var g := AddEdges(reg.graph, es).value;
      assert g == DependencyGraph(m);
      DependencyGraphParents(m);
      forall k | k in Keys(m)
        ensures k in SortedVertices(g)
      {
        var e :| e in m.entries && e.key == k;
        TopLevelInFlatten(m, e);
        assert NamedIn(Flatten(m), k);
        assert HasVertex(g, k);
      }
      var ann := AddDependsOn(Keys(m), g, reg.producer, SortedVertices(g), map[]);
      AnnotationsIgnoreOrder(Keys(m), g, reg.producer, SortedVertices(g), map[]);
      EmptyUnion(Annotations(Keys(m), g, reg.producer));
      assert Analyze(m) == Success(m.(dependsOn := m.dependsOn + ann));
    }
  }

  /** A ranking of names that every declared edge climbs shows the analysis succeeds. */
  lemma RankedModelSucceeds(m: Model, rank: string -> int)
    requires forall e, u, v :: e in m.entries && DeclaresEdge(e, u, v) ==> rank(u) < rank(v)
    ensures Acyclic(DependencyGraph(m))
    ensures Analyze(m).Success?
  {
    DependencyGraphEdges(m);
    RankedIsAcyclic(DependencyGraph(m), rank);
    AnalyzeSpec(m);
  }

  /** Two top-level entries declaring opposite edges make the analysis fail with a cycle. */
  lemma OppositeEdgesFail(m: Model, e1: Entry, e2: Entry, u: string, v: string)
    requires e1 in m.entries && DeclaresEdge(e1, u, v)
    requires e2 in m.entries && DeclaresEdge(e2, v, u)
    ensures Analyze(m).Failure? && Analyze(m).error.Cycle?
  {
    var g := DependencyGraph(m);
    DependencyGraphEdges(m);
    assert Edge(g, u, v) && Edge(g, v, u);
    ReachesRefl(g, v);
    ReachesEdge(g, v, v, u);
    AnalyzeSpec(m);
  }

  // ---------------------------------------------------------------------------
  // What the annotations mean

  /** The annotations a successful analysis adds to `m`. */
  function AnnotationsOf(m: Model): map<string, seq<string>> {
    Annotations(Keys(m), DependencyGraph(m), VertexPass(m).value.producer)
  }

  lemma {:induction false} ParentsInAppend(a: seq<EdgeSpec>, b: seq<EdgeSpec>, v: string)
    ensures ParentsIn(a + b, v) == ParentsIn(a, v) + ParentsIn(b, v)
    decreases |a|
  {
    if a == [] {
      assert a + b == b;
      assert [] + ParentsIn(b, v) == ParentsIn(b, v);
    } else {
      assert (a + b)[0] == a[0] && (a + b)[1..] == a[1..] + b;
      ParentsInAppend(a[1..], b, v);
      var head := if a[0].1 == v then [a[0].0] else [];
      ConcatAssoc(head, ParentsIn(a[1..], v), ParentsIn(b, v));
    }
  }

  lemma {:induction false} ParentsInInputs(name: string, ins: seq<string>, v: string)
    ensures ParentsIn(InputEdges(name, ins), v) == if v == name then ins else []
    decreases |ins|
  {
    if ins != [] {
      ParentsInInputs(name, ins[1..], v);
      var es := InputEdges(name, ins);
      assert es[0] == (ins[0], name) && es[1..] == InputEdges(name, ins[1..]);
      assert ins == [ins[0]] + ins[1..];
    }
  }

  /** The parents one entry gives a vertex: its result name when the vertex is its key,
      followed by its inputs when the vertex is its result name. */
  lemma EntryEdgesInto(e: Entry, v: string)
    ensures ParentsIn(EntryEdges(e), v) ==
              match ReturnPathOf(e)
              case None => []
              case Some(rp) => (if e.key == v then [rp.name] else []) + (if rp.name == v then rp.inPaths else [])
  {
    match ReturnPathOf(e)
    case None =>
    case Some(rp) =>
      var es := EntryEdges(e);
      assert es[0] == (rp.name, e.key) && es[1..] == InputEdges(rp.name, rp.inPaths);
      ParentsInInputs(rp.name, rp.inPaths, v);
  }

  /** When no entry but `es[i]` gives `v` a parent, the parents of `v` are those `es[i]`
      gives it. */
  lemma {:induction false} ParentsFromOne(es: seq<Entry>, v: string, i: int)
    requires 0 <= i < |es|
    requires forall j :: 0 <= j < |es| && j != i ==> ParentsIn(EntryEdges(es[j]), v) == []
    ensures ParentsIn(DeclaredEdges(es), v) == ParentsIn(EntryEdges(es[i]), v)
    decreases |es|
  {
    ParentsInAppend(EntryEdges(es[0]), DeclaredEdges(es[1..]), v);
    if i == 0 {
      ParentsFromNone(es[1..], v);
      assert ParentsIn(EntryEdges(es[0]), v) + [] == ParentsIn(EntryEdges(es[0]), v);
    } else {
      ParentsFromOne(es[1..], v, i - 1);
      assert [] + ParentsIn(EntryEdges(es[i]), v) == ParentsIn(EntryEdges(es[i]), v);
    }
  }

  /** When no entry of `es` gives `v` a parent, `v` has none. */
  lemma {:induction false} ParentsFromNone(es: seq<Entry>, v: string)
    requires forall j :: 0 <= j < |es| ==> ParentsIn(EntryEdges(es[j]), v) == []
    ensures ParentsIn(DeclaredEdges(es), v) == []
    decreases |es|
  {
    if es != [] {
      ParentsInAppend(EntryEdges(es[0]), DeclaredEdges(es[1..]), v);
      ParentsFromNone(es[1..], v);
    }
  }

  /** The top-level keys are distinct, so are the top-level result names, and no
      top-level result name is also a top-level key. */
  ghost predicate Separated(m: Model) {
    && (forall i, j :: 0 <= i < j < |m.entries| ==> m.entries[i].key != m.entries[j].key)
    && (forall i, j, n :: 0 <= i < |m.entries| && 0 <= j < |m.entries| && i != j && Declares(m.entries[i], n) ==>
          !Declares(m.entries[j], n))
    && (forall i, j, n :: 0 <= i < |m.entries| && 0 <= j < |m.entries| && Declares(m.entries[i], n) ==>
          m.entries[j].key != n)
  }

  /** In a separated model, the top-level entry `j` gives the key of the top-level
      entry `i` a parent only when `j` is `i`, and then its result name. */
  lemma ContributionToKey(m: Model, i: int, j: int)
    requires Separated(m) && 0 <= i < |m.entries| && 0 <= j < |m.entries| && ReturnPathOf(m.entries[i]).Some?
    ensures ParentsIn(EntryEdges(m.entries[j]), m.entries[i].key) ==
              if j == i then [ReturnPathOf(m.entries[i]).value.name] else []
  {
    var e := m.entries[i];
    var rp := ReturnPathOf(e).value;
    EntryEdgesInto(m.entries[j], e.key);
    assert !Declares(m.entries[j], e.key);
    if j == i {
      assert Declares(e, rp.name);
      assert [rp.name] + [] == [rp.name];
    } else if j < i {
      assert m.entries[j].key != e.key;
    } else {
      assert m.entries[i].key != m.entries[j].key;
    }
  }

  /** In a separated model, the top-level entry `j` gives the result name of the
      top-level entry `i` parents only when `j` is `i`, and then its inputs. */
  lemma ContributionToResult(m: Model, i: int, j: int)
    requires Separated(m) && 0 <= i < |m.entries| && 0 <= j < |m.entries| && ReturnPathOf(m.entries[i]).Some?
    ensures ParentsIn(EntryEdges(m.entries[j]), ReturnPathOf(m.entries[i]).value.name) ==
              if j == i then ReturnPathOf(m.entries[i]).value.inPaths else []
  {
    var e := m.entries[i];
    var rp := ReturnPathOf(e).value;
    EntryEdgesInto(m.entries[j], rp.name);
    assert Declares(e, rp.name);
    assert m.entries[j].key != rp.name;
    if j == i {
      assert [] + rp.inPaths == rp.inPaths;
    } else {
      assert !Declares(m.entries[j], rp.name);
    }
  }

  /** In a separated model, the only parent of a top-level entry with a return path is
      its result name, and the parents of that result name are its inputs. */
  lemma SeparatedParents(m: Model, i: int)
    requires Separated(m) && 0 <= i < |m.entries| && ReturnPathOf(m.entries[i]).Some?
    ensures ParentsOf(DependencyGraph(m), m.entries[i].key) == [ReturnPathOf(m.entries[i]).value.name]
    ensures ParentsOf(DependencyGraph(m), ReturnPathOf(m.entries[i]).value.name) ==
              ReturnPathOf(m.entries[i]).value.inPaths
  {
    var e := m.entries[i];
    var rp := ReturnPathOf(e).value;
    DependencyGraphParents(m);
    forall j | 0 <= j < |m.entries| && j != i
      ensures ParentsIn(EntryEdges(m.entries[j]), e.key) == []
    {
      ContributionToKey(m, i, j);
    }
    ParentsFromOne(m.entries, e.key, i);
    ContributionToKey(m, i, i);
    forall j | 0 <= j < |m.entries| && j != i
      ensures ParentsIn(EntryEdges(m.entries[j]), rp.name) == []
    {
      ContributionToResult(m, i, j);
    }
    ParentsFromOne(m.entries, rp.name, i);
    ContributionToResult(m, i, i);
  }

  /** The two-hop rule: in a separated model, the list collected for a top-level entry
      with a return path is the producers of those of its inputs that are produced
      results, in input order and with repetitions; it is written as the entry's
      annotation exactly when it is non-empty. */
  lemma TwoHop(m: Model, i: int)
    requires Separated(m) && 0 <= i < |m.entries| && ReturnPathOf(m.entries[i]).Some?
    ensures var rp := ReturnPathOf(m.entries[i]).value;
            var ann := Producers(VertexPass(m).value.producer, rp.inPaths);
            && Collect(DependencyGraph(m), VertexPass(m).value.producer, m.entries[i].key) == ann
            && (m.entries[i].key in AnnotationsOf(m) <==> ann != [])
            && (ann != [] ==> AnnotationsOf(m)[m.entries[i].key] == ann)
  {
    var e := m.entries[i];
    var rp := ReturnPathOf(e).value;
    var producer := VertexPass(m).value.producer;
    SeparatedParents(m, i);
    TopLevelInFlatten(m, e);
    assert DeclaredIn(Flatten(m), rp.name);
    CollectSingle(DependencyGraph(m), producer, rp.name);
    AnnotationAt(m, e.key);
  }

  lemma CollectSingle(g: Graph, producer: map<string, string>, d: string)
    requires d in producer
    ensures CollectFrom(g, producer, [d]) == Producers(producer, ParentsOf(g, d))
  {
    assert CollectFrom(g, producer, [d]) == Producers(producer, ParentsOf(g, d)) + CollectFrom(g, producer, []);
    assert Producers(producer, ParentsOf(g, d)) + [] == Producers(producer, ParentsOf(g, d));
  }

  /** A top-level key is annotated exactly when its collected list is non-empty, and
      then with that list. */
  lemma AnnotationAt(m: Model, k: string)
    requires k in Keys(m)
    ensures var c := Collect(DependencyGraph(m), VertexPass(m).value.producer, k);
            && (k in AnnotationsOf(m) <==> c != [])
            && (c != [] ==> AnnotationsOf(m)[k] == c)
  {
  }

  /** A top-level entry without a return path, whose key no top-level entry publishes a
      result under, gets no annotation. */
  lemma NoAnnotation(m: Model, k: string)
    requires forall e :: e in m.entries && e.key == k ==> ReturnPathOf(e).None?
    requires forall e :: e in m.entries ==> !Declares(e, k)
    ensures k !in AnnotationsOf(m)
  {
    DependencyGraphParents(m);
    forall j | 0 <= j < |m.entries|
      ensures ParentsIn(EntryEdges(m.entries[j]), k) == []
    {
      EntryEdgesInto(m.entries[j], k);
      assert m.entries[j] in m.entries;
    }
    ParentsFromNone(m.entries, k);
  }

  /** Every name an annotation lists is the key of an entry, at some depth of the
      model, that publishes a result. */
  lemma AnnotationsNameProducers(m: Model, k: string, x: string)
    requires k in AnnotationsOf(m) && x in AnnotationsOf(m)[k]
    ensures exists n :: DeclaredBy(Flatten(m), n, x)
  {
    var producer := VertexPass(m).value.producer;
    var g := DependencyGraph(m);
    assert AnnotationsOf(m)[k] == Collect(g, producer, k);
    assert x in CollectFrom(g, producer, ParentsOf(g, k));
    var d :| d in ParentsOf(g, k) && d in producer && x in Producers(producer, ParentsOf(g, d));
    var n :| n in ParentsOf(g, d) && n in producer && producer[n] == x;
    assert DeclaredBy(Flatten(m), n, x);
  }

  lemma UnionTwice<K, V>(a: map<K, V>, b: map<K, V>)
    ensures (a + b) + b == a + b
  {
  }

  /** Re-running the analysis on an annotated model changes nothing: the annotations
      already there are not read, and the same ones are written again. */
  lemma AnalyzeIdempotent(m: Model)
    requires Analyze(m).Success?
    ensures Analyze(Analyze(m).value) == Analyze(m)
  {
    var m' := Analyze(m).value;
    AnalyzeSpec(m);
    FlattenIgnoresAnnotations(m', m, 0);
    assert Flatten(m') == Flatten(m);
    assert VertexPass(m') == VertexPass(m);
    assert Keys(m') == Keys(m);
    var reg := VertexPass(m).value;
    var g := EdgePass(reg.graph, m).value;
    var ann := AddDependsOn(Keys(m), g, reg.producer, SortedVertices(g), map[]);
    assert m' == m.(dependsOn := m.dependsOn + ann);
    UnionTwice(m.dependsOn, ann);
  }
}
