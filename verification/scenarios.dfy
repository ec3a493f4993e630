/** Small models whose analysis result is proved: a two-entry chain, a producer inside a
    nested model, and two entries reading each other's results. The names are
    parameters, so each scenario covers every choice of pairwise distinct names. */
module Scenarios {
  import opened Wrappers
  import opened Dag
  import opened SrvModel
  import opened AutoDeps

  /** An invocable entry value publishing `name` and reading `ins`. */
  function Sig(name: string, ins: seq<string>): Value {
    Invocable(Some(ReturnPath(name, ins)))
  }

  /** `b` reads the result `ra` that `a` publishes. */
  function Chain(a: string, b: string, ra: string, rb: string): Model {
    Model([Entry(a, Sig(ra, [])), Entry(b, Sig(rb, [ra]))], map[])
  }

  predicate Distinct4(a: string, b: string, c: string, d: string) {
    a != b && a != c && a != d && b != c && b != d && c != d
  }

  /** The only edges the chain declares: `a` and `b` each wait for their result name,
      and `rb` waits for `ra`. */
  lemma ChainEdges(a: string, b: string, ra: string, rb: string, e: Entry, u: string, v: string)
    requires e in Chain(a, b, ra, rb).entries && DeclaresEdge(e, u, v)
    ensures (u == ra && v == a) || (u == rb && v == b) || (u == ra && v == rb)
  {
  }

  lemma ChainAcyclic(a: string, b: string, ra: string, rb: string)
    requires Distinct4(a, b, ra, rb)
    ensures Acyclic(DependencyGraph(Chain(a, b, ra, rb)))
  {
    var m := Chain(a, b, ra, rb);
    var rank := (x: string) => if x == ra then 0 else if x == b then 2 else 1;
    forall e, u, v | e in m.entries && DeclaresEdge(e, u, v)
      ensures rank(u) < rank(v)
    {
      ChainEdges(a, b, ra, rb, e, u, v);
    }
    RankedModelSucceeds(m, rank);
  }

  lemma ChainFlat(a: string, b: string, ra: string, rb: string)
    ensures Flatten(Chain(a, b, ra, rb)) == Chain(a, b, ra, rb).entries
  {
    var m := Chain(a, b, ra, rb);
    assert FlattenFrom(m, 2) == [];
    assert FlattenFrom(m, 1) == [m.entries[1]];
  }

  lemma ChainProducer(a: string, b: string, ra: string, rb: string)
    requires Distinct4(a, b, ra, rb)
    ensures ra in VertexPass(Chain(a, b, ra, rb)).value.producer
    ensures VertexPass(Chain(a, b, ra, rb)).value.producer[ra] == a
  {
    var m := Chain(a, b, ra, rb);
    ChainFlat(a, b, ra, rb);
    assert LastDeclarer(Flatten(m), 0, ra);
  }

  lemma ChainSeparated(a: string, b: string, ra: string, rb: string)
    requires Distinct4(a, b, ra, rb)
    ensures Separated(Chain(a, b, ra, rb))
  {
  }

  lemma ChainKeys(a: string, b: string, ra: string, rb: string)
    ensures Keys(Chain(a, b, ra, rb)) == {a, b}
  {
    var m := Chain(a, b, ra, rb);
    assert m.entries[0].key == a && m.entries[1].key == b;
  }

  lemma ChainTwoHop(a: string, b: string, ra: string, rb: string)
    requires Distinct4(a, b, ra, rb)
    ensures a !in AnnotationsOf(Chain(a, b, ra, rb))
    ensures b in AnnotationsOf(Chain(a, b, ra, rb)) && AnnotationsOf(Chain(a, b, ra, rb))[b] == [a]
  {
    var m := Chain(a, b, ra, rb);
    var producer := VertexPass(m).value.producer;
    ChainProducer(a, b, ra, rb);
    ChainSeparated(a, b, ra, rb);
    TwoHop(m, 0);
    TwoHop(m, 1);
    assert Producers(producer, [ra]) == [a];
    assert Producers(producer, []) == [];
  }

  lemma ChainAnnotatedKey(a: string, b: string, ra: string, rb: string, k: string)
    requires Distinct4(a, b, ra, rb)
    requires k in AnnotationsOf(Chain(a, b, ra, rb))
    ensures k == b
  {
    ChainTwoHop(a, b, ra, rb);
    ChainKeys(a, b, ra, rb);
    assert k in Keys(Chain(a, b, ra, rb));
  }

  lemma SingletonMap<K, V>(m: map<K, V>, k0: K, v0: V)
    requires k0 in m && m[k0] == v0
    requires forall k :: k in m ==> k == k0
    ensures m == map[k0 := v0]
  {
  }

  lemma ChainAnnotations(a: string, b: string, ra: string, rb: string)
    requires Distinct4(a, b, ra, rb)
    ensures AnnotationsOf(Chain(a, b, ra, rb)) == map[b := [a]]
  {
    ChainTwoHop(a, b, ra, rb);
    forall k | k in AnnotationsOf(Chain(a, b, ra, rb))
      ensures k == b
    {
      ChainAnnotatedKey(a, b, ra, rb, k);
    }
    SingletonMap(AnnotationsOf(Chain(a, b, ra, rb)), b, [a]);
  }

  /** The chain succeeds; `b` is annotated with `a`, and `a`, which reads nothing, is
      not annotated. */
  lemma ChainAnnotatesB(a: string, b: string, ra: string, rb: string)
    requires Distinct4(a, b, ra, rb)
    ensures Analyze(Chain(a, b, ra, rb)) == Success(Chain(a, b, ra, rb).(dependsOn := map[b := [a]]))
  {
    var m := Chain(a, b, ra, rb);
    ChainAcyclic(a, b, ra, rb);
    AnalyzeSpec(m);
    ChainAnnotations(a, b, ra, rb);
    EmptyUnion(AnnotationsOf(m));
  }

  lemma ChainNamed(a: string, b: string, ra: string, rb: string)
    ensures forall x :: NamedIn(Chain(a, b, ra, rb).entries, x) <==> x in [ra, rb, b, a]
  {
    var m := Chain(a, b, ra, rb);
    assert m.entries[0].key == a && Declares(m.entries[0], ra);
    assert m.entries[1].key == b && Declares(m.entries[1], rb);
  }

  lemma ChainTouches(a: string, b: string, ra: string, rb: string)
    ensures forall x :: Touches(DeclaredEdges(Chain(a, b, ra, rb).entries), x) ==> x in [ra, rb, b, a]
  {
    var m := Chain(a, b, ra, rb);
    forall x | Touches(DeclaredEdges(m.entries), x)
      ensures x in [ra, rb, b, a]
    {
      var ed :| ed in DeclaredEdges(m.entries) && (ed.0 == x || ed.1 == x);
      assert (ed.0, ed.1) in DeclaredEdges(m.entries);
      var e :| e in m.entries && DeclaresEdge(e, ed.0, ed.1);
      ChainEdges(a, b, ra, rb, e, ed.0, ed.1);
    }
  }

  /** The names that are vertices of the chain's dependency graph. */
  lemma ChainVertices(a: string, b: string, ra: string, rb: string)
    ensures forall x :: HasVertex(DependencyGraph(Chain(a, b, ra, rb)), x) <==> x in [ra, rb, b, a]
  {
    var m := Chain(a, b, ra, rb);
    DependencyGraphVertices(m);
    ChainFlat(a, b, ra, rb);
    ChainNamed(a, b, ra, rb);
    ChainTouches(a, b, ra, rb);
  }

  lemma ChainGraphEdges(a: string, b: string, ra: string, rb: string)
    ensures forall u, v :: Edge(DependencyGraph(Chain(a, b, ra, rb)), u, v) ==>
              (u == ra && v == a) || (u == rb && v == b) || (u == ra && v == rb)
  {
    var m := Chain(a, b, ra, rb);
    DependencyGraphEdges(m);
    forall u, v | Edge(DependencyGraph(m), u, v)
      ensures (u == ra && v == a) || (u == rb && v == b) || (u == ra && v == rb)
    {
      var e :| e in m.entries && DeclaresEdge(e, u, v);
      ChainEdges(a, b, ra, rb, e, u, v);
    }
  }

  lemma ChainShapedOrder(g: Graph, a: string, b: string, ra: string, rb: string)
    requires Distinct4(a, b, ra, rb)
    requires forall x :: HasVertex(g, x) <==> x in [ra, rb, b, a]
    requires forall u, v :: Edge(g, u, v) ==> (u == ra && v == a) || (u == rb && v == b) || (u == ra && v == rb)
    ensures TopologicalOrder(g, [ra, rb, b, a])
  {
  }

  /** Listing `b` before `a` is a valid topological order of the chain's graph, although
      the analysis annotates `b` as depending on `a` (`ChainAnnotatesB`): the graph
      relates result names to entry keys, never a producing entry to a consuming one,
      so the order alone does not put producers first. */
  lemma ChainOrder(a: string, b: string, ra: string, rb: string)
    requires Distinct4(a, b, ra, rb)
    ensures TopologicalOrder(DependencyGraph(Chain(a, b, ra, rb)), [ra, rb, b, a])
  {
    ChainVertices(a, b, ra, rb);
    ChainGraphEdges(a, b, ra, rb);
    ChainShapedOrder(DependencyGraph(Chain(a, b, ra, rb)), a, b, ra, rb);
  }

  lemma TwoSinksUnrelated(g: Graph, a: string, b: string)
    requires a != b
    requires forall v :: !Edge(g, a, v) && !Edge(g, b, v)
    ensures !Reaches(g, a, b) && !Reaches(g, b, a)
  {
    if Reaches(g, a, b) {
      LeavingNeedsEdge(g, a, b);
    }
    if Reaches(g, b, a) {
      LeavingNeedsEdge(g, b, a);
    }
  }

  /** Whichever way the sorter reads edges, the chain's graph leaves the producer `a`
      and the consumer `b` unrelated: neither key reaches the other. */
  lemma ChainKeysUnrelated(a: string, b: string, ra: string, rb: string)
    requires Distinct4(a, b, ra, rb)
    ensures !Reaches(DependencyGraph(Chain(a, b, ra, rb)), a, b)
    ensures !Reaches(DependencyGraph(Chain(a, b, ra, rb)), b, a)
  {
    ChainGraphEdges(a, b, ra, rb);
    TwoSinksUnrelated(DependencyGraph(Chain(a, b, ra, rb)), a, b);
  }

  /** `consumer` reads the result `ri` published by `inner`, an entry of the model held
      by `outer`. */
  function NestedProducer(outer: string, inner: string, consumer: string, ri: string, rc: string): Model {
    Model([Entry(outer, Nested(Model([Entry(inner, Sig(ri, []))], map[]))),
           Entry(consumer, Sig(rc, [ri]))], map[])
  }

  predicate Distinct5(a: string, b: string, c: string, d: string, e: string) {
    Distinct4(a, b, c, d) && e != a && e != b && e != c && e != d
  }

  lemma NestedFlat(outer: string, inner: string, consumer: string, ri: string, rc: string)
    ensures var m := NestedProducer(outer, inner, consumer, ri, rc);
            Flatten(m) == [m.entries[0], Entry(inner, Sig(ri, [])), m.entries[1]]
  {
    var m := NestedProducer(outer, inner, consumer, ri, rc);
    var held := m.entries[0].value.model;
    assert FlattenFrom(held, 1) == [];
    assert Flatten(held) == [Entry(inner, Sig(ri, []))];
    assert FlattenFrom(m, 2) == [];
    assert FlattenFrom(m, 1) == [m.entries[1]];
  }

  /** Only `consumer` declares edges: `rc` before `consumer`, and `ri` before `rc`. */
  lemma NestedEdges(outer: string, inner: string, consumer: string, ri: string, rc: string,
                    e: Entry, u: string, v: string)
    requires e in NestedProducer(outer, inner, consumer, ri, rc).entries && DeclaresEdge(e, u, v)
    ensures (u == rc && v == consumer) || (u == ri && v == rc)
  {
  }

  lemma NestedAcyclic(outer: string, inner: string, consumer: string, ri: string, rc: string)
    requires Distinct5(outer, inner, consumer, ri, rc)
    ensures Acyclic(DependencyGraph(NestedProducer(outer, inner, consumer, ri, rc)))
  {
    var m := NestedProducer(outer, inner, consumer, ri, rc);
    var rank := (x: string) => if x == ri then 0 else if x == rc then 1 else 2;
    forall e, u, v | e in m.entries && DeclaresEdge(e, u, v)
      ensures rank(u) < rank(v)
    {
      NestedEdges(outer, inner, consumer, ri, rc, e, u, v);
    }
    RankedModelSucceeds(m, rank);
  }

  lemma NestedProducerOf(outer: string, inner: string, consumer: string, ri: string, rc: string)
    requires Distinct5(outer, inner, consumer, ri, rc)
    ensures ri in VertexPass(NestedProducer(outer, inner, consumer, ri, rc)).value.producer
    ensures VertexPass(NestedProducer(outer, inner, consumer, ri, rc)).value.producer[ri] == inner
  {
    var m := NestedProducer(outer, inner, consumer, ri, rc);
    NestedFlat(outer, inner, consumer, ri, rc);
    assert LastDeclarer(Flatten(m), 1, ri);
  }

  lemma NestedSeparated(outer: string, inner: string, consumer: string, ri: string, rc: string)
    requires Distinct5(outer, inner, consumer, ri, rc)
    ensures Separated(NestedProducer(outer, inner, consumer, ri, rc))
  {
  }

  lemma NestedKeys(outer: string, inner: string, consumer: string, ri: string, rc: string)
    ensures Keys(NestedProducer(outer, inner, consumer, ri, rc)) == {outer, consumer}
  {
    var m := NestedProducer(outer, inner, consumer, ri, rc);
    assert m.entries[0].key == outer && m.entries[1].key == consumer;
  }

  lemma NestedOuterBare(outer: string, inner: string, consumer: string, ri: string, rc: string)
    requires Distinct5(outer, inner, consumer, ri, rc)
    ensures outer !in AnnotationsOf(NestedProducer(outer, inner, consumer, ri, rc))
  {
    NoAnnotation(NestedProducer(outer, inner, consumer, ri, rc), outer);
  }

  lemma NestedTwoHop(outer: string, inner: string, consumer: string, ri: string, rc: string)
    requires Distinct5(outer, inner, consumer, ri, rc)
    ensures outer !in AnnotationsOf(NestedProducer(outer, inner, consumer, ri, rc))
    ensures consumer in AnnotationsOf(NestedProducer(outer, inner, consumer, ri, rc))
    ensures AnnotationsOf(NestedProducer(outer, inner, consumer, ri, rc))[consumer] == [inner]
  {
    var m := NestedProducer(outer, inner, consumer, ri, rc);
    var producer := VertexPass(m).value.producer;
    NestedProducerOf(outer, inner, consumer, ri, rc);
    NestedSeparated(outer, inner, consumer, ri, rc);
    TwoHop(m, 1);
    assert Producers(producer, [ri]) == [inner];
    NestedOuterBare(outer, inner, consumer, ri, rc);
  }

  lemma NestedAnnotatedKey(outer: string, inner: string, consumer: string, ri: string, rc: string, k: string)
    requires Distinct5(outer, inner, consumer, ri, rc)
    requires k in AnnotationsOf(NestedProducer(outer, inner, consumer, ri, rc))
    ensures k == consumer
  {
    NestedTwoHop(outer, inner, consumer, ri, rc);
    NestedKeys(outer, inner, consumer, ri, rc);
    assert k in Keys(NestedProducer(outer, inner, consumer, ri, rc));
  }

  lemma NestedAnnotations(outer: string, inner: string, consumer: string, ri: string, rc: string)
    requires Distinct5(outer, inner, consumer, ri, rc)
    ensures AnnotationsOf(NestedProducer(outer, inner, consumer, ri, rc)) == map[consumer := [inner]]
  {
    NestedTwoHop(outer, inner, consumer, ri, rc);
    forall k | k in AnnotationsOf(NestedProducer(outer, inner, consumer, ri, rc))
      ensures k == consumer
    {
      NestedAnnotatedKey(outer, inner, consumer, ri, rc, k);
    }
    SingletonMap(AnnotationsOf(NestedProducer(outer, inner, consumer, ri, rc)), consumer, [inner]);
  }

  /** A producer inside a nested model is resolved from the top level: `consumer` is
      annotated with `inner`, and `outer` is not annotated. */
  lemma NestedProducerResolves(outer: string, inner: string, consumer: string, ri: string, rc: string)
    requires Distinct5(outer, inner, consumer, ri, rc)
    ensures var m := NestedProducer(outer, inner, consumer, ri, rc);
            Analyze(m) == Success(m.(dependsOn := map[consumer := [inner]]))
  {
    var m := NestedProducer(outer, inner, consumer, ri, rc);
    NestedAcyclic(outer, inner, consumer, ri, rc);
    AnalyzeSpec(m);
    NestedAnnotations(outer, inner, consumer, ri, rc);
    EmptyUnion(AnnotationsOf(m));
  }

  /** `x` reads the result of `y` and `y` reads the result of `x`. */
  function Mutual(x: string, y: string, rx: string, ry: string): Model {
    Model([Entry(x, Sig(rx, [ry])), Entry(y, Sig(ry, [rx]))], map[])
  }

  /** Two entries reading each other's results make the analysis fail with a cycle,
      whatever the names. */
  lemma MutualFails(x: string, y: string, rx: string, ry: string)
    ensures Analyze(Mutual(x, y, rx, ry)).Failure? && Analyze(Mutual(x, y, rx, ry)).error.Cycle?
  {
    var m := Mutual(x, y, rx, ry);
    assert DeclaresEdge(m.entries[0], ry, rx);
    assert DeclaresEdge(m.entries[1], rx, ry);
    OppositeEdgesFail(m, m.entries[1], m.entries[0], rx, ry);
  }

  /** `a` publishes its result under `k`, which is also the key of the opaque entry `k`. */
  function ResultIsKey(a: string, k: string): Model {
    Model([Entry(a, Sig(k, [])), Entry(k, Opaque)], map[])
  }

  /** A result name equal to another entry's key puts an edge between two keys. */
  lemma ResultIsKeyLinksKeys(a: string, k: string)
    ensures Edge(DependencyGraph(ResultIsKey(a, k)), k, a)
  {
    var m := ResultIsKey(a, k);
    DependencyGraphEdges(m);
    assert DeclaresEdge(m.entries[0], k, a);
  }

  /** `b` reads the opaque entry `x` by its key. */
  function InputIsKey(x: string, b: string, rb: string): Model {
    Model([Entry(x, Opaque), Entry(b, Sig(rb, [x]))], map[])
  }

  /** An entry read by its key as an input reaches its reader. */
  lemma InputIsKeyReachesReader(x: string, b: string, rb: string)
    ensures Reaches(DependencyGraph(InputIsKey(x, b, rb)), x, b)
  {
    var m := InputIsKey(x, b, rb);
    var g := DependencyGraph(m);
    DependencyGraphEdges(m);
    assert DeclaresEdge(m.entries[1], x, rb);
    assert DeclaresEdge(m.entries[1], rb, b);
    ReachesRefl(g, x);
    ReachesEdge(g, x, x, rb);
    ReachesEdge(g, x, rb, b);
  }

  /** `a` publishes its result under `k`, the key of the opaque entry `k`, and reads
      `rx`; `x` publishes `rx` reading `ry`; `y` publishes `ry`. */
  function KeyAsResult(a: string, k: string, x: string, y: string, rx: string, ry: string): Model {
    Model([Entry(a, Sig(k, [rx])), Entry(k, Opaque), Entry(x, Sig(rx, [ry])), Entry(y, Sig(ry, []))], map[])
  }

  predicate Distinct6(a: string, b: string, c: string, d: string, e: string, f: string) {
    Distinct5(a, b, c, d, e) && f != a && f != b && f != c && f != d && f != e
  }

  lemma KeyAsResultEdges(a: string, k: string, x: string, y: string, rx: string, ry: string,
                         e: Entry, u: string, v: string)
    requires e in KeyAsResult(a, k, x, y, rx, ry).entries && DeclaresEdge(e, u, v)
    ensures || (u == k && v == a) || (u == rx && v == k) || (u == rx && v == x)
            || (u == ry && v == rx) || (u == ry && v == y)
  {
  }

  lemma KeyAsResultSucceeds(a: string, k: string, x: string, y: string, rx: string, ry: string)
    requires Distinct6(a, k, x, y, rx, ry)
    ensures Analyze(KeyAsResult(a, k, x, y, rx, ry)).Success?
  {
    var m := KeyAsResult(a, k, x, y, rx, ry);
    var rank := (n: string) => if n == ry then 0 else if n == rx || n == y then 1
                               else if n == k || n == x then 2 else 3;
    forall e, u, v | e in m.entries && DeclaresEdge(e, u, v)
      ensures rank(u) < rank(v)
    {
      KeyAsResultEdges(a, k, x, y, rx, ry, e, u, v);
    }
    RankedModelSucceeds(m, rank);
  }

  lemma KeyAsResultFlat(a: string, k: string, x: string, y: string, rx: string, ry: string)
    ensures Flatten(KeyAsResult(a, k, x, y, rx, ry)) == KeyAsResult(a, k, x, y, rx, ry).entries
  {
    var m := KeyAsResult(a, k, x, y, rx, ry);
    assert FlattenFrom(m, 4) == [];
    assert FlattenFrom(m, 3) == [m.entries[3]];
    assert FlattenFrom(m, 2) == m.entries[2..];
    assert FlattenFrom(m, 1) == m.entries[1..];
  }

  lemma KeyAsResultProducer(a: string, k: string, x: string, y: string, rx: string, ry: string)
    requires Distinct6(a, k, x, y, rx, ry)
    ensures ry in VertexPass(KeyAsResult(a, k, x, y, rx, ry)).value.producer
    ensures VertexPass(KeyAsResult(a, k, x, y, rx, ry)).value.producer[ry] == y
    ensures rx in VertexPass(KeyAsResult(a, k, x, y, rx, ry)).value.producer
  {
    var m := KeyAsResult(a, k, x, y, rx, ry);
    KeyAsResultFlat(a, k, x, y, rx, ry);
    assert LastDeclarer(Flatten(m), 3, ry);
    assert LastDeclarer(Flatten(m), 2, rx);
  }

  lemma KeyAsResultIntoK(a: string, k: string, x: string, y: string, rx: string, ry: string)
    requires Distinct6(a, k, x, y, rx, ry)
    ensures ParentsIn(DeclaredEdges(KeyAsResult(a, k, x, y, rx, ry).entries), k) == [rx]
  {
    var es := KeyAsResult(a, k, x, y, rx, ry).entries;
    forall j | 0 <= j < |es| && j != 0
      ensures ParentsIn(EntryEdges(es[j]), k) == []
    {
      EntryEdgesInto(es[j], k);
    }
    EntryEdgesInto(es[0], k);
    ParentsFromOne(es, k, 0);
  }

  lemma KeyAsResultIntoRx(a: string, k: string, x: string, y: string, rx: string, ry: string)
    requires Distinct6(a, k, x, y, rx, ry)
    ensures ParentsIn(DeclaredEdges(KeyAsResult(a, k, x, y, rx, ry).entries), rx) == [ry]
  {
    var es := KeyAsResult(a, k, x, y, rx, ry).entries;
    forall j | 0 <= j < |es| && j != 2
      ensures ParentsIn(EntryEdges(es[j]), rx) == []
    {
      EntryEdgesInto(es[j], rx);
    }
    EntryEdgesInto(es[2], rx);
    ParentsFromOne(es, rx, 2);
  }

  /** The only parent of the opaque key `k` is `rx`, an input of `a`, and the only
      parent of `rx` is `ry`. */
  lemma KeyAsResultParents(a: string, k: string, x: string, y: string, rx: string, ry: string)
    requires Distinct6(a, k, x, y, rx, ry)
    ensures ParentsOf(DependencyGraph(KeyAsResult(a, k, x, y, rx, ry)), k) == [rx]
    ensures ParentsOf(DependencyGraph(KeyAsResult(a, k, x, y, rx, ry)), rx) == [ry]
  {
    DependencyGraphParents(KeyAsResult(a, k, x, y, rx, ry));
    KeyAsResultIntoK(a, k, x, y, rx, ry);
    KeyAsResultIntoRx(a, k, x, y, rx, ry);
  }

  lemma KeyAsResultCollect(a: string, k: string, x: string, y: string, rx: string, ry: string)
    requires Distinct6(a, k, x, y, rx, ry)
    ensures Collect(DependencyGraph(KeyAsResult(a, k, x, y, rx, ry)),
                    VertexPass(KeyAsResult(a, k, x, y, rx, ry)).value.producer, k) == [y]
  {
    var m := KeyAsResult(a, k, x, y, rx, ry);
    var g := DependencyGraph(m);
    var producer := VertexPass(m).value.producer;
    KeyAsResultProducer(a, k, x, y, rx, ry);
    KeyAsResultParents(a, k, x, y, rx, ry);
    CollectSingle(g, producer, rx);
    assert Producers(producer, [ry]) == [y];
  }

  lemma KeyAsResultHasKey(a: string, k: string, x: string, y: string, rx: string, ry: string)
    ensures k in Keys(KeyAsResult(a, k, x, y, rx, ry))
  {
    assert KeyAsResult(a, k, x, y, rx, ry).entries[1].key == k;
  }

  /** The opaque entry `k` declares no return path, yet it is annotated with `y`: its key
      is `a`'s result name, so the two hops run through `a`'s input `rx` to `ry`. */
  lemma KeyAsResultAnnotatesOpaque(a: string, k: string, x: string, y: string, rx: string, ry: string)
    requires Distinct6(a, k, x, y, rx, ry)
    ensures ReturnPathOf(KeyAsResult(a, k, x, y, rx, ry).entries[1]).None?
    ensures k in AnnotationsOf(KeyAsResult(a, k, x, y, rx, ry))
    ensures AnnotationsOf(KeyAsResult(a, k, x, y, rx, ry))[k] == [y]
  {
    KeyAsResultCollect(a, k, x, y, rx, ry);
    KeyAsResultHasKey(a, k, x, y, rx, ry);
    AnnotationAt(KeyAsResult(a, k, x, y, rx, ry), k);
  }
}
