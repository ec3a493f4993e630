/** A minimal directed graph over string labels, standing in for the DAG class the
    analyser builds on. Vertices are kept in insertion order; each vertex carries the
    labels of its parents, that is the sources of its incoming edges, in insertion
    order and with repetitions, as the DAG class's parent lists are. An edge `u -> v`
    reads "v depends on u". */
module Dag {
  import opened Wrappers

  datatype Graph = Graph(vertices: seq<string>, parents: map<string, seq<string>>)

  /** The edge whose insertion was refused because it would close a cycle. */
  datatype CycleError = CycleDetected(from: string, to: string)

  /** An edge, written `(from, to)`. */
  type EdgeSpec = (string, string)

  const Empty: Graph := Graph([], map[])

  /** Representation invariant: each vertex is listed once, exactly the listed vertices
      carry a parent list, and every parent is itself a vertex. */
  ghost predicate Valid(g: Graph) {
    && (forall i, j :: 0 <= i < j < |g.vertices| ==> g.vertices[i] != g.vertices[j])
    && (forall v :: v in g.parents <==> v in g.vertices)
    && (forall v, u :: v in g.parents && u in g.parents[v] ==> u in g.parents)
  }

  predicate HasVertex(g: Graph, v: string) {
    v in g.parents
  }

  /** The parent labels of `v`: empty for a vertex without incoming edges and for an
      unknown label alike. */
  function ParentsOf(g: Graph, v: string): seq<string> {
    if v in g.parents then g.parents[v] else []
  }

  /** `u -> v` is an edge of `g`. */
  predicate Edge(g: Graph, u: string, v: string) {
    u in ParentsOf(g, v)
  }

  lemma EmptyIsValid()
    ensures Valid(Empty)
    ensures forall x :: !HasVertex(Empty, x) && ParentsOf(Empty, x) == []
  {
  }

  /** Inserting a vertex is idempotent and never creates an edge. */
  function AddVertex(g: Graph, v: string): (r: Graph)
    requires Valid(g)
    ensures Valid(r)
    ensures forall x :: HasVertex(r, x) <==> HasVertex(g, x) || x == v
    ensures forall x :: ParentsOf(r, x) == ParentsOf(g, x)
    ensures HasVertex(g, v) ==> r == g
    ensures !HasVertex(g, v) ==> r.vertices == g.vertices + [v]
  {
    if v in g.parents then g else Graph(g.vertices + [v], g.parents[v := []])
  }

  /** Edge insertion without the cycle check: creates whichever endpoints are missing
      and appends `u` to the parents of `v`. */
  function Connect(g: Graph, u: string, v: string): (r: Graph)
    requires Valid(g)
    ensures Valid(r)
    ensures forall x :: HasVertex(r, x) <==> HasVertex(g, x) || x == u || x == v
    ensures ParentsOf(r, v) == ParentsOf(g, v) + [u]
    ensures forall x :: x != v ==> ParentsOf(r, x) == ParentsOf(g, x)
    ensures forall a, b :: Edge(r, a, b) <==> Edge(g, a, b) || (a == u && b == v)
  {
    var g1 := AddVertex(AddVertex(g, u), v);
    Graph(g1.vertices, g1.parents[v := g1.parents[v] + [u]])
  }

  // ---------------------------------------------------------------------------
  // Reachability

  /** `p` follows edges of `g` from its first label to its last. */
  ghost predicate IsPath(g: Graph, p: seq<string>) {
    |p| >= 1 && forall i :: 0 <= i < |p| - 1 ==> Edge(g, p[i], p[i + 1])
  }

  /** `b` is reachable from `a` along zero or more edges. */
  ghost predicate Reaches(g: Graph, a: string, b: string) {
    exists p :: IsPath(g, p) && p[0] == a && p[|p| - 1] == b
  }

  /** No edge `u -> v` can be followed back from `v` to `u`: the graph has no cycle. */
  ghost predicate Acyclic(g: Graph) {
    forall u, v :: Edge(g, u, v) ==> !Reaches(g, v, u)
  }

  lemma ReachesRefl(g: Graph, a: string)
    ensures Reaches(g, a, a)
  {
    assert IsPath(g, [a]);
  }

  lemma ReachesEdge(g: Graph, a: string, b: string, c: string)
    requires Reaches(g, a, b) && Edge(g, b, c)
    ensures Reaches(g, a, c)
  {
    var p :| IsPath(g, p) && p[0] == a && p[|p| - 1] == b;
    var q := p + [c];
    assert IsPath(g, q) by {
      forall i | 0 <= i < |q| - 1
        ensures Edge(g, q[i], q[i + 1])
      {
        if i < |p| - 1 {
          assert q[i] == p[i] && q[i + 1] == p[i + 1];
        }
      }
    }
  }

  lemma ReachesPrepend(g: Graph, a: string, b: string, c: string)
    requires Edge(g, a, b) && Reaches(g, b, c)
    ensures Reaches(g, a, c)
  {
    var p :| IsPath(g, p) && p[0] == b && p[|p| - 1] == c;
    var q := [a] + p;
    assert IsPath(g, q) by {
      forall i | 0 <= i < |q| - 1
        ensures Edge(g, q[i], q[i + 1])
      {
        if i > 0 {
          assert q[i] == p[i - 1] && q[i + 1] == p[i];
        }
      }
    }
  }

  lemma ReachesTrans(g: Graph, a: string, b: string, c: string)
    requires Reaches(g, a, b) && Reaches(g, b, c)
    ensures Reaches(g, a, c)
  {
    var p :| IsPath(g, p) && p[0] == a && p[|p| - 1] == b;
    var q :| IsPath(g, q) && q[0] == b && q[|q| - 1] == c;
    var r := p + q[1..];
    assert IsPath(g, r) by {
      forall i | 0 <= i < |r| - 1
        ensures Edge(g, r[i], r[i + 1])
      {
        if i < |p| - 1 {
          assert r[i] == p[i] && r[i + 1] == p[i + 1];
        } else {
          assert r[i] == q[i - |p| + 1] && r[i + 1] == q[i - |p| + 2];
        }
      }
    }
  }

  /** A vertex that reaches some other vertex has an outgoing edge, so a vertex that
      is no vertex's parent reaches only itself. */
  lemma LeavingNeedsEdge(g: Graph, a: string, b: string)
    requires Reaches(g, a, b) && a != b
    ensures exists v :: Edge(g, a, v)
  {
    var p :| IsPath(g, p) && p[0] == a && p[|p| - 1] == b;
    assert Edge(g, a, p[1]);
  }

  /** Reachability only grows when edges are added. */
  lemma ReachesMono(g1: Graph, g2: Graph, a: string, b: string)
    requires forall u, v :: Edge(g1, u, v) ==> Edge(g2, u, v)
    requires Reaches(g1, a, b)
    ensures Reaches(g2, a, b)
  {
    var p :| IsPath(g1, p) && p[0] == a && p[|p| - 1] == b;
    assert IsPath(g2, p);
  }

  /** A path in the graph after inserting `u -> v` either avoids the new edge or
      passes through it. */
  lemma {:induction false} PathAfterConnect(g: Graph, u: string, v: string, p: seq<string>)
    requires Valid(g) && IsPath(Connect(g, u, v), p)
    ensures Reaches(g, p[0], p[|p| - 1]) || (Reaches(g, p[0], u) && Reaches(g, v, p[|p| - 1]))
    decreases |p|
  {
    var r := Connect(g, u, v);
    if |p| == 1 {
      ReachesRefl(g, p[0]);
    } else {
      var q := p[..|p| - 1];
      assert IsPath(r, q) by {
        forall i | 0 <= i < |q| - 1
          ensures Edge(r, q[i], q[i + 1])
        {
          assert q[i] == p[i] && q[i + 1] == p[i + 1];
        }
      }
      PathAfterConnect(g, u, v, q);
      var y, x := p[|p| - 2], p[|p| - 1];
      assert q[|q| - 1] == y;
      assert Edge(r, y, x);
      if Edge(g, y, x) {
        if Reaches(g, p[0], y) {
          ReachesEdge(g, p[0], y, x);
        } else {
          ReachesEdge(g, v, y, x);
        }
      } else {
        ReachesRefl(g, v);
      }
    }
  }

  /** Inserting `u -> v` keeps an acyclic graph acyclic when `u` is not reachable
      from `v` beforehand; `ConnectClosesCycle` is the converse. */
  lemma ConnectKeepsAcyclic(g: Graph, u: string, v: string)
    requires Valid(g) && Acyclic(g) && !Reaches(g, v, u)
    ensures Acyclic(Connect(g, u, v))
  {
    var r := Connect(g, u, v);
    forall a, b | Edge(r, a, b)
      ensures !Reaches(r, b, a)
    {
      if Reaches(r, b, a) {
        var p :| IsPath(r, p) && p[0] == b && p[|p| - 1] == a;
        PathAfterConnect(g, u, v, p);
        if Edge(g, a, b) && !Reaches(g, b, a) {
          ReachesEdge(g, v, a, b);
          ReachesTrans(g, v, b, u);
        }
      }
    }
  }

  /** Inserting `u -> v` when `u` is already reachable from `v` closes a cycle. */
  lemma ConnectClosesCycle(g: Graph, u: string, v: string)
    requires Valid(g) && Reaches(g, v, u)
    ensures !Acyclic(Connect(g, u, v))
  {
    ReachesMono(g, Connect(g, u, v), v, u);
  }

  // ---------------------------------------------------------------------------
  // The reachability closure that the cycle check computes

  /** `s` together with every vertex one edge away from a member of `s`. */
  function Step(g: Graph, s: set<string>): (r: set<string>)
    ensures s <= r
    ensures forall v :: v in r && v !in s ==> HasVertex(g, v)
    ensures forall u, v :: u in s && Edge(g, u, v) ==> v in r
    ensures forall v :: v in r ==> v in s || exists u :: u in s && Edge(g, u, v)
  {
    s + set v | v in g.parents && exists u :: u in g.parents[v] && u in s
  }

  lemma SubsetNoLarger(a: set<string>, b: set<string>)
    requires a <= b
    ensures |a| <= |b|
    decreases a
  {
    if a != {} {
      var x :| x in a;
      SubsetNoLarger(a - {x}, b - {x});
    }
  }

  lemma ProperSubsetSmaller(a: set<string>, b: set<string>)
    requires a < b
    ensures |a| < |b|
  {
    var x :| x in b && x !in a;
    SubsetNoLarger(a, b - {x});
  }

  /** Everything reachable from a member of `s`, computed by repeating `Step` until it
      adds nothing. */
  function Closure(g: Graph, s: set<string>): set<string>
    decreases |g.parents.Keys - s|
  {
    var s' := Step(g, s);
    if s' <= s then s
    else
      ProperSubsetSmaller(g.parents.Keys - s', g.parents.Keys - s);
      Closure(g, s')
  }

  lemma {:induction false} PathStaysInClosed(g: Graph, s: set<string>, p: seq<string>)
    requires Step(g, s) <= s && IsPath(g, p) && p[0] in s
    ensures p[|p| - 1] in s
    decreases |p|
  {
    if |p| > 1 {
      assert Edge(g, p[0], p[1]);
      var q := p[1..];
      assert IsPath(g, q) by {
        forall i | 0 <= i < |q| - 1
          ensures Edge(g, q[i], q[i + 1])
        {
          assert q[i] == p[i + 1] && q[i + 1] == p[i + 2];
        }
      }
      PathStaysInClosed(g, s, q);
    }
  }

  /** The closure holds exactly the labels reachable from a member of `s`. */
  lemma {:induction false} ClosureIsReachability(g: Graph, s: set<string>, x: string)
    ensures x in Closure(g, s) <==> exists a :: a in s && Reaches(g, a, x)
    decreases |g.parents.Keys - s|
  {
    var s' := Step(g, s);
    if s' <= s {
      if x in s {
        ReachesRefl(g, x);
      }
      forall a | a in s && Reaches(g, a, x)
        ensures x in s
      {
        var p :| IsPath(g, p) && p[0] == a && p[|p| - 1] == x;
        PathStaysInClosed(g, s, p);
      }
    } else {
      ProperSubsetSmaller(g.parents.Keys - s', g.parents.Keys - s);
      ClosureIsReachability(g, s', x);
      forall a' | a' in s' && Reaches(g, a', x)
        ensures exists a :: a in s && Reaches(g, a, x)
      {
        if a' !in s {
          var u :| u in s && Edge(g, u, a');
          ReachesPrepend(g, u, a', x);
        }
      }
    }
  }

  /** Checked edge insertion: refused, with the offending edge, exactly when `from` is
      already reachable from `to` (a self-loop included); otherwise the edge is
      inserted as by `Connect`. */
  function AddEdge(g: Graph, from: string, to: string): (r: Result<Graph, CycleError>)
    requires Valid(g)
    ensures r.Failure? <==> Reaches(g, to, from)
    ensures r.Failure? ==> r.error == CycleDetected(from, to)
    ensures r.Success? ==> r.value == Connect(g, from, to)
  {
    var g1 := AddVertex(AddVertex(g, from), to);
    ClosureIsReachability(g1, {to}, from);
    SameEdgesSameReach(g, g1, to, from);
    if from in Closure(g1, {to}) then Failure(CycleDetected(from, to))
    else Success(Graph(g1.vertices, g1.parents[to := g1.parents[to] + [from]]))
  }

  lemma SameEdgesSameReach(g1: Graph, g2: Graph, a: string, b: string)
    requires forall u, v :: Edge(g1, u, v) <==> Edge(g2, u, v)
    ensures Reaches(g1, a, b) <==> Reaches(g2, a, b)
  {
    if Reaches(g1, a, b) {
      ReachesMono(g1, g2, a, b);
    }
    if Reaches(g2, a, b) {
      ReachesMono(g2, g1, a, b);
    }
  }

  // ---------------------------------------------------------------------------
  // Sequences of edges

  /** The sources of the edges in `es` that end at `v`, in order. */
  function ParentsIn(es: seq<EdgeSpec>, v: string): (r: seq<string>)
    ensures forall u :: u in r <==> (u, v) in es
    ensures |r| <= |es|
  {
    if es == [] then []
    else (if es[0].1 == v then [es[0].0] else []) + ParentsIn(es[1..], v)
  }

  /** An endpoint of some edge in `es`. */
  predicate Touches(es: seq<EdgeSpec>, x: string) {
    exists e :: e in es && (e.0 == x || e.1 == x)
  }

  lemma ConcatAssoc<T>(a: seq<T>, b: seq<T>, c: seq<T>)
    ensures (a + b) + c == a + (b + c)
  {
  }

  lemma TouchesCons(es: seq<EdgeSpec>)
    requires es != []
    ensures forall x :: Touches(es, x) <==> x == es[0].0 || x == es[0].1 || Touches(es[1..], x)
  {
    forall x
      ensures Touches(es, x) <==> x == es[0].0 || x == es[0].1 || Touches(es[1..], x)
    {
      if Touches(es, x) {
        var e :| e in es && (e.0 == x || e.1 == x);
        if e != es[0] {
          assert e in es[1..];
        }
      }
      if Touches(es[1..], x) {
        var e :| e in es[1..] && (e.0 == x || e.1 == x);
        assert e in es;
      }
    }
  }

  /** Unchecked insertion of every edge of `es`, in order: the parents of each vertex
      grow by exactly the sources of the edges into it, in edge order. */
  function ConnectAll(g: Graph, es: seq<EdgeSpec>): (r: Graph)
    requires Valid(g)
    ensures Valid(r)
    ensures forall x :: HasVertex(r, x) <==> HasVertex(g, x) || Touches(es, x)
    ensures forall x :: ParentsOf(r, x) == ParentsOf(g, x) + ParentsIn(es, x)
    ensures forall a, b :: Edge(r, a, b) <==> Edge(g, a, b) || (a, b) in es
    decreases |es|
  {
    if es == [] then g
    else
      var g1 := Connect(g, es[0].0, es[0].1);
      var r := ConnectAll(g1, es[1..]);
      TouchesCons(es);
      forall x
        ensures ParentsOf(r, x) == ParentsOf(g, x) + ParentsIn(es, x)
      {
        var head := if es[0].1 == x then [es[0].0] else [];
        assert ParentsIn(es, x) == head + ParentsIn(es[1..], x);
        assert ParentsOf(g1, x) == ParentsOf(g, x) + head;
        ConcatAssoc(ParentsOf(g, x), head, ParentsIn(es[1..], x));
      }
      r
  }

  /** Checked insertion of every edge of `es`, in order, stopping at the first edge
      that would close a cycle. */
  function AddEdges(g: Graph, es: seq<EdgeSpec>): (r: Result<Graph, CycleError>)
    requires Valid(g)
    decreases |es|
  {
    if es == [] then Success(g)
    else
      match AddEdge(g, es[0].0, es[0].1)
      case Failure(err) => Failure(err)
      case Success(g1) => AddEdges(g1, es[1..])
  }

  /** Starting from an acyclic graph, the checked insertion succeeds exactly when
      inserting all edges unchecked leaves the graph acyclic, and then builds that
      same graph; when it fails, the refused edge is one of `es`. */
  lemma {:induction false} AddEdgesSpec(g: Graph, es: seq<EdgeSpec>)
    requires Valid(g) && Acyclic(g)
    ensures AddEdges(g, es).Success? <==> Acyclic(ConnectAll(g, es))
    ensures AddEdges(g, es).Success? ==> AddEdges(g, es).value == ConnectAll(g, es)
    ensures AddEdges(g, es).Failure? ==>
              (AddEdges(g, es).error.from, AddEdges(g, es).error.to) in es
    decreases |es|
  {
    if es != [] {
      var (u, v) := es[0];
      var all := ConnectAll(g, es);
      if Reaches(g, v, u) {
        ReachesMono(g, all, v, u);
        assert Edge(all, u, v);
      } else {
        ConnectKeepsAcyclic(g, u, v);
        AddEdgesSpec(Connect(g, u, v), es[1..]);
      }
    }
  }

  /** `order` lists every vertex of `g` exactly once, and no edge leads from a later
      vertex of `order` to an earlier one. */
  ghost predicate TopologicalOrder(g: Graph, order: seq<string>) {
    && (forall x :: x in order <==> HasVertex(g, x))
    && (forall i, j :: 0 <= i < j < |order| ==> order[i] != order[j] && !Edge(g, order[j], order[i]))
  }

  /** A labelling that strictly increases along every edge rules out cycles. */
  lemma RankedIsAcyclic(g: Graph, rank: string -> int)
    requires forall u, v :: Edge(g, u, v) ==> rank(u) < rank(v)
    ensures Acyclic(g)
  {
    forall u, v | Edge(g, u, v)
      ensures !Reaches(g, v, u)
    {
      if Reaches(g, v, u) {
        var p :| IsPath(g, p) && p[0] == v && p[|p| - 1] == u;
        RankAlongPath(g, rank, p);
      }
    }
  }

  lemma {:induction false} RankAlongPath(g: Graph, rank: string -> int, p: seq<string>)
    requires forall u, v :: Edge(g, u, v) ==> rank(u) < rank(v)
    requires IsPath(g, p)
    ensures rank(p[0]) <= rank(p[|p| - 1])
    decreases |p|
  {
    if |p| > 1 {
      var q := p[1..];
      assert Edge(g, p[0], p[1]);
      assert IsPath(g, q) by {
        forall i | 0 <= i < |q| - 1
          ensures Edge(g, q[i], q[i + 1])
        {
          assert q[i] == p[i + 1] && q[i + 1] == p[i + 2];
        }
      }
      RankAlongPath(g, rank, q);
    }
  }
}
