# Automatic dependency annotation of service models

`SrvModelAutoDeps` takes a service model, a keyed and possibly nested collection of
entries, and works out which entries must run before which. Some entries are
invocable: a signature or service whose return path publishes a result under a name
and reads a list of input names. The analyser runs three passes over one shared
directed graph:

1. **Vertex pass** (`addVertex`). It descends into nested models and adds a vertex for
   every entry key and every return-path name. It also records, for each result name,
   the key of the entry that produces it. A later declarer of the same name overwrites
   an earlier one.
2. **Edge pass** (`getMapping`). This visits the top-level entries only. Each entry with
   a return path adds the edge `result -> key` and, for each input, the edge
   `input -> result`. The graph creates missing endpoints. The first edge that would
   close a cycle aborts the whole analysis with a `SortingException`.
3. **Annotation pass** (`addDependsOn`). It walks the sorted vertices. For each top-level
   key it looks two hops back through the graph's parent lists. First it takes each
   parent of the key that is a produced result name. Then it takes each parent of that
   name that is itself a produced result name, and appends that name's producer. The
   list becomes the entry's depends-on annotation. Lists are kept in parent order, with
   repetitions, and are written only when non-empty.

   Suppose top-level keys and result names are pairwise distinct. Then a key's only
   parent is its own result name, and that name's parents are its inputs. The rule
   becomes "the producers of the entry's produced inputs" (`AutoDeps.TwoHop`). Without
   that condition the parent lists mix roles. A key that is another entry's result
   name takes that entry's inputs as parents. So an entry with no return path can
   still be annotated (`Scenarios.KeyAsResultAnnotatesOpaque`). A result name also
   collects the inputs of every top-level entry declaring it, and the result name of
   any entry whose key equals it.

The Dafny modules follow that structure:

- `Wrappers` holds `Option` and `Result`.
- `Dag` holds the graph: parents per vertex, checked and unchecked edge insertion, and
  reachability.
- `SrvModel` holds the entries and the descent order over nested models.
- `AutoDeps` holds the three passes and the driver `Analyze`.
- `Scenarios` holds small models whose analysis result is proved. Their names are parameters,
  so each scenario covers every choice of distinct names.

Points where the code differs from what its documentation suggests:

- **The duplicate-key check cannot fire.** The guard looks up the entry map using the
  map object itself as the key, and nothing is stored there. So the vertex pass never
  fails, even when two entries at different depths share a key and hold different
  values. `RegisterEntry` keeps the guard, with the lookup key written as `SelfRef`, and
  proves it dead.
- **Annotations are not deduplicated.**
- **Nested entries declare no edges.**
- **The graph does not put producers first.** When result names and keys are distinct,
  a producing entry's key gets its own result name as its only parent
  (`AutoDeps.SeparatedParents`). A consumer that reads the producer's result name,
  not its key, adds no edge leaving the producer's key. A valid topological order can
  then list the consumer before the producer its annotation
  names: `Scenarios.ChainOrder` gives one. In that chain neither key reaches the other,
  whichever way the sorter reads edges (`Scenarios.ChainKeysUnrelated`). The graph does order two entry
  keys in other cases. A result name that equals another entry's key gives an edge
  between two keys (`Scenarios.ResultIsKeyLinksKeys`). An entry read by its key as an
  input reaches its reader (`Scenarios.InputIsKeyReachesReader`).

## Model

| member | source | states |
|---|---|---|
| AutoDeps.RegisterEntry | core/sorcer-platform/src/main/java/sorcer/core/dispatch/SrvModelAutoDeps.java:123-148 | The duplicate guard passes whenever nothing is stored under the self-lookup key. Registering an entry adds exactly its key and declared result name as vertices and adds no edge. The result name is mapped to this entry's key, and every other result name keeps its producer. |
| AutoDeps.RegisterAll | core/sorcer-platform/src/main/java/sorcer/core/dispatch/SrvModelAutoDeps.java:121-155 | Registering a sequence of entries never fails. Its vertices are the keys and result names it names. Each declared result name is produced by its last declarer, and every recorded producer really declares that name. |
| AutoDeps.VertexPass | core/sorcer-platform/src/main/java/sorcer/core/dispatch/SrvModelAutoDeps.java:119-155 | The vertex pass over the whole model always succeeds. Its vertices are exactly the keys and result names at every depth, and no vertex has a parent. A result name is mapped exactly when some entry at some depth declares it, and then to the key of its last declarer in descent order. |
| SrvModel.FlattenMembers | core/sorcer-platform/src/main/java/sorcer/core/dispatch/SrvModelAutoDeps.java:121-154 | An entry is visited by the descent exactly when it is a top-level entry or is visited inside a model held by a top-level entry. |
| SrvModel.FlattenIgnoresAnnotations | core/sorcer-platform/src/main/java/sorcer/core/dispatch/SrvModelAutoDeps.java:119-155 | The descent depends on the entries only, not on annotations already present. |
| AutoDeps.InputEdges | core/sorcer-platform/src/main/java/sorcer/core/dispatch/SrvModelAutoDeps.java:179-183 | The input loop adds exactly one edge from each input to the result name. An absent input list adds none. |
| AutoDeps.EntryEdges | core/sorcer-platform/src/main/java/sorcer/core/dispatch/SrvModelAutoDeps.java:167-184 | The edges of one entry are exactly those it declares: `result -> key` and `input -> result`. An entry without a return path declares none. |
| AutoDeps.DeclaredEdges | core/sorcer-platform/src/main/java/sorcer/core/dispatch/SrvModelAutoDeps.java:165-187 | The edge pass's edge list contains an edge exactly when some top-level entry declares it. |
| AutoDeps.DependencyGraphEdges | core/sorcer-platform/src/main/java/sorcer/core/dispatch/SrvModelAutoDeps.java:165-187 | The graph after the edge pass has an edge exactly when a top-level entry declares it. Nested entries contribute none. |
| AutoDeps.DependencyGraphParents | core/sorcer-platform/src/main/java/sorcer/core/dispatch/SrvModelAutoDeps.java:177-183 | The parents of every vertex are the sources of the declared edges into it, in insertion order and with repetitions. |
| AutoDeps.DependencyGraphVertices | core/sorcer-platform/src/main/java/sorcer/core/dispatch/SrvModelAutoDeps.java:178-181 | The vertices after the edge pass are the names from the vertex pass plus every endpoint of a declared edge. Inputs never seen before become vertices. |
| Dag.AddVertex | core/sorcer-platform/src/main/java/sorcer/core/dispatch/SrvModelAutoDeps.java:132 | Adding a vertex is idempotent. It adds exactly that label and changes no parent list. |
| Dag.Connect | core/sorcer-platform/src/main/java/sorcer/core/dispatch/SrvModelAutoDeps.java:178 | Inserting an edge creates missing endpoints and appends the source to the target's parents. It adds exactly that edge and changes no other parent list. |
| Dag.ClosureIsReachability | core/sorcer-platform/src/main/java/sorcer/core/dispatch/SrvModelAutoDeps.java:178-181 | The cycle check's search from a set of start vertices collects exactly the vertices reachable from them. |
| Dag.AddEdge | core/sorcer-platform/src/main/java/sorcer/core/dispatch/SrvModelAutoDeps.java:178-181 | A checked edge insertion fails exactly when the source is already reachable from the target, a self-loop included, and then reports that edge. Otherwise it inserts the edge. |
| Dag.ConnectKeepsAcyclic | core/sorcer-platform/src/main/java/sorcer/core/dispatch/SrvModelAutoDeps.java:178-181 | Inserting an edge `u -> v` into an acyclic graph keeps it acyclic when `u` is not reachable from `v`. |
| Dag.ConnectClosesCycle | core/sorcer-platform/src/main/java/sorcer/core/dispatch/SrvModelAutoDeps.java:178-181 | Inserting `u -> v` when `u` is already reachable from `v` leaves the graph cyclic. |
| Dag.ConnectAll | core/sorcer-platform/src/main/java/sorcer/core/dispatch/SrvModelAutoDeps.java:177-183 | Inserting a list of edges grows each parent list by exactly the sources of the edges into that vertex, in list order. The vertices are the old ones plus the endpoints, and the edge set is the old one plus the list. |
| Dag.AddEdgesSpec | core/sorcer-platform/src/main/java/sorcer/core/dispatch/SrvModelAutoDeps.java:165-187 | Starting from an acyclic graph, inserting a list of edges with checks succeeds exactly when the unchecked result is acyclic, and then yields that graph. When it fails, the refused edge is one of the list. |
| Dag.RankedIsAcyclic | core/sorcer-platform/src/main/java/sorcer/core/dispatch/SrvModelAutoDeps.java:62-71 | A labelling that increases along every edge rules out cycles. |
| AutoDeps.AnalyzeSpec | core/sorcer-platform/src/main/java/sorcer/core/dispatch/SrvModelAutoDeps.java:53-72 | The analysis fails exactly when the declared edges form a cycle, and then with a cycle error naming an edge that a top-level entry declares. On success the entries are unchanged and the annotations are the two-hop list of every top-level key whose list is non-empty. |
| AutoDeps.RankedModelSucceeds | core/sorcer-platform/src/main/java/sorcer/core/dispatch/SrvModelAutoDeps.java:62-71 | If some ranking of names increases along every declared edge, the graph is acyclic and the analysis succeeds. |
| AutoDeps.OppositeEdgesFail | core/sorcer-platform/src/main/java/sorcer/core/dispatch/SrvModelAutoDeps.java:62-71 | Two top-level entries that declare opposite edges make the analysis fail with a cycle error. |
| AutoDeps.Producers | core/sorcer-platform/src/main/java/sorcer/core/dispatch/SrvModelAutoDeps.java:100-104 | The inner loop lists the producer of a name exactly when that name is a produced result, so non-results contribute nothing. The list is no longer than its input. |
| AutoDeps.CollectFrom | core/sorcer-platform/src/main/java/sorcer/core/dispatch/SrvModelAutoDeps.java:95-107 | A key is collected exactly when it produces a parent of some parent of the entry, where that parent is itself a produced result. |
| AutoDeps.AddDependsOnSpec | core/sorcer-platform/src/main/java/sorcer/core/dispatch/SrvModelAutoDeps.java:89-111 | The annotation loop annotates a key exactly when it is a top-level key in the walked order with a non-empty two-hop list, and then with that list. Every other key keeps its previous value. |
| AutoDeps.AnnotationsIgnoreOrder | core/sorcer-platform/src/main/java/sorcer/core/dispatch/SrvModelAutoDeps.java:89-111 | Any walk order that lists every top-level key gives the same annotations, so the sorter's tie-breaking does not matter. |
| AutoDeps.TwoHop | core/sorcer-platform/src/main/java/sorcer/core/dispatch/SrvModelAutoDeps.java:93-108 | In a model whose top-level keys and result names are all distinct, a top-level entry with a return path collects the producers of its produced inputs, in input order and with repetitions. It is annotated exactly when that list is non-empty, and then with that list. |
| AutoDeps.SeparatedParents | core/sorcer-platform/src/main/java/sorcer/core/dispatch/SrvModelAutoDeps.java:177-183 | In such a model, a top-level key's only parent is its result name, and that result's parents are exactly its inputs. |
| AutoDeps.NoAnnotation | core/sorcer-platform/src/main/java/sorcer/core/dispatch/SrvModelAutoDeps.java:92-108 | A key whose top-level entries declare no return path, and which is no top-level result name, is never annotated. |
| AutoDeps.AnnotationsNameProducers | core/sorcer-platform/src/main/java/sorcer/core/dispatch/SrvModelAutoDeps.java:97-102 | Every name in an annotation is the key of an entry, at some depth, that publishes a result. |
| AutoDeps.AnalyzeIdempotent | core/sorcer-platform/src/main/java/sorcer/core/dispatch/SrvModelAutoDeps.java:53-72 | Running the analysis again on its own output gives the same model. |
| Scenarios.ChainAnnotatesB | core/sorcer-platform/src/main/java/sorcer/core/dispatch/SrvModelAutoDeps.java:89-108 | Take `a` publishing `ra` and `b` reading `ra` and publishing `rb`. The analysis succeeds, annotates `b` with `[a]`, and leaves `a` unannotated. |
| Scenarios.ChainOrder | core/sorcer-platform/src/main/java/sorcer/core/dispatch/SrvModelAutoDeps.java:64-68 | In that chain, `[ra, rb, b, a]` is a valid topological order of the graph, although it puts `b` before the `a` it is annotated with. |
| Scenarios.ChainKeysUnrelated | core/sorcer-platform/src/main/java/sorcer/core/dispatch/SrvModelAutoDeps.java:177-183 | In the chain, the graph relates neither the producer key `a` nor the consumer key `b` to the other, in either direction. |
| Scenarios.NestedProducerResolves | core/sorcer-platform/src/main/java/sorcer/core/dispatch/SrvModelAutoDeps.java:145-154 | A result published by an entry inside a nested model is resolved from the top level. The consumer is annotated with the nested entry's key, and the entry holding the nested model is not annotated. |
| Scenarios.MutualFails | core/sorcer-platform/src/main/java/sorcer/core/dispatch/SrvModelAutoDeps.java:62-71 | Two entries reading each other's results make the analysis fail with a cycle error, whatever the names. |
| Scenarios.ResultIsKeyLinksKeys | core/sorcer-platform/src/main/java/sorcer/core/dispatch/SrvModelAutoDeps.java:177-178 | An entry whose result name is another entry's key gets an edge from that key to its own key. |
| Scenarios.InputIsKeyReachesReader | core/sorcer-platform/src/main/java/sorcer/core/dispatch/SrvModelAutoDeps.java:177-183 | An entry read by its key as an input reaches the reader's key through the reader's result name. |
| Scenarios.KeyAsResultSucceeds | core/sorcer-platform/src/main/java/sorcer/core/dispatch/SrvModelAutoDeps.java:62-71 | Take `a` publishing under the key `k` of an opaque entry and reading `rx`, `x` publishing `rx` from `ry`, and `y` publishing `ry`. The analysis of this model succeeds. |
| Scenarios.KeyAsResultAnnotatesOpaque | core/sorcer-platform/src/main/java/sorcer/core/dispatch/SrvModelAutoDeps.java:92-108 | In that model, the opaque entry `k` declares no return path yet is annotated with exactly `[y]`, because its key is `a`'s result name. |

## Left out

- **The graph library's internals.** The DAG class's own cycle detector and topological
  sorter are not modelled.
  - The cycle check is modelled as "refuse `from -> to` when `from` is reachable from
    `to`". On an acyclic graph that is exactly the cycle the inserted edge would close.
  - The sorter is replaced by the vertex insertion order, which lists every vertex once.
    `AnnotationsIgnoreOrder` shows the result is the same for any order that lists the
    top-level keys.
  - Edges are kept when a later edge fails. The whole analysis fails then, so the graph
    is never observed.
- **The class hierarchy and `instanceof` dispatch.** These become the `Value` variant.
  - A signature entry and a service entry are both `Invocable`.
  - A null return path is `None`, and a null input list is the empty list.
- **A null signature in the edge pass.** It throws a NullPointerException at line 173 of `SrvModelAutoDeps.java`.
  This is not modelled: every `Invocable` value has a signature.
- **`operator.dependsOn`, `ent` and `paths`.** These are calls into code this model does
  not include. Writing an annotation is modelled as setting the key in the model's
  `dependsOn` map, replacing any earlier value.
- **Diagnostics.** Exception messages and the model's name and id are used only in
  messages and are not modelled. A cycle error carries the refused edge.
- **Key iteration order.** The order of a model's key set is not modelled. It is taken
  to be the order of the `entries` sequence.
- **The accessor `get()`.** It only returns the analysed model.
- Dag.AddEdge: the source's cycle check searches from the target after inserting the
  edge. The model decides the same question, reachability of the source from the target,
  before inserting it.
- AutoDeps.TwoHop: stated only for models whose top-level keys and result names are
  pairwise distinct. Otherwise one vertex collects edges from several roles. For those
  models only the general description in `AnalyzeSpec` and `AddDependsOnSpec` applies.
