/**
 * The graph data model (Graph.java): edges, vertices with per-vertex
 * adjacency maps, and a graph holding an insertion-ordered vertex set, a
 * positional vertex list and an edge set deduplicated by edge equality.
 *
 * Vertex objects are identified by their creation index in `store`, the
 * collection of every vertex object of one graph. Two quirks of the source
 * are modelled as written:
 *   - adding a directed edge keys the source's out-map by the source itself
 *     (Graph.java:531), so `getEdgeTo(target)` does not see it;
 *   - `addEdge` registers endpoints in the vertex set but never in the
 *     positional list (Graph.java:527-529).
 */
module Graphs {
  import opened Wrappers
  import HashSets

  type VertexId = nat

  /**
   * An edge between `u` (position 0) and `v` (position 1). A plain `Edge`
   * has weight None; a `WeightedEdge` has Some(weight).
   */
  datatype Edge<E> = Edge(u: VertexId, v: VertexId, directed: bool, data: E, weight: Option<nat>)

  /** What edge equality looks at: ordered ends of a directed edge, the end set of an undirected one. */
  datatype EdgeKey = Arc(from: VertexId, to: VertexId) | Link(lo: VertexId, hi: VertexId)

  function Min(a: nat, b: nat): nat { if a <= b then a else b }
  function Max(a: nat, b: nat): nat { if a <= b then b else a }

  function Key<E(==)>(e: Edge<E>): EdgeKey {
    if e.directed then Arc(e.u, e.v) else Link(Min(e.u, e.v), Max(e.u, e.v))
  }

  /** Identity is the equality of vertices. */
  function Id(x: VertexId): VertexId { x }

  /**
   * Java `Edge.equals`: same directedness, and the same source and target
   * (directed) or the same endpoint set (undirected). The payload and the
   * weight do not take part.
   */
  predicate SameEdge<E(==)>(a: Edge<E>, b: Edge<E>) {
    && a.directed == b.directed
    && if a.directed then a.u == b.u && a.v == b.v
       else {a.u, a.v} == {b.u, b.v}
  }

  /** Edge equality is exactly equality of keys, which is what the edge set deduplicates by. */
  lemma SameEdgeIffKey<E>(a: Edge<E>, b: Edge<E>)
    ensures SameEdge(a, b) <==> Key(a) == Key(b)
  {
    if !a.directed && !b.directed && Key(a) == Key(b) {
      assert a.u in {b.u, b.v} && a.v in {b.u, b.v};
      assert b.u in {a.u, a.v} && b.v in {a.u, a.v};
    }
    if !a.directed && !b.directed && {a.u, a.v} == {b.u, b.v} {
      assert a.u in {b.u, b.v} && a.v in {b.u, b.v};
      assert b.u in {a.u, a.v} && b.v in {a.u, a.v};
    }
  }

  /** Java `source()`: position 0 of a directed edge; undirected edges have none. */
  function Source<E(==)>(e: Edge<E>): (r: Result<VertexId>)
    ensures r.Err? <==> !e.directed
    ensures r.Err? ==> r.error == UnsupportedOperation
    ensures r.Ok? ==> r.value == e.u
  {
    if !e.directed then Err(UnsupportedOperation) else Ok(e.u)
  }

  /** Java `target()`: position 1 of a directed edge; undirected edges have none. */
  function Target<E(==)>(e: Edge<E>): (r: Result<VertexId>)
    ensures r.Err? <==> !e.directed
    ensures r.Err? ==> r.error == UnsupportedOperation
    ensures r.Ok? ==> r.value == e.v
  {
    if !e.directed then Err(UnsupportedOperation) else Ok(e.v)
  }

  /** Java `reverse()` of `Edge` and of `WeightedEdge`: endpoints swapped, everything else kept. */
  function Reverse<E(==)>(e: Edge<E>): Edge<E> {
    Edge(e.v, e.u, e.directed, e.data, e.weight)
  }

  /**
   * Reversal swaps source and target, keeps directedness, payload and weight,
   * is its own inverse, and yields an EQUAL edge exactly when the edge is
   * undirected or a directed self-loop.
   */
  lemma ReverseSpec<E>(e: Edge<E>)
    ensures Reverse(e).directed == e.directed
    ensures Reverse(e).data == e.data && Reverse(e).weight == e.weight
    ensures Source(Reverse(e)) == Target(e) && Target(Reverse(e)) == Source(e)
    ensures Reverse(Reverse(e)) == e
    ensures SameEdge(Reverse(Reverse(e)), e)
    ensures SameEdge(Reverse(e), e) <==> !e.directed || e.u == e.v
  {
  }

  /** Java `other(v)`: the opposite endpoint, `v` itself for a self-loop, null for a non-endpoint. */
  function Other<E(==)>(e: Edge<E>, x: VertexId): (r: Option<VertexId>)
    ensures r.None? <==> x != e.u && x != e.v
    ensures r.Some? ==> {x, r.value} == {e.u, e.v}
    ensures e.u == x && e.v == x ==> r == Some(x)
  {
    if x != e.u && x != e.v then None
    else if e.u == x then Some(e.v)
    else Some(e.u)
  }

  /** A vertex object: its payload and the maps of edges entering and leaving it, keyed by neighbour. */
  datatype Vertex<V, E> = Vertex(data: V, edgesIn: map<VertexId, Edge<E>>, edgesOut: map<VertexId, Edge<E>>)

  /**
   * `store[x]` is vertex object `x`; `vertices` is the HashSet of member
   * vertices, `ordered` the ArrayList behind positional lookup, `edges` the
   * HashSet of edges.
   */
  datatype Graph<V, E> = Graph(
    store: seq<Vertex<V, E>>,
    vertices: HashSets.HashSet<VertexId>,
    ordered: seq<VertexId>,
    edges: HashSets.HashSet<Edge<E>>)

  /** Java `new Graph()`. */
  function Empty<V, E(==)>(): Graph<V, E> {
    Graph([], HashSets.New(), [], HashSets.New())
  }

  // ---------------------------------------------------------------------
  // The graph invariant

  /** The out-map entry of vertex `x` under key `k` is an edge of the graph stored where `addEdge` puts it. */
  predicate OutEntry<V, E(==)>(g: Graph<V, E>, x: VertexId, k: VertexId)
    requires x < |g.store| && k in g.store[x].edgesOut
  {
    var e := g.store[x].edgesOut[k];
    && e in g.edges.elems
    && if e.directed then e.u == x && k == x else Other(e, x) == Some(k)
  }

  /** Both endpoints of an undirected edge see it in their out-maps under the other endpoint. */
  predicate Linked<V, E(==)>(g: Graph<V, E>, e: Edge<E>) {
    && e.u < |g.store| && e.v < |g.store|
    && e.v in g.store[e.u].edgesOut && g.store[e.u].edgesOut[e.v] == e
    && e.u in g.store[e.v].edgesOut && g.store[e.v].edgesOut[e.u] == e
  }

  predicate DistinctIds(xs: seq<VertexId>) {
    forall i, j :: 0 <= i < j < |xs| ==> xs[i] != xs[j]
  }

  /** The invariant every graph built through the public operations keeps. */
  predicate Wf<V, E(==)>(g: Graph<V, E>) {
    match g
    case Graph(store, vertices, ordered, edges) =>
      && HashSets.Valid(vertices, Id)
      && HashSets.Valid(edges, Key)
      && (forall x :: x in vertices.elems ==> x < |store|)
      && DistinctIds(ordered)
      && (forall i :: 0 <= i < |ordered| ==> ordered[i] in vertices.elems && ordered[i] < |store|)
      && (forall e :: e in edges.elems ==> e.u in vertices.elems && e.v in vertices.elems)
      && (forall x, k :: 0 <= x < |store| && k in store[x].edgesOut ==> OutEntry(g, x, k))
      && (forall e :: e in edges.elems && !e.directed && e.u != e.v ==> Linked(g, e))
  }

  lemma EmptyWf<V, E>()
    ensures Wf(Empty<V, E>())
  {
  }

  // ---------------------------------------------------------------------
  // Lookup

  /** Java `getVertex(index)`: the `index`-th vertex created by `addVertex`. */
  function GetVertex<V, E(==)>(g: Graph<V, E>, index: int): (r: Result<VertexId>)
    ensures r.Ok? <==> 0 <= index < |g.ordered|
    ensures r.Err? ==> r.error == IndexOutOfBounds
    ensures r.Ok? ==> r.value == g.ordered[index]
  {
    if 0 <= index < |g.ordered| then Ok(g.ordered[index]) else Err(IndexOutOfBounds)
  }

  /** Java `Vertex.getEdgeTo(y)`: the out-map entry of `x` under `y`. */
  function GetEdgeTo<V, E(==)>(g: Graph<V, E>, x: VertexId, y: VertexId): (r: Option<Edge<E>>)
    requires x < |g.store|
    ensures r.Some? <==> y in g.store[x].edgesOut
    ensures r.Some? ==> r.value == g.store[x].edgesOut[y]
  {
    if y in g.store[x].edgesOut then Some(g.store[x].edgesOut[y]) else None
  }

  /** Java `getEdge(u, v)`: the edge from `u` to `v`, else the edge from `v` to `u`. */
  function GetEdge<V, E(==)>(g: Graph<V, E>, u: VertexId, v: VertexId): (r: Option<Edge<E>>)
    requires u < |g.store| && v < |g.store|
    ensures r.Some? <==> v in g.store[u].edgesOut || u in g.store[v].edgesOut
    ensures v in g.store[u].edgesOut ==> r == Some(g.store[u].edgesOut[v])
    ensures v !in g.store[u].edgesOut && u in g.store[v].edgesOut ==> r == Some(g.store[v].edgesOut[u])
  {
    var uToV := GetEdgeTo(g, u, v);
    if uToV.Some? then uToV else GetEdgeTo(g, v, u)
  }

  /** Java `getEdge(i, j)` by position. */
  function GetEdgeAt<V, E(==)>(g: Graph<V, E>, i: int, j: int): (r: Result<Option<Edge<E>>>)
    requires Wf(g)
    ensures r.Err? <==> !(0 <= i < |g.ordered|) || !(0 <= j < |g.ordered|)
    ensures r.Ok? ==> r.value == GetEdge(g, g.ordered[i], g.ordered[j])
  {
    if !(0 <= i < |g.ordered|) || !(0 <= j < |g.ordered|) then Err(IndexOutOfBounds)
    else Ok(GetEdge(g, g.ordered[i], g.ordered[j]))
  }

  /** Every undirected non-loop edge of a well-formed graph is found by `getEdge` from either end. */
  lemma GetEdgeFindsUndirected<V, E>(g: Graph<V, E>, e: Edge<E>)
    requires Wf(g) && e in g.edges.elems && !e.directed && e.u != e.v
    ensures GetEdge(g, e.u, e.v) == Some(e) && GetEdge(g, e.v, e.u) == Some(e)
  {
  }

  // ---------------------------------------------------------------------
  // Growth

  /** Java `new Vertex(data)`: a vertex object that belongs to no graph's sets yet. */
  function Allocate<V, E(==)>(g: Graph<V, E>, data: V): (r: (Graph<V, E>, VertexId))
    ensures r.1 == |g.store| && |r.0.store| == |g.store| + 1
    ensures r.0.store[..|g.store|] == g.store
    ensures r.0.store[r.1] == Vertex(data, map[], map[])
    ensures r.0.vertices == g.vertices && r.0.ordered == g.ordered && r.0.edges == g.edges
  {
    (g.(store := g.store + [Vertex(data, map[], map[])]), |g.store|)
  }

  lemma AllocateWf<V, E>(g: Graph<V, E>, data: V)
    requires Wf(g)
    ensures Wf(Allocate(g, data).0)
  {
    var h := Allocate(g, data).0;
    forall x, k | 0 <= x < |h.store| && k in h.store[x].edgesOut
      ensures OutEntry(h, x, k)
    {
      assert x < |g.store| && h.store[x] == g.store[x];
      assert OutEntry(g, x, k);
    }
    forall e | e in h.edges.elems && !e.directed && e.u != e.v
      ensures Linked(h, e)
    {
      assert Linked(g, e);
    }
  }

  /**
   * Java `addVertex(data)`: a new vertex that is appended to the vertex set
   * and to the positional list, so it is `getVertex(oldCount)` and every
   * earlier position still names the same vertex.
   */
  function AddVertex<V, E(==)>(g: Graph<V, E>, data: V): (r: (Graph<V, E>, VertexId))
    requires Wf(g)
    ensures Wf(r.0)
    ensures r.1 !in g.vertices.elems && r.1 !in g.ordered
    ensures GetVertex(r.0, |g.ordered|) == Ok(r.1)
    ensures forall i :: 0 <= i < |g.ordered| ==> GetVertex(r.0, i) == GetVertex(g, i)
    ensures |r.0.ordered| == |g.ordered| + 1
    ensures r.0.vertices.elems == g.vertices.elems + [r.1]
    ensures |r.0.store| == |g.store| + 1 && r.0.store[r.1].data == data && r.0.edges == g.edges
    ensures forall x :: 0 <= x < |g.store| ==> r.0.store[x] == g.store[x]
  {
    var (h, v) := Allocate(g, data);
    var vs := HashSets.Add(h.vertices, Id, Some(v)).0;
    var r := h.(vertices := vs, ordered := h.ordered + [v]);
    RegisterWf(g, data, h, v, r);
    (r, v)
  }

  /** Registering a freshly allocated vertex in both vertex collections keeps the invariant. */
  lemma RegisterWf<V, E>(g: Graph<V, E>, data: V, h: Graph<V, E>, v: VertexId, r: Graph<V, E>)
    requires Wf(g) && (h, v) == Allocate(g, data)
    requires r == h.(vertices := HashSets.Add(h.vertices, Id, Some(v)).0, ordered := h.ordered + [v])
    ensures Wf(r)
    ensures v !in g.vertices.elems && v !in g.ordered
    ensures r.vertices.elems == g.vertices.elems + [v]
  {
    AllocateWf(g, data);
    assert !HashSets.Contains(h.vertices, Id, v) by {
      forall j | 0 <= j < |h.vertices.elems| ensures h.vertices.elems[j] != v {
        assert h.vertices.elems[j] in g.vertices.elems;
      }
    }
    assert r.vertices.elems == g.vertices.elems + [v];
    assert v !in g.ordered;
    forall x, k | 0 <= x < |r.store| && k in r.store[x].edgesOut
      ensures OutEntry(r, x, k)
    {
      assert OutEntry(h, x, k);
    }
    forall e | e in r.edges.elems && !e.directed && e.u != e.v
      ensures Linked(r, e)
    {
      assert Linked(h, e);
    }
  }

  function PutOut<V, E(==)>(store: seq<Vertex<V, E>>, x: VertexId, k: VertexId, e: Edge<E>): (r: seq<Vertex<V, E>>)
    requires x < |store|
    ensures |r| == |store|
  {
    store[x := store[x].(edgesOut := store[x].edgesOut[k := e])]
  }

  function PutIn<V, E(==)>(store: seq<Vertex<V, E>>, x: VertexId, k: VertexId, e: Edge<E>): (r: seq<Vertex<V, E>>)
    requires x < |store|
    ensures |r| == |store|
  {
    store[x := store[x].(edgesIn := store[x].edgesIn[k := e])]
  }

  /** The adjacency updates of a successful `addEdge`, in the order the source performs them. */
  function Attach<V, E(==)>(store: seq<Vertex<V, E>>, e: Edge<E>): (r: seq<Vertex<V, E>>)
    requires e.u < |store| && e.v < |store|
    ensures |r| == |store|
  {
    if e.directed then
      PutIn(PutOut(store, e.u, e.u, e), e.v, e.u, e)
    else
      var s1 := PutOut(PutIn(store, e.u, Other(e, e.u).value, e), e.u, Other(e, e.u).value, e);
      PutOut(PutIn(s1, e.v, Other(e, e.v).value, e), e.v, Other(e, e.v).value, e)
  }

  /** The out-map keys under which `Attach` files `e` at vertex `x`. */
  function OutKeys<E>(e: Edge<E>, x: VertexId): set<VertexId> {
    if e.directed then (if x == e.u then {e.u} else {})
    else (if x == e.u then {e.v} else {}) + (if x == e.v then {e.u} else {})
  }

  /** The in-map keys under which `Attach` files `e` at vertex `x`. */
  function InKeys<E>(e: Edge<E>, x: VertexId): set<VertexId> {
    if e.directed then (if x == e.v then {e.u} else {})
    else OutKeys(e, x)
  }

  /** The endpoints of `e` not yet in `xs`, source first, each once. */
  function NewEnds<E>(xs: seq<VertexId>, e: Edge<E>): seq<VertexId> {
    (if e.u in xs then [] else [e.u]) + (if e.v in xs || e.v == e.u then [] else [e.v])
  }

  /** `Attach` writes no map entry besides the ones it files `e` under. */
  lemma AttachFrame<V, E>(store: seq<Vertex<V, E>>, e: Edge<E>, x: VertexId)
    requires e.u < |store| && e.v < |store| && x < |store|
    ensures Attach(store, e)[x].edgesOut - OutKeys(e, x) == store[x].edgesOut - OutKeys(e, x)
    ensures Attach(store, e)[x].edgesIn - InKeys(e, x) == store[x].edgesIn - InKeys(e, x)
  {
  }

  /**
   * Java `addEdge(edge)`: true iff no equal edge was present. On false the
   * graph is untouched. On true the edge joins the edge set, its endpoints
   * join the vertex set (but not the positional list), and the adjacency
   * maps are updated: a directed edge is filed in its source's out-map under
   * the source itself and in its target's in-map under the source; an
   * undirected edge is filed in both maps of each endpoint under the other.
   */
  function AddEdge<V, E(==)>(g: Graph<V, E>, e: Edge<E>): (r: (Graph<V, E>, bool))
    requires Wf(g) && e.u < |g.store| && e.v < |g.store|
    ensures |r.0.store| == |g.store|
    ensures Wf(r.0)
    ensures r.1 <==> forall f :: f in g.edges.elems ==> !SameEdge(f, e)
    ensures !r.1 ==> r.0 == g
    ensures r.1 ==> r.0.edges.elems == g.edges.elems + [e]
    ensures r.1 ==> r.0.ordered == g.ordered
    ensures r.1 ==> forall x :: x in r.0.vertices.elems <==> x in g.vertices.elems || x == e.u || x == e.v
    ensures r.1 ==> r.0.vertices.elems == g.vertices.elems + NewEnds(g.vertices.elems, e)
    ensures forall x :: 0 <= x < |g.store| ==> r.0.store[x].data == g.store[x].data
    ensures forall x :: 0 <= x < |g.store| ==>
      && r.0.store[x].edgesOut - OutKeys(e, x) == g.store[x].edgesOut - OutKeys(e, x)
      && r.0.store[x].edgesIn - InKeys(e, x) == g.store[x].edgesIn - InKeys(e, x)
    ensures r.1 && e.directed ==>
      && e.u in r.0.store[e.u].edgesOut && r.0.store[e.u].edgesOut[e.u] == e
      && e.u in r.0.store[e.v].edgesIn && r.0.store[e.v].edgesIn[e.u] == e
    ensures r.1 && !e.directed ==>
      && e.v in r.0.store[e.u].edgesOut && r.0.store[e.u].edgesOut[e.v] == e
      && e.v in r.0.store[e.u].edgesIn && r.0.store[e.u].edgesIn[e.v] == e
      && e.u in r.0.store[e.v].edgesOut && r.0.store[e.v].edgesOut[e.u] == e
      && e.u in r.0.store[e.v].edgesIn && r.0.store[e.v].edgesIn[e.u] == e
  {
    forall f | f in g.edges.elems ensures SameEdge(f, e) <==> Key(f) == Key(e) {
      SameEdgeIffKey(f, e);
    }
    var (es, added) := HashSets.Add(g.edges, Key, Some(e));
    if !added then (g, false)
    else
      var vs1 := HashSets.Add(g.vertices, Id, Some(e.u)).0;
      var vs2 := HashSets.Add(vs1, Id, Some(e.v)).0;
      AddId(g.vertices, e.u);
      AddId(vs1, e.v);
      var h := Graph(Attach(g.store, e), vs2, g.ordered, es);
      AttachWf(g, e, h);
      AttachFiles(g.store, e);
      AttachFrames(g.store, e);
      AddEnds(g.vertices, e);
      (h, true)
  }

  /** Adding a vertex id to a set of ids: afterwards the set holds exactly the old ids and the new one. */
  lemma AddId(s: HashSets.HashSet<VertexId>, x: VertexId)
    requires HashSets.Valid(s, Id)
    ensures forall y :: y in HashSets.Add(s, Id, Some(x)).0.elems <==> y in s.elems || y == x
    ensures HashSets.Add(s, Id, Some(x)).0.elems == s.elems + (if x in s.elems then [] else [x])
  {
    if HashSets.Contains(s, Id, x) {
      var i :| 0 <= i < |s.elems| && Id(s.elems[i]) == Id(x);
    }
  }

  /** Adding both endpoints of `e` appends the new ones, source first. */
  lemma AddEnds<E>(s: HashSets.HashSet<VertexId>, e: Edge<E>)
    requires HashSets.Valid(s, Id)
    ensures var vs1 := HashSets.Add(s, Id, Some(e.u)).0;
      HashSets.Add(vs1, Id, Some(e.v)).0.elems == s.elems + NewEnds(s.elems, e)
  {
    var vs1 := HashSets.Add(s, Id, Some(e.u)).0;
    AddId(s, e.u);
    AddId(vs1, e.v);
  }

  /** `Attach` writes no map entry of any vertex besides the ones it files `e` under. */
  lemma AttachFrames<V, E>(store: seq<Vertex<V, E>>, e: Edge<E>)
    requires e.u < |store| && e.v < |store|
    ensures forall x :: 0 <= x < |store| ==>
      && Attach(store, e)[x].edgesOut - OutKeys(e, x) == store[x].edgesOut - OutKeys(e, x)
      && Attach(store, e)[x].edgesIn - InKeys(e, x) == store[x].edgesIn - InKeys(e, x)
  {
    forall x | 0 <= x < |store|
      ensures && Attach(store, e)[x].edgesOut - OutKeys(e, x) == store[x].edgesOut - OutKeys(e, x)
              && Attach(store, e)[x].edgesIn - InKeys(e, x) == store[x].edgesIn - InKeys(e, x)
    {
      AttachFrame(store, e, x);
    }
  }

  /** The out-map entries after `Attach`: the new edge where it was filed, the old entry everywhere else. */
  lemma AttachOut<V, E>(store: seq<Vertex<V, E>>, e: Edge<E>, x: VertexId, k: VertexId)
    requires e.u < |store| && e.v < |store| && x < |store|
    ensures var s := Attach(store, e);
      if (e.directed && x == e.u && k == e.u) || (!e.directed && ((x == e.u && k == e.v) || (x == e.v && k == e.u)))
      then k in s[x].edgesOut && s[x].edgesOut[k] == e
      else (k in s[x].edgesOut <==> k in store[x].edgesOut) &&
           (k in store[x].edgesOut ==> s[x].edgesOut[k] == store[x].edgesOut[k])
  {
  }

  /** Where `Attach` files the new edge, and that it leaves every payload alone. */
  lemma AttachFiles<V, E>(store: seq<Vertex<V, E>>, e: Edge<E>)
    requires e.u < |store| && e.v < |store|
    ensures var s := Attach(store, e);
      && (forall x :: 0 <= x < |store| ==> s[x].data == store[x].data)
      && (e.directed ==>
        && e.u in s[e.u].edgesOut && s[e.u].edgesOut[e.u] == e
        && e.u in s[e.v].edgesIn && s[e.v].edgesIn[e.u] == e)
      && (!e.directed ==>
        && e.v in s[e.u].edgesOut && s[e.u].edgesOut[e.v] == e
        && e.v in s[e.u].edgesIn && s[e.u].edgesIn[e.v] == e
        && e.u in s[e.v].edgesOut && s[e.v].edgesOut[e.u] == e
        && e.u in s[e.v].edgesIn && s[e.v].edgesIn[e.u] == e)
  {
  }

  lemma AttachWf<V, E>(g: Graph<V, E>, e: Edge<E>, h: Graph<V, E>)
    requires Wf(g) && e.u < |g.store| && e.v < |g.store|
    requires forall f :: f in g.edges.elems ==> Key(f) != Key(e)
    requires h.store == Attach(g.store, e) && h.ordered == g.ordered
    requires HashSets.Valid(h.edges, Key) && h.edges.elems == g.edges.elems + [e]
    requires HashSets.Valid(h.vertices, Id)
    requires forall x :: x in h.vertices.elems <==> x in g.vertices.elems || x == e.u || x == e.v
    ensures Wf(h)
  {
    forall x, k | 0 <= x < |h.store| && k in h.store[x].edgesOut
      ensures OutEntry(h, x, k)
    {
      AttachOut(g.store, e, x, k);
      if !((e.directed && x == e.u && k == e.u) || (!e.directed && ((x == e.u && k == e.v) || (x == e.v && k == e.u)))) {
        assert OutEntry(g, x, k);
      }
    }
    forall f | f in h.edges.elems && !f.directed && f.u != f.v
      ensures Linked(h, f)
    {
      AttachOut(g.store, e, f.u, f.v);
      AttachOut(g.store, e, f.v, f.u);
      if f != e {
        assert Linked(g, f);
        assert Key(f) != Key(e);
      }
    }
  }

  /**
   * Java `addEdge(u, v, weight, directed, data)` and the overloads that fill
   * in `directed = false`, no weight or null data: build the edge, add it,
   * and return it, or null when an equal edge was already present.
   */
  function AddEdgeBetween<V, E(==)>(g: Graph<V, E>, u: VertexId, v: VertexId, directed: bool, weight: Option<nat>, data: E)
    : (r: (Graph<V, E>, Option<Edge<E>>))
    requires Wf(g) && u < |g.store| && v < |g.store|
    ensures Wf(r.0) && |r.0.store| == |g.store|
    ensures r.1.Some? <==> forall f :: f in g.edges.elems ==> !SameEdge(f, Edge(u, v, directed, data, weight))
    ensures r.1.Some? ==> r.1.value == Edge(u, v, directed, data, weight) && r.1.value in r.0.edges.elems
    ensures r.1.None? ==> r.0 == g
    ensures r.1.Some? ==> r.0.edges.elems == g.edges.elems + [r.1.value]
    ensures r.1.Some? ==> forall x :: x in r.0.vertices.elems <==> x in g.vertices.elems || x == u || x == v
  {
    var e := Edge(u, v, directed, data, weight);
    var (h, added) := AddEdge(g, e);
    (h, if added then Some(e) else None)
  }

  /** The positional overloads `addEdge(i, j, ...)`: `getVertex` may throw first. */
  function AddEdgeAt<V, E(==)>(g: Graph<V, E>, i: int, j: int, directed: bool, weight: Option<nat>, data: E)
    : (r: Result<(Graph<V, E>, Option<Edge<E>>)>)
    requires Wf(g)
    ensures r.Err? <==> !(0 <= i < |g.ordered|) || !(0 <= j < |g.ordered|)
    ensures r.Ok? ==> Wf(r.value.0)
    ensures r.Ok? ==> r.value == AddEdgeBetween(g, g.ordered[i], g.ordered[j], directed, weight, data)
  {
    match GetVertex(g, i)
    case Err(x) => Err(x)
    case Ok(u) =>
      match GetVertex(g, j)
      case Err(x) => Err(x)
      case Ok(v) => Ok(AddEdgeBetween(g, u, v, directed, weight, data))
  }

  /**
   * Adding an undirected edge twice: the second call reports "already
   * present" and leaves the graph, in particular its edge count, unchanged.
   */
  lemma AddEdgeIdempotent<V, E>(g: Graph<V, E>, u: VertexId, v: VertexId, weight: Option<nat>, d1: E, d2: E)
    requires Wf(g) && u < |g.store| && v < |g.store|
    ensures var (h, _) := AddEdgeBetween(g, u, v, false, weight, d1);
      AddEdgeBetween(h, v, u, false, weight, d2) == (h, None)
  {
    var (h, r) := AddEdgeBetween(g, u, v, false, weight, d1);
    var e := Edge(u, v, false, d1, weight);
    var f: Edge<E>;
    if r.None? {
      f :| f in g.edges.elems && SameEdge(f, e);
    } else {
      f := e;
    }
    var e2 := Edge(v, u, false, d2, weight);
    SameEdgeIffKey(f, e);
    SameEdgeIffKey(f, e2);
    assert f in h.edges.elems && SameEdge(f, e2);
    AlreadyPresent(h, f, v, u, false, weight, d2);
  }

  /** `addEdge` of an edge equal to one already in the graph changes nothing. */
  lemma AlreadyPresent<V, E>(g: Graph<V, E>, f: Edge<E>, u: VertexId, v: VertexId, directed: bool, weight: Option<nat>, data: E)
    requires Wf(g) && u < |g.store| && v < |g.store|
    requires f in g.edges.elems && SameEdge(f, Edge(u, v, directed, data, weight))
    ensures AddEdgeBetween(g, u, v, directed, weight, data) == (g, None)
  {
  }

  /** After a successful undirected `addEdge(u, v)`, `getEdge` returns the edge from both ends. */
  lemma AddUndirectedThenGetEdge<V, E>(g: Graph<V, E>, u: VertexId, v: VertexId, weight: Option<nat>, data: E)
    requires Wf(g) && u < |g.store| && v < |g.store|
    ensures var (h, r) := AddEdgeBetween(g, u, v, false, weight, data);
      r.Some? ==> GetEdge(h, u, v) == r && GetEdge(h, v, u) == r
  {
  }

  /**
   * The directed-edge quirk: in a graph of two vertices, adding the directed
   * edge 0 -> 1 succeeds, yet `getEdge(0, 1)` finds nothing, while the
   * source's out-map holds the edge under the source itself.
   */
  lemma DirectedEdgeFiledUnderSource<V, E>(a: V, b: V, data: E)
    ensures var (g1, x) := AddVertex(Empty<V, E>(), a);
      var (g2, y) := AddVertex(g1, b);
      var (g3, r) := AddEdgeBetween(g2, x, y, true, None, data);
      && r.Some?
      && GetEdge(g3, x, y).None?
      && GetEdgeTo(g3, x, x) == r
  {
    EmptyWf<V, E>();
  }

  // ---------------------------------------------------------------------
  // Whole-graph views

  /**
   * Java `adjacencyMatrix()`: M[i][j] is whether `getVertex(i).getEdgeTo(getVertex(j))`
   * exists, for i, j below the vertex-set size; positions missing from the
   * positional list throw.
   */
  function AdjacencyMatrix<V, E(==)>(g: Graph<V, E>): (r: Result<seq<seq<bool>>>)
    requires Wf(g)
    ensures r.Err? <==> g.vertices.size > |g.ordered|
    ensures r.Err? ==> r.error == IndexOutOfBounds
    ensures r.Ok? ==> |r.value| == |g.ordered|
    ensures r.Ok? ==> forall i :: 0 <= i < |r.value| ==> |r.value[i]| == |g.ordered|
    ensures r.Ok? ==> forall i, j :: 0 <= i < |g.ordered| && 0 <= j < |g.ordered| ==>
      (r.value[i][j] <==> GetEdgeTo(g, g.ordered[i], g.ordered[j]).Some?)
  {
    OrderedWithinVertices(g);
    var n := g.vertices.size;
    if n > |g.ordered| then Err(IndexOutOfBounds)
    else Ok(seq(n, i requires 0 <= i < n => seq(n, j requires 0 <= j < n => g.ordered[j] in g.store[g.ordered[i]].edgesOut)))
  }

  /** In the matrix, an undirected non-loop edge between positions i and j shows in both directions. */
  lemma AdjacencySymmetricForUndirected<V, E>(g: Graph<V, E>, e: Edge<E>, i: nat, j: nat)
    requires Wf(g) && AdjacencyMatrix(g).Ok?
    requires e in g.edges.elems && !e.directed && e.u != e.v
    requires i < |g.ordered| && j < |g.ordered| && g.ordered[i] == e.u && g.ordered[j] == e.v
    ensures AdjacencyMatrix(g).value[i][j] && AdjacencyMatrix(g).value[j][i]
  {
  }

  /** The set of ids a list holds. */
  function IdSet(xs: seq<VertexId>): (r: set<VertexId>)
    ensures forall x :: x in r <==> x in xs
  {
    if |xs| == 0 then {}
    else
      assert xs == [xs[0]] + xs[1..];
      {xs[0]} + IdSet(xs[1..])
  }

  /** The number of distinct ids in a list is its length. */
  lemma {:induction false} DistinctCard(xs: seq<VertexId>)
    requires DistinctIds(xs)
    ensures |IdSet(xs)| == |xs|
  {
    if |xs| > 0 {
      var tail := xs[1..];
      assert DistinctIds(tail) by {
        forall a, b | 0 <= a < b < |tail| ensures tail[a] != tail[b] {
          assert tail[a] == xs[a + 1] && tail[b] == xs[b + 1];
        }
      }
      DistinctCard(tail);
      assert xs[0] !in IdSet(tail) by {
        forall a | 0 <= a < |tail| ensures tail[a] != xs[0] {
          assert tail[a] == xs[a + 1];
        }
      }
    }
  }

  /** A subset is no larger than its superset, and a proper subset is smaller. */
  lemma SubsetCard(a: set<VertexId>, b: set<VertexId>)
    requires a <= b
    ensures |a| <= |b|
    ensures a < b ==> |a| < |b|
  {
    assert b == a + (b - a);
    assert a * (b - a) == {};
    if a < b {
      var x :| x in b && x !in a;
      assert x in b - a;
    }
  }

  /** The positional list never holds more vertices than the vertex set. */
  lemma OrderedWithinVertices<V, E>(g: Graph<V, E>)
    requires Wf(g)
    ensures |g.ordered| <= g.vertices.size
    ensures |g.ordered| == g.vertices.size ==> forall x :: x in g.vertices.elems ==> x in g.ordered
  {
    var os := IdSet(g.ordered);
    var vs := IdSet(g.vertices.elems);
    DistinctCard(g.ordered);
    assert DistinctIds(g.vertices.elems) by {
      forall a, b | 0 <= a < b < |g.vertices.elems| ensures g.vertices.elems[a] != g.vertices.elems[b] {
        assert Id(g.vertices.elems[a]) != Id(g.vertices.elems[b]);
      }
    }
    DistinctCard(g.vertices.elems);
    assert os <= vs by {
      forall x | x in os ensures x in vs {
        var i :| 0 <= i < |g.ordered| && g.ordered[i] == x;
      }
    }
    SubsetCard(os, vs);
  }

  // ---------------------------------------------------------------------
  // What the algorithms rely on

  /** Java `x.edgesOut`: the out-map of vertex `x`, empty for an id that names no vertex object. */
  function Out<V, E>(g: Graph<V, E>, x: VertexId): map<VertexId, Edge<E>> {
    if x < |g.store| then g.store[x].edgesOut else map[]
  }

  /** The member vertices as a set. */
  function Members<V, E>(g: Graph<V, E>): set<VertexId> {
    set x | x in g.vertices.elems
  }

  /**
   * Every member vertex is a vertex object, and every out-map entry of any
   * vertex object is keyed by a member and leads, through `other`, to a
   * member: the part of the invariant the algorithms rely on.
   */
  ghost predicate Closed<V, E>(g: Graph<V, E>) {
    && (forall x :: x in Members(g) ==> x < |g.store|)
    && (forall x, k :: k in Out(g, x) ==>
          k in Members(g) && Other(Out(g, x)[k], x).Some? && Other(Out(g, x)[k], x).value in Members(g))
  }

  lemma WfClosed<V, E>(g: Graph<V, E>)
    requires Wf(g)
    ensures Closed(g)
  {
    forall x, k | k in Out(g, x)
      ensures k in Members(g) && Other(Out(g, x)[k], x).Some? && Other(Out(g, x)[k], x).value in Members(g)
    {
      assert OutEntry(g, x, k);
    }
  }
}
