/**
 * Graphs built from other graphs or from nothing (Graph.java): the
 * `Graph(int n)` constructor, the copy constructor `Graph(Collection<Edge>)`
 * and `reverse()`.
 */
module GraphCopies {
  import opened Wrappers
  import opened Graphs
  import HashSets

  /**
   * Java `new Graph(n)`: `n` vertices created by `addVertex()`, so vertex `i`
   * is `getVertex(i)`, and no edges. `blank` is the payload of a data-less
   * vertex (Java null). A negative `n` runs the loop zero times.
   */
  function WithVertices<V(==), E(==)>(n: int, blank: V): (r: Graph<V, E>)
    ensures Wf(r)
    ensures n <= 0 ==> r == Empty()
    ensures n > 0 ==> |r.ordered| == n && |r.store| == n && r.vertices.size == n
    ensures forall i :: 0 <= i < n ==> GetVertex(r, i) == Ok(i) && r.store[i].data == blank
    ensures r.edges.elems == []
  {
    if n <= 0 then
      EmptyWf<V, E>();
      Empty()
    else
      var g := WithVertices(n - 1, blank);
      BlankAdded(g, blank, n - 1);
      AddVertex(g, blank).0
  }

  /** One more data-less vertex keeps the identity layout. */
  lemma BlankAdded<V, E>(g: Graph<V, E>, blank: V, n: nat)
    requires Wf(g) && |g.ordered| == n && |g.store| == n && g.vertices.size == n && g.edges.elems == []
    requires forall i :: 0 <= i < n ==> GetVertex(g, i) == Ok(i) && g.store[i].data == blank
    ensures var r := AddVertex(g, blank).0;
      && |r.ordered| == n + 1 && |r.store| == n + 1 && r.vertices.size == n + 1 && r.edges.elems == []
      && forall i :: 0 <= i < n + 1 ==> GetVertex(r, i) == Ok(i) && r.store[i].data == blank
  {
    var (r, v) := AddVertex(g, blank);
    assert v == n;
    forall i | 0 <= i < n + 1 ensures GetVertex(r, i) == Ok(i) && r.store[i].data == blank {
      if i < n {
        assert GetVertex(r, i) == GetVertex(g, i);
      }
    }
  }

  // ---------------------------------------------------------------------
  // The copy constructor

  /** `vm` sends distinct original vertices to distinct vertex objects of `g` carrying the same payload. */
  predicate Renames<V(==), E(==)>(vm: map<VertexId, VertexId>, src: seq<Vertex<V, E>>, g: Graph<V, E>) {
    && (forall x :: x in vm ==> x < |src| && vm[x] < |g.store| && g.store[vm[x]].data == src[x].data)
    && (forall x, y :: x in vm && y in vm && x != y ==> vm[x] != vm[y])
  }

  /** `f` is equal to the copy of `e` under the renaming `vm`: same ends and direction, as `equals` sees it. */
  predicate CopyOf<E(==)>(f: Edge<E>, e: Edge<E>, vm: map<VertexId, VertexId>) {
    e.u in vm && e.v in vm && SameEdge(f, Edge(vm[e.u], vm[e.v], e.directed, e.data, e.weight))
  }

  /** `f` is exactly the renamed `e`: same direction, same data, same weight. */
  predicate ExactCopyOf<E(==)>(f: Edge<E>, e: Edge<E>, vm: map<VertexId, VertexId>) {
    e.u in vm && e.v in vm && f == Edge(vm[e.u], vm[e.v], e.directed, e.data, e.weight)
  }

  /** The original vertices that are an endpoint of some edge of `c`. */
  function Ends<E(==)>(c: seq<Edge<E>>): set<VertexId> {
    (set e | e in c :: e.u) + (set e | e in c :: e.v)
  }

  lemma EndsSnoc<E>(c: seq<Edge<E>>, t: nat)
    requires t < |c|
    ensures Ends(c[..t + 1]) == Ends(c[..t]) + {c[t].u, c[t].v}
  {
    assert c[..t + 1] == c[..t] + [c[t]];
  }

  /** The graph has a copy of `e`. */
  predicate HasCopy<V(==), E(==)>(g: Graph<V, E>, e: Edge<E>, vm: map<VertexId, VertexId>) {
    exists f :: f in g.edges.elems && CopyOf(f, e, vm)
  }

  /**
   * Java `new Graph(c)`: each endpoint of each edge of `c` (whose vertex
   * objects are `src`) gets one fresh vertex object carrying the same payload
   * (`vm` records which), and a copy of each edge is added between the
   * copies of its endpoints, carrying the original's data and weight. An
   * edge of `c` equal to an earlier one (same ends and direction, whatever
   * its weight) is refused by `addEdge`, so every edge of `c` has a copy up
   * to equality, and every edge of the result is the exact copy of some
   * edge of `c`. The copies are added through `addEdge`, so they
   * join the vertex set but never the positional list: as soon as `c` is
   * non-empty, `getVertex(0)` and `adjacencyMatrix()` throw.
   */
  method FromEdges<V(==), E(==)>(src: seq<Vertex<V, E>>, c: seq<Edge<E>>) returns (g: Graph<V, E>, vm: map<VertexId, VertexId>)
    requires forall e :: e in c ==> e.u < |src| && e.v < |src|
    ensures Wf(g) && Renames(vm, src, g)
    ensures forall e :: e in c ==> HasCopy(g, e, vm)
    ensures forall f :: f in g.edges.elems ==> exists e :: e in c && ExactCopyOf(f, e, vm)
    ensures vm.Keys == Ends(c)
    ensures forall x :: x in g.vertices.elems <==> x in vm.Values
    ensures g.ordered == []
    ensures |g.edges.elems| <= |c|
    ensures |c| > 0 ==> GetVertex(g, 0).Err? && AdjacencyMatrix(g).Err?
  {
    g := Empty();
    EmptyWf<V, E>();
    vm := map[];
    var t := 0;
    while t < |c|
      invariant 0 <= t <= |c|
      invariant Wf(g) && Renames(vm, src, g) && g.ordered == []
      invariant |g.edges.elems| <= t
      invariant t > 0 ==> g.vertices.size > 0
      invariant CopiedPrefix(g, vm, c, t) && Onto(g, vm)
    {
      assert c[t] in c;
      var g', vm' := CopyEdge(src, g, vm, c[t]);
      OntoStep(g, g', vm, vm', c[t]);
      CopiedStep(g, g', vm, vm', c, t);
      g, vm := g', vm';
      t := t + 1;
    }
    assert c[..|c|] == c;
    OntoValues(g, vm);
    if |c| > 0 {
      OrderedWithinVertices(g);
    }
  }

  /** One iteration of the copy constructor: map both endpoints of `e`, then add the copy of `e`. */
  method CopyEdge<V(==), E(==)>(src: seq<Vertex<V, E>>, g: Graph<V, E>, vm: map<VertexId, VertexId>, e: Edge<E>)
    returns (g': Graph<V, E>, vm': map<VertexId, VertexId>)
    requires Wf(g) && Renames(vm, src, g) && g.ordered == [] && e.u < |src| && e.v < |src|
    ensures Wf(g') && Renames(vm', src, g') && g'.ordered == []
    ensures forall y :: y in vm ==> y in vm' && vm'[y] == vm[y]
    ensures forall f :: f in g.edges.elems ==> f in g'.edges.elems
    ensures |g'.edges.elems| <= |g.edges.elems| + 1
    ensures HasCopy(g', e, vm') && g'.vertices.size > 0
    ensures forall f :: f in g'.edges.elems ==> f in g.edges.elems || ExactCopyOf(f, e, vm')
    ensures vm'.Keys == vm.Keys + {e.u, e.v}
    ensures forall x :: x in g'.vertices.elems <==> x in g.vertices.elems || x == vm'[e.u] || x == vm'[e.v]
  {
    var (g2, vm2) := AdmitEnds(src, g, vm, e);
    var added := AddEdgeBetween(g2, vm2[e.u], vm2[e.v], e.directed, e.weight, e.data);
    CopyAdded(g2, e, vm2);
    CopyFiled(g2, e, vm2);
    g', vm' := added.0, vm2;
    assert vm2[e.u] in g'.vertices.elems;
  }

  /** Both endpoints of `e` mapped to vertex objects, allocating the ones not mapped yet. */
  function AdmitEnds<V(==), E(==)>(src: seq<Vertex<V, E>>, g: Graph<V, E>, vm: map<VertexId, VertexId>, e: Edge<E>)
    : (r: (Graph<V, E>, map<VertexId, VertexId>))
    requires Wf(g) && Renames(vm, src, g) && e.u < |src| && e.v < |src|
    ensures Wf(r.0) && Renames(r.1, src, r.0)
    ensures forall y :: y in vm ==> y in r.1 && r.1[y] == vm[y]
    ensures r.1.Keys == vm.Keys + {e.u, e.v}
    ensures r.0.edges == g.edges && r.0.vertices == g.vertices && r.0.ordered == g.ordered
  {
    var (g1, vm1) := Admit(src, g, vm, e.u);
    Admit(src, g1, vm1, e.v)
  }

  /** What `addEdge` of the renamed copy of `e` does to the edge set and the vertex set. */
  lemma CopyFiled<V, E>(g: Graph<V, E>, e: Edge<E>, vm: map<VertexId, VertexId>)
    requires Wf(g) && e.u in vm && e.v in vm && vm[e.u] < |g.store| && vm[e.v] < |g.store|
    ensures var h := AddEdgeBetween(g, vm[e.u], vm[e.v], e.directed, e.weight, e.data).0;
      && (forall f :: f in h.edges.elems ==> f in g.edges.elems || ExactCopyOf(f, e, vm))
      && (forall x :: x in h.vertices.elems <==> x in g.vertices.elems || x == vm[e.u] || x == vm[e.v])
  {
    var copy := Edge(vm[e.u], vm[e.v], e.directed, e.data, e.weight);
    var added := AddEdgeBetween(g, vm[e.u], vm[e.v], e.directed, e.weight, e.data);
    if added.1.None? {
      var f :| f in g.edges.elems && SameEdge(f, copy);
      SameEdgeEnds(f, copy);
    } else {
      assert ExactCopyOf(copy, e, vm);
    }
  }

  /** Equal edges have the same endpoints. */
  lemma SameEdgeEnds<E>(a: Edge<E>, b: Edge<E>)
    requires SameEdge(a, b)
    ensures {a.u, a.v} == {b.u, b.v}
  {
  }


  /** What the first `t` iterations of the copy constructor have built: a copy of each of `c[..t]`, and nothing else. */
  ghost predicate CopiedPrefix<V, E>(g: Graph<V, E>, vm: map<VertexId, VertexId>, c: seq<Edge<E>>, t: nat)
    requires t <= |c|
  {
    && (forall s :: 0 <= s < t ==> HasCopy(g, c[s], vm))
    && (forall f :: f in g.edges.elems ==> exists e :: e in c[..t] && ExactCopyOf(f, e, vm))
    && vm.Keys == Ends(c[..t])
  }

  /** The vertex objects of `g` are exactly the images of `vm`. */
  predicate Onto<V, E(==)>(g: Graph<V, E>, vm: map<VertexId, VertexId>) {
    && (forall y :: y in vm ==> vm[y] in g.vertices.elems)
    && (forall x :: x in g.vertices.elems ==> exists y :: y in vm && vm[y] == x)
  }

  lemma OntoValues<V, E>(g: Graph<V, E>, vm: map<VertexId, VertexId>)
    requires Onto(g, vm)
    ensures forall x :: x in g.vertices.elems <==> x in vm.Values
  {
  }

  /** One more iteration of the copy constructor extends `CopiedPrefix` by one edge. */
  lemma CopiedStep<V, E>(g: Graph<V, E>, g': Graph<V, E>, vm: map<VertexId, VertexId>, vm': map<VertexId, VertexId>, c: seq<Edge<E>>, t: nat)
    requires t < |c| && CopiedPrefix(g, vm, c, t)
    requires forall y :: y in vm ==> y in vm' && vm'[y] == vm[y]
    requires forall f :: f in g.edges.elems ==> f in g'.edges.elems
    requires HasCopy(g', c[t], vm')
    requires forall f :: f in g'.edges.elems ==> f in g.edges.elems || ExactCopyOf(f, c[t], vm')
    requires vm'.Keys == vm.Keys + {c[t].u, c[t].v}
    ensures CopiedPrefix(g', vm', c, t + 1)
  {
    CopiesGrow(g, g', vm, vm', c, t);
    CopiesSourced(g, g', vm, vm', c, t);
    EndsSnoc(c, t);
  }

  /** The copy constructor's bookkeeping: every edge of the copy still comes from an edge of `c`. */
  lemma CopiesSourced<V, E>(g: Graph<V, E>, g': Graph<V, E>, vm: map<VertexId, VertexId>, vm': map<VertexId, VertexId>, c: seq<Edge<E>>, t: nat)
    requires t < |c|
    requires forall f :: f in g.edges.elems ==> exists e :: e in c[..t] && ExactCopyOf(f, e, vm)
    requires forall y :: y in vm ==> y in vm' && vm'[y] == vm[y]
    requires forall f :: f in g'.edges.elems ==> f in g.edges.elems || ExactCopyOf(f, c[t], vm')
    ensures forall f :: f in g'.edges.elems ==> exists e :: e in c[..t + 1] && ExactCopyOf(f, e, vm')
  {
    assert c[..t + 1] == c[..t] + [c[t]];
    forall f | f in g'.edges.elems ensures exists e :: e in c[..t + 1] && ExactCopyOf(f, e, vm') {
      if f in g.edges.elems {
        var e :| e in c[..t] && ExactCopyOf(f, e, vm);
        assert ExactCopyOf(f, e, vm') && e in c[..t + 1];
      } else {
        assert c[t] in c[..t + 1];
      }
    }
  }

  /** The vertex set stays the image of the renaming when both grow by the endpoints of one edge. */
  lemma OntoStep<V, E>(g: Graph<V, E>, g': Graph<V, E>, vm: map<VertexId, VertexId>, vm': map<VertexId, VertexId>, e: Edge<E>)
    requires Onto(g, vm)
    requires forall y :: y in vm ==> y in vm' && vm'[y] == vm[y]
    requires vm'.Keys == vm.Keys + {e.u, e.v}
    requires forall x :: x in g'.vertices.elems <==> x in g.vertices.elems || x == vm'[e.u] || x == vm'[e.v]
    ensures Onto(g', vm')
  {
    forall x | x in g'.vertices.elems ensures exists y :: y in vm' && vm'[y] == x {
      if x in g.vertices.elems {
        var y :| y in vm && vm[y] == x;
        assert vm'[y] == x;
      }
    }
  }

  /** The copy constructor's bookkeeping: earlier copies survive, and edge `t` now has one. */
  lemma CopiesGrow<V, E>(g: Graph<V, E>, g': Graph<V, E>, vm: map<VertexId, VertexId>, vm': map<VertexId, VertexId>, c: seq<Edge<E>>, t: nat)
    requires t < |c|
    requires forall s :: 0 <= s < t ==> HasCopy(g, c[s], vm)
    requires forall y :: y in vm ==> y in vm' && vm'[y] == vm[y]
    requires forall f :: f in g.edges.elems ==> f in g'.edges.elems
    requires HasCopy(g', c[t], vm')
    ensures forall s :: 0 <= s < t + 1 ==> HasCopy(g', c[s], vm')
  {
    forall s | 0 <= s < t + 1 ensures HasCopy(g', c[s], vm') {
      if s < t {
        HasCopyGrows(g, g', c[s], vm, vm');
      }
    }
  }

  /** The copy constructor's `vertexMap.put(v, new Vertex(v.data))` for an endpoint not mapped yet. */
  function Admit<V(==), E(==)>(src: seq<Vertex<V, E>>, g: Graph<V, E>, vm: map<VertexId, VertexId>, x: VertexId)
    : (r: (Graph<V, E>, map<VertexId, VertexId>))
    requires Wf(g) && Renames(vm, src, g) && x < |src|
    ensures Wf(r.0) && Renames(r.1, src, r.0) && x in r.1
    ensures forall y :: y in vm ==> y in r.1 && r.1[y] == vm[y]
    ensures r.0.edges == g.edges && r.0.vertices == g.vertices && r.0.ordered == g.ordered
    ensures x in vm ==> r == (g, vm)
    ensures r.1.Keys == vm.Keys + {x}
  {
    if x in vm then (g, vm)
    else
      var a := Allocate(g, src[x].data);
      AllocateWf(g, src[x].data);
      RenameFresh(vm, src, g, x, a.0);
      (a.0, vm[x := a.1])
  }

  /** Copies stay copies when edges are only added and the renaming only grows. */
  lemma HasCopyGrows<V, E>(g: Graph<V, E>, h: Graph<V, E>, e: Edge<E>, vm: map<VertexId, VertexId>, vm': map<VertexId, VertexId>)
    requires HasCopy(g, e, vm)
    requires forall f :: f in g.edges.elems ==> f in h.edges.elems
    requires forall y :: y in vm ==> y in vm' && vm'[y] == vm[y]
    ensures HasCopy(h, e, vm')
  {
    var f :| f in g.edges.elems && CopyOf(f, e, vm);
    assert CopyOf(f, e, vm');
  }

  /** After `addEdge` of the renamed copy of `e`, the graph has a copy of `e`, added or already there. */
  lemma CopyAdded<V, E>(g: Graph<V, E>, e: Edge<E>, vm: map<VertexId, VertexId>)
    requires Wf(g) && e.u in vm && e.v in vm && vm[e.u] < |g.store| && vm[e.v] < |g.store|
    ensures HasCopy(AddEdgeBetween(g, vm[e.u], vm[e.v], e.directed, e.weight, e.data).0, e, vm)
  {
    var copy := Edge(vm[e.u], vm[e.v], e.directed, e.data, e.weight);
    var added := AddEdgeBetween(g, vm[e.u], vm[e.v], e.directed, e.weight, e.data);
    if added.1.None? {
      var f :| f in g.edges.elems && SameEdge(f, copy);
      assert CopyOf(f, e, vm);
    } else {
      assert CopyOf(copy, e, vm);
    }
  }

  /** A fresh vertex object that copies `src[x]` extends the renaming. */
  lemma RenameFresh<V, E>(vm: map<VertexId, VertexId>, src: seq<Vertex<V, E>>, g: Graph<V, E>, x: VertexId, h: Graph<V, E>)
    requires Renames(vm, src, g) && x < |src| && x !in vm
    requires |h.store| == |g.store| + 1 && h.store[..|g.store|] == g.store && h.store[|g.store|].data == src[x].data
    ensures Renames(vm[x := |g.store|], src, h)
  {
    forall y | y in vm ensures h.store[vm[y]] == g.store[vm[y]] {
      assert h.store[..|g.store|][vm[y]] == h.store[vm[y]];
    }
  }

  // ---------------------------------------------------------------------
  // Reversal

  /**
   * `f` is the reversal of `e` re-homed by position: `e` joins the vertices at
   * positions `a` and `b`, and `f` equals the reverse of an edge from `a` to
   * `b` with the directedness, payload and weight of `e`.
   */
  predicate Reverses<E(==)>(f: Edge<E>, e: Edge<E>, ordered: seq<VertexId>) {
    exists a, b :: 0 <= a < |ordered| && 0 <= b < |ordered| && ordered[a] == e.u && ordered[b] == e.v &&
      SameEdge(f, Reverse(Edge(a, b, e.directed, e.data, e.weight))) &&
      f.data == e.data && f.weight == e.weight
  }

  /** `pos` maps each of the first `n` positional vertices to its position (the source's `map`). */
  predicate IsPositions(ordered: seq<VertexId>, pos: map<VertexId, nat>, n: nat) {
    && n <= |ordered|
    && (forall k :: 0 <= k < n ==> ordered[k] in pos && pos[ordered[k]] == k)
    && (forall w :: w in pos ==> pos[w] < n && ordered[pos[w]] == w)
  }

  /** The key of the reversed copy of `e` between positions. */
  function RevKey<E(==)>(e: Edge<E>, pos: map<VertexId, nat>): EdgeKey
    requires e.u in pos && e.v in pos
  {
    if e.directed then Arc(pos[e.v], pos[e.u]) else Link(Min(pos[e.u], pos[e.v]), Max(pos[e.u], pos[e.v]))
  }

  /** `f` is a reversed copy of `e`: the reversed key, the same payload and weight. */
  predicate Copied<E(==)>(f: Edge<E>, e: Edge<E>, pos: map<VertexId, nat>) {
    e.u in pos && e.v in pos && Key(f) == RevKey(e, pos) && f.data == e.data && f.weight == e.weight
  }

  predicate Present<V(==), E(==)>(h: Graph<V, E>, e: Edge<E>, pos: map<VertexId, nat>) {
    exists f :: f in h.edges.elems && Copied(f, e, pos)
  }

  /** `h'` keeps every edge of `h`. */
  predicate Grows<V(==), E(==)>(h: Graph<V, E>, h': Graph<V, E>) {
    forall f :: f in h.edges.elems ==> f in h'.edges.elems
  }

  /** `origin` sends each reversed key back to the edge of `g` it comes from. */
  predicate Origins<V(==), E(==)>(g: Graph<V, E>, pos: map<VertexId, nat>, origin: map<EdgeKey, Edge<E>>) {
    forall key :: key in origin ==>
      origin[key] in g.edges.elems && origin[key].u in pos && origin[key].v in pos && RevKey(origin[key], pos) == key
  }

  /** Every edge of `h` carries the payload and weight of the edge its key comes from. */
  predicate Sourced<V(==), E(==)>(h: Graph<V, E>, origin: map<EdgeKey, Edge<E>>) {
    forall f :: f in h.edges.elems ==>
      Key(f) in origin && f.data == origin[Key(f)].data && f.weight == origin[Key(f)].weight
  }

  /** The positional list of `h` is the identity on `0..n` and carries the payloads of `g`'s list. */
  predicate Mirrors<V(==), E(==)>(h: Graph<V, E>, g: Graph<V, E>, n: nat) {
    && |h.ordered| == n && |h.store| == n && n <= |g.ordered|
    && (forall k :: 0 <= k < n ==>
          h.ordered[k] == k && g.ordered[k] < |g.store| && h.store[k].data == g.store[g.ordered[k]].data)
  }

  /** What the edge loop needs about out-entry `e` of vertex `x` at position `i`. */
  predicate EntryReady<E(==)>(e: Edge<E>, x: VertexId, i: nat, pos: map<VertexId, nat>, origin: map<EdgeKey, Edge<E>>, n: nat) {
    && e.u in pos && e.v in pos
    && Other(e, x).Some? && Other(e, x).value in pos && pos[Other(e, x).value] < n
    && Key(Edge(pos[Other(e, x).value], i, e.directed, e.data, e.weight)) == RevKey(e, pos)
    && RevKey(e, pos) in origin && origin[RevKey(e, pos)] == e
  }

  predicate Ready<V(==), E(==)>(g: Graph<V, E>, pos: map<VertexId, nat>, origin: map<EdgeKey, Edge<E>>) {
    forall i, k :: 0 <= i < |g.ordered| && g.ordered[i] < |g.store| && k in g.store[g.ordered[i]].edgesOut ==>
      EntryReady(g.store[g.ordered[i]].edgesOut[k], g.ordered[i], i, pos, origin, |g.ordered|)
  }

  lemma CopiedReverses<E>(f: Edge<E>, e: Edge<E>, ordered: seq<VertexId>, pos: map<VertexId, nat>)
    requires IsPositions(ordered, pos, |ordered|) && Copied(f, e, pos)
    ensures Reverses(f, e, ordered)
  {
    var a, b := pos[e.u], pos[e.v];
    SameEdgeIffKey(f, Reverse(Edge(a, b, e.directed, e.data, e.weight)));
  }

  /** Distinct edges of a graph have distinct reversed keys. */
  lemma RevKeyInjective<V, E>(g: Graph<V, E>, pos: map<VertexId, nat>, n: nat, e1: Edge<E>, e2: Edge<E>)
    requires Wf(g) && IsPositions(g.ordered, pos, n)
    requires e1 in g.edges.elems && e2 in g.edges.elems
    requires e1.u in pos && e1.v in pos && e2.u in pos && e2.v in pos
    requires RevKey(e1, pos) == RevKey(e2, pos)
    ensures e1 == e2
  {
    assert Key(e1) == Key(e2) by {
      if !e1.directed {
        if pos[e1.u] == pos[e2.u] {
          assert e1.u == e2.u && e1.v == e2.v;
        } else {
          assert pos[e1.u] == pos[e2.v];
          assert e1.u == e2.v && e1.v == e2.u;
        }
      }
    }
    var i :| 0 <= i < |g.edges.elems| && g.edges.elems[i] == e1;
    var j :| 0 <= j < |g.edges.elems| && g.edges.elems[j] == e2;
  }

  /** Once every vertex has a position, every edge's endpoints do. */
  lemma EndpointsPlaced<V, E>(g: Graph<V, E>, pos: map<VertexId, nat>)
    requires Wf(g) && g.vertices.size == |g.ordered| && IsPositions(g.ordered, pos, |g.ordered|)
    ensures forall w :: w in g.vertices.elems ==> w in pos
    ensures forall e :: e in g.edges.elems ==> e.u in pos && e.v in pos
  {
    OrderedWithinVertices(g);
    forall w | w in g.vertices.elems ensures w in pos {
      var a :| 0 <= a < |g.ordered| && g.ordered[a] == w;
    }
  }

  /** The map from reversed keys back to the edges of `g`. */
  ghost function OriginMap<V, E>(g: Graph<V, E>, pos: map<VertexId, nat>): (origin: map<EdgeKey, Edge<E>>)
    requires Wf(g) && g.vertices.size == |g.ordered| && IsPositions(g.ordered, pos, |g.ordered|)
    ensures Origins(g, pos, origin)
    ensures forall e :: e in g.edges.elems ==> e.u in pos && e.v in pos && RevKey(e, pos) in origin && origin[RevKey(e, pos)] == e
  {
    EndpointsPlaced(g, pos);
    assert forall e1, e2 :: e1 in g.edges.elems && e2 in g.edges.elems && RevKey(e1, pos) == RevKey(e2, pos) ==> e1 == e2 by {
      forall e1, e2 | e1 in g.edges.elems && e2 in g.edges.elems && RevKey(e1, pos) == RevKey(e2, pos) ensures e1 == e2 {
        RevKeyInjective(g, pos, |g.ordered|, e1, e2);
      }
    }
    map e | e in g.edges.elems :: RevKey(e, pos) := e
  }

  /** The endpoints of an out-map entry and where the reversed copy of it goes. */
  lemma OutEntryPositions<V, E>(g: Graph<V, E>, pos: map<VertexId, nat>, i: nat, k: VertexId)
    requires Wf(g) && g.vertices.size == |g.ordered| && IsPositions(g.ordered, pos, |g.ordered|)
    requires i < |g.ordered| && k in g.store[g.ordered[i]].edgesOut
    ensures var e := g.store[g.ordered[i]].edgesOut[k];
      && e in g.edges.elems && e.u in pos && e.v in pos
      && Other(e, g.ordered[i]).Some? && Other(e, g.ordered[i]).value in pos
      && Key(Edge(pos[Other(e, g.ordered[i]).value], i, e.directed, e.data, e.weight)) == RevKey(e, pos)
  {
    var x := g.ordered[i];
    assert OutEntry(g, x, k);
    var e := g.store[x].edgesOut[k];
    EndpointsPlaced(g, pos);
    assert pos[x] == i;
    if !e.directed {
      var w := Other(e, x).value;
      if x == e.u {
        assert w == e.v;
      } else {
        assert x == e.v && w == e.u;
      }
    }
  }

  /** Everything the edge loop needs about `g`, established once. */
  lemma ReadyFromWf<V, E>(g: Graph<V, E>, pos: map<VertexId, nat>)
    requires Wf(g) && g.vertices.size == |g.ordered| && IsPositions(g.ordered, pos, |g.ordered|)
    ensures Ready(g, pos, OriginMap(g, pos))
  {
    var origin := OriginMap(g, pos);
    forall i, k | 0 <= i < |g.ordered| && g.ordered[i] < |g.store| && k in g.store[g.ordered[i]].edgesOut
      ensures EntryReady(g.store[g.ordered[i]].edgesOut[k], g.ordered[i], i, pos, origin, |g.ordered|)
    {
      OutEntryPositions(g, pos, i, k);
    }
  }

  /**
   * Adding the reversed copy of `e`: afterwards a copy of `e` is present,
   * every edge of `h` is still there, and every edge still carries the
   * payload and weight of the edge its key comes from.
   */
  lemma AddCopy<V, E>(h: Graph<V, E>, pos: map<VertexId, nat>, origin: map<EdgeKey, Edge<E>>, e: Edge<E>, j: VertexId, i: VertexId)
    requires Wf(h) && j < |h.store| && i < |h.store| && Sourced(h, origin)
    requires e.u in pos && e.v in pos && RevKey(e, pos) in origin && origin[RevKey(e, pos)] == e
    requires Key(Edge(j, i, e.directed, e.data, e.weight)) == RevKey(e, pos)
    ensures var h' := AddEdgeBetween(h, j, i, e.directed, e.weight, e.data).0;
      Sourced(h', origin) && Present(h', e, pos) && Grows(h, h')
  {
    var copy := Edge(j, i, e.directed, e.data, e.weight);
    var added := AddEdgeBetween(h, j, i, e.directed, e.weight, e.data);
    if added.1.None? {
      var f :| f in h.edges.elems && SameEdge(f, copy);
      SameEdgeIffKey(f, copy);
      assert Copied(f, e, pos);
    } else {
      assert Copied(copy, e, pos);
      assert added.0.edges.elems == h.edges.elems + [copy];
    }
  }

  /** A copy stays present when edges are only added. */
  lemma PresentGrows<V, E>(h: Graph<V, E>, h': Graph<V, E>, e: Edge<E>, pos: map<VertexId, nat>)
    requires Present(h, e, pos) && Grows(h, h')
    ensures Present(h', e, pos)
  {
    var f :| f in h.edges.elems && Copied(f, e, pos);
    assert f in h'.edges.elems;
  }

  /** The inner loop's bookkeeping: the entries handled so far, now including `k`, all have copies. */
  lemma DoneGrows<V, E>(h: Graph<V, E>, h': Graph<V, E>, out: map<VertexId, Edge<E>>, todo: set<VertexId>, k: VertexId, pos: map<VertexId, nat>)
    requires k in out && Present(h', out[k], pos)
    requires forall k0 :: k0 in out && k0 !in todo ==> Present(h, out[k0], pos)
    requires Grows(h, h')
    ensures forall k0 :: k0 in out && k0 !in todo - {k} ==> Present(h', out[k0], pos)
  {
    forall k0 | k0 in out && k0 !in todo - {k} ensures Present(h', out[k0], pos) {
      if k0 != k {
        PresentGrows(h, h', out[k0], pos);
      }
    }
  }

  /** The outer loop's bookkeeping: copies made for earlier positions survive, and position `i` is now done. */
  lemma EarlierGrows<V, E>(g: Graph<V, E>, h: Graph<V, E>, h': Graph<V, E>, pos: map<VertexId, nat>, i: nat)
    requires i < |g.ordered| && g.ordered[i] < |g.store|
    requires forall i', k :: 0 <= i' < i && i' < |g.ordered| && g.ordered[i'] < |g.store| && k in g.store[g.ordered[i']].edgesOut ==>
      Present(h, g.store[g.ordered[i']].edgesOut[k], pos)
    requires Grows(h, h')
    requires forall k :: k in g.store[g.ordered[i]].edgesOut ==> Present(h', g.store[g.ordered[i]].edgesOut[k], pos)
    ensures forall i', k :: 0 <= i' < i + 1 && i' < |g.ordered| && g.ordered[i'] < |g.store| && k in g.store[g.ordered[i']].edgesOut ==>
      Present(h', g.store[g.ordered[i']].edgesOut[k], pos)
  {
    forall i', k | 0 <= i' < i + 1 && i' < |g.ordered| && g.ordered[i'] < |g.store| && k in g.store[g.ordered[i']].edgesOut
      ensures Present(h', g.store[g.ordered[i']].edgesOut[k], pos)
    {
      if i' < i {
        PresentGrows(h, h', g.store[g.ordered[i']].edgesOut[k], pos);
      }
    }
  }

  /** The first loop of `reverse()`: one new vertex per position, and the position of each original vertex. */
  method ReverseVertices<V(==), E(==)>(g: Graph<V, E>, n: nat) returns (h: Graph<V, E>, pos: map<VertexId, nat>)
    requires Wf(g) && n <= |g.ordered|
    ensures Wf(h) && Mirrors(h, g, n) && h.edges.elems == []
    ensures IsPositions(g.ordered, pos, n)
  {
    h := Empty();
    EmptyWf<V, E>();
    pos := map[];
    var i := 0;
    while i < n
      invariant 0 <= i <= n
      invariant Wf(h) && Mirrors(h, g, i) && h.edges.elems == []
      invariant IsPositions(g.ordered, pos, i)
    {
      var added := AddVertex(h, g.store[g.ordered[i]].data);
      h := added.0;
      pos := pos[g.ordered[i] := i];
      i := i + 1;
    }
  }

  /** `h'` has the vertices of `h`, with their payloads, and every edge of `h`. */
  predicate Kept<V(==), E(==)>(h: Graph<V, E>, h': Graph<V, E>) {
    && h'.ordered == h.ordered && |h'.store| == |h.store|
    && (forall x :: 0 <= x < |h.store| ==> h'.store[x].data == h.store[x].data)
    && Grows(h, h')
  }

  /** One iteration of the inner loop: add the reversed copy of out-entry `e` of the vertex `x` at position `i`. */
  method ReverseOneEdge<V(==), E(==)>(h: Graph<V, E>, pos: map<VertexId, nat>, ghost origin: map<EdgeKey, Edge<E>>, e: Edge<E>, x: VertexId, i: nat)
    returns (h': Graph<V, E>)
    requires Wf(h) && |h.ordered| == |h.store| && i < |h.store| && (forall k :: 0 <= k < |h.ordered| ==> h.ordered[k] == k)
    requires EntryReady(e, x, i, pos, origin, |h.store|) && Sourced(h, origin)
    ensures Wf(h') && Kept(h, h') && Sourced(h', origin) && Present(h', e, pos)
  {
    var j := pos[Other(e, x).value];
    var res := AddEdgeAt(h, j, i, e.directed, e.weight, e.data);
    assert res.value == AddEdgeBetween(h, j, i, e.directed, e.weight, e.data);
    AddCopy(h, pos, origin, e, j, i);
    h' := res.value.0;
  }

  /** The inner loop of `reverse()`: the reversed copies of the entries of the out-map `out` of the vertex `x` at position `i`, in any order. */
  method ReverseOutEdges<V(==), E(==)>(h0: Graph<V, E>, pos: map<VertexId, nat>, ghost origin: map<EdgeKey, Edge<E>>, out: map<VertexId, Edge<E>>, x: VertexId, i: nat)
    returns (h: Graph<V, E>)
    requires Wf(h0) && |h0.ordered| == |h0.store| && i < |h0.store| && (forall k :: 0 <= k < |h0.ordered| ==> h0.ordered[k] == k)
    requires (forall k :: k in out ==> EntryReady(out[k], x, i, pos, origin, |h0.store|)) && Sourced(h0, origin)
    ensures Wf(h) && Kept(h0, h) && Sourced(h, origin)
    ensures forall k :: k in out ==> Present(h, out[k], pos)
  {
    var todo := out.Keys;
    h := h0;
    while todo != {}
      invariant todo <= out.Keys
      invariant Wf(h) && Kept(h0, h) && Sourced(h, origin)
      invariant forall k :: k in out && k !in todo ==> Present(h, out[k], pos)
      decreases |todo|
    {
      var k :| k in todo;
      var h' := ReverseOneEdge(h, pos, origin, out[k], x, i);
      DoneGrows(h, h', out, todo, k, pos);
      h := h';
      todo := todo - {k};
    }
  }

  /**
   * Java `reverse()`: a new graph whose vertex `i` is created from
   * `getVertex(i)` for every `i` below the vertex-set size, and which gets,
   * for each out-map edge of each of those vertices, an edge with the same
   * directedness, payload and weight running from the position of the other
   * endpoint to position `i`. Positions missing from the positional list
   * throw. Every edge of the result is such a reversed copy.
   */
  method ReverseGraph<V(==), E(==)>(g: Graph<V, E>) returns (r: Result<Graph<V, E>>)
    requires Wf(g)
    ensures r.Err? <==> g.vertices.size > |g.ordered|
    ensures r.Err? ==> r.error == IndexOutOfBounds
    ensures r.Ok? ==> Wf(r.value) && |r.value.ordered| == |g.ordered|
    ensures r.Ok? ==> forall i :: 0 <= i < |g.ordered| ==>
      GetVertex(r.value, i) == Ok(i) && r.value.store[i].data == g.store[g.ordered[i]].data
    ensures r.Ok? ==> forall i, k :: 0 <= i < |g.ordered| && k in g.store[g.ordered[i]].edgesOut ==>
      exists f :: f in r.value.edges.elems && Reverses(f, g.store[g.ordered[i]].edgesOut[k], g.ordered)
    ensures r.Ok? ==> forall f :: f in r.value.edges.elems ==>
      exists e :: e in g.edges.elems && Reverses(f, e, g.ordered)
  {
    OrderedWithinVertices(g);
    var n := g.vertices.size;
    if n > |g.ordered| {
      return Err(IndexOutOfBounds);
    }
    var h, pos := ReverseVertices(g, n);
    ghost var origin := OriginMap(g, pos);
    ReadyFromWf(g, pos);
    var i := 0;
    while i < n
      invariant 0 <= i <= n
      invariant Wf(h) && Mirrors(h, g, n) && Sourced(h, origin)
      invariant forall i', k :: 0 <= i' < i && i' < |g.ordered| && g.ordered[i'] < |g.store| && k in g.store[g.ordered[i']].edgesOut ==>
        Present(h, g.store[g.ordered[i']].edgesOut[k], pos)
    {
      var x := g.ordered[i];
      assert forall k :: k in g.store[x].edgesOut ==> EntryReady(g.store[x].edgesOut[k], x, i, pos, origin, n);
      var h' := ReverseOutEdges(h, pos, origin, g.store[x].edgesOut, x, i);
      EarlierGrows(g, h, h', pos, i);
      h := h';
      i := i + 1;
    }
    ReverseConclusion(g, h, pos, origin);
    return Ok(h);
  }

  /** From the loops' bookkeeping to the statement about reversed edges. */
  lemma ReverseConclusion<V, E>(g: Graph<V, E>, h: Graph<V, E>, pos: map<VertexId, nat>, origin: map<EdgeKey, Edge<E>>)
    requires IsPositions(g.ordered, pos, |g.ordered|) && Origins(g, pos, origin) && Sourced(h, origin)
    requires forall i', k :: 0 <= i' < |g.ordered| && i' < |g.ordered| && g.ordered[i'] < |g.store| && k in g.store[g.ordered[i']].edgesOut ==>
      Present(h, g.store[g.ordered[i']].edgesOut[k], pos)
    requires forall i :: 0 <= i < |g.ordered| ==> g.ordered[i] < |g.store|
    ensures forall i, k :: 0 <= i < |g.ordered| && k in g.store[g.ordered[i]].edgesOut ==>
      exists f :: f in h.edges.elems && Reverses(f, g.store[g.ordered[i]].edgesOut[k], g.ordered)
    ensures forall f :: f in h.edges.elems ==> exists e :: e in g.edges.elems && Reverses(f, e, g.ordered)
  {
    forall i, k | 0 <= i < |g.ordered| && k in g.store[g.ordered[i]].edgesOut
      ensures exists f :: f in h.edges.elems && Reverses(f, g.store[g.ordered[i]].edgesOut[k], g.ordered)
    {
      var f :| f in h.edges.elems && Copied(f, g.store[g.ordered[i]].edgesOut[k], pos);
      CopiedReverses(f, g.store[g.ordered[i]].edgesOut[k], g.ordered, pos);
    }
    forall f | f in h.edges.elems
      ensures exists e :: e in g.edges.elems && Reverses(f, e, g.ordered)
    {
      var e := origin[Key(f)];
      assert Copied(f, e, pos);
      CopiedReverses(f, e, g.ordered, pos);
    }
  }
}
