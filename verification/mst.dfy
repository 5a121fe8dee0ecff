/**
 * Prim's spanning tree (GraphAlgorithms.java `mst`).
 *
 * Every vertex of the positional list starts infinitely far with no
 * predecessor. Repeatedly a vertex of least key is polled, joins the used
 * list, contributes the edge that gave it its key (if any), and offers each
 * of its out-map entries to the other end: an unused other end whose key is
 * above the entry's weight takes the weight as key and the entry as its
 * edge. The priority queue is a set from which some vertex of least key is
 * taken; the order of a vertex's out-map entries is left open.
 *
 * As written, the loop polls the next vertex at the end of each round and
 * stops once the queue is empty, so the vertex polled last is never
 * processed and its edge never reaches the tree. Both the as-written loop
 * and the corrected one are modelled here.
 */
module SpanningTree {
  import opened Wrappers
  import opened Graphs
  import opened ShortestPaths

  /** Java's local class `Data`: the vertex's key, and the vertex and edge that gave it. */
  datatype Entry<E> = Entry(dist: Distance, prev: Option<VertexId>, prevEdge: Option<Edge<E>>)

  type Table<E> = map<VertexId, Entry<E>>

  /** The vertices of the positional list: those that get an entry and a place in the queue. */
  function Listed<V, E>(g: Graph<V, E>): set<VertexId> {
    set v | v in g.ordered
  }

  /** The starting table: every listed vertex infinitely far, with no predecessor. */
  function Start<V, E>(g: Graph<V, E>): (r: Table<E>)
    ensures r.Keys == Listed(g)
    ensures forall v :: v in r ==> r[v] == Entry(None, None, None)
  {
    map v | v in g.ordered :: Entry(None, None, None)
  }

  /** The keys alone, for choosing a least one. */
  function Keys<E>(data: Table<E>): (r: map<VertexId, Distance>)
    ensures r.Keys == data.Keys && forall v :: v in data ==> r[v] == data[v].dist
  {
    map v | v in data :: data[v].dist
  }

  // ---------------------------------------------------------------------
  // One out-map entry

  /**
   * What makes the inner loop throw on entry `e` of `cur`: the cast of an
   * unweighted edge (ClassCast), or a lookup of an other end that is not
   * used and has no entry, because it is null or is not listed
   * (NullPointer).
   */
  predicate Faulty<E(==)>(data: Table<E>, used: seq<VertexId>, cur: VertexId, e: Edge<E>) {
    || e.weight.None?
    || Other(e, cur).None?
    || (Other(e, cur).value !in used && Other(e, cur).value !in data)
  }

  /** The entry `cur` offers its other end `v` through `e`: key the weight, predecessor `cur`. */
  function Offer<E>(cur: VertexId, e: Edge<E>): Entry<E> {
    Entry(e.weight, Some(cur), Some(e))
  }

  /**
   * One pass of the inner loop for out-map entry `e` of `cur`: the cast,
   * then, for an other end that is not used, the lookup and the update
   * when the weight is strictly below its key.
   */
  function Visit<E(==)>(data: Table<E>, used: seq<VertexId>, cur: VertexId, e: Edge<E>): (r: Result<Table<E>>)
    ensures r.Err? <==> Faulty(data, used, cur, e)
    ensures r.Err? ==> (r.error == ClassCast <==> e.weight.None?)
    ensures r.Ok? ==> r.value.Keys == data.Keys
    ensures r.Ok? ==> forall v :: v in data && (v in used || Other(e, cur) != Some(v)) ==> r.value[v] == data[v]
    ensures r.Ok? && Other(e, cur).value !in used ==>
      var v := Other(e, cur).value;
      && AtMost(r.value[v].dist, e.weight)
      && (r.value[v] == data[v] || (r.value[v] == Offer(cur, e) && Below(e.weight, data[v].dist)))
  {
    if e.weight.None? then Err(ClassCast)
    else match Other(e, cur)
      case None => Err(NullPointer)
      case Some(v) =>
        if v in used then Ok(data)
        else if v !in data then Err(NullPointer)
        else if Below(e.weight, data[v].dist) then Ok(data[v := Offer(cur, e)])
        else Ok(data)
  }

  // ---------------------------------------------------------------------
  // All out-map entries of one vertex

  /** `v` is the other end of one of `cur`'s out-map entries under the keys `ks`. */
  predicate ReachedVia<E(==)>(out: map<VertexId, Edge<E>>, cur: VertexId, v: VertexId, ks: set<VertexId>) {
    exists k :: k in ks && k in out && Other(out[k], cur) == Some(v)
  }

  /**
   * The entry of `v` after `cur`'s entries were offered to it: a finite key
   * no larger than before, and either the old entry or one offered by
   * `cur` through one of its out-map entries leading to `v`.
   */
  predicate Lowered<E(==)>(out: map<VertexId, Edge<E>>, cur: VertexId, v: VertexId, before: Entry<E>, after: Entry<E>) {
    && after.dist.Some? && AtMost(after.dist, before.dist)
    && (after == before || exists k :: k in out && Other(out[k], cur) == Some(v) && after == Offer(cur, out[k]))
  }

  /**
   * The inner loop's invariant once the entries under `ks` were offered:
   * none of them faulted, only unused other ends changed, each of those
   * was lowered, and each key is at most the weight of every handled entry
   * leading to it.
   */
  predicate Scanned<E(==)>(out: map<VertexId, Edge<E>>, cur: VertexId, used: seq<VertexId>, data0: Table<E>, data: Table<E>, ks: set<VertexId>) {
    && data.Keys == data0.Keys
    && (forall k :: k in ks && k in out ==> !Faulty(data0, used, cur, out[k]))
    && (forall v :: v in data0 && (v in used || !ReachedVia(out, cur, v, ks)) ==> data[v] == data0[v])
    && (forall v :: v in data0 && v !in used && ReachedVia(out, cur, v, ks) ==> Lowered(out, cur, v, data0[v], data[v]))
    && (forall k :: k in ks && k in out && Other(out[k], cur).Some? && Other(out[k], cur).value !in used && Other(out[k], cur).value in data ==>
          AtMost(data[Other(out[k], cur).value].dist, out[k].weight))
  }

  /** Offering one more entry keeps the inner invariant. */
  lemma ScanStep<E>(out: map<VertexId, Edge<E>>, cur: VertexId, used: seq<VertexId>, data0: Table<E>, data: Table<E>,
                        ks: set<VertexId>, k: VertexId, r: Table<E>)
    requires Scanned(out, cur, used, data0, data, ks) && k in out && k !in ks
    requires Visit(data, used, cur, out[k]) == Ok(r)
    ensures Scanned(out, cur, used, data0, r, ks + {k})
  {
    var e := out[k];
    assert !Faulty(data0, used, cur, e);
    var w := Other(e, cur).value;
    forall v | v in data0 && v !in used && ReachedVia(out, cur, v, ks + {k})
      ensures Lowered(out, cur, v, data0[v], r[v])
    {
      if v == w {
        if !ReachedVia(out, cur, v, ks) {
          assert data[v] == data0[v];
        }
      } else {
        var j :| j in ks + {k} && j in out && Other(out[j], cur) == Some(v);
        assert j != k;
      }
    }
    forall v | v in data0 && (v in used || !ReachedVia(out, cur, v, ks + {k}))
      ensures r[v] == data0[v]
    {
      assert !ReachedVia(out, cur, v, ks) || v in used;
      if v == w {
        assert v in used;
      }
    }
  }

  /** Faults depend on the table only through its keys, which scanning keeps. */
  lemma ScanFails<E>(out: map<VertexId, Edge<E>>, cur: VertexId, used: seq<VertexId>, data0: Table<E>, data: Table<E>,
                     ks: set<VertexId>, k: VertexId)
    requires Scanned(out, cur, used, data0, data, ks) && k in out
    requires Visit(data, used, cur, out[k]).Err?
    ensures Faulty(data0, used, cur, out[k])
  {
  }

  /**
   * The inner loop: offer every out-map entry of `cur` (Java
   * `cur.edgesOut()`), in any order. Fails on the first faulty entry
   * reached; it fails at all exactly when some entry is faulty.
   */
  method ScanOut<E(==)>(out: map<VertexId, Edge<E>>, cur: VertexId, used: seq<VertexId>, data0: Table<E>)
    returns (r: Result<Table<E>>)
    ensures r.Err? <==> exists k :: k in out && Faulty(data0, used, cur, out[k])
    ensures r.Ok? ==> Scanned(out, cur, used, data0, r.value, out.Keys)
  {
    var data := data0;
    var todo := out.Keys;
    ghost var handled: set<VertexId> := {};
    while todo != {}
      invariant todo <= out.Keys && handled == out.Keys - todo
      invariant Scanned(out, cur, used, data0, data, handled)
      decreases |todo|
    {
      var k :| k in todo;
      var step := VisitNext(out, cur, used, data0, data, handled, k);
      if step.Err? {
        return Err(step.error);
      }
      data := step.value;
      handled := handled + {k};
      todo := todo - {k};
    }
    assert handled == out.Keys;
    return Ok(data);
  }

  /** One round of the inner loop: offering entry `k` either faults or keeps the inner invariant. */
  method VisitNext<E(==)>(out: map<VertexId, Edge<E>>, cur: VertexId, used: seq<VertexId>, data0: Table<E>, data: Table<E>,
                          ghost ks: set<VertexId>, k: VertexId)
    returns (r: Result<Table<E>>)
    requires Scanned(out, cur, used, data0, data, ks) && k in out && k !in ks
    ensures r.Err? ==> Faulty(data0, used, cur, out[k])
    ensures r.Ok? ==> Scanned(out, cur, used, data0, r.value, ks + {k})
  {
    r := Visit(data, used, cur, out[k]);
    if r.Err? {
      ScanFails(out, cur, used, data0, data, ks, k);
    } else {
      ScanStep(out, cur, used, data0, data, ks, k, r.value);
    }
  }

  // ---------------------------------------------------------------------
  // The outer loop

  /** Entry `e` of `x` cannot be processed: it is unweighted, or its other end is null or not listed. */
  predicate Blocked<V, E(==)>(g: Graph<V, E>, x: VertexId, e: Edge<E>) {
    e.weight.None? || Other(e, x).None? || Other(e, x).value !in Listed(g)
  }

  /** `v` is the other end of some out-map entry of `x`. */
  predicate Neighbour<V, E(==)>(g: Graph<V, E>, x: VertexId, v: VertexId) {
    ReachedVia(Out(g, x), x, v, Out(g, x).Keys)
  }

  /** One of the first `b` used vertices has an out-map entry leading to `v`. */
  predicate Touched<V, E(==)>(g: Graph<V, E>, used: seq<VertexId>, b: nat, v: VertexId) {
    exists a :: 0 <= a < b && a < |used| && Neighbour(g, used[a], v)
  }

  /** Edge `e` is an out-map entry of a used vertex leading to `v`, used later. */
  predicate Joins<V, E(==)>(g: Graph<V, E>, used: seq<VertexId>, v: VertexId, e: Edge<E>) {
    exists a, b :: 0 <= a < b < |used| && used[b] == v && e in Out(g, used[a]).Values && Other(e, used[a]) == Some(v)
  }

  /**
   * A table entry is finite exactly when it has an edge, and that edge is
   * an out-map entry of a used vertex, its recorded predecessor, that leads
   * to `v` and weighs the key.
   */
  predicate EntryOk<V, E(==)>(g: Graph<V, E>, used: seq<VertexId>, v: VertexId, en: Entry<E>) {
    && (en.prevEdge.Some? <==> en.dist.Some?)
    && (en.prevEdge.Some? ==>
          && en.prev.Some? && en.prev.value in used && en.dist == en.prevEdge.value.weight
          && en.prevEdge.value in Out(g, en.prev.value).Values && Other(en.prevEdge.value, en.prev.value) == Some(v))
  }

  /**
   * The tree built so far, with `attached[i]` the vertex edge `tree[i]` was
   * added for: no vertex attached twice, each edge joins its vertex to one
   * used before it, and a used vertex is attached exactly when a vertex
   * used before it has an out-map entry leading to it.
   */
  ghost predicate Forest<V, E>(g: Graph<V, E>, used: seq<VertexId>, attached: seq<VertexId>, tree: seq<Edge<E>>) {
    && |tree| == |attached| && DistinctIds(attached)
    && (forall i :: 0 <= i < |tree| ==> Joins(g, used, attached[i], tree[i]))
    && (forall b :: 0 <= b < |used| ==> (used[b] in attached <==> Touched(g, used, b, used[b])))
  }

  /** The algorithm's state: Java's `vertices` map, `used` list, `unused` queue and `mst` list. */
  datatype State<E> = State(data: Table<E>, used: seq<VertexId>, unused: set<VertexId>, tree: seq<Edge<E>>)

  /**
   * The outer loop's invariant: every listed vertex has an entry and is
   * either used or queued, entries are sound, a queued vertex has a finite
   * key exactly when a used vertex has an out-map entry leading to it, and
   * the tree is a forest as above.
   */
  ghost predicate Growing<V, E>(g: Graph<V, E>, s: State<E>, attached: seq<VertexId>) {
    && s.data.Keys == Listed(g)
    && DistinctIds(s.used)
    && (forall i :: 0 <= i < |s.used| ==> s.used[i] in Listed(g))
    && (forall v :: v in Listed(g) ==> (v in s.unused <==> v !in s.used))
    && s.unused <= Listed(g)
    && (forall v :: v in s.data ==> EntryOk(g, s.used, v, s.data[v]))
    && (forall v :: v in s.unused ==> (s.data[v].dist.Some? <==> Touched(g, s.used, |s.used|, v)))
    && Forest(g, s.used, attached, s.tree)
  }

  lemma InitialGrowing<V, E>(g: Graph<V, E>)
    ensures Growing(g, State(Start(g), [], Listed(g), []), [])
  {
  }

  /** With the keys of the table fixed and only listed vertices used, faulty and blocked entries agree. */
  lemma FaultyIsBlocked<V, E>(g: Graph<V, E>, data: Table<E>, used: seq<VertexId>, cur: VertexId)
    requires data.Keys == Listed(g) && forall i :: 0 <= i < |used| ==> used[i] in Listed(g)
    ensures forall k :: k in Out(g, cur) ==> (Faulty(data, used, cur, Out(g, cur)[k]) <==> Blocked(g, cur, Out(g, cur)[k]))
  {
  }

  /** Touching counts only the used vertices before the cut, so appending does not change it. */
  lemma TouchedPrefix<V, E>(g: Graph<V, E>, used: seq<VertexId>, c: VertexId, b: nat, v: VertexId)
    requires b <= |used|
    ensures Touched(g, used + [c], b, v) <==> Touched(g, used, b, v)
  {
    if Touched(g, used + [c], b, v) {
      var a :| 0 <= a < b && a < |used| + 1 && Neighbour(g, (used + [c])[a], v);
      assert (used + [c])[a] == used[a];
    }
    if Touched(g, used, b, v) {
      var a :| 0 <= a < b && a < |used| && Neighbour(g, used[a], v);
      assert (used + [c])[a] == used[a];
    }
  }

  /** Appending `c` adds the vertices `c` leads to. */
  lemma TouchedAppend<V, E>(g: Graph<V, E>, used: seq<VertexId>, c: VertexId, v: VertexId)
    ensures Touched(g, used + [c], |used| + 1, v) <==> Touched(g, used, |used|, v) || Neighbour(g, c, v)
  {
    var u := used + [c];
    if Touched(g, u, |used| + 1, v) && !Neighbour(g, c, v) {
      var a :| 0 <= a < |used| + 1 && a < |u| && Neighbour(g, u[a], v);
      assert a < |used| && u[a] == used[a];
    }
    if Touched(g, used, |used|, v) {
      var a :| 0 <= a < |used| && Neighbour(g, used[a], v);
      assert u[a] == used[a];
    }
    if Neighbour(g, c, v) {
      assert u[|used|] == c;
    }
  }

  /** Table entries stay sound when `cur` is used and its entries are offered. */
  lemma ProcessEntries<V, E>(g: Graph<V, E>, s: State<E>, attached: seq<VertexId>, cur: VertexId, data: Table<E>)
    requires Growing(g, s, attached) && cur in s.unused
    requires Scanned(Out(g, cur), cur, s.used + [cur], s.data, data, Out(g, cur).Keys)
    ensures forall v :: v in data ==> EntryOk(g, s.used + [cur], v, data[v])
  {
    var used := s.used + [cur];
    forall v | v in data ensures EntryOk(g, used, v, data[v]) {
      assert EntryOk(g, s.used, v, s.data[v]);
      if data[v] != s.data[v] {
        assert v !in used;
        var k :| k in Out(g, cur) && Other(Out(g, cur)[k], cur) == Some(v) && data[v] == Offer(cur, Out(g, cur)[k]);
        assert !Faulty(s.data, used, cur, Out(g, cur)[k]);
      }
    }
  }

  /** Queued vertices keep the touched-iff-finite property when `cur` is used and scanned. */
  lemma ProcessTouched<V, E>(g: Graph<V, E>, s: State<E>, attached: seq<VertexId>, cur: VertexId, data: Table<E>)
    requires Growing(g, s, attached) && cur in s.unused
    requires Scanned(Out(g, cur), cur, s.used + [cur], s.data, data, Out(g, cur).Keys)
    ensures forall v :: v in s.unused - {cur} ==> (data[v].dist.Some? <==> Touched(g, s.used + [cur], |s.used + [cur]|, v))
  {
    forall v | v in s.unused - {cur}
      ensures data[v].dist.Some? <==> Touched(g, s.used + [cur], |s.used + [cur]|, v)
    {
      TouchedAppend(g, s.used, cur, v);
      assert v !in s.used + [cur];
    }
  }

  /** A joining edge still joins when another vertex is used after. */
  lemma JoinsAppend<V, E>(g: Graph<V, E>, used: seq<VertexId>, c: VertexId, v: VertexId, e: Edge<E>)
    requires Joins(g, used, v, e)
    ensures Joins(g, used + [c], v, e)
  {
    var a, b :| 0 <= a < b < |used| && used[b] == v && e in Out(g, used[a]).Values && Other(e, used[a]) == Some(v);
    var u := used + [c];
    assert u[a] == used[a] && u[b] == used[b];
  }

  /** The edge recorded for `cur` joins it to the vertex it was offered by. */
  lemma JoinsRecorded<V, E>(g: Graph<V, E>, used: seq<VertexId>, cur: VertexId, en: Entry<E>)
    requires EntryOk(g, used, cur, en) && en.prevEdge.Some?
    ensures Joins(g, used + [cur], cur, en.prevEdge.value)
  {
    var u := used + [cur];
    var a :| 0 <= a < |used| && used[a] == en.prev.value;
    assert u[a] == used[a] && u[|used|] == cur;
  }

  /** Every tree edge, old or new, still joins its vertex to an earlier one, and `cur` was not attached before. */
  lemma ProcessJoins<V, E>(g: Graph<V, E>, s: State<E>, attached: seq<VertexId>, cur: VertexId,
                           attached': seq<VertexId>, tree: seq<Edge<E>>)
    requires Growing(g, s, attached) && cur in s.unused
    requires s.data[cur].prevEdge.None? ==> attached' == attached && tree == s.tree
    requires s.data[cur].prevEdge.Some? ==> attached' == attached + [cur] && tree == s.tree + [s.data[cur].prevEdge.value]
    ensures |tree| == |attached'| && DistinctIds(attached')
    ensures forall i :: 0 <= i < |tree| ==> Joins(g, s.used + [cur], attached'[i], tree[i])
  {
    var used := s.used + [cur];
    forall i | 0 <= i < |attached| ensures Joins(g, used, attached[i], s.tree[i]) && attached[i] != cur {
      JoinsAppend(g, s.used, cur, attached[i], s.tree[i]);
    }
    if s.data[cur].prevEdge.Some? {
      JoinsRecorded(g, s.used, cur, s.data[cur]);
      assert attached'[|attached|] == cur && tree[|attached|] == s.data[cur].prevEdge.value;
    }
  }

  /** A used vertex is attached exactly when a vertex used before it leads to it. */
  lemma ProcessAttached<V, E>(g: Graph<V, E>, s: State<E>, attached: seq<VertexId>, cur: VertexId, attached': seq<VertexId>)
    requires Growing(g, s, attached) && cur in s.unused
    requires s.data[cur].prevEdge.None? ==> attached' == attached
    requires s.data[cur].prevEdge.Some? ==> attached' == attached + [cur]
    ensures forall b :: 0 <= b < |s.used| + 1 ==> ((s.used + [cur])[b] in attached' <==> Touched(g, s.used + [cur], b, (s.used + [cur])[b]))
  {
    var used := s.used + [cur];
    forall b | 0 <= b < |used| ensures used[b] in attached' <==> Touched(g, used, b, used[b]) {
      TouchedPrefix(g, s.used, cur, b, used[b]);
      if b < |s.used| {
        assert used[b] == s.used[b] && used[b] != cur;
      }
    }
  }

  /** Scanning only lowers keys, and never those of used vertices. */
  lemma ScanLowers<E>(out: map<VertexId, Edge<E>>, cur: VertexId, used: seq<VertexId>, data0: Table<E>, data: Table<E>)
    requires Scanned(out, cur, used, data0, data, out.Keys)
    ensures forall v :: v in data0 ==> AtMost(data[v].dist, data0[v].dist) && (v in used ==> data[v] == data0[v])
  {
    forall v | v in data0 ensures AtMost(data[v].dist, data0[v].dist) {
      if v !in used && ReachedVia(out, cur, v, out.Keys) {
        assert Lowered(out, cur, v, data0[v], data[v]);
      }
    }
  }

  /** Using `cur` and scanning its out-map keeps the outer loop's invariant. */
  lemma ProcessGrowing<V, E>(g: Graph<V, E>, s: State<E>, attached: seq<VertexId>, cur: VertexId,
                             data: Table<E>, attached': seq<VertexId>, tree: seq<Edge<E>>)
    requires Growing(g, s, attached) && cur in s.unused
    requires Scanned(Out(g, cur), cur, s.used + [cur], s.data, data, Out(g, cur).Keys)
    requires s.data[cur].prevEdge.None? ==> attached' == attached && tree == s.tree
    requires s.data[cur].prevEdge.Some? ==> attached' == attached + [cur] && tree == s.tree + [s.data[cur].prevEdge.value]
    ensures Growing(g, State(data, s.used + [cur], s.unused - {cur}, tree), attached')
    ensures forall v :: v in s.data ==> AtMost(data[v].dist, s.data[v].dist) && (v in s.used + [cur] ==> data[v] == s.data[v])
  {
    ScanLowers(Out(g, cur), cur, s.used + [cur], s.data, data);
    ProcessEntries(g, s, attached, cur, data);
    ProcessTouched(g, s, attached, cur, data);
    ProcessJoins(g, s, attached, cur, attached', tree);
    ProcessAttached(g, s, attached, cur, attached');
  }

  /** Taking a member out of a set shrinks it. */
  lemma RemoveShrinks(a: set<VertexId>, x: VertexId)
    requires x in a
    ensures |a - {x}| < |a|
  {
  }

  /**
   * One round of the outer loop for the polled vertex `cur` (Java lines
   * `used.add(cur)` to the end of the inner loop): `cur` becomes used, its
   * edge, if any, joins the tree, and its out-map entries are offered.
   * Keys only go down, and only those of vertices still queued.
   */
  method Process<V, E(==)>(g: Graph<V, E>, s: State<E>, ghost attached: seq<VertexId>, cur: VertexId)
    returns (r: Result<State<E>>, ghost attached': seq<VertexId>)
    requires Growing(g, s, attached) && cur in s.unused
    ensures r.Err? <==> exists k :: k in Out(g, cur) && Blocked(g, cur, Out(g, cur)[k])
    ensures r.Ok? ==> Growing(g, r.value, attached')
    ensures r.Ok? ==> r.value.used == s.used + [cur] && r.value.unused == s.unused - {cur} && |r.value.unused| < |s.unused|
    ensures r.Ok? ==> |r.value.tree| <= |s.tree| + 1
    ensures r.Ok? ==> forall v :: v in s.data ==>
      AtMost(r.value.data[v].dist, s.data[v].dist) && (v in s.used + [cur] ==> r.value.data[v] == s.data[v])
  {
    var used := s.used + [cur];
    var tree := s.tree;
    attached' := attached;
    if s.data[cur].prevEdge.Some? {
      tree := tree + [s.data[cur].prevEdge.value];
      attached' := attached' + [cur];
    }
    FaultyIsBlocked(g, s.data, used, cur);
    var scan := ScanOut(Out(g, cur), cur, used, s.data);
    if scan.Err? {
      return Err(scan.error), attached';
    }
    ProcessGrowing(g, s, attached, cur, scan.value, attached', tree);
    RemoveShrinks(s.unused, cur);
    r := Ok(State(scan.value, used, s.unused - {cur}, tree));
    assert r.value.data == scan.value;
  }

  /** Java `unused.poll()`: some queued vertex of least key. */
  method PollMin<E>(s: State<E>) returns (cur: VertexId)
    requires s.unused != {} && s.unused <= s.data.Keys
    ensures cur in s.unused && forall q :: q in s.unused ==> AtMost(s.data[cur].dist, s.data[q].dist)
  {
    MinExists(s.unused, Keys(s.data));
    cur :| cur in s.unused && forall q :: q in s.unused ==> AtMost(Keys(s.data)[cur], Keys(s.data)[q]);
  }

  /** Used and queued vertices partition the listed ones. */
  lemma Partition<V, E>(g: Graph<V, E>, s: State<E>, attached: seq<VertexId>)
    requires Growing(g, s, attached)
    ensures |Listed(g)| == |s.used| + |s.unused|
  {
    var u := IdSet(s.used);
    DistinctCard(s.used);
    Split(Listed(g), s.used, s.unused);
    DisjointCard(u, s.unused);
  }

  /** A set split into the members of a list and the rest. */
  lemma Split(all: set<VertexId>, used: seq<VertexId>, rest: set<VertexId>)
    requires forall i :: 0 <= i < |used| ==> used[i] in all
    requires forall v :: v in all ==> (v in rest <==> v !in used)
    requires rest <= all
    ensures all == IdSet(used) + rest && forall x :: x in IdSet(used) ==> x !in rest
  {
  }

  /** Disjoint sets add up. */
  lemma DisjointCard(a: set<VertexId>, b: set<VertexId>)
    requires forall x :: x in a ==> x !in b
    ensures |a + b| == |a| + |b|
  {
    assert a * b == {};
  }

  /** Every attached vertex is a used one other than the first. */
  lemma AttachedLater<V, E>(g: Graph<V, E>, used: seq<VertexId>, attached: seq<VertexId>, tree: seq<Edge<E>>)
    requires Forest(g, used, attached, tree) && 0 < |used|
    ensures forall i :: 0 <= i < |attached| ==> attached[i] in used[1..]
  {
    forall i | 0 <= i < |attached| ensures attached[i] in used[1..] {
      assert Joins(g, used, attached[i], tree[i]);
      var a, b :| 0 <= a < b < |used| && used[b] == attached[i] && tree[i] in Out(g, used[a]).Values
        && Other(tree[i], used[a]) == Some(attached[i]);
      assert used[1..][b - 1] == used[b];
    }
  }

  /** Under the graph invariant every tree edge is an edge of the graph. */
  lemma TreeEdgesInGraph<V, E>(g: Graph<V, E>, used: seq<VertexId>, attached: seq<VertexId>, tree: seq<Edge<E>>)
    requires Wf(g) && Forest(g, used, attached, tree)
    ensures forall i :: 0 <= i < |tree| ==> tree[i] in g.edges.elems
  {
    forall i | 0 <= i < |tree| ensures tree[i] in g.edges.elems {
      assert Joins(g, used, attached[i], tree[i]);
      var a, b :| 0 <= a < b < |used| && used[b] == attached[i] && tree[i] in Out(g, used[a]).Values
        && Other(tree[i], used[a]) == Some(attached[i]);
      var x := used[a];
      var k :| k in Out(g, x) && Out(g, x)[k] == tree[i];
      assert OutEntry(g, x, k);
    }
  }

  /**
   * A forest over distinct used vertices has at most one edge per used
   * vertex after the first, which nothing can lead to before it is used.
   */
  lemma ForestSize<V, E>(g: Graph<V, E>, used: seq<VertexId>, attached: seq<VertexId>, tree: seq<Edge<E>>)
    requires Forest(g, used, attached, tree) && DistinctIds(used)
    ensures |tree| + 1 <= |used| || tree == []
  {
    if tree != [] {
      assert Joins(g, used, attached[0], tree[0]);
      AttachedLater(g, used, attached, tree);
      var later := used[1..];
      assert DistinctIds(later) by {
        forall i, j | 0 <= i < j < |later| ensures later[i] != later[j] {
          assert later[i] == used[i + 1] && later[j] == used[j + 1];
        }
      }
      assert IdSet(attached) <= IdSet(later);
      SubsetCard(IdSet(attached), IdSet(later));
      DistinctCard(attached);
      DistinctCard(later);
    }
  }

  /**
   * Java `mst(g)` as written: the first polled vertex is taken before the
   * loop, and the loop runs while the queue is non-empty after polling, so
   * the last polled vertex is never used. Its edge never joins the tree
   * and its own out-map entries are never looked at. Every listed vertex
   * but that one is used, and the tree is empty or has at least two edges
   * fewer than there are listed vertices.
   */
  method MstAsWritten<V, E(==)>(g: Graph<V, E>)
    returns (r: Result<seq<Edge<E>>>, ghost used: seq<VertexId>, ghost attached: seq<VertexId>)
    ensures r.Err? ==> exists x, k :: x in Listed(g) && k in Out(g, x) && Blocked(g, x, Out(g, x)[k])
    ensures r.Ok? ==> DistinctIds(used) && (forall i :: 0 <= i < |used| ==> used[i] in Listed(g))
    ensures r.Ok? ==> Forest(g, used, attached, r.value)
    ensures r.Ok? ==> |used| + 1 == |Listed(g)| || Listed(g) == {}
    ensures r.Ok? ==> |r.value| + 2 <= |Listed(g)| || r.value == []
  {
    var s := State(Start(g), [], Listed(g), []);
    attached := [];
    InitialGrowing(g);
    if s.unused == {} {
      return Ok([]), [], [];
    }
    var cur := PollMin(s);
    while s.unused - {cur} != {}
      invariant Growing(g, s, attached) && cur in s.unused
      decreases |s.unused|
    {
      var step;
      step, attached := Process(g, s, attached, cur);
      if step.Err? {
        return Err(step.error), s.used, attached;
      }
      s := step.value;
      cur := PollMin(s);
    }
    assert s.unused == {cur};
    Partition(g, s, attached);
    ForestSize(g, s.used, attached, s.tree);
    return Ok(s.tree), s.used, attached;
  }

  /** Once the queue is empty every listed vertex was used, and the tree has fewer edges than vertices. */
  lemma Finished<V, E>(g: Graph<V, E>, s: State<E>, attached: seq<VertexId>)
    requires Growing(g, s, attached) && s.unused == {}
    ensures IdSet(s.used) == Listed(g)
    ensures |s.tree| + 1 <= |Listed(g)| || s.tree == []
  {
    Partition(g, s, attached);
    ForestSize(g, s.used, attached, s.tree);
  }

  /** No out-map entry of a used vertex is blocked. */
  predicate Clear<V, E(==)>(g: Graph<V, E>, used: seq<VertexId>) {
    forall x, k :: x in used && k in Out(g, x) ==> !Blocked(g, x, Out(g, x)[k])
  }

  /**
   * Prim's algorithm as evidently intended: every polled vertex is used.
   * It fails exactly when some listed vertex has an out-map entry that is
   * unweighted or leads to a null or unlisted vertex; otherwise every
   * listed vertex is used once, and a used vertex gets a tree edge exactly
   * when a vertex used before it has an out-map entry leading to it.
   */
  method Mst<V, E(==)>(g: Graph<V, E>)
    returns (r: Result<seq<Edge<E>>>, ghost used: seq<VertexId>, ghost attached: seq<VertexId>)
    ensures r.Err? <==> exists x, k :: x in Listed(g) && k in Out(g, x) && Blocked(g, x, Out(g, x)[k])
    ensures r.Ok? ==> DistinctIds(used) && IdSet(used) == Listed(g)
    ensures r.Ok? ==> Forest(g, used, attached, r.value)
    ensures r.Ok? ==> |r.value| + 1 <= |Listed(g)| || r.value == []
  {
    var s := State(Start(g), [], Listed(g), []);
    attached := [];
    InitialGrowing(g);
    while s.unused != {}
      invariant Growing(g, s, attached)
      invariant Clear(g, s.used)
      decreases |s.unused|
    {
      var cur := PollMin(s);
      var step;
      step, attached := Process(g, s, attached, cur);
      if step.Err? {
        return Err(step.error), s.used, attached;
      }
      s := step.value;
    }
    Finished(g, s, attached);
    return Ok(s.tree), s.used, attached;
  }

  /** Two fresh vertices joined by one undirected edge of weight 1. */
  function Pair<V, E(==)>(a: V, b: V, d: E): (r: (Graph<V, E>, VertexId, VertexId))
    ensures Listed(r.0) == {r.1, r.2} && r.1 != r.2
    ensures Neighbour(r.0, r.1, r.2) && Neighbour(r.0, r.2, r.1)
    ensures forall x, k :: x in Listed(r.0) && k in Out(r.0, x) ==> !Blocked(r.0, x, Out(r.0, x)[k])
  {
    EmptyWf<V, E>();
    var (g1, x) := AddVertex(Empty(), a);
    var (g2, y) := AddVertex(g1, b);
    assert g2.ordered == [x, y] by {
      assert GetVertex(g2, 0) == GetVertex(g1, 0) == Ok(x);
      assert GetVertex(g2, 1) == Ok(y);
    }
    var e := Edge(x, y, false, d, Some(1));
    var (g, added) := AddEdge(g2, e);
    assert added;
    assert Other(e, x) == Some(y) && Other(e, y) == Some(x);
    assert Out(g, x)[y] == e && Out(g, y)[x] == e;
    assert Out(g, x).Keys == {y} && Out(g, y).Keys == {x};
    (g, x, y)
  }

  /**
   * On a graph of two listed vertices, each a neighbour of the other,
   * whichever vertex is used second is attached, so every complete forest
   * has exactly one edge, while the tree of the code as written has at
   * most 2 - 2 = 0. `Pair` builds such a graph.
   */
  lemma TwoVerticesOneEdge<V, E>(g: Graph<V, E>, x: VertexId, y: VertexId,
                                 used: seq<VertexId>, attached: seq<VertexId>, tree: seq<Edge<E>>)
    requires Listed(g) == {x, y} && x != y && Neighbour(g, x, y) && Neighbour(g, y, x)
    requires Forest(g, used, attached, tree) && DistinctIds(used) && IdSet(used) == Listed(g)
    ensures |tree| == 1
  {
    DistinctCard(used);
    assert |used| == 2;
    assert Touched(g, used, 1, used[1]) by {
      assert used[0] in {x, y} && used[1] in {x, y};
    }
    assert used[1] in attached;
    ForestSize(g, used, attached, tree);
  }
}
