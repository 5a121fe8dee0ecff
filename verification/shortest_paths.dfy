/**
 * Dijkstra-style shortest distances (GraphAlgorithms.shortestPaths).
 *
 * Distances are natural numbers with `None` standing for infinity: the only
 * producer of weights truncates them to integers. The priority queue is a
 * set from which some element of least distance is taken; ties are broken
 * arbitrarily, as the Java heap does not specify them. The out-maps are
 * iterated in an unspecified order.
 */
module ShortestPaths {
  import opened Wrappers
  import opened Graphs

  /** A distance; `None` is infinity. */
  type Distance = Option<nat>

  /** Strictly smaller, with infinity above every number and not below itself. */
  predicate Below(a: Distance, b: Distance) {
    a.Some? && (b.None? || a.value < b.value)
  }

  predicate AtMost(a: Distance, b: Distance) {
    !Below(b, a)
  }

  /** Adding a weight; infinity absorbs it. */
  function Plus(a: Distance, w: nat): Distance {
    if a.None? then None else Some(a.value + w)
  }

  // ---------------------------------------------------------------------
  // Walks

  /** `es` leads from `from` to `to`, each edge an out-map entry of the vertex it leaves and weighted. */
  predicate IsWalk<V, E(==)>(g: Graph<V, E>, from: VertexId, to: VertexId, es: seq<Edge<E>>)
    decreases |es|
  {
    if |es| == 0 then from == to
    else
      && es[0] in Out(g, from).Values && es[0].weight.Some? && Other(es[0], from).Some?
      && IsWalk(g, Other(es[0], from).value, to, es[1..])
  }

  /** The total weight of a sequence of edges; an unweighted edge counts nothing. */
  function Length<E>(es: seq<Edge<E>>): nat {
    if |es| == 0 then 0
    else (if es[0].weight.Some? then es[0].weight.value else 0) + Length(es[1..])
  }

  /** Some walk from `source` to `x` weighs exactly `d`. */
  ghost predicate Reachable<V, E(!new)>(g: Graph<V, E>, source: VertexId, x: VertexId, d: nat) {
    exists es :: IsWalk(g, source, x, es) && Length(es) == d
  }

  /** A walk followed by one more out-map entry is a walk, and weighs that entry's weight more. */
  lemma {:induction false} WalkExtend<V, E>(g: Graph<V, E>, s: VertexId, a: VertexId, es: seq<Edge<E>>, e: Edge<E>)
    requires IsWalk(g, s, a, es)
    requires e in Out(g, a).Values && e.weight.Some? && Other(e, a).Some?
    ensures IsWalk(g, s, Other(e, a).value, es + [e])
    ensures Length(es + [e]) == Length(es) + e.weight.value
    decreases |es|
  {
    if |es| == 0 {
      assert es + [e] == [e];
      assert IsWalk(g, Other(e, a).value, Other(e, a).value, []);
      assert Length([e]) == e.weight.value + Length([e][1..]);
    } else {
      WalkExtend(g, Other(es[0], s).value, a, es[1..], e);
      assert (es + [e])[1..] == es[1..] + [e];
    }
  }

  // ---------------------------------------------------------------------
  // The state of the algorithm

  /** Java's starting map: infinity for every member vertex, then zero for the source. */
  function Initial<V, E>(g: Graph<V, E>, source: VertexId): map<VertexId, Distance> {
    (map x | x in Members(g) :: None)[source := Some(0)]
  }

  /** Out-map entry `e` of `p` is relaxed: its far end is no farther than `p` plus the weight. */
  predicate EntrySettled<E(==)>(dist: map<VertexId, Distance>, p: VertexId, e: Edge<E>) {
    && e.weight.Some? && Other(e, p).Some?
    && p in dist && Other(e, p).value in dist
    && AtMost(dist[Other(e, p).value], Plus(dist[p], e.weight.value))
  }

  /** Every out-map entry of every vertex of `done` is relaxed. */
  predicate Settled<V, E(==)>(g: Graph<V, E>, dist: map<VertexId, Distance>, done: set<VertexId>) {
    forall p, k :: p in done && k in Out(g, p) ==> EntrySettled(dist, p, Out(g, p)[k])
  }

  /** Vertices already taken from the queue are no farther than those still in it. */
  predicate Ordered(dist: map<VertexId, Distance>, done: set<VertexId>, queue: set<VertexId>) {
    forall p, q :: p in done && q in queue && p in dist && q in dist ==> AtMost(dist[p], dist[q])
  }

  /** Every finite distance is the weight of a walk from the source. */
  ghost predicate Sound<V, E(!new)>(g: Graph<V, E>, source: VertexId, dist: map<VertexId, Distance>) {
    forall x :: x in dist && dist[x].Some? ==> Reachable(g, source, x, dist[x].value)
  }

  /** Some member vertex has an out-map entry without a weight (the cast in the source fails on it). */
  predicate HasUnweightedOut<V, E>(g: Graph<V, E>) {
    exists x, k :: x in Members(g) && k in Out(g, x) && Out(g, x)[k].weight.None?
  }

  // ---------------------------------------------------------------------
  // Relaxation

  /**
   * One relaxation: `next` takes `dist[cur] + w` if that is strictly
   * smaller, and nothing else changes. The distance of `next` becomes the
   * smaller of the two, so no distance ever grows.
   */
  function Relax(dist: map<VertexId, Distance>, cur: VertexId, next: VertexId, w: nat): (r: map<VertexId, Distance>)
    requires cur in dist && next in dist
    ensures r.Keys == dist.Keys
    ensures forall x :: x in dist && x != next ==> r[x] == dist[x]
    ensures r[next] != dist[next] <==> Below(Plus(dist[cur], w), dist[next])
    ensures AtMost(r[next], dist[next]) && AtMost(r[next], Plus(dist[cur], w))
    ensures r[next] == dist[next] || r[next] == Plus(dist[cur], w)
  {
    if Below(Plus(dist[cur], w), dist[next]) then dist[next := Plus(dist[cur], w)] else dist
  }

  /** A nonempty queue has an element of least distance. */
  lemma {:induction false} MinExists(queue: set<VertexId>, dist: map<VertexId, Distance>)
    requires queue != {} && queue <= dist.Keys
    ensures exists m :: m in queue && forall q :: q in queue ==> AtMost(dist[m], dist[q])
    decreases |queue|
  {
    var x :| x in queue;
    if queue - {x} == {} {
      assert queue == {x};
    } else {
      MinExists(queue - {x}, dist);
      var m :| m in queue - {x} && forall q :: q in queue - {x} ==> AtMost(dist[m], dist[q]);
      if Below(dist[x], dist[m]) {
        assert forall q :: q in queue ==> AtMost(dist[x], dist[q]);
      } else {
        assert forall q :: q in queue ==> AtMost(dist[m], dist[q]);
      }
    }
  }

  /**
   * The inner loop's invariant while the out-map entries `handled` of `cur`
   * have been relaxed: `cur` has left the queue and is no farther than any
   * vertex still in it and no nearer than any vertex taken before it,
   * entries of earlier vertices and the handled entries of `cur` are
   * relaxed, no distance has grown since `dist0`, and every finite distance
   * is the weight of a walk from the source.
   */
  ghost predicate Relaxing<V, E(!new)>(g: Graph<V, E>, source: VertexId, dist0: map<VertexId, Distance>,
                                       dist: map<VertexId, Distance>, queue: set<VertexId>, cur: VertexId, handled: set<VertexId>) {
    && Closed(g) && cur in Members(g) && cur !in queue && queue <= Members(g)
    && dist.Keys == Members(g) + {source} && dist0.Keys == dist.Keys && dist[cur] == dist0[cur]
    && (forall x :: x in dist ==> AtMost(dist[x], dist0[x]))
    && Ordered(dist, Members(g) - queue, queue) && Ordered(dist, Members(g) - queue, {cur})
    && Settled(g, dist, Members(g) - queue - {cur})
    && (forall k :: k in handled && k in Out(g, cur) ==> EntrySettled(dist, cur, Out(g, cur)[k]))
    && Sound(g, source, dist)
  }

  /**
   * Relaxing one more out-map entry of `cur` keeps the inner invariant, and
   * a vertex whose distance falls is still in the queue, so re-queueing it
   * does not grow the queue.
   */
  lemma RelaxStep<V, E(!new)>(g: Graph<V, E>, source: VertexId, dist0: map<VertexId, Distance>, dist: map<VertexId, Distance>,
                              queue: set<VertexId>, cur: VertexId, handled: set<VertexId>, k: VertexId, r: map<VertexId, Distance>)
    requires Relaxing(g, source, dist0, dist, queue, cur, handled)
    requires k in Out(g, cur) && Out(g, cur)[k].weight.Some?
    requires r == Relax(dist, cur, Other(Out(g, cur)[k], cur).value, Out(g, cur)[k].weight.value)
    ensures Other(Out(g, cur)[k], cur).Some? && Other(Out(g, cur)[k], cur).value in dist
    ensures r[Other(Out(g, cur)[k], cur).value] != dist[Other(Out(g, cur)[k], cur).value] ==> Other(Out(g, cur)[k], cur).value in queue
    ensures Relaxing(g, source, dist0, r, queue, cur, handled + {k})
  {
    var e := Out(g, cur)[k];
    var next := Other(e, cur).value;
    var done := Members(g) - queue;
    RelaxOrdered(dist, r, done, queue, cur, next, e.weight.value);
    RelaxSettled(g, dist, r, done - {cur}, cur, handled, k);
    RelaxSound(g, source, dist, cur, e, r);
    RelaxLowers(dist0, dist, r, cur, next, e.weight.value);
  }

  /** No distance rises above where it started. */
  lemma RelaxLowers(dist0: map<VertexId, Distance>, dist: map<VertexId, Distance>, r: map<VertexId, Distance>, cur: VertexId, next: VertexId, w: nat)
    requires cur in dist && next in dist && r == Relax(dist, cur, next, w)
    requires dist0.Keys == dist.Keys && forall x :: x in dist ==> AtMost(dist[x], dist0[x])
    ensures forall x :: x in r ==> AtMost(r[x], dist0[x])
  {
  }

  /** A relaxation from `cur` only lowers a vertex still queued, so the queue order survives. */
  lemma RelaxOrdered(dist: map<VertexId, Distance>, r: map<VertexId, Distance>, done: set<VertexId>, queue: set<VertexId>,
                     cur: VertexId, next: VertexId, w: nat)
    requires cur in done && next in done + queue && done <= dist.Keys && queue <= dist.Keys
    requires Ordered(dist, done, queue) && Ordered(dist, done, {cur})
    requires r == Relax(dist, cur, next, w)
    ensures r[next] != dist[next] ==> next in queue
    ensures forall p :: p in done ==> r[p] == dist[p]
    ensures Ordered(r, done, queue) && Ordered(r, done, {cur})
  {
  }

  /** Relaxed entries stay relaxed when distances only fall away from the vertices they leave, and entry `k` joins them. */
  lemma RelaxSettled<V, E>(g: Graph<V, E>, dist: map<VertexId, Distance>, r: map<VertexId, Distance>, before: set<VertexId>,
                           cur: VertexId, handled: set<VertexId>, k: VertexId)
    requires Settled(g, dist, before) && cur !in before
    requires forall k0 :: k0 in handled && k0 in Out(g, cur) ==> EntrySettled(dist, cur, Out(g, cur)[k0])
    requires k in Out(g, cur) && Out(g, cur)[k].weight.Some? && Other(Out(g, cur)[k], cur).Some?
    requires cur in dist && Other(Out(g, cur)[k], cur).value in dist
    requires r == Relax(dist, cur, Other(Out(g, cur)[k], cur).value, Out(g, cur)[k].weight.value)
    requires forall p :: p in before ==> p in dist && r[p] == dist[p]
    requires r[cur] == dist[cur]
    ensures Settled(g, r, before)
    ensures forall k0 :: k0 in handled + {k} && k0 in Out(g, cur) ==> EntrySettled(r, cur, Out(g, cur)[k0])
  {
    forall p, k0 | p in before && k0 in Out(g, p) ensures EntrySettled(r, p, Out(g, p)[k0]) {
      assert EntrySettled(dist, p, Out(g, p)[k0]);
    }
    forall k0 | k0 in handled + {k} && k0 in Out(g, cur) ensures EntrySettled(r, cur, Out(g, cur)[k0]) {
      if k0 != k {
        assert EntrySettled(dist, cur, Out(g, cur)[k0]);
      }
    }
  }

  /** The improved distance is the weight of a walk: the walk to `cur` followed by `e`. */
  lemma RelaxSound<V, E(!new)>(g: Graph<V, E>, source: VertexId, dist: map<VertexId, Distance>, cur: VertexId, e: Edge<E>, r: map<VertexId, Distance>)
    requires Sound(g, source, dist)
    requires e in Out(g, cur).Values && e.weight.Some? && Other(e, cur).Some?
    requires cur in dist && Other(e, cur).value in dist
    requires r == Relax(dist, cur, Other(e, cur).value, e.weight.value)
    ensures Sound(g, source, r)
  {
    var next := Other(e, cur).value;
    if r[next] != dist[next] {
      forall x | x in r && r[x].Some? ensures Reachable(g, source, x, r[x].value) {
        if x == next {
          assert Reachable(g, source, cur, dist[cur].value);
          var es :| IsWalk(g, source, cur, es) && Length(es) == dist[cur].value;
          WalkExtend(g, source, cur, es, e);
        }
      }
    }
  }

  /**
   * The inner loop of shortestPaths: relax every out-map entry of `cur`, in
   * any order, removing and re-offering each vertex whose distance falls.
   * An unweighted entry throws.
   */
  method RelaxOut<V(==), E(==,!new)>(g: Graph<V, E>, source: VertexId, dist0: map<VertexId, Distance>, queue0: set<VertexId>, cur: VertexId)
    returns (r: Result<(map<VertexId, Distance>, set<VertexId>)>)
    requires Relaxing(g, source, dist0, dist0, queue0, cur, {})
    ensures r.Err? ==> r.error == ClassCast && exists k :: k in Out(g, cur) && Out(g, cur)[k].weight.None?
    ensures r.Ok? ==> r.value.1 == queue0 && Relaxing(g, source, dist0, r.value.0, queue0, cur, Out(g, cur).Keys)
  {
    var out := Out(g, cur);
    var dist := dist0;
    var queue := queue0;
    var todo := out.Keys;
    ghost var handled := {};
    while todo != {}
      invariant todo <= out.Keys && queue == queue0
      invariant forall k :: k in out && k !in todo ==> k in handled
      invariant Relaxing(g, source, dist0, dist, queue, cur, handled)
      decreases |todo|
    {
      var k :| k in todo;
      var e := out[k];
      if e.weight.None? {
        return Err(ClassCast);
      }
      var next := Other(e, cur).value;
      var relaxed := Relax(dist, cur, next, e.weight.value);
      RelaxStep(g, source, dist0, dist, queue, cur, handled, k, relaxed);
      if relaxed[next] != dist[next] {
        Requeue(queue, next);
        queue := (queue - {next}) + {next};
      }
      dist := relaxed;
      handled := handled + {k};
      todo := todo - {k};
    }
    assert handled >= out.Keys;
    RelaxingMonotone(g, source, dist0, dist, queue, cur, handled, out.Keys);
    return Ok((dist, queue));
  }

  /** Removing a queued vertex and offering it again leaves the same queue. */
  lemma Requeue(queue: set<VertexId>, x: VertexId)
    requires x in queue
    ensures (queue - {x}) + {x} == queue
  {
  }

  lemma RelaxingMonotone<V, E(!new)>(g: Graph<V, E>, source: VertexId, dist0: map<VertexId, Distance>,
                                     dist: map<VertexId, Distance>, queue: set<VertexId>, cur: VertexId, handled: set<VertexId>, fewer: set<VertexId>)
    requires Relaxing(g, source, dist0, dist, queue, cur, handled) && fewer <= handled
    ensures Relaxing(g, source, dist0, dist, queue, cur, fewer)
  {
  }

  /**
   * The outer loop's invariant: every member and the source have an entry,
   * the source is at zero, vertices taken from the queue are no farther
   * than those left and have all their entries relaxed, and every finite
   * distance is the weight of a walk from the source.
   */
  ghost predicate Polling<V, E(!new)>(g: Graph<V, E>, source: VertexId, dist: map<VertexId, Distance>, queue: set<VertexId>) {
    && Closed(g) && queue <= Members(g)
    && dist.Keys == Members(g) + {source} && dist[source] == Some(0)
    && Ordered(dist, Members(g) - queue, queue)
    && Settled(g, dist, Members(g) - queue)
    && Sound(g, source, dist)
  }

  /** Taking a vertex of least distance from the queue starts the inner loop. */
  lemma TakeMin<V, E(!new)>(g: Graph<V, E>, source: VertexId, dist: map<VertexId, Distance>, queue: set<VertexId>, cur: VertexId)
    requires Polling(g, source, dist, queue)
    requires cur in queue && forall q :: q in queue ==> AtMost(dist[cur], dist[q])
    ensures Relaxing(g, source, dist, dist, queue - {cur}, cur, {})
  {
    assert Members(g) - (queue - {cur}) - {cur} == Members(g) - queue;
  }

  /** Once every entry of `cur` is relaxed, `cur` joins the vertices taken. */
  lemma PutBack<V, E(!new)>(g: Graph<V, E>, source: VertexId, dist0: map<VertexId, Distance>, dist: map<VertexId, Distance>, queue: set<VertexId>, cur: VertexId)
    requires Relaxing(g, source, dist0, dist, queue, cur, Out(g, cur).Keys) && dist0[source] == Some(0)
    ensures Polling(g, source, dist, queue)
  {
    assert AtMost(dist[source], dist0[source]);
    forall p, k | p in Members(g) - queue && k in Out(g, p) ensures EntrySettled(dist, p, Out(g, p)[k]) {
      if p != cur {
        assert p in Members(g) - queue - {cur};
      }
    }
  }

  /** The starting map and the full queue satisfy the outer invariant. */
  lemma InitialPolling<V, E(!new)>(g: Graph<V, E>, source: VertexId)
    requires Closed(g)
    ensures Polling(g, source, Initial(g, source), Members(g))
  {
    var dist := Initial(g, source);
    assert IsWalk(g, source, source, []) && Length<E>([]) == 0;
    forall x | x in dist && dist[x].Some? ensures Reachable(g, source, x, dist[x].value) {
      assert x == source;
    }
    assert Members(g) - Members(g) == {};
  }

  /**
   * One round of the outer loop: poll a vertex of least distance and relax
   * its out-map entries. Fails, as the cast does, on an unweighted entry of
   * the polled vertex; otherwise the queue is one vertex shorter.
   */
  method Poll<V(==), E(==,!new)>(g: Graph<V, E>, source: VertexId, dist: map<VertexId, Distance>, queue: set<VertexId>)
    returns (r: Result<(map<VertexId, Distance>, set<VertexId>)>)
    requires Polling(g, source, dist, queue) && queue != {}
    ensures r.Err? ==> HasUnweightedOut(g)
    ensures r.Ok? ==> Polling(g, source, r.value.0, r.value.1) && |r.value.1| < |queue|
  {
    MinExists(queue, dist);
    var cur :| cur in queue && forall q :: q in queue ==> AtMost(dist[cur], dist[q]);
    TakeMin(g, source, dist, queue, cur);
    var step := RelaxOut(g, source, dist, queue - {cur}, cur);
    if step.Err? {
      var k :| k in Out(g, cur) && Out(g, cur)[k].weight.None?;
      return Err(ClassCast);
    }
    PutBack(g, source, dist, step.value.0, queue - {cur}, cur);
    return step;
  }

  /**
   * Java `shortestPaths(g, source)`. Every member vertex, and the source,
   * gets an entry; the source keeps distance zero. On return every out-map
   * entry of every member is relaxed and every finite distance is the weight
   * of a walk from the source. The cast of an unweighted edge throws, and it
   * is reached exactly when some member has one.
   */
  method ShortestPathsFrom<V(==), E(==,!new)>(g: Graph<V, E>, source: VertexId) returns (r: Result<map<VertexId, Distance>>)
    requires Closed(g)
    ensures r.Err? ==> HasUnweightedOut(g) && r.error == ClassCast
    ensures r.Ok? ==> !HasUnweightedOut(g)
    ensures r.Ok? ==> r.value.Keys == Members(g) + {source} && r.value[source] == Some(0)
    ensures r.Ok? ==> Settled(g, r.value, Members(g))
    ensures r.Ok? ==> Sound(g, source, r.value)
  {
    var dist := Initial(g, source);
    var queue := Members(g);
    InitialPolling(g, source);
    while queue != {}
      invariant Polling(g, source, dist, queue)
      decreases |queue|
    {
      var step := Poll(g, source, dist, queue);
      if step.Err? {
        return Err(ClassCast);
      }
      dist, queue := step.value.0, step.value.1;
    }
    assert Members(g) - queue == Members(g);
    SettledWeighted(g, dist);
    return Ok(dist);
  }

  // ---------------------------------------------------------------------
  // What the result means

  /** Relaxing every entry needs every weight. */
  lemma SettledWeighted<V, E>(g: Graph<V, E>, dist: map<VertexId, Distance>)
    requires Settled(g, dist, Members(g))
    ensures !HasUnweightedOut(g)
  {
    forall x, k | x in Members(g) && k in Out(g, x) ensures Out(g, x)[k].weight.Some? {
      assert EntrySettled(dist, x, Out(g, x)[k]);
    }
  }

  /** Once every entry is relaxed, no walk from `y` undercuts the distance of its end. */
  lemma {:induction false} SettledBound<V, E>(g: Graph<V, E>, dist: map<VertexId, Distance>, y: VertexId, x: VertexId, es: seq<Edge<E>>)
    requires Closed(g) && Members(g) <= dist.Keys && Settled(g, dist, Members(g))
    requires y in Members(g) && IsWalk(g, y, x, es)
    ensures x in Members(g) && AtMost(dist[x], Plus(dist[y], Length(es)))
    decreases |es|
  {
    if |es| > 0 {
      var z := Other(es[0], y).value;
      var k :| k in Out(g, y) && Out(g, y)[k] == es[0];
      assert EntrySettled(dist, y, es[0]);
      SettledBound(g, dist, z, x, es[1..]);
    }
  }

  /**
   * The result is the shortest-walk distance: when the source is a member,
   * every walk from it weighs at least the recorded distance of its end, and
   * a finite recorded distance is the weight of some walk.
   */
  lemma Shortest<V, E>(g: Graph<V, E>, source: VertexId, dist: map<VertexId, Distance>, x: VertexId, es: seq<Edge<E>>)
    requires Closed(g) && source in Members(g)
    requires dist.Keys == Members(g) + {source} && dist[source] == Some(0)
    requires Settled(g, dist, Members(g))
    requires IsWalk(g, source, x, es)
    ensures x in dist && dist[x].Some? && dist[x].value <= Length(es)
  {
    SettledBound(g, dist, source, x, es);
  }
}
