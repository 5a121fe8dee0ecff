/**
 * Exhaustive tour search (GraphAlgorithms.java `allHamCycles`, `minTSP`).
 *
 * The enumeration is a depth-first search from a start vertex that extends
 * the current path by every out-map key of its last vertex not yet on the
 * path, and reports the path once it has as many vertices as the vertex
 * set. The order in which a vertex's neighbours are visited is the hash
 * map's and is left open: the search picks them in any order.
 *
 * As written, the search reports every Hamiltonian path, closed or not, and
 * turns each into a list of `getEdgeTo` entries whose last entry, the way
 * back to the start, is null when the path does not close; `minTSP` then
 * throws on the first such list and searches from position 0 instead of
 * from its `source` argument. Both the as-written and the corrected
 * versions are modelled here.
 */
module HamCycles {
  import opened Wrappers
  import opened Graphs

  // ---------------------------------------------------------------------
  // Paths and tours

  /** Consecutive vertices of `p` are joined: each is a key of its predecessor's out-map (Java `neighborsOut`). */
  predicate Chain<V, E>(g: Graph<V, E>, p: seq<VertexId>) {
    forall i :: 0 <= i < |p| - 1 ==> p[i + 1] in Out(g, p[i])
  }

  /** A path the search reports: from `start`, no vertex twice, as many vertices as the vertex set counts. */
  predicate HamPath<V, E>(g: Graph<V, E>, start: VertexId, p: seq<VertexId>) {
    && 0 < |p| && p[0] == start
    && |p| == g.vertices.size
    && DistinctIds(p)
    && Chain(g, p)
  }

  /** A Hamiltonian path whose last vertex has an out-map entry back to the start: a tour. */
  predicate HamCycle<V, E>(g: Graph<V, E>, start: VertexId, p: seq<VertexId>) {
    HamPath(g, start, p) && start in Out(g, p[|p| - 1])
  }

  /** Java `getEdgeTo`, on any id. */
  function EdgeTo<V, E>(g: Graph<V, E>, x: VertexId, y: VertexId): Option<Edge<E>> {
    if y in Out(g, x) then Some(Out(g, x)[y]) else None
  }

  /**
   * The list of edges built for a reported path: entry i is the out-map
   * entry of the i-th vertex under the next one, wrapping round to the
   * start, and null where there is none. (The source finds i with
   * `indexOf`, which is i because the path has no repeated vertex.)
   */
  function Tour<V, E>(g: Graph<V, E>, p: seq<VertexId>): (r: seq<Option<Edge<E>>>)
    ensures |r| == |p|
  {
    seq(|p|, i requires 0 <= i < |p| => EdgeTo(g, p[i], Next(p, i)))
  }

  /** The vertex after position `i`, wrapping round: the source's `(i + 1) % size`. */
  function Next(p: seq<VertexId>, i: nat): (r: VertexId)
    requires i < |p|
    ensures r == if i + 1 < |p| then p[i + 1] else p[0]
  {
    p[(i + 1) % |p|]
  }

  /** Along a joined path, each entry but the last is the edge to the next vertex. */
  lemma TourSteps<V, E>(g: Graph<V, E>, p: seq<VertexId>)
    requires Chain(g, p)
    ensures forall i :: 0 <= i < |p| - 1 ==> Tour(g, p)[i] == Some(Out(g, p[i])[p[i + 1]])
  {
    forall i | 0 <= i < |p| - 1 ensures Tour(g, p)[i] == Some(Out(g, p[i])[p[i + 1]]) {
      assert Next(p, i) == p[i + 1];
    }
  }

  /** The last entry of a nonempty path's list is the way back to its first vertex. */
  lemma TourBack<V, E>(g: Graph<V, E>, p: seq<VertexId>)
    requires 0 < |p|
    ensures Tour(g, p)[|p| - 1] == EdgeTo(g, p[|p| - 1], p[0])
  {
    assert Next(p, |p| - 1) == p[0];
  }

  /**
   * The list of a Hamiltonian path has an edge at every step along the
   * path; its last entry, the step back to the start, is present exactly
   * when the path is a tour.
   */
  lemma TourEntries<V, E>(g: Graph<V, E>, start: VertexId, p: seq<VertexId>)
    requires HamPath(g, start, p)
    ensures forall i :: 0 <= i < |p| - 1 ==> Tour(g, p)[i] == Some(Out(g, p[i])[p[i + 1]])
    ensures Tour(g, p)[|p| - 1].Some? <==> HamCycle(g, start, p)
    ensures HamCycle(g, start, p) ==> Tour(g, p)[|p| - 1] == Some(Out(g, p[|p| - 1])[start])
  {
    TourSteps(g, p);
    TourBack(g, p);
  }

  /** Entry `i` of the list of a joined path that leads back to its first vertex is present. */
  lemma TourEntryPresent<V, E>(g: Graph<V, E>, p: seq<VertexId>, i: nat)
    requires i < |p| && Chain(g, p) && p[0] in Out(g, p[|p| - 1])
    ensures Tour(g, p)[i].Some?
  {
    if i < |p| - 1 {
      assert Next(p, i) == p[i + 1];
    } else {
      assert Next(p, i) == p[0];
    }
  }

  /** The list of a joined path that leads back to its first vertex has no null entry. */
  lemma TourFull<V, E>(g: Graph<V, E>, p: seq<VertexId>)
    requires 0 < |p| && Chain(g, p) && p[0] in Out(g, p[|p| - 1])
    ensures forall i :: 0 <= i < |p| ==> Tour(g, p)[i].Some?
  {
    forall i | 0 <= i < |p| ensures Tour(g, p)[i].Some? {
      TourEntryPresent(g, p, i);
    }
  }

  // ---------------------------------------------------------------------
  // The search

  /** Loop state of one search level: what has been reported, and which neighbours have been tried. */
  ghost predicate Searching<V, E>(g: Graph<V, E>, start: VertexId, path: seq<VertexId>, paths: seq<seq<VertexId>>, tried: set<VertexId>)
  {
    && (forall p :: p in paths ==> HamPath(g, start, p) && path <= p)
    && (forall p :: HamPath(g, start, p) && path <= p && |path| < |p| && p[|path|] in tried ==> p in paths)
  }

  /** No path is listed twice. */
  predicate DistinctPaths(ps: seq<seq<VertexId>>) {
    forall i, j :: 0 <= i < j < |ps| ==> ps[i] != ps[j]
  }

  /** The paths found so far repeat nothing and each continues `path` with a neighbour from `tried`. */
  predicate Apart(path: seq<VertexId>, paths: seq<seq<VertexId>>, tried: set<VertexId>) {
    && DistinctPaths(paths)
    && (forall i :: 0 <= i < |paths| ==> |path| < |paths[i]| && paths[i][|path|] in tried)
  }

  /**
   * Paths reported below different neighbours differ at the position after
   * `path`, so appending the batch for a new neighbour `n` repeats nothing.
   */
  lemma BatchesDisjoint(path: seq<VertexId>, paths: seq<seq<VertexId>>, more: seq<seq<VertexId>>, tried: set<VertexId>, n: VertexId)
    requires Apart(path, paths, tried) && DistinctPaths(more) && n !in tried
    requires forall p :: p in more ==> |path| < |p| && p[|path|] == n
    ensures Apart(path, paths + more, tried + {n})
  {
    var all := paths + more;
    forall i, j | 0 <= i < j < |all| ensures all[i] != all[j] {
      if i < |paths| && |paths| <= j {
        assert all[j] in more;
      }
    }
    forall i | |paths| <= i < |all| ensures |path| < |all[i]| && all[i][|path|] == n {
      assert all[i] in more;
    }
  }

  /** A path the search may hold: from `start`, no vertex twice, each step along an out-map entry. */
  predicate Partial<V, E>(g: Graph<V, E>, start: VertexId, path: seq<VertexId>) {
    0 < |path| && path[0] == start && DistinctIds(path) && Chain(g, path)
  }

  /** Extending the path by a member not on it leaves fewer members off the path. */
  lemma Shrinks(members: set<VertexId>, path: seq<VertexId>, n: VertexId)
    requires n in members && n !in path
    ensures |members - IdSet(path + [n])| < |members - IdSet(path)|
  {
    var before := members - IdSet(path);
    assert members - IdSet(path + [n]) == before - {n};
    assert before == (before - {n}) + {n};
  }

  /** Trying neighbour `n` covers every Hamiltonian path whose next vertex is `n`. */
  lemma TryCovers<V, E>(g: Graph<V, E>, start: VertexId, path: seq<VertexId>, paths: seq<seq<VertexId>>,
                        tried: set<VertexId>, n: VertexId, more: seq<seq<VertexId>>)
    requires 0 < |path| && Searching(g, start, path, paths, tried)
    requires n in path ==> more == []
    requires n !in path ==> forall p :: HamPath(g, start, p) && path + [n] <= p ==> p in more
    requires forall p :: p in more ==> HamPath(g, start, p) && path <= p
    ensures Searching(g, start, path, paths + more, tried + {n})
  {
    forall p | HamPath(g, start, p) && path <= p && |path| < |p| && p[|path|] in tried + {n}
      ensures p in paths + more
    {
      if p[|path|] == n {
        assert p[..|path| + 1] == path + [n];
        assert p in more;
      }
    }
  }

  /** A path as long as the vertex set has no proper extension. */
  lemma FullLength<V, E>(g: Graph<V, E>, start: VertexId, path: seq<VertexId>)
    requires |path| == g.vertices.size
    ensures forall p :: HamPath(g, start, p) && path <= p ==> p == path
  {
    forall p | HamPath(g, start, p) && path <= p ensures p == path {
      assert p == p[..|path|];
    }
  }

  /** After every neighbour of the last vertex was tried, every extension was reported. */
  lemma TriedAll<V, E>(g: Graph<V, E>, start: VertexId, path: seq<VertexId>, paths: seq<seq<VertexId>>)
    requires 0 < |path| && |path| != g.vertices.size
    requires Searching(g, start, path, paths, Out(g, path[|path| - 1]).Keys)
    ensures forall p :: HamPath(g, start, p) && path <= p ==> p in paths
  {
    forall p | HamPath(g, start, p) && path <= p ensures p in paths {
      assert p[|path| - 1] == path[|path| - 1];
      assert p[|path|] in Out(g, p[|path| - 1]);
    }
  }

  /** Appending an out-neighbour of the last vertex that is not on the path gives a path again. */
  lemma Extended<V, E>(g: Graph<V, E>, path: seq<VertexId>, n: VertexId)
    requires 0 < |path| && DistinctIds(path) && Chain(g, path)
    requires n in Out(g, path[|path| - 1]) && n !in path
    ensures DistinctIds(path + [n]) && Chain(g, path + [n]) && (path + [n])[0] == path[0]
  {
  }

  /**
   * One level of the recursive helper: report `path` when it is long
   * enough, otherwise extend it by each out-neighbour of its last vertex
   * that is not already on it. Returns exactly the Hamiltonian paths from
   * `start` that extend `path`. The source adds the neighbour to a shared
   * list and removes it again afterwards; here the path is a value.
   */
  method Extend<V, E>(g: Graph<V, E>, start: VertexId, path: seq<VertexId>) returns (paths: seq<seq<VertexId>>)
    requires Closed(g)
    requires Partial(g, start, path)
    ensures forall p :: p in paths ==> HamPath(g, start, p) && path <= p
    ensures forall p :: HamPath(g, start, p) && path <= p ==> p in paths
    ensures DistinctPaths(paths)
    decreases |Members(g) - IdSet(path)|, 2
  {
    if |path| == g.vertices.size {
      FullLength(g, start, path);
      return [path];
    }
    paths := Sweep(g, start, path, Out(g, path[|path| - 1]).Keys, {}, []);
    TriedAll(g, start, path, paths);
  }

  /**
   * The helper's loop over the out-neighbours of the last vertex: `todo`
   * are the ones still to visit, `tried` the ones visited, `paths` what
   * they gave. Visits the rest, in any order, appending what each gives.
   */
  method Sweep<V, E>(g: Graph<V, E>, start: VertexId, path: seq<VertexId>, todo: set<VertexId>, ghost tried: set<VertexId>, paths: seq<seq<VertexId>>)
    returns (found: seq<seq<VertexId>>)
    requires Closed(g)
    requires Partial(g, start, path)
    requires todo + tried == Out(g, path[|path| - 1]).Keys && todo !! tried
    requires Searching(g, start, path, paths, tried) && Apart(path, paths, tried)
    ensures Searching(g, start, path, found, todo + tried) && Apart(path, found, todo + tried)
    decreases |Members(g) - IdSet(path)|, 1, |todo|
  {
    if todo == {} {
      return paths;
    }
    var n :| n in todo;
    var more := Try(g, start, path, n);
    TryCovers(g, start, path, paths, tried, n, more);
    BatchesDisjoint(path, paths, more, tried, n);
    found := Sweep(g, start, path, todo - {n}, tried + {n}, paths + more);
    assert todo - {n} + (tried + {n}) == todo + tried;
  }

  /** The loop body of the helper for neighbour `n`: skip it when it is on the path, else search below it. */
  method Try<V, E>(g: Graph<V, E>, start: VertexId, path: seq<VertexId>, n: VertexId) returns (more: seq<seq<VertexId>>)
    requires Closed(g)
    requires Partial(g, start, path)
    requires n in Out(g, path[|path| - 1])
    ensures n in path ==> more == []
    ensures n !in path ==> forall p :: HamPath(g, start, p) && path + [n] <= p ==> p in more
    ensures forall p :: p in more ==> HamPath(g, start, p) && path <= p
    ensures forall p :: p in more ==> |path| < |p| && p[|path|] == n
    ensures DistinctPaths(more)
    decreases |Members(g) - IdSet(path)|, 0
  {
    if n in path {
      return [];
    }
    Extended(g, path, n);
    Shrinks(Members(g), path, n);
    more := Extend(g, start, path + [n]);
    forall p | p in more ensures path <= p && |path| < |p| && p[|path|] == n {
      assert path <= path + [n];
      assert (path + [n])[|path|] == n;
    }
  }

  /** The search from `[start]`: exactly the Hamiltonian paths from `start`. */
  method HamPaths<V, E>(g: Graph<V, E>, start: VertexId) returns (paths: seq<seq<VertexId>>)
    requires Closed(g)
    ensures forall p :: p in paths <==> HamPath(g, start, p)
    ensures DistinctPaths(paths)
  {
    paths := Extend(g, start, [start]);
    forall p | HamPath(g, start, p) ensures [start] <= p {
      assert p[..1] == [start];
    }
  }

  /**
   * Java `allHamCycles(g, start)` as written: one list per Hamiltonian path
   * from `start`, closed or not, in search order.
   */
  method AllHamCyclesAsWritten<V, E>(g: Graph<V, E>, start: VertexId)
    returns (output: seq<seq<Option<Edge<E>>>>, paths: seq<seq<VertexId>>)
    requires Closed(g)
    ensures forall p :: p in paths <==> HamPath(g, start, p)
    ensures DistinctPaths(paths)
    ensures |output| == |paths| && forall i :: 0 <= i < |paths| ==> output[i] == Tour(g, paths[i])
  {
    var all := HamPaths(g, start);
    output := seq(|all|, i requires 0 <= i < |all| => Tour(g, all[i]));
    paths := all;
  }

  /**
   * A one-vertex graph without edges: its only Hamiltonian path is not a
   * tour, and the list reported for it holds a single null.
   */
  lemma OneVertexOpenPath<V, E>(data: V)
    ensures var (g, x) := AddVertex(Empty<V, E>(), data);
      HamPath(g, x, [x]) && !HamCycle(g, x, [x]) && Tour(g, [x]) == [None]
  {
    EmptyWf<V, E>();
    var (g, x) := AddVertex(Empty<V, E>(), data);
    assert g.vertices.elems == [x];
    assert Out(g, x) == map[];
  }

  /**
   * Java `allHamCycles(g, start)` as evidently intended: one list per
   * Hamiltonian path from `start` whose last vertex leads back to the
   * start, in search order. Every list is a full tour with no null entry.
   */
  method AllHamCycles<V, E>(g: Graph<V, E>, start: VertexId)
    returns (output: seq<seq<Option<Edge<E>>>>, paths: seq<seq<VertexId>>)
    requires Closed(g)
    ensures forall p :: p in paths <==> HamCycle(g, start, p)
    ensures DistinctPaths(paths)
    ensures |output| == |paths| && forall i :: 0 <= i < |paths| ==> output[i] == Tour(g, paths[i])
    ensures forall k, i :: 0 <= k < |output| && 0 <= i < |output[k]| ==> output[k][i].Some?
  {
    var all := HamPaths(g, start);
    var kept := [];
    var k := 0;
    while k < |all|
      invariant 0 <= k <= |all|
      invariant forall p :: p in kept ==> HamCycle(g, start, p)
      invariant forall j :: 0 <= j < k && HamCycle(g, start, all[j]) ==> all[j] in kept
      invariant DistinctPaths(kept) && forall p :: p in kept ==> p in all[..k]
    {
      var p := all[k];
      assert p in all;
      if start in Out(g, p[|p| - 1]) {
        KeepNew(all, k, kept);
        kept := kept + [p];
      }
      assert all[..k + 1] == all[..k] + [p];
      k := k + 1;
    }
    forall p | HamCycle(g, start, p) ensures p in kept {
      var j :| 0 <= j < |all| && all[j] == p;
    }
    output := seq(|kept|, i requires 0 <= i < |kept| => Tour(g, kept[i]));
    paths := kept;
    forall j | 0 <= j < |output| ensures forall i :: 0 <= i < |output[j]| ==> output[j][i].Some? {
      assert kept[j] in kept && output[j] == Tour(g, kept[j]);
      TourFull(g, kept[j]);
    }
  }

  /** Keeping `all[k]` after a selection from `all[..k]` repeats nothing when `all` repeats nothing. */
  lemma KeepNew(all: seq<seq<VertexId>>, k: nat, kept: seq<seq<VertexId>>)
    requires k < |all| && DistinctPaths(all) && DistinctPaths(kept)
    requires forall p :: p in kept ==> p in all[..k]
    ensures DistinctPaths(kept + [all[k]])
  {
    forall p | p in kept ensures p != all[k] {
      var j :| 0 <= j < k && all[j] == p;
    }
    var r := kept + [all[k]];
    forall i, j | 0 <= i < j < |r| ensures r[i] != r[j] {
      if j == |kept| {
        assert r[i] in kept;
      }
    }
  }

  // ---------------------------------------------------------------------
  // Costs

  /** What reading one list entry as a weighted edge throws: null gives NullPointer, an unweighted edge ClassCast. */
  function Fault<E>(x: Option<Edge<E>>): (r: Option<Exception>)
    ensures r.None? <==> x.Some? && x.value.weight.Some?
  {
    if x.None? then Some(NullPointer)
    else if x.value.weight.None? then Some(ClassCast)
    else None
  }

  /**
   * Java's inner sum over one list: the weights of its entries, or the
   * exception of the first entry that cannot be read as a weighted edge.
   */
  function TourWeight<E>(c: seq<Option<Edge<E>>>): (r: Result<nat>)
    ensures r.Err? ==> r.error == NullPointer || r.error == ClassCast
  {
    if |c| == 0 then Ok(0)
    else match Fault(c[0])
      case Some(x) => Err(x)
      case None =>
        match TourWeight(c[1..])
        case Err(x) => Err(x)
        case Ok(w) => Ok(c[0].value.weight.value + w)
  }

  /** The sum succeeds exactly when every entry is a weighted edge. */
  lemma {:induction false} WeightOkIff<E>(c: seq<Option<Edge<E>>>)
    ensures TourWeight(c).Ok? <==> forall i :: 0 <= i < |c| ==> Fault(c[i]).None?
  {
    if |c| > 0 {
      WeightOkIff(c[1..]);
      assert forall i :: 0 <= i < |c| - 1 ==> c[1..][i] == c[i + 1];
      if forall i :: 0 <= i < |c| ==> Fault(c[i]).None? {
        assert Fault(c[0]).None?;
      }
    }
  }

  /** A failed sum reports the exception of the first entry that has one. */
  lemma {:induction false} FirstFault<E>(c: seq<Option<Edge<E>>>)
    requires TourWeight(c).Err?
    ensures exists i :: 0 <= i < |c| && Fault(c[i]) == Some(TourWeight(c).error) && forall j :: 0 <= j < i ==> Fault(c[j]).None?
  {
    if Fault(c[0]).None? {
      FirstFault(c[1..]);
      var i :| 0 <= i < |c| - 1 && Fault(c[1..][i]) == Some(TourWeight(c[1..]).error)
        && forall j :: 0 <= j < i ==> Fault(c[1..][j]).None?;
      assert c[1..][i] == c[i + 1];
      forall j | 0 <= j < i + 1 ensures Fault(c[j]).None? {
        if j > 0 {
          assert c[1..][j - 1] == c[j];
        }
      }
    }
  }

  /** The weight of two lists joined is the sum of their weights, when neither has a fault. */
  lemma {:induction false} TourWeightAppend<E>(a: seq<Option<Edge<E>>>, b: seq<Option<Edge<E>>>)
    requires TourWeight(a).Ok? && TourWeight(b).Ok?
    ensures TourWeight(a + b) == Ok(TourWeight(a).value + TourWeight(b).value)
  {
    if |a| > 0 {
      assert (a + b)[0] == a[0];
      assert (a + b)[1..] == a[1..] + b;
      TourWeightAppend(a[1..], b);
    } else {
      assert a + b == b;
    }
  }

  /** Cutting a list without faults splits its weight between the two parts. */
  lemma {:induction false} TourWeightSplit<E>(c: seq<Option<Edge<E>>>, k: nat)
    requires TourWeight(c).Ok? && k <= |c|
    ensures TourWeight(c[..k]).Ok? && TourWeight(c[k..]).Ok?
    ensures TourWeight(c).value == TourWeight(c[..k]).value + TourWeight(c[k..]).value
  {
    if k > 0 {
      TourWeightSplit(c[1..], k - 1);
      assert c[..k][0] == c[0];
      assert c[..k][1..] == c[1..][..k - 1];
      assert c[1..][k - 1..] == c[k..];
    } else {
      assert c[..0] == [] && c[0..] == c;
    }
  }

  /** A tour read from another starting entry costs the same. */
  lemma TourWeightRotate<E>(c: seq<Option<Edge<E>>>, k: nat)
    requires TourWeight(c).Ok? && k <= |c|
    ensures TourWeight(c[k..] + c[..k]) == TourWeight(c)
  {
    var front, back := c[..k], c[k..];
    TourWeightSplit(c, k);
    TourWeightAppend(back, front);
    assert TourWeight(back + front).value == TourWeight(c).value;
  }

  /** A list with no null entry can only fail the cast. */
  lemma NoNullOnlyClassCast<E>(c: seq<Option<Edge<E>>>)
    requires forall i :: 0 <= i < |c| ==> c[i].Some?
    requires TourWeight(c).Err?
    ensures TourWeight(c).error == ClassCast
  {
    FirstFault(c);
  }

  /** A Hamiltonian path that is not a tour makes the sum throw. */
  lemma OpenPathThrows<V, E>(g: Graph<V, E>, start: VertexId, p: seq<VertexId>)
    requires HamPath(g, start, p) && !HamCycle(g, start, p)
    ensures TourWeight(Tour(g, p)).Err?
  {
    TourEntries(g, start, p);
    WeightOkIff(Tour(g, p));
    assert Fault(Tour(g, p)[|p| - 1]).Some?;
  }

  // ---------------------------------------------------------------------
  // Choosing the cheapest

  /** Both lists can be summed and the first costs no more than the second. */
  predicate NoDearer<E>(c: seq<Option<Edge<E>>>, d: seq<Option<Edge<E>>>) {
    TourWeight(c).Ok? && TourWeight(d).Ok? && TourWeight(c).value <= TourWeight(d).value
  }

  /** Among the first `n` lists, the one at `at` costs no more than any, and every earlier one costs more. */
  predicate CheapestAmong<E>(tours: seq<seq<Option<Edge<E>>>>, n: nat, at: nat)
    requires n <= |tours|
  {
    && at < n
    && (forall j :: 0 <= j < n ==> NoDearer(tours[at], tours[j]))
    && (forall j :: 0 <= j < at ==> !NoDearer(tours[j], tours[at]))
  }

  /**
   * Java's outer loop of `minTSP`: sum each list in turn and keep it when
   * its sum is strictly below the best so far, starting from infinity. An
   * exception in a sum ends the loop. Null when there is no list.
   */
  method Cheapest<E>(tours: seq<seq<Option<Edge<E>>>>) returns (r: Result<Option<seq<Option<Edge<E>>>>>)
    ensures r.Err? ==> exists i :: 0 <= i < |tours| && TourWeight(tours[i]) == Err(r.error) && forall j :: 0 <= j < i ==> TourWeight(tours[j]).Ok?
    ensures r.Ok? ==> forall i :: 0 <= i < |tours| ==> TourWeight(tours[i]).Ok?
    ensures r.Ok? ==> (r.value.None? <==> |tours| == 0)
    ensures r.Ok? && r.value.Some? ==> r.value.value in tours && forall j :: 0 <= j < |tours| ==> NoDearer(r.value.value, tours[j])
    ensures r.Ok? && r.value.Some? ==> exists at :: 0 <= at < |tours| && tours[at] == r.value.value && CheapestAmong(tours, |tours|, at)
  {
    var best: Option<nat> := None;
    var chosen: Option<seq<Option<Edge<E>>>> := None;
    ghost var at := 0;
    var k := 0;
    while k < |tours|
      invariant 0 <= k <= |tours|
      invariant forall j :: 0 <= j < k ==> TourWeight(tours[j]).Ok?
      invariant k == 0 <==> chosen.None?
      invariant best.None? <==> chosen.None?
      invariant k > 0 ==> CheapestAmong(tours, k, at) && chosen == Some(tours[at]) && best == Some(TourWeight(tours[at]).value)
    {
      var w := TourWeight(tours[k]);
      if w.Err? {
        return Err(w.error);
      }
      if best.None? || w.value < best.value {
        best := Some(w.value);
        chosen := Some(tours[k]);
        at := k;
      }
      k := k + 1;
    }
    r := Ok(chosen);
  }

  /** The list reported for a path, found by its position. */
  lemma Locate<V, E>(g: Graph<V, E>, tours: seq<seq<Option<Edge<E>>>>, paths: seq<seq<VertexId>>, p: seq<VertexId>)
    returns (i: nat)
    requires |tours| == |paths| && forall j :: 0 <= j < |paths| ==> tours[j] == Tour(g, paths[j])
    requires p in paths
    ensures i < |paths| && paths[i] == p && tours[i] == Tour(g, p)
  {
    i :| 0 <= i < |paths| && paths[i] == p;
  }

  /**
   * Java `minTSP(g, source)` as written: searches from `getVertex(0)`
   * (IndexOutOfBounds when the positional list is empty) and never looks
   * at `source`; any Hamiltonian path that does not close makes it throw.
   */
  method MinTSPAsWritten<V, E(==)>(g: Graph<V, E>, source: VertexId) returns (r: Result<Option<seq<Option<Edge<E>>>>>)
    requires Closed(g)
    ensures |g.ordered| == 0 <==> r == Err(IndexOutOfBounds)
    ensures 0 < |g.ordered| && r.Err? ==> exists p :: HamPath(g, g.ordered[0], p) && TourWeight(Tour(g, p)) == Err(r.error)
    ensures 0 < |g.ordered| && r.Ok? ==> forall p :: HamPath(g, g.ordered[0], p) ==> HamCycle(g, g.ordered[0], p)
    ensures 0 < |g.ordered| && r.Ok? ==> (r.value.None? <==> forall p :: !HamPath(g, g.ordered[0], p))
    ensures 0 < |g.ordered| && r.Ok? && r.value.Some? ==> exists p :: HamPath(g, g.ordered[0], p) && r.value.value == Tour(g, p)
    ensures 0 < |g.ordered| && r.Ok? && r.value.Some? ==> forall p :: HamPath(g, g.ordered[0], p) ==>
      NoDearer(r.value.value, Tour(g, p))
  {
    var v0 := GetVertex(g, 0);
    if v0.Err? {
      return Err(v0.error);
    }
    var tours;
    var paths;
    tours, paths := AllHamCyclesAsWritten(g, v0.value);
    r := Cheapest(tours);
    if r.Err? {
      var i :| 0 <= i < |tours| && TourWeight(tours[i]) == Err(r.error);
      assert HamPath(g, v0.value, paths[i]) && TourWeight(Tour(g, paths[i])) == Err(r.error);
      return;
    }
    forall p | HamPath(g, v0.value, p) ensures HamCycle(g, v0.value, p) {
      var i := Locate(g, tours, paths, p);
      if !HamCycle(g, v0.value, p) {
        OpenPathThrows(g, v0.value, p);
      }
    }
    if r.value.Some? {
      var at :| 0 <= at < |tours| && tours[at] == r.value.value;
      assert HamPath(g, v0.value, paths[at]);
      forall p | HamPath(g, v0.value, p) ensures NoDearer(r.value.value, Tour(g, p)) {
        var i := Locate(g, tours, paths, p);
      }
    }
  }

  /**
   * Java `minTSP(g, source)` as evidently intended: the cheapest tour from
   * `source`, the first found among equally cheap ones, or null when there
   * is none; ClassCast when a tour holds an unweighted edge.
   */
  method MinTSP<V, E(==)>(g: Graph<V, E>, source: VertexId) returns (r: Result<Option<seq<Option<Edge<E>>>>>)
    requires Closed(g)
    ensures r.Err? ==> r.error == ClassCast && exists p :: HamCycle(g, source, p) && TourWeight(Tour(g, p)).Err?
    ensures r.Ok? ==> (r.value.None? <==> forall p :: !HamCycle(g, source, p))
    ensures r.Ok? && r.value.Some? ==> exists p :: HamCycle(g, source, p) && r.value.value == Tour(g, p)
    ensures r.Ok? && r.value.Some? ==> forall p :: HamCycle(g, source, p) ==> NoDearer(r.value.value, Tour(g, p))
  {
    var tours;
    var paths;
    tours, paths := AllHamCycles(g, source);
    r := Cheapest(tours);
    if r.Err? {
      var i :| 0 <= i < |tours| && TourWeight(tours[i]) == Err(r.error);
      NoNullOnlyClassCast(tours[i]);
      assert HamCycle(g, source, paths[i]);
      return;
    }
    if r.value.Some? {
      var at :| 0 <= at < |tours| && tours[at] == r.value.value;
      assert HamCycle(g, source, paths[at]);
      forall p | HamCycle(g, source, p) ensures NoDearer(r.value.value, Tour(g, p)) {
        var i := Locate(g, tours, paths, p);
      }
    }
  }

  /**
   * A copy-style graph (vertex objects joined by `addEdge` only, so the
   * positional list is empty) with a one-vertex tour from `x`: the
   * intended search finds it, while the as-written one throws
   * IndexOutOfBounds before looking.
   */
  lemma TourMissedWithoutPositions<V, E>(a: V, d: E)
    ensures var (g1, x) := Allocate(Empty<V, E>(), a);
      var g := AddEdge(g1, Edge(x, x, false, d, Some(1))).0;
      Closed(g) && g.ordered == [] && HamCycle(g, x, [x])
  {
    EmptyWf<V, E>();
    var (g1, x) := Allocate(Empty<V, E>(), a);
    AllocateWf(Empty<V, E>(), a);
    var e := Edge(x, x, false, d, Some(1));
    var (g, added) := AddEdge(g1, e);
    assert added;
    WfClosed(g);
    assert forall y :: y in g.vertices.elems <==> y == x;
    assert g.vertices.elems[0] == x;
    assert x in Out(g, x);
  }
}
