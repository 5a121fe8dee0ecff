/**
 * The bucket chains of the hash set (HashSet.java), node by node.
 *
 * `HashSets` keeps only the linked insertion order. This module adds the
 * bucket array: every node sits at the head of the chain of its bucket when
 * it is linked in, and a node's `next` pointer, once set, is never rewritten
 * (a node's `prev` is only ever assigned null, when `removeNode` copies the
 * removed node's null `prev` into its successor, so `removeNode` never takes
 * its first branch). A node therefore carries, unchanged for its whole life, the
 * chain that was behind it when it was linked in.
 *
 * Written that way, `removeNode` resets the bucket to the removed node's
 * `next`, and every node in front of it in the chain drops out of the
 * bucket while it stays in the linked order: `contains` and `get` stop
 * seeing it. `RemoveAsWritten` models that; `Remove` splices the node out,
 * which is what the `prev` field was evidently meant for, and it is
 * the corrected table that `HashSets` abstracts (`LookupAgrees`,
 * `RemoveKeeps`).
 */
module HashChains {
  import opened Wrappers
  import HashSets

  /** Java `hash`: `Math.abs(h % n)` for a hash code `h`, where `%` truncates toward zero. */
  function Slot(h: int, n: int): (r: nat)
    requires n > 0
    ensures r < n
  {
    if h >= 0 then h % n else (-h) % n
  }

  /** A node object: its element and the chain that followed it when it was linked in (its `next` pointers). */
  datatype Node<T> = Node(data: T, behind: seq<nat>)

  /**
   * `nodes[i]` is node object `i`; `buckets[b]` is the chain walked from
   * `set[b]` along `next`; `order` is the linked order from `head` along
   * `after`; `size` is the counter. The bucket array's length is `|buckets|`.
   */
  datatype Table<T> = Table(nodes: seq<Node<T>>, buckets: seq<seq<nat>>, order: seq<nat>, size: int)

  /** An empty table with `n` buckets. */
  function Empty<T>(n: HashSets.Capacity): (r: Table<T>)
    ensures Sane(r) && |r.buckets| == n && r.order == [] && r.size == 0
  {
    Table([], seq(n, _ => []), [], 0)
  }

  /** The node ids in `ids` all name nodes of `t`. */
  predicate Ids<T>(t: Table<T>, ids: seq<nat>) {
    forall j :: 0 <= j < |ids| ==> ids[j] < |t.nodes|
  }

  /** Ids drawn from a valid id sequence are valid. */
  lemma IdsWithin<T>(t: Table<T>, xs: seq<nat>, ys: seq<nat>)
    requires Ids(t, xs)
    requires forall i :: i in ys ==> i in xs
    ensures Ids(t, ys)
  {
    forall j | 0 <= j < |ys| ensures ys[j] < |t.nodes| {
      assert ys[j] in ys;
      var k :| 0 <= k < |xs| && xs[k] == ys[j];
    }
  }

  /** Every pointer names an existing node, and the array is at least the initial length. */
  predicate Sane<T>(t: Table<T>) {
    && |t.buckets| >= HashSets.InitialCapacity
    && (forall b :: 0 <= b < |t.buckets| ==> Ids(t, t.buckets[b]))
    && (forall i :: 0 <= i < |t.nodes| ==> Ids(t, t.nodes[i].behind))
    && Ids(t, t.order)
  }

  /** The elements held by the nodes `ids`, in that order. */
  function Values<T>(t: Table<T>, ids: seq<nat>): (r: seq<T>)
    requires Ids(t, ids)
    ensures |r| == |ids|
    ensures forall j :: 0 <= j < |ids| ==> r[j] == t.nodes[ids[j]].data
  {
    seq(|ids|, j requires 0 <= j < |ids| => t.nodes[ids[j]].data)
  }

  /** The bucket `x` hashes to. */
  function Home<T, K>(t: Table<T>, key: T -> K, code: K -> int, x: T): (r: nat)
    requires Sane(t)
    ensures r < |t.buckets|
  {
    Slot(code(key(x)), |t.buckets|)
  }

  /** The chain of `x`'s bucket. */
  function Chain<T, K>(t: Table<T>, key: T -> K, code: K -> int, x: T): seq<nat>
    requires Sane(t)
  {
    t.buckets[Home(t, key, code, x)]
  }

  /** The walk of `get`, `contains` and `remove`: the first position in `x`'s chain holding an element equal to `x`. */
  function Locate<T, K(==)>(t: Table<T>, key: T -> K, code: K -> int, x: T): (r: Option<nat>)
    requires Sane(t)
    ensures r.Some? ==> r.value < |Chain(t, key, code, x)|
    ensures r.Some? ==> key(t.nodes[Chain(t, key, code, x)[r.value]].data) == key(x)
    ensures r.None? ==> forall j :: 0 <= j < |Chain(t, key, code, x)| ==>
      key(t.nodes[Chain(t, key, code, x)[j]].data) != key(x)
  {
    HashSets.Find(Values(t, Chain(t, key, code, x)), key, key(x))
  }

  // ---------------------------------------------------------------------
  // Lookup

  /** Java `contains`: NullPointerException for a null probe (from `hash`); else whether its chain holds an equal element. */
  function Contains<T, K(==)>(t: Table<T>, key: T -> K, code: K -> int, o: Option<T>): (r: Result<bool>)
    requires Sane(t)
    ensures r.Err? <==> o.None?
    ensures r.Err? ==> r.error == NullPointer
    ensures r.Ok? ==> (r.value <==> (exists j :: 0 <= j < |Chain(t, key, code, o.value)| &&
                                          key(t.nodes[Chain(t, key, code, o.value)[j]].data) == key(o.value)))
  {
    if o.None? then Err(NullPointer) else Ok(Locate(t, key, code, o.value).Some?)
  }

  /** Java `get`: NullPointerException for a null probe; else the first element of its chain equal to it, or null. */
  function Get<T, K(==)>(t: Table<T>, key: T -> K, code: K -> int, item: Option<T>): (r: Result<Option<T>>)
    requires Sane(t)
    ensures r.Err? <==> item.None?
    ensures r.Err? ==> r.error == NullPointer
    ensures r.Ok? ==> (r.value.Some? <==> Contains(t, key, code, item) == Ok(true))
    ensures r.Ok? && r.value.Some? ==> key(r.value.value) == key(item.value)
    ensures r.Ok? && r.value.Some? ==> r.value.value in Values(t, Chain(t, key, code, item.value))
  {
    if item.None? then Err(NullPointer)
    else match Locate(t, key, code, item.value)
      case None => Ok(None)
      case Some(j) => Ok(Some(t.nodes[Chain(t, key, code, item.value)[j]].data))
  }

  // ---------------------------------------------------------------------
  // Insertion

  /** A new node for `x`, pushed on its bucket's chain and linked at the front or the back of the order; `size++`. */
  function Link<T, K>(t: Table<T>, key: T -> K, code: K -> int, x: T, front: bool): (r: Table<T>)
    requires Sane(t)
    ensures Sane(r)
    ensures |r.buckets| == |t.buckets| && r.size == t.size + 1
  {
    var b := Home(t, key, code, x);
    var id := |t.nodes|;
    var r := Table(t.nodes + [Node(x, t.buckets[b])], t.buckets[b := [id] + t.buckets[b]],
                   if front then [id] + t.order else t.order + [id], t.size + 1);
    assert forall i :: 0 <= i < |r.nodes| ==> Ids(r, r.nodes[i].behind) by {
      forall i | 0 <= i < |r.nodes| ensures Ids(r, r.nodes[i].behind) {
        if i < id {
          assert r.nodes[i] == t.nodes[i];
        }
      }
    }
    r
  }

  /** One step of the refill loop of `resize`: `add` of an element, on an array the refill never overfills. */
  function Put<T, K(==)>(t: Table<T>, key: T -> K, code: K -> int, x: T): (r: Table<T>)
    requires Sane(t)
    ensures Sane(r) && |r.buckets| == |t.buckets|
  {
    if Locate(t, key, code, x).Some? then t else Link(t, key, code, x, false)
  }

  /** Re-add each of `xs`, in order. */
  function Refill<T, K(==)>(xs: seq<T>, key: T -> K, code: K -> int, acc: Table<T>): (r: Table<T>)
    requires Sane(acc)
    ensures Sane(r) && |r.buckets| == |acc.buckets|
    decreases |xs|
  {
    if |xs| == 0 then acc else Refill(xs[1..], key, code, Put(acc, key, code, xs[0]))
  }

  /** Java `resize`: fresh nodes in a fresh array of length `n`, re-added in the linked order. */
  function Resize<T, K(==)>(t: Table<T>, key: T -> K, code: K -> int, n: HashSets.Capacity): (r: Table<T>)
    requires Sane(t)
    ensures Sane(r) && |r.buckets| == n
  {
    Refill(Values(t, t.order), key, code, Empty(n))
  }

  /** The growth check after a link: double the array when over half full. */
  function Grow<T, K(==)>(u: Table<T>, key: T -> K, code: K -> int): (r: Table<T>)
    requires Sane(u)
    ensures Sane(r)
  {
    if u.size * 2 > |u.buckets| then Resize(u, key, code, 2 * |u.buckets|) else u
  }

  /** Java `addLast` (and `add`): nothing for null or a present element; else link at the back, growing when over half full. */
  function AddLast<T, K(==)>(t: Table<T>, key: T -> K, code: K -> int, item: Option<T>): (r: Table<T>)
    requires Sane(t)
    ensures Sane(r)
    ensures item.None? || Contains(t, key, code, item) == Ok(true) ==> r == t
  {
    if item.None? || Locate(t, key, code, item.value).Some? then t
    else
      var u := Link(t, key, code, item.value, false);
      Grow(u, key, code)
  }

  /** Java `addFirst`: as `addLast`, but linked at the front. */
  function AddFirst<T, K(==)>(t: Table<T>, key: T -> K, code: K -> int, item: Option<T>): (r: Table<T>)
    requires Sane(t)
    ensures Sane(r)
    ensures item.None? || Contains(t, key, code, item) == Ok(true) ==> r == t
  {
    if item.None? || Locate(t, key, code, item.value).Some? then t
    else
      var u := Link(t, key, code, item.value, true);
      Grow(u, key, code)
  }

  // ---------------------------------------------------------------------
  // Removal

  /** Node ids compare by identity. */
  function Ident(i: nat): nat {
    i
  }

  /** The linked order without node `id` (the `before`/`after` half of `removeNode`, which is right). */
  function Unorder<T>(t: Table<T>, id: nat): (r: seq<nat>)
    requires Ids(t, t.order)
    ensures Ids(t, r) && |r| <= |t.order|
    ensures forall i :: i in r <==> i in t.order && i != id
  {
    HashSets.DropSub(t.order, Ident, {id});
    IdsWithin(t, t.order, HashSets.Drop(t.order, Ident, {id}));
    HashSets.Drop(t.order, Ident, {id})
  }

  /** Java `removeNode` as written: the bucket is reset to the node's `next`, whatever stood in front of it. */
  function UnlinkAsWritten<T, K>(t: Table<T>, key: T -> K, code: K -> int, id: nat): (r: Table<T>)
    requires Sane(t) && id < |t.nodes|
    ensures Sane(r) && r.nodes == t.nodes && r.size == t.size && |r.buckets| == |t.buckets|
    ensures r.buckets[Home(t, key, code, t.nodes[id].data)] == t.nodes[id].behind
    ensures forall i :: i in r.order <==> i in t.order && i != id
  {
    var b := Home(t, key, code, t.nodes[id].data);
    t.(buckets := t.buckets[b := t.nodes[id].behind], order := Unorder(t, id))
  }

  /** `removeNode` with the chain spliced: only node `id` leaves its bucket. */
  function Unlink<T, K>(t: Table<T>, key: T -> K, code: K -> int, id: nat): (r: Table<T>)
    requires Sane(t) && id < |t.nodes|
    ensures Sane(r) && r.nodes == t.nodes && r.size == t.size && |r.buckets| == |t.buckets|
    ensures forall i :: i in r.order <==> i in t.order && i != id
  {
    var b := Home(t, key, code, t.nodes[id].data);
    HashSets.DropSub(t.buckets[b], Ident, {id});
    IdsWithin(t, t.buckets[b], HashSets.Drop(t.buckets[b], Ident, {id}));
    t.(buckets := t.buckets[b := HashSets.Drop(t.buckets[b], Ident, {id})], order := Unorder(t, id))
  }

  /** Java `decrementSize`: lower the counter by `x`; halve the array when under a quarter full. */
  function Decrement<T, K(==)>(t: Table<T>, key: T -> K, code: K -> int, x: int): (r: Table<T>)
    requires Sane(t)
    ensures Sane(r)
  {
    var u := t.(size := t.size - x);
    if u.size * 4 < |u.buckets| && |u.buckets| / 2 >= HashSets.InitialCapacity then
      Resize(u, key, code, |u.buckets| / 2)
    else u
  }

  /**
   * Java `remove(o)` as written: NullPointerException for a null probe;
   * false, with nothing changed, when the chain holds no equal element;
   * else that node is unlinked by `removeNode` as written and the counter
   * drops by one.
   */
  function RemoveAsWritten<T, K(==)>(t: Table<T>, key: T -> K, code: K -> int, o: Option<T>): (r: Result<(Table<T>, bool)>)
    requires Sane(t)
    ensures r.Err? <==> o.None?
    ensures r.Err? ==> r.error == NullPointer
    ensures r.Ok? ==> (r.value.1 <==> Contains(t, key, code, o) == Ok(true))
    ensures r.Ok? && !r.value.1 ==> r.value.0 == t
    ensures r.Ok? ==> Sane(r.value.0)
  {
    if o.None? then Err(NullPointer)
    else match Locate(t, key, code, o.value)
      case None => Ok((t, false))
      case Some(j) =>
        var id := Chain(t, key, code, o.value)[j];
        Ok((Decrement(UnlinkAsWritten(t, key, code, id), key, code, 1), true))
  }

  /** `remove(o)` with the chain spliced. */
  function Remove<T, K(==)>(t: Table<T>, key: T -> K, code: K -> int, o: Option<T>): (r: Result<(Table<T>, bool)>)
    requires Sane(t)
    ensures r.Err? <==> o.None?
    ensures r.Err? ==> r.error == NullPointer
    ensures r.Ok? ==> (r.value.1 <==> Contains(t, key, code, o) == Ok(true))
    ensures r.Ok? && !r.value.1 ==> r.value.0 == t
    ensures r.Ok? ==> Sane(r.value.0)
  {
    if o.None? then Err(NullPointer)
    else match Locate(t, key, code, o.value)
      case None => Ok((t, false))
      case Some(j) =>
        var id := Chain(t, key, code, o.value)[j];
        Ok((Decrement(Unlink(t, key, code, id), key, code, 1), true))
  }

  // ---------------------------------------------------------------------
  // A well-formed table and the abstract set it stands for

  /**
   * The chains agree with the linked order: every node is linked once, the
   * linked elements are pairwise unequal, a chain holds only linked nodes
   * that hash to its bucket, and every linked node is in its bucket's chain.
   */
  predicate Linked<T, K(==)>(t: Table<T>, key: T -> K, code: K -> int) {
    && Sane(t)
    && HashSets.Distinct(t.order, Ident)
    && HashSets.Distinct(Values(t, t.order), key)
    && (forall b, j :: 0 <= b < |t.buckets| && 0 <= j < |t.buckets[b]| ==>
          t.buckets[b][j] in t.order && Home(t, key, code, t.nodes[t.buckets[b][j]].data) == b)
    && (forall j :: 0 <= j < |t.order| ==> t.order[j] in Chain(t, key, code, t.nodes[t.order[j]].data))
  }

  /** The class invariant: linked chains, an exact counter, an array at most half full. */
  predicate Coherent<T, K(==)>(t: Table<T>, key: T -> K, code: K -> int) {
    && Linked(t, key, code)
    && t.size == |t.order|
    && 2 * t.size <= |t.buckets|
  }

  /** The abstract set a table stands for: its linked elements, its counter, its array length. */
  function Abs<T>(t: Table<T>): (r: HashSets.HashSet<T>)
    requires Sane(t)
  {
    HashSets.HashSet(Values(t, t.order), t.size, |t.buckets|)
  }

  /** Elements of a well-formed table are found by walking their own bucket's chain. */
  lemma LocateAgrees<T, K>(t: Table<T>, key: T -> K, code: K -> int, x: T)
    requires Linked(t, key, code)
    ensures Locate(t, key, code, x).Some? <==> HashSets.Contains(Abs(t), key, x)
  {
    var c := Chain(t, key, code, x);
    if HashSets.Contains(Abs(t), key, x) {
      var k :| 0 <= k < |Abs(t).elems| && key(Abs(t).elems[k]) == key(x);
      var id := t.order[k];
      assert id in Chain(t, key, code, t.nodes[id].data);
      assert Home(t, key, code, t.nodes[id].data) == Home(t, key, code, x);
      var j :| 0 <= j < |c| && c[j] == id;
      assert key(t.nodes[c[j]].data) == key(x);
    }
    if Locate(t, key, code, x).Some? {
      var id := c[Locate(t, key, code, x).value];
      assert id in t.order;
      var k :| 0 <= k < |t.order| && t.order[k] == id;
      assert Abs(t).elems[k] == t.nodes[id].data;
    }
  }

  /**
   * On a well-formed table, `contains` and `get` walking the chains answer
   * exactly as the abstract set does: the chains hide nothing.
   */
  lemma LookupAgrees<T, K>(t: Table<T>, key: T -> K, code: K -> int, x: T)
    requires Linked(t, key, code)
    ensures Contains(t, key, code, Some(x)) == Ok(HashSets.Contains(Abs(t), key, x))
    ensures Get(t, key, code, Some(x)) == Ok(HashSets.Get(Abs(t), key, x))
  {
    LocateAgrees(t, key, code, x);
    var c := Chain(t, key, code, x);
    match Locate(t, key, code, x)
    case None =>
    case Some(j) =>
      var id := c[j];
      assert id in t.order;
      var k :| 0 <= k < |t.order| && t.order[k] == id;
      var i := HashSets.Find(Abs(t).elems, key, key(x)).value;
      assert key(Abs(t).elems[k]) == key(x) == key(Abs(t).elems[i]);
      assert i == k;
  }

  /** Nodes added behind the existing ones leave the elements of existing ids alone. */
  lemma ValuesGrow<T>(t: Table<T>, u: Table<T>, ids: seq<nat>)
    requires Ids(t, ids)
    requires |t.nodes| <= |u.nodes| && u.nodes[..|t.nodes|] == t.nodes
    ensures Ids(u, ids) && Values(u, ids) == Values(t, ids)
  {
    forall j | 0 <= j < |ids| ensures u.nodes[ids[j]] == t.nodes[ids[j]] {
      assert u.nodes[..|t.nodes|][ids[j]] == u.nodes[ids[j]];
    }
  }

  /** Linking a node for an element with a fresh key puts it at the chosen end of the order, keeping both distinct. */
  lemma LinkOrders<T, K>(t: Table<T>, key: T -> K, code: K -> int, x: T, front: bool)
    requires Linked(t, key, code)
    requires forall j :: 0 <= j < |t.order| ==> key(t.nodes[t.order[j]].data) != key(x)
    ensures var r := Link(t, key, code, x, front);
      && HashSets.Distinct(r.order, Ident)
      && Values(r, r.order) == (if front then [x] + Values(t, t.order) else Values(t, t.order) + [x])
      && HashSets.Distinct(Values(r, r.order), key)
  {
    var r := Link(t, key, code, x, front);
    var id: nat := |t.nodes|;
    ValuesGrow(t, r, t.order);
    var old_ := Values(t, t.order);
    var new_ := if front then [x] + old_ else old_ + [x];
    assert Values(r, r.order) == new_ by {
      forall j | 0 <= j < |r.order| ensures Values(r, r.order)[j] == new_[j] {
        if front && j > 0 {
          assert r.order[j] == t.order[j - 1];
        } else if !front && j < |t.order| {
          assert r.order[j] == t.order[j];
        }
      }
    }
    assert id !in t.order;
    if front {
      HashSets.DistinctCons(id, t.order, Ident);
      HashSets.DistinctCons(x, old_, key);
    } else {
      HashSets.DistinctAppend(t.order, Ident, id);
      HashSets.DistinctAppend(old_, key, x);
    }
  }

  /** After linking, every chain still holds only linked nodes of its own bucket. */
  lemma LinkFiles<T, K>(t: Table<T>, key: T -> K, code: K -> int, x: T, front: bool)
    requires Linked(t, key, code)
    ensures var r := Link(t, key, code, x, front);
      forall c, j :: 0 <= c < |r.buckets| && 0 <= j < |r.buckets[c]| ==>
        r.buckets[c][j] in r.order && Home(r, key, code, r.nodes[r.buckets[c][j]].data) == c
  {
    var r := Link(t, key, code, x, front);
    var id := |t.nodes|;
    var b := Home(t, key, code, x);
    forall c, j | 0 <= c < |r.buckets| && 0 <= j < |r.buckets[c]|
      ensures r.buckets[c][j] in r.order && Home(r, key, code, r.nodes[r.buckets[c][j]].data) == c
    {
      if c == b && j == 0 {
        assert r.buckets[c][j] == id;
      } else {
        var i := r.buckets[c][j];
        assert i in t.order && Home(t, key, code, t.nodes[i].data) == c by {
          if c == b {
            assert i == t.buckets[c][j - 1];
          } else {
            assert i == t.buckets[c][j];
          }
        }
        assert r.nodes[i] == t.nodes[i];
      }
    }
  }

  /** After linking, every linked node is still in its bucket's chain. */
  lemma LinkReaches<T, K>(t: Table<T>, key: T -> K, code: K -> int, x: T, front: bool)
    requires Linked(t, key, code)
    ensures var r := Link(t, key, code, x, front);
      forall j :: 0 <= j < |r.order| ==> r.order[j] in Chain(r, key, code, r.nodes[r.order[j]].data)
  {
    var r := Link(t, key, code, x, front);
    var id := |t.nodes|;
    forall j | 0 <= j < |r.order|
      ensures r.order[j] in Chain(r, key, code, r.nodes[r.order[j]].data)
    {
      var i := r.order[j];
      if i != id {
        assert i in t.order;
        var k :| 0 <= k < |t.order| && t.order[k] == i;
        assert r.nodes[i] == t.nodes[i];
        assert i in Chain(t, key, code, t.nodes[i].data);
      }
    }
  }

  /**
   * Linking a node for an element with a fresh key keeps the chains
   * well-formed and puts the element at the chosen end of the order.
   */
  lemma LinkKeeps<T, K>(t: Table<T>, key: T -> K, code: K -> int, x: T, front: bool)
    requires Linked(t, key, code)
    requires forall j :: 0 <= j < |t.order| ==> key(t.nodes[t.order[j]].data) != key(x)
    ensures Linked(Link(t, key, code, x, front), key, code)
    ensures var r := Link(t, key, code, x, front);
      Values(r, r.order) == if front then [x] + Values(t, t.order) else Values(t, t.order) + [x]
  {
    LinkOrders(t, key, code, x, front);
    LinkFiles(t, key, code, x, front);
    LinkReaches(t, key, code, x, front);
  }

  /** Re-adding an element with a fresh key appends it and keeps the counter exact. */
  lemma PutKeeps<T, K>(acc: Table<T>, key: T -> K, code: K -> int, x: T)
    requires Linked(acc, key, code) && acc.size == |acc.order|
    requires forall j :: 0 <= j < |acc.order| ==> key(acc.nodes[acc.order[j]].data) != key(x)
    ensures var r := Put(acc, key, code, x);
      Linked(r, key, code) && r.size == |r.order| && Values(r, r.order) == Values(acc, acc.order) + [x]
  {
    LocateAgrees(acc, key, code, x);
    LinkKeeps(acc, key, code, x, false);
  }

  /** Re-adding distinct fresh elements appends them all, in order, and keeps the counter exact. */
  lemma {:induction false} RefillKeeps<T, K>(xs: seq<T>, key: T -> K, code: K -> int, acc: Table<T>)
    requires Linked(acc, key, code) && acc.size == |acc.order|
    requires HashSets.Distinct(Values(acc, acc.order) + xs, key)
    ensures var r := Refill(xs, key, code, acc);
      Linked(r, key, code) && r.size == |r.order| && Values(r, r.order) == Values(acc, acc.order) + xs
    decreases |xs|
  {
    var vs := Values(acc, acc.order);
    if |xs| == 0 {
      assert vs + xs == vs;
    } else {
      var all := vs + xs;
      forall j | 0 <= j < |acc.order| ensures key(acc.nodes[acc.order[j]].data) != key(xs[0]) {
        assert all[j] == vs[j] && all[|vs|] == xs[0];
      }
      PutKeeps(acc, key, code, xs[0]);
      var next := Put(acc, key, code, xs[0]);
      assert Values(next, next.order) + xs[1..] == all;
      RefillKeeps(xs[1..], key, code, next);
    }
  }

  /** `resize` keeps the linked elements and their order, and makes the counter exact. */
  lemma ResizeKeeps<T, K>(t: Table<T>, key: T -> K, code: K -> int, n: HashSets.Capacity)
    requires Sane(t) && HashSets.Distinct(Values(t, t.order), key)
    ensures var r := Resize(t, key, code, n);
      Linked(r, key, code) && r.size == |r.order| && Values(r, r.order) == Values(t, t.order)
  {
    var e: Table<T> := Empty(n);
    assert Values(e, e.order) + Values(t, t.order) == Values(t, t.order);
    RefillKeeps(Values(t, t.order), key, code, e);
  }

  /** A freshly constructed set. */
  function New<T>(): Table<T> {
    Empty(HashSets.InitialCapacity)
  }

  /**
   * `addLast` moves a well-formed table exactly as it moves the abstract
   * set: same elements in the same order, same counter.
   */
  lemma AddLastKeeps<T, K>(t: Table<T>, key: T -> K, code: K -> int, item: Option<T>)
    requires Coherent(t, key, code)
    ensures var r := AddLast(t, key, code, item);
      && Coherent(r, key, code)
      && Abs(r).elems == HashSets.AddLast(Abs(t), key, item).elems
      && r.size == HashSets.AddLast(Abs(t), key, item).size
  {
    HashSets.AddLastKeeps(Abs(t), key, item);
    if item.Some? {
      LocateAgrees(t, key, code, item.value);
      if Locate(t, key, code, item.value).None? {
        LinkKeeps(t, key, code, item.value, false);
        var u := Link(t, key, code, item.value, false);
        if u.size * 2 > |u.buckets| {
          ResizeKeeps(u, key, code, 2 * |u.buckets|);
        }
      }
    }
  }

  /** `addFirst` moves a well-formed table exactly as it moves the abstract set. */
  lemma AddFirstKeeps<T, K>(t: Table<T>, key: T -> K, code: K -> int, item: Option<T>)
    requires Coherent(t, key, code)
    ensures var r := AddFirst(t, key, code, item);
      && Coherent(r, key, code)
      && Abs(r).elems == HashSets.AddFirst(Abs(t), key, item).elems
      && r.size == HashSets.AddFirst(Abs(t), key, item).size
  {
    if item.Some? {
      var x := item.value;
      LocateAgrees(t, key, code, x);
      if Locate(t, key, code, x).None? {
        LinkFrontKeeps(t, key, code, x);
        var a := HashSets.AddFirst(Abs(t), key, item);
        assert a.elems == [x] + Abs(t).elems && a.size == t.size + 1;
      } else {
        assert AddFirst(t, key, code, item) == t;
        assert HashSets.AddFirst(Abs(t), key, item) == Abs(t);
      }
    }
  }

  /** Linking an absent element at the front, growing when over half full, keeps the table coherent. */
  lemma LinkFrontKeeps<T, K>(t: Table<T>, key: T -> K, code: K -> int, x: T)
    requires Coherent(t, key, code)
    requires Locate(t, key, code, x).None? && !HashSets.Contains(Abs(t), key, x)
    ensures var r := AddFirst(t, key, code, Some(x));
      && Coherent(r, key, code)
      && Values(r, r.order) == [x] + Values(t, t.order)
      && r.size == t.size + 1
  {
    LinkKeeps(t, key, code, x, true);
    var u := Link(t, key, code, x, true);
    GrowKeeps(u, key, code);
    assert AddFirst(t, key, code, Some(x)) == Grow(u, key, code);
  }

  /** The growth check keeps a linked table with an exact counter, and leaves it at most half full. */
  lemma GrowKeeps<T, K>(u: Table<T>, key: T -> K, code: K -> int)
    requires Linked(u, key, code) && u.size == |u.order| && u.size <= |u.buckets|
    ensures var r := Grow(u, key, code);
      Coherent(r, key, code) && Values(r, r.order) == Values(u, u.order)
  {
    if u.size * 2 > |u.buckets| {
      ResizeKeeps(u, key, code, 2 * |u.buckets|);
    }
  }

  /** The elements of a sequence of ids with one position cut out. */
  lemma ValuesSplice<T>(t: Table<T>, ids: seq<nat>, k: nat)
    requires Ids(t, ids) && k < |ids|
    ensures Ids(t, ids[..k] + ids[k + 1..])
    ensures Values(t, ids[..k] + ids[k + 1..]) == Values(t, ids)[..k] + Values(t, ids)[k + 1..]
  {
    var cut := ids[..k] + ids[k + 1..];
    forall j | 0 <= j < |cut| ensures cut[j] < |t.nodes| {
      if j >= k {
        assert cut[j] == ids[j + 1];
      }
    }
  }

  /** After a spliced unlink, every chain still holds only linked nodes of its own bucket, and reaches all of them. */
  lemma UnlinkFiles<T, K>(t: Table<T>, key: T -> K, code: K -> int, id: nat)
    requires Linked(t, key, code) && id < |t.nodes|
    ensures var r := Unlink(t, key, code, id);
      && (forall c, j :: 0 <= c < |r.buckets| && 0 <= j < |r.buckets[c]| ==>
            r.buckets[c][j] in r.order && Home(r, key, code, r.nodes[r.buckets[c][j]].data) == c)
      && (forall j :: 0 <= j < |r.order| ==> r.order[j] in Chain(r, key, code, r.nodes[r.order[j]].data))
  {
    var r := Unlink(t, key, code, id);
    var b := Home(t, key, code, t.nodes[id].data);
    HashSets.DropSub(t.buckets[b], Ident, {id});
    forall c, j | 0 <= c < |r.buckets| && 0 <= j < |r.buckets[c]|
      ensures r.buckets[c][j] in r.order && Home(r, key, code, r.nodes[r.buckets[c][j]].data) == c
    {
      var i := r.buckets[c][j];
      assert i in r.buckets[c];
      assert i in t.buckets[c] && i != id;
      var m :| 0 <= m < |t.buckets[c]| && t.buckets[c][m] == i;
    }
    forall j | 0 <= j < |r.order|
      ensures r.order[j] in Chain(r, key, code, r.nodes[r.order[j]].data)
    {
      var i := r.order[j];
      assert i in r.order;
      var k :| 0 <= k < |t.order| && t.order[k] == i;
      assert i in Chain(t, key, code, t.nodes[i].data);
    }
  }

  /** A spliced unlink of the node at position `k` of the order keeps the chains well-formed and cuts exactly that element. */
  lemma UnlinkKeeps<T, K>(t: Table<T>, key: T -> K, code: K -> int, k: nat)
    requires Linked(t, key, code) && k < |t.order|
    ensures var r := Unlink(t, key, code, t.order[k]);
      && Linked(r, key, code)
      && Values(r, r.order) == Values(t, t.order)[..k] + Values(t, t.order)[k + 1..]
  {
    var id := t.order[k];
    var r := Unlink(t, key, code, id);
    HashSets.UnlinkIsDrop(t.order, Ident, k);
    assert r.order == t.order[..k] + t.order[k + 1..];
    ValuesSplice(t, t.order, k);
    var vs := Values(t, t.order);
    HashSets.UnlinkIsDrop(vs, key, k);
    HashSets.DropDistinct(vs, key, {key(vs[k])});
    HashSets.DropDistinct(t.order, Ident, {Ident(id)});
    UnlinkFiles(t, key, code, id);
  }

  /** `decrementSize(1)` right after an unlink leaves a table with an exact counter and the same elements. */
  lemma DecrementKeeps<T, K>(t: Table<T>, key: T -> K, code: K -> int)
    requires Linked(t, key, code) && t.size - 1 == |t.order| && 2 * |t.order| <= |t.buckets|
    ensures var r := Decrement(t, key, code, 1);
      Coherent(r, key, code) && Values(r, r.order) == Values(t, t.order)
  {
    var u := t.(size := t.size - 1);
    if u.size * 4 < |u.buckets| && |u.buckets| / 2 >= HashSets.InitialCapacity {
      ResizeKeeps(u, key, code, |u.buckets| / 2);
    }
  }

  /**
   * The corrected `remove(o)` moves a well-formed table exactly as the
   * abstract set's `remove` moves it: same answer, same elements left in
   * the same order, same counter.
   */
  lemma RemoveKeeps<T, K>(t: Table<T>, key: T -> K, code: K -> int, o: T)
    requires Coherent(t, key, code)
    ensures var r := Remove(t, key, code, Some(o));
      var a := HashSets.Remove(Abs(t), key, o);
      && r.Ok?
      && Coherent(r.value.0, key, code)
      && r.value.1 == a.1
      && Abs(r.value.0).elems == a.0.elems
      && r.value.0.size == a.0.size
  {
    LocateAgrees(t, key, code, o);
    var vs := Values(t, t.order);
    match Locate(t, key, code, o)
    case None =>
      HashSets.DropEmpty(vs, key, {key(o)});
    case Some(j) =>
      var id := Chain(t, key, code, o)[j];
      assert id in t.order;
      var k :| 0 <= k < |t.order| && t.order[k] == id;
      UnlinkKeeps(t, key, code, k);
      HashSets.UnlinkIsDrop(vs, key, k);
      assert key(vs[k]) == key(o);
      DecrementKeeps(Unlink(t, key, code, id), key, code);
  }

  /** A fresh set is well-formed and stands for the empty abstract set. */
  lemma NewCoherent<T, K>(key: T -> K, code: K -> int)
    ensures Coherent(New<T>(), key, code)
    ensures Abs(New<T>()) == HashSets.New<T>()
  {
  }

  // ---------------------------------------------------------------------
  // `removeNode` as written

  /** Every node's `next` chain is the rest of the chain it sits in. */
  predicate Threaded<T>(t: Table<T>)
    requires Sane(t)
  {
    forall b, j :: 0 <= b < |t.buckets| && 0 <= j < |t.buckets[b]| ==>
      t.nodes[t.buckets[b][j]].behind == t.buckets[b][j + 1..]
  }

  /** Linking a node keeps every chain threaded through the `next` pointers. */
  lemma LinkThreads<T, K>(t: Table<T>, key: T -> K, code: K -> int, x: T, front: bool)
    requires Sane(t) && Threaded(t)
    ensures Threaded(Link(t, key, code, x, front))
  {
    var r := Link(t, key, code, x, front);
    var b := Home(t, key, code, x);
    forall c, j | 0 <= c < |r.buckets| && 0 <= j < |r.buckets[c]|
      ensures r.nodes[r.buckets[c][j]].behind == r.buckets[c][j + 1..]
    {
      if c == b && j > 0 {
        assert r.buckets[c][j] == t.buckets[c][j - 1];
        assert r.buckets[c][j + 1..] == t.buckets[c][j..];
      } else if c != b {
        assert r.buckets[c] == t.buckets[c];
      }
    }
  }

  /** A node heading its chain, and found nowhere behind, is unlinked the same way as written and spliced. */
  lemma UnlinkAtHead<T, K>(t: Table<T>, key: T -> K, code: K -> int, id: nat)
    requires Sane(t) && Threaded(t) && id < |t.nodes|
    requires var c := Chain(t, key, code, t.nodes[id].data); |c| > 0 && c[0] == id && id !in c[1..]
    ensures UnlinkAsWritten(t, key, code, id) == Unlink(t, key, code, id)
  {
    var c := Chain(t, key, code, t.nodes[id].data);
    assert t.nodes[id].behind == c[1..];
    forall j | 0 <= j < |c[1..]| ensures Ident(c[1..][j]) !in {id} {
      assert c[1..][j] in c[1..];
    }
    HashSets.DropEmpty(c[1..], Ident, {id});
    assert c == [c[0]] + c[1..];
    assert HashSets.Drop(c, Ident, {id}) == c[1..];
  }

  /**
   * As written, `remove(o)` resets `o`'s bucket to the chain behind the
   * node it found: every node in front of it leaves the bucket, though
   * those nodes stay in the linked order. When the node found heads its
   * chain, this is exactly the spliced unlink.
   */
  lemma UnlinkAsWrittenCutsFront<T, K>(t: Table<T>, key: T -> K, code: K -> int, o: T)
    requires Sane(t) && Threaded(t)
    requires Locate(t, key, code, o).Some?
    ensures var j := Locate(t, key, code, o).value;
      var c := Chain(t, key, code, o);
      var r := UnlinkAsWritten(t, key, code, c[j]);
      && r.buckets[Home(t, key, code, o)] == c[j + 1..]
      && (j == 0 && c[0] !in c[1..] ==> r == Unlink(t, key, code, c[0]))
  {
    var j := Locate(t, key, code, o).value;
    var c := Chain(t, key, code, o);
    var b := Home(t, key, code, o);
    var id := c[j];
    assert t.nodes[id].behind == c[j + 1..];
    assert Home(t, key, code, t.nodes[id].data) == b;
    if j == 0 && c[0] !in c[1..] {
      UnlinkAtHead(t, key, code, id);
    }
  }

  /**
   * What a successful `remove(o)` as written does to a threaded table: the
   * node found leaves the linked order and nothing else does, the bucket of
   * `o` is cut to the chain behind that node, the other buckets and the
   * nodes stay as they were, and the counter drops by one. When the drop
   * takes the array under a quarter full, it is halved instead.
   */
  lemma RemoveAsWrittenEffect<T, K>(t: Table<T>, key: T -> K, code: K -> int, o: T)
    requires Sane(t) && Threaded(t)
    requires Locate(t, key, code, o).Some?
    requires forall i :: i in Chain(t, key, code, o) ==> i in t.order
    ensures var j := Locate(t, key, code, o).value;
      var c := Chain(t, key, code, o);
      var r := RemoveAsWritten(t, key, code, Some(o));
      var shrink := (t.size - 1) * 4 < |t.buckets| && |t.buckets| / 2 >= HashSets.InitialCapacity;
      && r == Ok((r.value.0, true))
      && (shrink ==> |r.value.0.buckets| == |t.buckets| / 2)
      && (!shrink ==>
            && r.value.0.nodes == t.nodes
            && r.value.0.size == t.size - 1
            && (forall i :: i in r.value.0.order <==> i in t.order && i != c[j])
            && |r.value.0.buckets| == |t.buckets|
            && r.value.0.buckets[Home(t, key, code, o)] == c[j + 1..]
            && (forall b :: 0 <= b < |t.buckets| && b != Home(t, key, code, o) ==> r.value.0.buckets[b] == t.buckets[b])
            && (forall i :: 0 <= i < j ==> c[i] in r.value.0.order && c[i] !in r.value.0.buckets[Home(t, key, code, o)]))
  {
    var j := Locate(t, key, code, o).value;
    var c := Chain(t, key, code, o);
    UnlinkAsWrittenCutsFront(t, key, code, o);
    UnlinkAsWrittenStrands(t, key, code, o);
    assert Home(t, key, code, t.nodes[c[j]].data) == Home(t, key, code, o);
  }

  /**
   * `removeNode` as written strands the nodes in front of the one it
   * removes: they stay in the linked order but are no longer in the bucket.
   */
  lemma UnlinkAsWrittenStrands<T, K>(t: Table<T>, key: T -> K, code: K -> int, o: T)
    requires Sane(t) && Threaded(t)
    requires Locate(t, key, code, o).Some?
    requires forall i :: i in Chain(t, key, code, o) ==> i in t.order
    ensures var j := Locate(t, key, code, o).value;
      var c := Chain(t, key, code, o);
      var r := UnlinkAsWritten(t, key, code, c[j]);
      forall i :: 0 <= i < j ==> c[i] in r.order && c[i] !in r.buckets[Home(t, key, code, o)]
  {
    var j := Locate(t, key, code, o).value;
    var c := Chain(t, key, code, o);
    var b := Home(t, key, code, o);
    UnlinkAsWrittenCutsFront(t, key, code, o);
    forall i | 0 <= i < j ensures c[i] in t.order && c[i] != c[j] && c[i] !in c[j + 1..] {
      ThreadedApart(t, b, i, j);
      forall m | j < m < |c| ensures c[i] != c[m] {
        ThreadedApart(t, b, i, m);
      }
    }
  }

  /** In a threaded table no node stands twice in one chain: the chains behind two positions differ in length. */
  lemma ThreadedApart<T>(t: Table<T>, b: nat, i: nat, m: nat)
    requires Sane(t) && Threaded(t)
    requires b < |t.buckets| && i < m < |t.buckets[b]|
    ensures t.buckets[b][i] != t.buckets[b][m]
  {
    var c := t.buckets[b];
    assert |t.nodes[c[i]].behind| == |c| - i - 1;
    assert |t.nodes[c[m]].behind| == |c| - m - 1;
  }

  /** Java `Integer`: equality is equality of the value, and `hashCode` is the value. */
  function IntKey(x: int): int {
    x
  }

  function IntCode(k: int): int {
    k
  }

  /** The set after `add(0)` then `add(16)`: both nodes in bucket 0, 16 in front. */
  function Crowded(): Table<int> {
    Table([Node(0, []), Node(16, [0])], New<int>().buckets[0 := [1, 0]], [0, 1], 2)
  }

  /** `Crowded` after `remove(0)` as written: bucket 0 emptied, 16 still linked. */
  function Cut(): Table<int> {
    Table([Node(0, []), Node(16, [0])], New<int>().buckets[0 := []], [1], 1)
  }

  /** The set after `add(0)`: one node in bucket 0. */
  function Single(): Table<int> {
    Table([Node(0, [])], New<int>().buckets[0 := [0]], [0], 1)
  }

  lemma BuildSingle()
    ensures AddLast(New(), IntKey, IntCode, Some(0)) == Single()
  {
    var t0: Table<int> := New();
    assert Home(t0, IntKey, IntCode, 0) == 0 && t0.buckets[0] == [];
    assert Locate(t0, IntKey, IntCode, 0).None?;
    var u := Link(t0, IntKey, IntCode, 0, false);
    assert [0] + t0.buckets[0] == [0];
    assert u == Single();
    assert Grow(u, IntKey, IntCode) == u;
  }

  lemma BuildCrowded()
    ensures AddLast(AddLast(New(), IntKey, IntCode, Some(0)), IntKey, IntCode, Some(16)) == Crowded()
  {
    BuildSingle();
    var t1 := Single();
    assert Home(t1, IntKey, IntCode, 16) == 0;
    assert Values(t1, [0]) == [0];
    assert Locate(t1, IntKey, IntCode, 16).None?;
    LinkSixteen();
    assert Grow(Crowded(), IntKey, IntCode) == Crowded();
  }

  /** Linking 16 into `Single` pushes it on the chain of bucket 0. */
  lemma LinkSixteen()
    ensures Link(Single(), IntKey, IntCode, 16, false) == Crowded()
  {
    var t1 := Single();
    assert Home(t1, IntKey, IntCode, 16) == 0;
    assert [1] + t1.buckets[0] == [1, 0];
  }

  /** In `Crowded`, the walk for 0 passes 16 and finds 0 second in bucket 0. */
  lemma FindZeroInCrowded()
    ensures Home(Crowded(), IntKey, IntCode, 0) == 0
    ensures Chain(Crowded(), IntKey, IntCode, 0) == [1, 0]
    ensures Locate(Crowded(), IntKey, IntCode, 0) == Some(1)
  {
    var t := Crowded();
    var vs: seq<int> := [16, 0];
    assert Values(t, [1, 0]) == vs;
    assert vs[1..] == [0];
    assert HashSets.Find(vs[1..], IntKey, 0) == Some(0);
  }

  lemma CutCrowded()
    ensures RemoveAsWritten(Crowded(), IntKey, IntCode, Some(0)) == Ok((Cut(), true))
  {
    var t := Crowded();
    FindZeroInCrowded();
    var order: seq<nat> := [0, 1];
    assert HashSets.Drop(order, Ident, {0}) == [1] by {
      assert order[1..] == [1];
      assert order[1..][1..] == [];
    }
    var cut := Table(t.nodes, New<int>().buckets[0 := []], [1], 2);
    assert UnlinkAsWritten(t, IntKey, IntCode, 0) == cut;
    assert Decrement(cut, IntKey, IntCode, 1) == Cut();
  }

  lemma CutHidesNeighbour()
    ensures Values(Cut(), Cut().order) == [16]
    ensures Contains(Cut(), IntKey, IntCode, Some(16)) == Ok(false)
    ensures Get(Cut(), IntKey, IntCode, Some(16)) == Ok(None)
    ensures RemoveAsWritten(Cut(), IntKey, IntCode, Some(16)) == Ok((Cut(), false))
    ensures var u := AddLast(Cut(), IntKey, IntCode, Some(16));
      Values(u, u.order) == [16, 16] && u.size == 2
  {
    var s := Cut();
    assert Home(s, IntKey, IntCode, 16) == 0;
    assert Chain(s, IntKey, IntCode, 16) == [];
    var u := AddLast(s, IntKey, IntCode, Some(16));
    assert u == Link(s, IntKey, IntCode, 16, false);
    assert u.order == [1, 2];
  }

  lemma SpliceKeepsNeighbour()
    ensures var r := Remove(Crowded(), IntKey, IntCode, Some(0));
      r.Ok? && r.value.1 && Contains(r.value.0, IntKey, IntCode, Some(16)) == Ok(true)
  {
    var t := Crowded();
    FindZeroInCrowded();
    var chain: seq<nat> := [1, 0];
    assert HashSets.Drop(chain, Ident, {0}) == [1] by {
      assert chain[1..] == [0];
      assert chain[1..][1..] == [];
    }
    var fixed := Unlink(t, IntKey, IntCode, 0);
    assert fixed.buckets[0] == [1];
    var s := Decrement(fixed, IntKey, IntCode, 1);
    assert s.buckets == fixed.buckets;
    assert Home(s, IntKey, IntCode, 16) == 0;
    assert Values(s, [1]) == [16];
  }

  /**
   * With `Integer` elements 0 and 16, which share bucket 0 of a fresh set:
   * add 0, add 16, remove 0. As written, 16 stays in the iteration order
   * but `contains(16)` is false, `get(16)` is null, `remove(16)` finds
   * nothing, and `add(16)` links a second 16, so the set iterates 16 twice
   * with size 2. The corrected removal still finds 16.
   */
  lemma RemoveAsWrittenLosesNeighbour()
    ensures var t := AddLast(AddLast(New(), IntKey, IntCode, Some(0)), IntKey, IntCode, Some(16));
      var r := RemoveAsWritten(t, IntKey, IntCode, Some(0));
      && r.Ok? && r.value.1
      && Values(r.value.0, r.value.0.order) == [16]
      && Contains(r.value.0, IntKey, IntCode, Some(16)) == Ok(false)
      && Get(r.value.0, IntKey, IntCode, Some(16)) == Ok(None)
      && RemoveAsWritten(r.value.0, IntKey, IntCode, Some(16)) == Ok((r.value.0, false))
      && var u := AddLast(r.value.0, IntKey, IntCode, Some(16));
         Values(u, u.order) == [16, 16] && u.size == 2
    ensures var t := AddLast(AddLast(New(), IntKey, IntCode, Some(0)), IntKey, IntCode, Some(16));
      var r := Remove(t, IntKey, IntCode, Some(0));
      r.Ok? && r.value.1 && Contains(r.value.0, IntKey, IntCode, Some(16)) == Ok(true)
  {
    BuildCrowded();
    CutCrowded();
    CutHidesNeighbour();
    SpliceKeepsNeighbour();
  }
}
