/**
 * The insertion-ordered hash set (HashSet.java).
 *
 * The Java class threads a doubly linked insertion order through its hash
 * buckets. Here the linked order is the sequence `elems`; the bucket array is
 * represented only by its length `capacity`, because that length decides when
 * the set resizes, and a resize is what repairs a wrong `size` counter.
 * Element equality (Java `equals`) is equality of a caller-supplied key.
 */
module HashSets {
  import opened Wrappers

  /** Bucket-array length of a fresh set; halving never goes below it. */
  const InitialCapacity: int := 16

  type Capacity = c: int | c >= 16 witness 16

  /**
   * `elems` is the iteration order (head first), `size` the counter field,
   * `capacity` the length of the bucket array.
   */
  datatype HashSet<T> = HashSet(elems: seq<T>, size: int, capacity: Capacity)

  function Empty<T>(capacity: Capacity): HashSet<T> {
    HashSet([], 0, capacity)
  }

  /** A freshly constructed set. */
  function New<T>(): HashSet<T> {
    Empty(InitialCapacity)
  }

  /** No two elements are equal. */
  predicate Distinct<T, K(==)>(xs: seq<T>, key: T -> K) {
    forall i, j :: 0 <= i < j < |xs| ==> key(xs[i]) != key(xs[j])
  }

  /** The class invariant: no duplicates, the counter is exact, load factor at most 1/2. */
  predicate Valid<T, K(==)>(s: HashSet<T>, key: T -> K) {
    && Distinct(s.elems, key)
    && s.size == |s.elems|
    && 2 * s.size <= s.capacity
  }

  /** The keys of a sequence of elements. */
  function KeysOf<T, K>(xs: seq<T>, key: T -> K): set<K> {
    set i | 0 <= i < |xs| :: key(xs[i])
  }

  /** The elements of `xs` whose key is NOT in `ks`, in their original order. */
  function Drop<T, K>(xs: seq<T>, key: T -> K, ks: set<K>): seq<T> {
    if |xs| == 0 then []
    else (if key(xs[0]) in ks then [] else [xs[0]]) + Drop(xs[1..], key, ks)
  }

  /** The elements of `xs` whose key IS in `ks`, in their original order. */
  function Keep<T, K>(xs: seq<T>, key: T -> K, ks: set<K>): seq<T> {
    if |xs| == 0 then []
    else (if key(xs[0]) in ks then [xs[0]] else []) + Keep(xs[1..], key, ks)
  }

  // ---------------------------------------------------------------------
  // Lookup

  /** Position of the element with key `k`, scanning from the head. */
  function Find<T, K(==)>(xs: seq<T>, key: T -> K, k: K): (r: Option<nat>)
    ensures r.Some? ==> r.value < |xs| && key(xs[r.value]) == k
    ensures r.Some? ==> forall j :: 0 <= j < r.value ==> key(xs[j]) != k
    ensures r.None? ==> forall j :: 0 <= j < |xs| ==> key(xs[j]) != k
  {
    if |xs| == 0 then None
    else if key(xs[0]) == k then Some(0)
    else match Find(xs[1..], key, k)
      case None => None
      case Some(i) => Some(i + 1)
  }

  /** Java `contains`: some stored element equals `o`. */
  function Contains<T, K(==)>(s: HashSet<T>, key: T -> K, o: T): (r: bool)
    ensures r <==> exists i :: 0 <= i < |s.elems| && key(s.elems[i]) == key(o)
    ensures r <==> key(o) in KeysOf(s.elems, key)
  {
    Find(s.elems, key, key(o)).Some?
  }

  /** Java `get`: the stored element equal to `item` (possibly a different object), or null. */
  function Get<T, K(==)>(s: HashSet<T>, key: T -> K, item: T): (r: Option<T>)
    ensures r.Some? <==> Contains(s, key, item)
    ensures r.Some? ==> r.value in s.elems && key(r.value) == key(item)
  {
    match Find(s.elems, key, key(item))
    case None => None
    case Some(i) => Some(s.elems[i])
  }

  // ---------------------------------------------------------------------
  // Insertion and resizing, as written: `addLast` may call `resize`, which
  // re-adds every element through `add`, which may itself resize again.

  /** Rank used to show that the add/resize recursion terminates. */
  function Gap(n: int, c: int): nat {
    if 2 * n > c then 2 * n - c else 0
  }

  /** 0 when the counter matches the element count, 1 otherwise. */
  function Bad<T>(s: HashSet<T>): nat {
    if s.size == |s.elems| then 0 else 1
  }

  /** Java `addLast`: append `item` unless it is null or already present; grow when over half full. */
  function AddLast<T, K(==)>(s: HashSet<T>, key: T -> K, item: Option<T>): (r: HashSet<T>)
    ensures |r.elems| <= |s.elems| + 1
    ensures r.capacity >= s.capacity
    ensures Bad(r) <= Bad(s)
    decreases |s.elems| + 1, Bad(s), Gap(|s.elems| + 1, s.capacity), 0
  {
    if item.None? || Get(s, key, item.value).Some? then s
    else
      var grown := HashSet(s.elems + [item.value], s.size + 1, s.capacity);
      if grown.size * 2 > grown.capacity then Resize(grown, key, grown.capacity * 2)
      else grown
  }

  /** Java `resize`: a new bucket array of length `n`, refilled by re-adding in iteration order. */
  function Resize<T, K(==)>(s: HashSet<T>, key: T -> K, n: Capacity): (r: HashSet<T>)
    ensures |r.elems| <= |s.elems|
    ensures r.capacity >= n
    ensures Bad(r) == 0
    decreases |s.elems|, 0, Gap(|s.elems|, n), 2
  {
    Rebuild(s.elems, key, Empty(n))
  }

  /** Add each of `xs`, in order, to `acc` (the loop of `resize` and of `clone`). */
  function Rebuild<T, K(==)>(xs: seq<T>, key: T -> K, acc: HashSet<T>): (r: HashSet<T>)
    ensures |r.elems| <= |acc.elems| + |xs|
    ensures r.capacity >= acc.capacity
    ensures Bad(r) <= Bad(acc)
    decreases |acc.elems| + |xs|, Bad(acc), Gap(|acc.elems| + |xs|, acc.capacity), 1, |xs|
  {
    if |xs| == 0 then acc
    else Rebuild(xs[1..], key, AddLast(acc, key, Some(xs[0])))
  }

  lemma DistinctAppend<T, K>(xs: seq<T>, key: T -> K, x: T)
    requires Distinct(xs, key)
    requires forall j :: 0 <= j < |xs| ==> key(xs[j]) != key(x)
    ensures Distinct(xs + [x], key)
  {
    var ys := xs + [x];
    forall i, j | 0 <= i < j < |ys|
      ensures key(ys[i]) != key(ys[j])
    {
      if j < |xs| {
        assert ys[i] == xs[i] && ys[j] == xs[j];
      } else {
        assert ys[i] == xs[i] && ys[j] == x;
      }
    }
  }

  /**
   * On a valid set, `addLast` of an absent element appends it and bumps the
   * counter by one; of a present element (or null) it changes nothing. The
   * result is valid again, whether or not a resize happened on the way.
   */
  lemma {:induction false} AddLastKeeps<T, K>(s: HashSet<T>, key: T -> K, item: Option<T>)
    requires Valid(s, key)
    ensures Valid(AddLast(s, key, item), key)
    ensures item.None? || Contains(s, key, item.value) ==> AddLast(s, key, item) == s
    ensures item.Some? && !Contains(s, key, item.value) ==>
      AddLast(s, key, item).elems == s.elems + [item.value]
    decreases |s.elems| + 1, Bad(s), Gap(|s.elems| + 1, s.capacity), 0
  {
    if item.Some? && Get(s, key, item.value).None? {
      DistinctAppend(s.elems, key, item.value);
      var grown := HashSet(s.elems + [item.value], s.size + 1, s.capacity);
      if grown.size * 2 > grown.capacity {
        ResizeKeeps(grown, key, grown.capacity * 2);
      }
    }
  }

  /** `resize` keeps the iteration sequence exactly and makes the counter exact. */
  lemma {:induction false} ResizeKeeps<T, K>(s: HashSet<T>, key: T -> K, n: Capacity)
    requires Distinct(s.elems, key)
    ensures Resize(s, key, n).elems == s.elems
    ensures Valid(Resize(s, key, n), key)
    decreases |s.elems|, 0, Gap(|s.elems|, n), 2
  {
    RebuildKeeps(s.elems, key, Empty(n));
  }

  /** Re-adding distinct fresh elements appends them all, in order. */
  lemma {:induction false} RebuildKeeps<T, K>(xs: seq<T>, key: T -> K, acc: HashSet<T>)
    requires Valid(acc, key)
    requires Distinct(acc.elems + xs, key)
    ensures Rebuild(xs, key, acc).elems == acc.elems + xs
    ensures Valid(Rebuild(xs, key, acc), key)
    decreases |acc.elems| + |xs|, Bad(acc), Gap(|acc.elems| + |xs|, acc.capacity), 1, |xs|
  {
    if |xs| == 0 {
      assert acc.elems + xs == acc.elems;
    } else {
      var all := acc.elems + xs;
      forall j | 0 <= j < |acc.elems|
        ensures key(acc.elems[j]) != key(xs[0])
      {
        assert all[j] == acc.elems[j] && all[|acc.elems|] == xs[0];
      }
      AddLastKeeps(acc, key, Some(xs[0]));
      var next := AddLast(acc, key, Some(xs[0]));
      assert next.elems + xs[1..] == all;
      RebuildKeeps(xs[1..], key, next);
    }
  }

  // ---------------------------------------------------------------------
  // The public insertion operations

  /** Java `add`: `addLast`, reporting whether the counter grew. */
  function Add<T, K(==)>(s: HashSet<T>, key: T -> K, item: Option<T>): (r: (HashSet<T>, bool))
    requires Valid(s, key)
    ensures Valid(r.0, key)
    ensures r.1 <==> item.Some? && !Contains(s, key, item.value)
    ensures r.1 ==> r.0.elems == s.elems + [item.value] && r.0.size == s.size + 1
    ensures !r.1 ==> r.0 == s
  {
    AddLastKeeps(s, key, item);
    var t := AddLast(s, key, item);
    (t, t.size > s.size)
  }

  /** Java `addFirst`: prepend `item` unless it is null or already present. */
  function AddFirst<T, K(==)>(s: HashSet<T>, key: T -> K, item: Option<T>): (r: HashSet<T>)
    requires Valid(s, key)
    ensures Valid(r, key)
    ensures item.None? || Contains(s, key, item.value) ==> r == s
    ensures item.Some? && !Contains(s, key, item.value) ==>
      r.elems == [item.value] + s.elems && r.size == s.size + 1
  {
    if item.None? || Get(s, key, item.value).Some? then s
    else
      var grown := HashSet([item.value] + s.elems, s.size + 1, s.capacity);
      assert Distinct(grown.elems, key) by {
        forall i, j | 0 <= i < j < |grown.elems|
          ensures key(grown.elems[i]) != key(grown.elems[j])
        {
          assert grown.elems[j] == s.elems[j - 1];
          if i > 0 {
            assert grown.elems[i] == s.elems[i - 1];
          }
        }
      }
      if grown.size * 2 > grown.capacity then
        ResizeKeeps(grown, key, grown.capacity * 2);
        Resize(grown, key, grown.capacity * 2)
      else grown
  }

  // ---------------------------------------------------------------------
  // Removal

  /** Java `removeNode`: unlink position `i`; the counter is left alone. */
  function RemoveNode<T>(s: HashSet<T>, i: nat): (r: HashSet<T>)
    requires i < |s.elems|
    ensures |r.elems| == |s.elems| - 1
    ensures r.size == s.size && r.capacity == s.capacity
  {
    s.(elems := s.elems[..i] + s.elems[i + 1..])
  }

  /** Java `decrementSize`: lower the counter by `x`; halve the array when under a quarter full. */
  function DecrementSize<T, K(==)>(s: HashSet<T>, key: T -> K, x: int): HashSet<T> {
    var t := s.(size := s.size - x);
    if t.size * 4 < t.capacity && t.capacity / 2 >= InitialCapacity then Resize(t, key, t.capacity / 2)
    else t
  }

  /** Lowering an over-counting counter to the exact count leaves a valid set with the same order. */
  lemma DecrementKeeps<T, K>(t: HashSet<T>, key: T -> K, x: int)
    requires Distinct(t.elems, key) && t.size - x == |t.elems| && 2 * |t.elems| <= t.capacity
    ensures DecrementSize(t, key, x).elems == t.elems && Valid(DecrementSize(t, key, x), key)
  {
    var u := t.(size := t.size - x);
    if u.size * 4 < u.capacity && u.capacity / 2 >= InitialCapacity {
      ResizeKeeps(u, key, u.capacity / 2);
    }
  }

  lemma {:induction false} DropEmpty<T, K>(xs: seq<T>, key: T -> K, ks: set<K>)
    requires forall j :: 0 <= j < |xs| ==> key(xs[j]) !in ks
    ensures Drop(xs, key, ks) == xs
  {
    if |xs| > 0 {
      DropEmpty(xs[1..], key, ks);
    }
  }

  /** Unlinking the one element with key `k` from a duplicate-free sequence is dropping key `k`. */
  lemma {:induction false} UnlinkIsDrop<T, K>(xs: seq<T>, key: T -> K, i: nat)
    requires i < |xs|
    requires Distinct(xs, key)
    ensures xs[..i] + xs[i + 1..] == Drop(xs, key, {key(xs[i])})
  {
    if i == 0 {
      forall j | 0 <= j < |xs[1..]|
        ensures key(xs[1..][j]) !in {key(xs[0])}
      {
        assert xs[1..][j] == xs[j + 1];
      }
      DropEmpty(xs[1..], key, {key(xs[0])});
    } else {
      assert Distinct(xs[1..], key) by {
        forall a, b | 0 <= a < b < |xs[1..]|
          ensures key(xs[1..][a]) != key(xs[1..][b])
        {
          assert xs[1..][a] == xs[a + 1] && xs[1..][b] == xs[b + 1];
        }
      }
      assert xs[1..][i - 1] == xs[i];
      UnlinkIsDrop(xs[1..], key, i - 1);
      assert key(xs[0]) != key(xs[i]);
      assert xs[..i] + xs[i + 1..] == [xs[0]] + (xs[1..][..i - 1] + xs[1..][i..]);
    }
  }

  lemma {:induction false} DropSub<T, K>(xs: seq<T>, key: T -> K, ks: set<K>)
    ensures |Drop(xs, key, ks)| <= |xs|
    ensures forall x :: x in Drop(xs, key, ks) ==> x in xs && key(x) !in ks
    ensures forall x :: x in xs && key(x) !in ks ==> x in Drop(xs, key, ks)
  {
    if |xs| > 0 {
      DropSub(xs[1..], key, ks);
      assert xs == [xs[0]] + xs[1..];
    }
  }

  /** The tail of a duplicate-free sequence is duplicate-free and avoids the head's key. */
  lemma DistinctTail<T, K>(xs: seq<T>, key: T -> K)
    requires |xs| > 0 && Distinct(xs, key)
    ensures Distinct(xs[1..], key)
    ensures forall y :: y in xs[1..] ==> key(y) != key(xs[0])
  {
    forall a, b | 0 <= a < b < |xs[1..]|
      ensures key(xs[1..][a]) != key(xs[1..][b])
    {
      assert xs[1..][a] == xs[a + 1] && xs[1..][b] == xs[b + 1];
    }
    forall y | y in xs[1..] ensures key(y) != key(xs[0]) {
      var m :| 0 <= m < |xs[1..]| && xs[1..][m] == y;
      assert xs[1..][m] == xs[m + 1];
    }
  }

  /** Putting an element with a fresh key in front keeps a sequence duplicate-free. */
  lemma DistinctCons<T, K>(x: T, ys: seq<T>, key: T -> K)
    requires Distinct(ys, key)
    requires forall y :: y in ys ==> key(y) != key(x)
    ensures Distinct([x] + ys, key)
  {
    var r := [x] + ys;
    forall a, b | 0 <= a < b < |r|
      ensures key(r[a]) != key(r[b])
    {
      assert r[b] == ys[b - 1] && r[b] in ys;
      if a > 0 {
        assert r[a] == ys[a - 1];
      }
    }
  }

  lemma {:induction false} DropDistinct<T, K>(xs: seq<T>, key: T -> K, ks: set<K>)
    requires Distinct(xs, key)
    ensures Distinct(Drop(xs, key, ks), key)
  {
    if |xs| > 0 {
      DistinctTail(xs, key);
      DropDistinct(xs[1..], key, ks);
      DropSub(xs[1..], key, ks);
      if key(xs[0]) !in ks {
        DistinctCons(xs[0], Drop(xs[1..], key, ks), key);
      }
    }
  }

  /** Dropping one key after another is dropping both. */
  lemma {:induction false} DropDrop<T, K>(xs: seq<T>, key: T -> K, ks: set<K>, k2: set<K>)
    ensures Drop(Drop(xs, key, ks), key, k2) == Drop(xs, key, ks + k2)
  {
    if |xs| > 0 {
      DropDrop(xs[1..], key, ks, k2);
      var head: seq<T> := if key(xs[0]) in ks then [] else [xs[0]];
      var d := Drop(xs, key, ks);
      assert d == head + Drop(xs[1..], key, ks);
      if |head| == 1 {
        assert d[0] == xs[0] && d[1..] == Drop(xs[1..], key, ks);
      } else {
        assert d == Drop(xs[1..], key, ks);
      }
    }
  }

  /** A decrement by one after unlinking one node keeps the set valid. */
  lemma DecrementAfterUnlink<T, K>(s: HashSet<T>, key: T -> K, i: nat)
    requires Valid(s, key) && i < |s.elems|
    ensures DecrementSize(RemoveNode(s, i), key, 1).elems == Drop(s.elems, key, {key(s.elems[i])})
    ensures Valid(DecrementSize(RemoveNode(s, i), key, 1), key)
    ensures DecrementSize(RemoveNode(s, i), key, 1).size == s.size - 1
  {
    var t := RemoveNode(s, i);
    UnlinkIsDrop(s.elems, key, i);
    DropDistinct(s.elems, key, {key(s.elems[i])});
    var u := t.(size := t.size - 1);
    if u.size * 4 < u.capacity && u.capacity / 2 >= InitialCapacity {
      ResizeKeeps(u, key, u.capacity / 2);
    }
  }

  /**
   * Java `remove(o)`: true iff an equal element was present; that element,
   * and only it, leaves the iteration order, and the counter drops by one.
   */
  function Remove<T, K(==)>(s: HashSet<T>, key: T -> K, o: T): (r: (HashSet<T>, bool))
    requires Valid(s, key)
    ensures Valid(r.0, key)
    ensures r.1 <==> Contains(s, key, o)
    ensures r.0.elems == Drop(s.elems, key, {key(o)})
    ensures r.0.size == if r.1 then s.size - 1 else s.size
    ensures !Contains(r.0, key, o)
  {
    match Find(s.elems, key, key(o))
    case None =>
      DropEmpty(s.elems, key, {key(o)});
      (s, false)
    case Some(i) =>
      DecrementAfterUnlink(s, key, i);
      DropSub(s.elems, key, {key(o)});
      (DecrementSize(RemoveNode(s, i), key, 1), true)
  }

  /** Java `removeFirst`: the head element and the set without it; NullPointerException when empty. */
  function RemoveFirst<T, K(==)>(s: HashSet<T>, key: T -> K): (r: Result<(T, HashSet<T>)>)
    requires Valid(s, key)
    ensures r.Err? <==> |s.elems| == 0
    ensures r.Err? ==> r.error == NullPointer
    ensures r.Ok? ==> r.value.0 == s.elems[0] && r.value.1.elems == s.elems[1..]
    ensures r.Ok? ==> Valid(r.value.1, key) && r.value.1.size == s.size - 1
  {
    if |s.elems| == 0 then Err(NullPointer)
    else
      DecrementAfterUnlink(s, key, 0);
      UnlinkIsDrop(s.elems, key, 0);
      Ok((s.elems[0], DecrementSize(RemoveNode(s, 0), key, 1)))
  }

  /** Java `removeLast`: the tail element and the set without it; NullPointerException when empty. */
  function RemoveLast<T, K(==)>(s: HashSet<T>, key: T -> K): (r: Result<(T, HashSet<T>)>)
    requires Valid(s, key)
    ensures r.Err? <==> |s.elems| == 0
    ensures r.Err? ==> r.error == NullPointer
    ensures r.Ok? ==> r.value.0 == s.elems[|s.elems| - 1] && r.value.1.elems == s.elems[..|s.elems| - 1]
    ensures r.Ok? ==> Valid(r.value.1, key) && r.value.1.size == s.size - 1
  {
    if |s.elems| == 0 then Err(NullPointer)
    else
      var last := |s.elems| - 1;
      DecrementAfterUnlink(s, key, last);
      UnlinkIsDrop(s.elems, key, last);
      assert s.elems[..last] + s.elems[last + 1..] == s.elems[..last];
      Ok((s.elems[last], DecrementSize(RemoveNode(s, last), key, 1)))
  }

  /** Java `getFirst`: null when the counter says empty, else the head. */
  function GetFirst<T>(s: HashSet<T>): (r: Option<T>)
    requires s.size <= |s.elems|
    ensures r.Some? <==> s.size > 0
    ensures r.Some? ==> r.value == s.elems[0]
  {
    if s.size > 0 then Some(s.elems[0]) else None
  }

  /** Java `getLast`: null when the counter says empty, else the tail. */
  function GetLast<T>(s: HashSet<T>): (r: Option<T>)
    requires s.size <= |s.elems|
    ensures r.Some? <==> s.size > 0
    ensures r.Some? ==> r.value == s.elems[|s.elems| - 1]
  {
    if s.size > 0 then Some(s.elems[|s.elems| - 1]) else None
  }

  /** On a valid set the counter is exact, so `getFirst`/`getLast` are null exactly when nothing is stored. */
  lemma EndsOfValid<T, K>(s: HashSet<T>, key: T -> K)
    requires Valid(s, key)
    ensures GetFirst(s).None? <==> s.elems == []
    ensures GetLast(s).None? <==> s.elems == []
  {
  }

  /** `getFirst` sees what a successful `addFirst` put in front. */
  lemma {:induction false} AddFirstThenGetFirst<T, K>(s: HashSet<T>, key: T -> K, x: T)
    requires Valid(s, key)
    ensures !Contains(s, key, x) ==> GetFirst(AddFirst(s, key, Some(x))) == Some(x)
    ensures Contains(s, key, x) ==> GetFirst(AddFirst(s, key, Some(x))) == GetFirst(s)
  {
    var t := AddFirst(s, key, Some(x));
    if !Contains(s, key, x) {
      assert t.elems[0] == x;
    }
  }

  /** `getLast` sees what a successful `add` put at the back. */
  lemma {:induction false} AddThenGetLast<T, K>(s: HashSet<T>, key: T -> K, x: T)
    requires Valid(s, key)
    ensures !Contains(s, key, x) ==> GetLast(Add(s, key, Some(x)).0) == Some(x)
    ensures Contains(s, key, x) ==> GetLast(Add(s, key, Some(x)).0) == GetLast(s)
  {
    var t := Add(s, key, Some(x)).0;
    if !Contains(s, key, x) {
      assert t.elems[|t.elems| - 1] == x;
    }
  }

  // ---------------------------------------------------------------------
  // Insertion and removal undo each other

  /** Adding an absent element and removing it again restores the order and the counter. */
  lemma AddThenRemove<T, K>(s: HashSet<T>, key: T -> K, x: T)
    requires Valid(s, key) && !Contains(s, key, x)
    ensures var t := Add(s, key, Some(x)).0;
      Remove(t, key, x).1 && Remove(t, key, x).0.elems == s.elems && Remove(t, key, x).0.size == s.size
  {
    var t := Add(s, key, Some(x)).0;
    var i := |s.elems|;
    UnlinkIsDrop(t.elems, key, i);
    assert t.elems[..i] == s.elems && t.elems[i + 1..] == [];
  }

  /** Removing twice is removing once: the second call finds nothing and changes nothing. */
  lemma RemoveIdempotent<T, K>(s: HashSet<T>, key: T -> K, o: T)
    requires Valid(s, key)
    ensures var t := Remove(s, key, o).0;
      !Remove(t, key, o).1 && Remove(t, key, o).0.elems == t.elems && Remove(t, key, o).0.size == t.size
  {
    var t := Remove(s, key, o).0;
    DropEmpty(t.elems, key, {key(o)});
  }

  /** `removeFirst` undoes a successful `addFirst`. */
  lemma AddFirstThenRemoveFirst<T, K>(s: HashSet<T>, key: T -> K, x: T)
    requires Valid(s, key) && !Contains(s, key, x)
    ensures var r := RemoveFirst(AddFirst(s, key, Some(x)), key);
      r.Ok? && r.value.0 == x && r.value.1.elems == s.elems && r.value.1.size == s.size
  {
    assert ([x] + s.elems)[1..] == s.elems;
  }

  /** `removeLast` undoes a successful `add`. */
  lemma AddThenRemoveLast<T, K>(s: HashSet<T>, key: T -> K, x: T)
    requires Valid(s, key) && !Contains(s, key, x)
    ensures var r := RemoveLast(Add(s, key, Some(x)).0, key);
      r.Ok? && r.value.0 == x && r.value.1.elems == s.elems && r.value.1.size == s.size
  {
    assert (s.elems + [x])[..|s.elems|] == s.elems;
  }

  // ---------------------------------------------------------------------
  // Deque aliases: one-line delegations, exactly as in the Java class

  function Offer<T, K(==)>(s: HashSet<T>, key: T -> K, item: Option<T>): (HashSet<T>, bool)
    requires Valid(s, key)
  {
    Add(s, key, item)
  }

  function Push<T, K(==)>(s: HashSet<T>, key: T -> K, item: Option<T>): HashSet<T>
    requires Valid(s, key)
  {
    AddFirst(s, key, item)
  }

  function Poll<T, K(==)>(s: HashSet<T>, key: T -> K): Result<(T, HashSet<T>)>
    requires Valid(s, key)
  {
    RemoveFirst(s, key)
  }

  function Pop<T, K(==)>(s: HashSet<T>, key: T -> K): Result<(T, HashSet<T>)>
    requires Valid(s, key)
  {
    RemoveFirst(s, key)
  }

  function Peek<T>(s: HashSet<T>): Option<T>
    requires s.size <= |s.elems|
  {
    GetFirst(s)
  }

  function PeekLast<T>(s: HashSet<T>): Option<T>
    requires s.size <= |s.elems|
  {
    GetLast(s)
  }

  // ---------------------------------------------------------------------
  // Whole-set operations

  /** Java `clone`: a fresh set filled by `add` in iteration order. */
  function Clone<T, K(==)>(s: HashSet<T>, key: T -> K): (r: HashSet<T>)
    requires Valid(s, key)
    ensures Valid(r, key)
    ensures r.elems == s.elems && r.size == s.size
  {
    assert [] + s.elems == s.elems;
    RebuildKeeps(s.elems, key, New());
    Rebuild(s.elems, key, New())
  }

  /**
   * The items of a Java collection before its first null: the ones `removeAll`
   * hands to `remove` before `hash(null)` throws.
   */
  function Upto<T>(c: seq<Option<T>>): seq<T>
    decreases |c|
  {
    if |c| == 0 || c[0].None? then [] else [c[0].value] + Upto(c[1..])
  }

  /** Without a null, `Upto` is the whole collection. */
  lemma {:induction false} UptoAll<T>(c: seq<Option<T>>)
    requires None !in c
    ensures |Upto(c)| == |c|
    ensures forall i :: 0 <= i < |c| ==> c[i] == Some(Upto(c)[i])
  {
    if |c| > 0 {
      assert c[0] in c;
      assert forall i :: 0 <= i < |c[1..]| ==> c[1..][i] == c[i + 1];
      UptoAll(c[1..]);
    }
  }

  /** The keys of a sequence with one more item in front. */
  lemma KeysOfCons<T, K>(x: T, xs: seq<T>, key: T -> K)
    ensures KeysOf([x] + xs, key) == {key(x)} + KeysOf(xs, key)
  {
    var c := [x] + xs;
    assert key(c[0]) in KeysOf(c, key);
    forall k | k in KeysOf(c, key) ensures k in {key(x)} + KeysOf(xs, key) {
      var i :| 0 <= i < |c| && key(c[i]) == k;
      if i > 0 {
        assert xs[i - 1] == c[i];
      }
    }
    forall k | k in KeysOf(xs, key) ensures k in KeysOf(c, key) {
      var i :| 0 <= i < |xs| && key(xs[i]) == k;
      assert c[i + 1] == xs[i];
    }
  }

  /**
   * The loop of `removeAll`: `remove` each item of `c`, counting the successes.
   * A null item makes `remove` throw NullPointerException; the items before it
   * have been removed by then, and the returned set is the one left behind.
   */
  function RemoveEach<T, K(==)>(s: HashSet<T>, key: T -> K, c: seq<Option<T>>): (r: (HashSet<T>, Result<nat>))
    requires Valid(s, key)
    ensures Valid(r.0, key)
    ensures r.0.elems == Drop(s.elems, key, KeysOf(Upto(c), key))
    ensures r.1.Err? <==> None in c
    ensures r.1.Err? ==> r.1.error == NullPointer
    ensures r.1.Ok? ==> r.1.value == |s.elems| - |r.0.elems|
    decreases |c|
  {
    if |c| == 0 then
      assert KeysOf(Upto(c), key) == {};
      DropEmpty(s.elems, key, {});
      (s, Ok(0))
    else if c[0].None? then
      assert KeysOf(Upto(c), key) == {};
      DropEmpty(s.elems, key, {});
      assert c[0] in c;
      (s, Err(NullPointer))
    else
      var (t, removed) := Remove(s, key, c[0].value);
      var (u, n) := RemoveEach(t, key, c[1..]);
      DropDrop(s.elems, key, {key(c[0].value)}, KeysOf(Upto(c[1..]), key));
      KeysOfCons(c[0].value, Upto(c[1..]), key);
      assert c == [c[0]] + c[1..];
      (u, if n.Err? then n else Ok(n.value + (if removed then 1 else 0)))
  }

  /**
   * Java `removeAll` AS WRITTEN: each successful `remove` already lowers the
   * counter, and the final `decrementSize(removed)` lowers it a second time:
   * the counter ends at the element count minus the number removed, unless
   * that drop shrinks the array, whose re-adding counts the elements afresh.
   * A null item throws before the final decrement, from a valid set.
   */
  function RemoveAllAsWritten<T, K(==)>(s: HashSet<T>, key: T -> K, c: seq<Option<T>>): (r: (HashSet<T>, Result<bool>))
    requires Valid(s, key)
    ensures r.0.elems == Drop(s.elems, key, KeysOf(Upto(c), key))
    ensures r.1.Err? <==> None in c
    ensures r.1.Err? ==> r.1.error == NullPointer && Valid(r.0, key)
    ensures r.1.Ok? ==> (r.1.value <==> |r.0.elems| < |s.elems|)
    ensures r.1.Ok? ==> r.0.size == |r.0.elems| || r.0.size == 2 * |r.0.elems| - |s.elems|
  {
    var (t, n) := RemoveEach(s, key, c);
    if n.Err? then (t, Err(n.error))
    else
      var removed := n.value;
      var u := t.(size := t.size - removed);
      if u.size * 4 < u.capacity && u.capacity / 2 >= InitialCapacity then
        ResizeKeeps(u, key, u.capacity / 2);
        (DecrementSize(t, key, removed), Ok(removed > 0))
      else
        (DecrementSize(t, key, removed), Ok(removed > 0))
  }

  /** Removing one of two elements with `removeAll` as written leaves a counter of 0 beside one element. */
  lemma RemoveAllAsWrittenMiscounts()
    ensures var s := HashSet([1, 2], 2, 16);
      Valid(s, (x: int) => x) &&
      RemoveAllAsWritten(s, (x: int) => x, [Some(1)]).0.elems == [2] &&
      RemoveAllAsWritten(s, (x: int) => x, [Some(1)]).0.size == 0
  {
    var id := (x: int) => x;
    var s := HashSet([1, 2], 2, 16);
    assert Find(s.elems, id, 1) == Some(0);
    var (t, removed) := RemoveEach(s, id, [Some(1)]);
    var (t1, b) := Remove(s, id, 1);
    assert b;
    assert t1 == HashSet([2], 1, 16);
    assert [Some(1)][1..] == [];
    assert RemoveEach(t1, id, []) == (t1, Ok(0));
    assert (t, removed) == (t1, Ok(1));
  }

  /**
   * Java `removeAll` with the double decrement taken out: every item of `c`
   * leaves the set, unless a null item throws first.
   */
  function RemoveAll<T, K(==)>(s: HashSet<T>, key: T -> K, c: seq<Option<T>>): (r: (HashSet<T>, Result<bool>))
    requires Valid(s, key)
    ensures Valid(r.0, key)
    ensures r.0.elems == Drop(s.elems, key, KeysOf(Upto(c), key))
    ensures forall i :: 0 <= i < |Upto(c)| ==> !Contains(r.0, key, Upto(c)[i])
    ensures None !in c ==> forall i :: 0 <= i < |c| ==> !Contains(r.0, key, c[i].value)
    ensures r.1.Err? <==> None in c
    ensures r.1.Err? ==> r.1.error == NullPointer
    ensures r.1.Ok? ==> (r.1.value <==> exists i :: 0 <= i < |c| && Contains(s, key, c[i].value))
  {
    var (t, n) := RemoveEach(s, key, c);
    var items := Upto(c);
    RemovedAnyIffShared(s.elems, key, items);
    DropSub(s.elems, key, KeysOf(items, key));
    assert forall i :: 0 <= i < |items| ==> key(items[i]) in KeysOf(items, key);
    if n.Err? then (t, Err(n.error))
    else
      UptoAll(c);
      (t, Ok(n.value > 0))
  }

  /** Dropping shortens a sequence exactly when one of its keys is dropped. */
  lemma DropCount<T, K>(xs: seq<T>, key: T -> K, ks: set<K>)
    ensures |Drop(xs, key, ks)| <= |xs|
    ensures |Drop(xs, key, ks)| < |xs| <==> exists i :: 0 <= i < |xs| && key(xs[i]) in ks
  {
    DropSub(xs, key, ks);
    if exists i :: 0 <= i < |xs| && key(xs[i]) in ks {
      var i :| 0 <= i < |xs| && key(xs[i]) in ks;
      DropStrict(xs, key, ks, i);
    } else {
      DropEmpty(xs, key, ks);
    }
  }

  lemma RemovedAnyIffShared<T, K>(xs: seq<T>, key: T -> K, c: seq<T>)
    ensures |Drop(xs, key, KeysOf(c, key))| < |xs| <==>
      exists i :: 0 <= i < |c| && exists j :: 0 <= j < |xs| && key(xs[j]) == key(c[i])
  {
    DropCount(xs, key, KeysOf(c, key));
    if exists j :: 0 <= j < |xs| && key(xs[j]) in KeysOf(c, key) {
      var j :| 0 <= j < |xs| && key(xs[j]) in KeysOf(c, key);
      var i :| 0 <= i < |c| && key(c[i]) == key(xs[j]);
      assert exists j :: 0 <= j < |xs| && key(xs[j]) == key(c[i]);
    }
  }

  /**
   * Java `retainAll`: unlink every element not in `c`, in iteration order,
   * then lower the counter once by the number unlinked.
   */
  function RetainAll<T, K(==)>(s: HashSet<T>, key: T -> K, c: seq<T>): (r: (HashSet<T>, bool))
    requires Valid(s, key)
    ensures Valid(r.0, key)
    ensures forall x :: x in r.0.elems ==> x in s.elems && key(x) in KeysOf(c, key)
    ensures forall x :: x in s.elems && key(x) in KeysOf(c, key) ==> x in r.0.elems
    ensures r.1 <==> exists i :: 0 <= i < |s.elems| && key(s.elems[i]) !in KeysOf(c, key)
    ensures r.0.elems == Drop(s.elems, key, KeysOf(s.elems, key) - KeysOf(c, key))
  {
    var kept := Keep(s.elems, key, KeysOf(c, key));
    var gone := KeysOf(s.elems, key) - KeysOf(c, key);
    KeepIsDrop(s.elems, key, KeysOf(c, key));
    DropSub(s.elems, key, gone);
    DropDistinct(s.elems, key, gone);
    DropCount(s.elems, key, gone);
    assert forall i :: 0 <= i < |s.elems| ==> key(s.elems[i]) in KeysOf(s.elems, key);
    var t := HashSet(kept, s.size, s.capacity);
    DecrementKeeps(t, key, |s.elems| - |kept|);
    (DecrementSize(t, key, |s.elems| - |kept|), |kept| < |s.elems|)
  }

  /** Keeping the keys of `ks` is dropping the keys present in `xs` but not in `ks`. */
  lemma {:induction false} KeepIsDrop<T, K>(xs: seq<T>, key: T -> K, ks: set<K>)
    ensures Keep(xs, key, ks) == Drop(xs, key, KeysOf(xs, key) - ks)
  {
    if |xs| > 0 {
      KeepIsDrop(xs[1..], key, ks);
      DropOnlyPresent(xs[1..], key, KeysOf(xs[1..], key) - ks, KeysOf(xs, key) - ks);
    }
  }

  /** Only the keys present in `xs` matter to `Drop`. */
  lemma {:induction false} DropOnlyPresent<T, K>(xs: seq<T>, key: T -> K, a: set<K>, b: set<K>)
    requires forall i :: 0 <= i < |xs| ==> (key(xs[i]) in a <==> key(xs[i]) in b)
    ensures Drop(xs, key, a) == Drop(xs, key, b)
  {
    if |xs| > 0 {
      forall i | 0 <= i < |xs[1..]| ensures key(xs[1..][i]) in a <==> key(xs[1..][i]) in b {
        assert xs[1..][i] == xs[i + 1];
      }
      DropOnlyPresent(xs[1..], key, a, b);
    }
  }

  /** Dropping a key that occurs makes the sequence strictly shorter. */
  lemma {:induction false} DropStrict<T, K>(xs: seq<T>, key: T -> K, ks: set<K>, i: nat)
    requires i < |xs| && key(xs[i]) in ks
    ensures |Drop(xs, key, ks)| < |xs|
  {
    DropSub(xs[1..], key, ks);
    if i > 0 {
      assert xs[1..][i - 1] == xs[i];
      DropStrict(xs[1..], key, ks, i - 1);
    }
  }

  /**
   * Java `addAll` AS WRITTEN: `added = added || add(item)` short-circuits, so
   * once one item has been added no later item is offered to `add`.
   */
  function AddAllAsWritten<T, K(==)>(s: HashSet<T>, key: T -> K, c: seq<Option<T>>, added: bool): (r: (HashSet<T>, bool))
    requires Valid(s, key)
    ensures Valid(r.0, key)
    ensures added ==> r == (s, true)
    ensures !added ==> (r.1 <==> Fresh(s.elems, key, c) != [])
    ensures !added && Fresh(s.elems, key, c) != [] ==> r.0.elems == s.elems + [Fresh(s.elems, key, c)[0]]
    ensures !added && Fresh(s.elems, key, c) == [] ==> r.0 == s
    decreases |c|
  {
    if |c| == 0 then (s, added)
    else if added then AddAllAsWritten(s, key, c[1..], true)
    else
      var (t, b) := Add(s, key, c[0]);
      AddAllAsWritten(t, key, c[1..], b)
  }

  /** Adding two fresh items to an empty set with `addAll` as written keeps only the first. */
  lemma AddAllAsWrittenStopsEarly()
    ensures var r := AddAllAsWritten(New<int>(), (x: int) => x, [Some(1), Some(2)], false);
      r.0.elems == [1] && !Contains(r.0, (x: int) => x, 2)
  {
    var id := (x: int) => x;
    var s: HashSet<int> := New();
    var (t, b) := Add(s, id, Some(1));
    assert b && t.elems == [1];
    assert AddAllAsWritten(t, id, [Some(2)], true) == (t, true);
  }

  /**
   * The items of `c` that adding them one by one after `known` would append:
   * the non-null ones whose key is neither in `known` nor on an earlier item,
   * in the order of `c`.
   */
  function Fresh<T, K(==)>(known: seq<T>, key: T -> K, c: seq<Option<T>>): seq<T>
    decreases |c|
  {
    if |c| == 0 then []
    else if c[0].Some? && Find(known, key, key(c[0].value)).None? then
      [c[0].value] + Fresh(known + [c[0].value], key, c[1..])
    else Fresh(known, key, c[1..])
  }

  /** What `addAll` appends comes from `c`, and none of it was already present. */
  lemma {:induction false} FreshFrom<T, K>(known: seq<T>, key: T -> K, c: seq<Option<T>>)
    ensures forall x :: x in Fresh(known, key, c) ==> Some(x) in c && key(x) !in KeysOf(known, key)
    decreases |c|
  {
    if |c| > 0 {
      if c[0].Some? && Find(known, key, key(c[0].value)).None? {
        var x0 := c[0].value;
        FreshFrom(known + [x0], key, c[1..]);
        assert forall i :: 0 <= i < |known| ==> (known + [x0])[i] == known[i];
      } else {
        FreshFrom(known, key, c[1..]);
      }
      assert forall x :: Some(x) in c[1..] ==> Some(x) in c;
    }
  }

  /** Java `addAll` as intended (`added = add(item) || added`): every non-null item ends up in the set. */
  function AddAll<T, K(==)>(s: HashSet<T>, key: T -> K, c: seq<Option<T>>): (r: (HashSet<T>, bool))
    requires Valid(s, key)
    ensures Valid(r.0, key)
    ensures r.0.elems == s.elems + Fresh(s.elems, key, c)
    ensures forall i :: 0 <= i < |c| && c[i].Some? ==> Contains(r.0, key, c[i].value)
    ensures r.1 <==> |r.0.elems| > |s.elems|
    decreases |c|
  {
    if |c| == 0 then (s, false)
    else
      var (t, b) := Add(s, key, c[0]);
      var (u, rest) := AddAll(t, key, c[1..]);
      AddAllStep(s, key, c, t, u);
      (u, b || rest)
  }

  /** One item of `addAll`: what adding `c[0]` and then the rest does, in terms of the whole of `c`. */
  lemma AddAllStep<T, K>(s: HashSet<T>, key: T -> K, c: seq<Option<T>>, t: HashSet<T>, u: HashSet<T>)
    requires Valid(s, key) && |c| > 0 && t == Add(s, key, c[0]).0
    requires u.elems == t.elems + Fresh(t.elems, key, c[1..])
    requires forall i :: 0 <= i < |c[1..]| && c[1..][i].Some? ==> Contains(u, key, c[1..][i].value)
    ensures u.elems == s.elems + Fresh(s.elems, key, c)
    ensures forall i :: 0 <= i < |c| && c[i].Some? ==> Contains(u, key, c[i].value)
  {
    AddAllOrder(s, key, c, t);
    assert forall i :: 1 <= i < |c| ==> c[i] == c[1..][i - 1];
    assert forall j :: 0 <= j < |t.elems| ==> u.elems[j] == t.elems[j];
    if c[0].Some? {
      var j :| 0 <= j < |t.elems| && key(t.elems[j]) == key(c[0].value);
      assert key(u.elems[j]) == key(c[0].value);
    }
  }

  lemma Regroup<T>(a: seq<T>, b: seq<T>, c: seq<T>)
    ensures (a + b) + c == a + (b + c)
  {
  }

  /** Adding `c[0]` appends exactly the first item `Fresh` picks from `c`. */
  lemma AddAllOrder<T, K>(s: HashSet<T>, key: T -> K, c: seq<Option<T>>, t: HashSet<T>)
    requires |c| > 0
    requires c[0].Some? && !Contains(s, key, c[0].value) ==> t.elems == s.elems + [c[0].value]
    requires !(c[0].Some? && !Contains(s, key, c[0].value)) ==> t.elems == s.elems
    ensures t.elems + Fresh(t.elems, key, c[1..]) == s.elems + Fresh(s.elems, key, c)
  {
    var rest := c[1..];
    if c[0].Some? && !Contains(s, key, c[0].value) {
      var x := c[0].value;
      var f := Fresh(s.elems + [x], key, rest);
      assert Fresh(s.elems, key, c) == [x] + f;
      assert t.elems == s.elems + [x];
      Regroup(s.elems, [x], f);
    } else {
      assert Fresh(s.elems, key, c) == Fresh(s.elems, key, rest);
    }
  }


}
