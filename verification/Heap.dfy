/** Binary heaps in a sequence: the order, and what one exchange does to it. */
module HeapOrder {
  function Parent(c: int): int
    requires c > 0
  {
    (c - 1) / 2
  }

  function Swapped<T>(s: seq<T>, i: nat, j: nat): (r: seq<T>)
    requires i < |s| && j < |s|
    ensures |r| == |s|
  {
    s[i := s[j]][j := s[i]]
  }

  function Elems<T>(s: seq<T>): set<T> { set x | x in s }

  predicate Distinct<T(==)>(s: seq<T>) {
    forall i, j | 0 <= i < j < |s| :: s[i] != s[j]
  }

  /** The first `n` keys: no key is smaller than its parent's. */
  predicate Ordered(keys: seq<int>, n: nat)
    requires n <= |keys|
  {
    forall c | 0 < c < n :: keys[Parent(c)] <= keys[c]
  }

  /** The children of `i` are no smaller than the parent of `i`. */
  predicate Bridged(keys: seq<int>, n: nat, i: nat)
    requires i < n <= |keys|
  {
    forall c | 0 < c < n && Parent(c) == i && i > 0 :: keys[Parent(i)] <= keys[c]
  }

  /** Ordered but for the key at `i`, which may be too small or too large. */
  predicate OrderedBut(keys: seq<int>, n: nat, i: nat)
    requires i < n <= |keys|
  {
    && Bridged(keys, n, i)
    && forall c | 0 < c < n && c != i && Parent(c) != i :: keys[Parent(c)] <= keys[c]
  }

  /** Ordered but for the key at `i`, which may be too small. */
  predicate RisesAt(keys: seq<int>, n: nat, i: nat)
    requires i < n <= |keys|
  {
    && Bridged(keys, n, i)
    && forall c | 0 < c < n && c != i :: keys[Parent(c)] <= keys[c]
  }

  /** Ordered but for the key at `i`, which may be too large. */
  predicate SinksAt(keys: seq<int>, n: nat, i: nat)
    requires i < n <= |keys|
  {
    && Bridged(keys, n, i)
    && forall c | 0 < c < n && Parent(c) != i :: keys[Parent(c)] <= keys[c]
  }

  /** Moving a too small key above its parent. */
  lemma RiseStep(keys: seq<int>, n: nat, j: nat)
    requires 0 < j < n <= |keys| && RisesAt(keys, n, j) && keys[j] < keys[Parent(j)]
    ensures RisesAt(Swapped(keys, Parent(j), j), n, Parent(j))
  {
    var i := Parent(j);
    var r := Swapped(keys, i, j);
    forall c | 0 < c < n && c != i ensures r[Parent(c)] <= r[c] {
      if c != j && Parent(c) == i { assert keys[i] <= keys[c]; }
    }
  }

  /** A key that is not smaller than its parent has risen far enough. */
  lemma Risen(keys: seq<int>, n: nat, j: nat)
    requires j < n <= |keys| && RisesAt(keys, n, j) && (j > 0 ==> keys[Parent(j)] <= keys[j])
    ensures Ordered(keys, n)
  {
  }

  lemma Shorter(keys: seq<int>, n: nat)
    requires n <= |keys| && Ordered(keys, |keys|)
    ensures Ordered(keys, n)
  {
  }

  /** The smaller child of `i`, if `i` has one. */
  function SmallerChild(keys: seq<int>, n: nat, i: nat): (j: nat)
    requires 2 * i + 1 < n <= |keys|
    ensures i < j < n && Parent(j) == i
    ensures forall c | 0 < c < n && Parent(c) == i :: keys[j] <= keys[c]
  {
    if 2 * i + 2 < n && keys[2 * i + 2] < keys[2 * i + 1] then 2 * i + 2 else 2 * i + 1
  }

  /** Moving a too large key below its smaller child. */
  lemma SinkStep(keys: seq<int>, n: nat, i: nat)
    requires 2 * i + 1 < n <= |keys| && OrderedBut(keys, n, i)
    requires keys[SmallerChild(keys, n, i)] < keys[i]
    ensures var j := SmallerChild(keys, n, i);
            SinksAt(Swapped(keys, i, j), n, j)
  {
    var j := SmallerChild(keys, n, i);
    var r := Swapped(keys, i, j);
    forall c | 0 < c < n && Parent(c) != j ensures r[Parent(c)] <= r[c] {
      if c == i { assert keys[Parent(i)] <= keys[j]; }
    }
    forall c | 0 < c < n && Parent(c) == j ensures r[Parent(j)] <= r[c] {
      assert keys[j] <= keys[c];
    }
  }

  lemma SinkIsBut(keys: seq<int>, n: nat, i: nat)
    requires i < n <= |keys| && SinksAt(keys, n, i)
    ensures OrderedBut(keys, n, i)
  {
  }

  /** A key that no child is smaller than has sunk far enough. */
  lemma Sunk(keys: seq<int>, n: nat, i: nat)
    requires i < n <= |keys| && OrderedBut(keys, n, i)
    requires 2 * i + 1 < n ==> keys[i] <= keys[SmallerChild(keys, n, i)]
    ensures RisesAt(keys, n, i)
    ensures SinksAt(keys, n, i) ==> Ordered(keys, n)
  {
  }

  /** The first key is the smallest. */
  lemma {:induction false} FirstIsLeast(keys: seq<int>, n: nat, k: nat)
    requires k < n <= |keys| && Ordered(keys, n)
    ensures keys[0] <= keys[k]
  {
    if k > 0 { FirstIsLeast(keys, n, Parent(k)); }
  }

  /** Exchanging `i` with the last key leaves only `i` out of order. */
  lemma LastToHole(keys: seq<int>, i: nat)
    requires i < |keys| - 1 && Ordered(keys, |keys|)
    ensures OrderedBut(Swapped(keys, i, |keys| - 1), |keys| - 1, i)
  {
    var n := |keys| - 1;
    var r := Swapped(keys, i, n);
    forall c | 0 < c < n && Parent(c) == i && i > 0 ensures r[Parent(i)] <= r[c] {
      assert keys[Parent(i)] <= keys[i] <= keys[c];
    }
  }

  /** A key put at the end can only be too small. */
  lemma AppendRises(keys: seq<int>, key: int)
    requires Ordered(keys, |keys|)
    ensures RisesAt(keys + [key], |keys| + 1, |keys|)
  {
    var r := keys + [key];
    forall c | 0 < c < |r| && c != |keys| ensures r[Parent(c)] <= r[c] {
      assert keys[Parent(c)] <= keys[c];
    }
  }

  lemma SwappedElems<T>(s: seq<T>, i: nat, j: nat)
    requires i < |s| && j < |s|
    ensures Elems(Swapped(s, i, j)) == Elems(s)
    ensures Distinct(s) ==> Distinct(Swapped(s, i, j))
  {
    var r := Swapped(s, i, j);
    forall x | x in s ensures x in r {
      var k :| 0 <= k < |s| && s[k] == x;
      assert r[if k == i then j else if k == j then i else k] == x;
    }
  }

  lemma PutValues<K, V>(m: map<K, V>, k: K, v: V)
    requires k !in m
    ensures m[k := v].Values == m.Values + {v}
  {
    forall x | x in m.Values + {v} ensures x in m[k := v].Values {
      if x in m.Values {
        var l :| l in m && m[l] == x;
        assert l in m[k := v];
      } else {
        assert k in m[k := v];
      }
    }
  }

  lemma MinusValues<K, V>(m: map<K, V>, k: K)
    requires k in m && forall a, b | a in m && b in m && m[a] == m[b] :: a == b
    ensures (m - {k}).Values == m.Values - {m[k]}
  {
    var r := m - {k};
    forall x | x in m.Values && x != m[k] ensures x in r.Values {
      var l :| l in m && m[l] == x;
      assert l in r;
    }
  }

  lemma SomeValue<K, V>(m: map<K, V>)
    ensures m.Values == {} ==> m == map[]
  {
    if m != map[] {
      var k :| k in m;
      assert m[k] in m.Values;
    }
  }

  lemma {:induction false} ElemsSize<T>(s: seq<T>)
    requires Distinct(s)
    ensures |Elems(s)| == |s|
  {
    if s != [] {
      var k := |s| - 1;
      ElemsSize(s[..k]);
      assert Elems(s) == Elems(s[..k]) + {s[k]};
    }
  }

  lemma {:induction false} ValuesSize<K, V>(m: map<K, V>)
    requires forall a, b | a in m && b in m && m[a] == m[b] :: a == b
    ensures |m.Values| == |m|
  {
    if m != map[] {
      var k :| k in m;
      MinusValues(m, k);
      assert |(m - {k}).Keys| == |m.Keys - {k}| by { assert (m - {k}).Keys == m.Keys - {k}; }
      ValuesSize(m - {k});
      assert m[k] in m.Values;
    } else {
      assert m.Values == {};
    }
  }

  lemma DropLast<T>(s: seq<T>)
    requires |s| > 0 && Distinct(s)
    ensures var t := s[..|s| - 1]; Distinct(t) && Elems(t) == Elems(s) - {s[|s| - 1]}
  {
    var t := s[..|s| - 1];
    forall x | x in s && x != s[|s| - 1] ensures x in t {
      var k :| 0 <= k < |s| && s[k] == x;
      assert t[k] == x;
    }
  }
}

/** The heap of stats/container/heap.go, driven by Go's container/heap. */
module Heaps {
  import opened HeapOrder

  /** An entry of an application, with its place in the two heaps it is in. */
  class Entry<P> {
    const applicationId: string
    var data: P
    var first: int
    var second: int

    constructor (applicationId: string, data: P)
      ensures this.applicationId == applicationId && this.data == data
    {
      this.applicationId := applicationId;
      this.data := data;
      first, second := 0, 0;
    }
  }

  /** Which index field of an entry a heap keeps; a snapshot keeps none. */
  datatype Side = First | Second | Snapshot

  class Heap<P> {
    const rank: P --> int
    const side: Side
    var h: seq<Entry<P>>
    ghost var keys: seq<int>

    constructor (rank: P --> int, side: Side)
      ensures Valid() && this.rank == rank && this.side == side && h == []
    {
      this.rank := rank;
      this.side := side;
      h, keys := [], [];
    }

    /** `Copy`, behind a heap type that keeps no indices. */
    constructor SnapshotOf(from: Heap<P>)
      requires from.Valid()
      ensures Valid() && rank == from.rank && side == Snapshot && h == from.h
    {
      rank := from.rank;
      side := Snapshot;
      h, keys := from.h, from.keys;
    }

    /** The entries whose index field this heap writes. */
    ghost function Firsts(): set<Entry<P>>
      reads this
    {
      if side.First? then Elems(h) else {}
    }

    ghost function Seconds(): set<Entry<P>>
      reads this
    {
      if side.Second? then Elems(h) else {}
    }

    ghost predicate Indexed()
      reads this, Firsts()`first, Seconds()`second
    {
      && (side.First? ==> forall k | 0 <= k < |h| :: h[k].first == k)
      && (side.Second? ==> forall k | 0 <= k < |h| :: h[k].second == k)
    }

    /** The entry can be compared: `Less` would not panic on it. */
    ghost predicate Ranks(e: Entry<P>)
      reads e`data
    {
      rank.requires(e.data)
    }

    ghost predicate Keyed()
      reads this, Elems(h)`data
    {
      |keys| == |h| && forall k | 0 <= k < |h| :: Ranks(h[k]) && keys[k] == rank(h[k].data)
    }

    /** A heap but for the order. */
    ghost predicate Loose()
      reads this, Elems(h)`data, Firsts()`first, Seconds()`second
    {
      Distinct(h) && Keyed() && Indexed()
    }

    ghost predicate Valid()
      reads this, Elems(h)`data, Firsts()`first, Seconds()`second
    {
      Loose() && Ordered(keys, |keys|)
    }

    predicate Less(i: nat, j: nat)
      requires i < |h| && j < |h| && Ranks(h[i]) && Ranks(h[j])
      reads this, h
    {
      rank(h[i].data) < rank(h[j].data)
    }

    method SetIndex(i: nat, j: int)
      requires i < |h|
      modifies (if side.First? then {h[i]} else {})`first
      modifies (if side.Second? then {h[i]} else {})`second
      ensures side.First? ==> h[i].first == j
      ensures side.Second? ==> h[i].second == j
    {
      match side
      case First => h[i].first := j;
      case Second => h[i].second := j;
      case Snapshot =>
    }

    method Swap(i: nat, j: nat)
      requires i < |h| && j < |h| && Loose()
      modifies this`h, this`keys, Firsts()`first, Seconds()`second
      ensures Loose() && h == Swapped(old(h), i, j) && keys == Swapped(old(keys), i, j)
      ensures Elems(h) == old(Elems(h))
    {
      SwappedElems(h, i, j);
      h := h[i := h[j]][j := h[i]];
      keys := Swapped(keys, i, j);
      SetIndex(i, i);
      SetIndex(j, j);
    }

    /** Let the key at `start` rise, the first `n` entries being the heap. */
    method Up(start: nat, ghost n: nat)
      requires start < n <= |h| && Loose() && RisesAt(keys, n, start)
      modifies this`h, this`keys, Firsts()`first, Seconds()`second
      ensures Loose() && Elems(h) == old(Elems(h)) && |h| == old(|h|) && h[n..] == old(h)[n..]
      ensures Ordered(keys, n)
    {
      hide RisesAt, Ordered, Indexed, Elems;
      var j: nat := start;
      while true
        invariant j < n <= |h| == old(|h|) && Loose() && RisesAt(keys, n, j)
        invariant Elems(h) == old(Elems(h)) && h[n..] == old(h)[n..]
        decreases j
      {
        var i: nat := if j == 0 then 0 else (j - 1) / 2;
        if i == j || !Less(j, i) {
          Risen(keys, n, j);
          break;
        }
        RiseStep(keys, n, j);
        Swap(i, j);
        j := i;
      }
    }

    /** Let the key at `start` sink among the first `n`. */
    method Down(start: nat, n: nat) returns (moved: bool)
      requires start < n <= |h| && Loose() && OrderedBut(keys, n, start)
      modifies this`h, this`keys, Firsts()`first, Seconds()`second
      ensures Loose() && Elems(h) == old(Elems(h)) && |h| == old(|h|) && h[n..] == old(h)[n..]
      ensures if moved then Ordered(keys, n) else RisesAt(keys, n, start) && h == old(h)
    {
      hide RisesAt, SinksAt, OrderedBut, Ordered, Indexed, Elems;
      var i := start;
      while true
        invariant start <= i < n <= |h| == old(|h|) && Loose() && OrderedBut(keys, n, i)
        invariant if i == start then h == old(h) else SinksAt(keys, n, i)
        invariant Elems(h) == old(Elems(h)) && h[n..] == old(h)[n..]
        decreases n - i
      {
        var j1 := 2 * i + 1;
        if j1 >= n {
          Sunk(keys, n, i);
          break;
        }
        var j := j1;
        if j1 + 1 < n && Less(j1 + 1, j1) { j := j1 + 1; }
        assert j == SmallerChild(keys, n, i);
        if !Less(j, i) {
          Sunk(keys, n, i);
          break;
        }
        SinkStep(keys, n, i);
        Swap(i, j);
        SinkIsBut(keys, n, j);
        i := j;
      }
      moved := i > start;
    }

    /** `container.Heap.Pop`: take the last entry off. */
    method TakeLast() returns (e: Entry<P>)
      requires |h| > 0 && Loose()
      modifies this`h, this`keys, Firsts()`first, Seconds()`second
      ensures Loose() && e == old(h)[|old(h)| - 1] && h == old(h)[..|old(h)| - 1]
      ensures keys == old(keys)[..|old(keys)| - 1]
      ensures Elems(h) == old(Elems(h)) - {e}
      ensures old(Ordered(keys, |h| - 1)) ==> Valid()
    {
      DropLast(h);
      var n := |h|;
      SetIndex(n - 1, -1);
      e := h[n - 1];
      h, keys := h[..n - 1], keys[..n - 1];
    }

    /** `heap.Push`. */
    method Push(e: Entry<P>)
      requires Valid() && e !in h && Ranks(e)
      modifies this`h, this`keys, Firsts()`first, Seconds()`second
      modifies (if side.First? then {e} else {})`first, (if side.Second? then {e} else {})`second
      ensures Valid() && Elems(h) == old(Elems(h)) + {e} && |h| == old(|h|) + 1
    {
      hide RisesAt, Ordered;
      AppendRises(keys, rank(e.data));
      h, keys := h + [e], keys + [rank(e.data)];
      SetIndex(|h| - 1, |h| - 1);
      assert Elems(h) == old(Elems(h)) + {e};
      Up(|h| - 1, |h|);
    }

    /** `heap.Pop`: the entry of least rank. */
    method Pop() returns (e: Entry<P>)
      requires Valid() && |h| > 0
      modifies this`h, this`keys, Firsts()`first, Seconds()`second
      ensures Valid() && e in old(h) && Elems(h) == old(Elems(h)) - {e} && |h| == old(|h|) - 1
      ensures Ranks(e) && forall x | x in old(h) :: Ranks(x) && rank(e.data) <= rank(x.data)
    {
      hide RisesAt, OrderedBut, Ordered, Indexed, Elems;
      Least();
      var n := |h| - 1;
      Shorter(keys, n);
      if n > 0 { LastToHole(keys, 0); }
      Swap(0, n);
      if n > 0 {
        ghost var last := h[n..];
        var moved := Down(0, n);
        if !moved { Risen(keys, n, 0); }
        assert h[n] == last[0];
      } else {
        assert keys == old(keys);
      }
      e := TakeLast();
    }

    lemma Least()
      requires Valid() && |h| > 0
      ensures Ranks(h[0]) && forall x | x in h :: Ranks(x) && rank(h[0].data) <= rank(x.data)
    {
      forall x | x in h ensures Ranks(x) && rank(h[0].data) <= rank(x.data) {
        var k :| 0 <= k < |h| && h[k] == x;
        FirstIsLeast(keys, |keys|, k);
      }
    }

    /** `heap.Remove`. */
    method Remove(i: nat) returns (e: Entry<P>)
      requires Valid() && i < |h|
      modifies this`h, this`keys, Firsts()`first, Seconds()`second
      ensures Valid() && e == old(h)[i] && Elems(h) == old(Elems(h)) - {e} && |h| == old(|h|) - 1
    {
      hide RisesAt, OrderedBut, Ordered, Indexed, Elems;
      var n := |h| - 1;
      Shorter(keys, n);
      if n != i {
        LastToHole(keys, i);
        Swap(i, n);
        ghost var last := h[n..];
        var moved := Down(i, n);
        if !moved { Up(i, n); }
        assert h[n] == last[0];
      }
      e := TakeLast();
    }
  }

  /** Two heaps over the same entries, each keeping its own index field. */
  ghost predicate Twins<P>(i: Heap<P>, j: Heap<P>, all: set<Entry<P>>)
    reads i, j, all
  {
    && i != j && i.side.First? && j.side.Second?
    && Elems(i.h) == all == Elems(j.h) && i.Valid() && j.Valid()
  }

  /** Every entry is where its index fields say. */
  lemma Placed<P>(i: Heap<P>, j: Heap<P>, all: set<Entry<P>>, y: Entry<P>)
    requires Twins(i, j, all) && y in all
    ensures 0 <= y.first < |i.h| && i.h[y.first] == y
    ensures 0 <= y.second < |j.h| && j.h[y.second] == y
  {
    assert y in Elems(i.h) && y in Elems(j.h);
  }

  /** Take an entry out of both heaps by its index fields. */
  method Detach<P>(i: Heap<P>, j: Heap<P>, ghost all: set<Entry<P>>, y: Entry<P>)
    requires Twins(i, j, all) && y in all
    modifies i`h, i`keys, j`h, j`keys, all`first, all`second
    ensures Twins(i, j, all - {y})
  {
    hide Ordered;
    Placed(i, j, all, y);
    var z1 := i.Remove(y.first);
    var z2 := j.Remove(y.second);
    assert z1 == y && z2 == y;
  }

  /** An entry outside both heaps may change. */
  method SetData<P>(ghost i: Heap<P>, ghost j: Heap<P>, ghost all: set<Entry<P>>, y: Entry<P>, data: P)
    requires Twins(i, j, all) && y !in all
    modifies y`data
    ensures Twins(i, j, all) && y.data == data
  {
    y.data := data;
  }

  method Attach<P>(i: Heap<P>, j: Heap<P>, ghost all: set<Entry<P>>, y: Entry<P>)
    requires Twins(i, j, all) && y !in all && i.Ranks(y) && j.Ranks(y)
    modifies i`h, i`keys, j`h, j`keys, (all + {y})`first, (all + {y})`second
    ensures Twins(i, j, all + {y})
  {
    hide Ordered;
    i.Push(y);
    j.Push(y);
  }

  /** Between popping `z` from the first heap and settling it in the second. */
  ghost predicate Lopsided<P>(i: Heap<P>, j: Heap<P>, all: set<Entry<P>>, z: Entry<P>)
    reads i, j, all
  {
    && i != j && i.side.First? && j.side.Second? && z in all && i.Ranks(z)
    && Elems(i.h) == all - {z} && Elems(j.h) == all && i.Valid() && j.Valid()
  }

  method PopFirst<P>(i: Heap<P>, ghost j: Heap<P>, ghost all: set<Entry<P>>) returns (z: Entry<P>)
    requires Twins(i, j, all) && |i.h| > 0
    modifies i`h, i`keys, all`first
    ensures Lopsided(i, j, all, z) && z in all
    ensures i.Ranks(z) && forall x | x in all :: i.Ranks(x) && i.rank(z.data) <= i.rank(x.data)
  {
    hide Ordered;
    z := i.Pop();
    assert z in old(Elems(i.h));
    forall x | x in all ensures i.Ranks(x) && i.rank(z.data) <= i.rank(x.data) { assert x in old(Elems(i.h)); }
  }

  method PushBack<P>(i: Heap<P>, ghost j: Heap<P>, ghost all: set<Entry<P>>, z: Entry<P>)
    requires Lopsided(i, j, all, z)
    modifies i`h, i`keys, all`first
    ensures Twins(i, j, all)
  {
    hide Ordered;
    i.Push(z);
  }

  method RemoveSecond<P>(ghost i: Heap<P>, j: Heap<P>, ghost all: set<Entry<P>>, z: Entry<P>) returns (v: Entry<P>)
    requires Lopsided(i, j, all, z)
    modifies j`h, j`keys, all`second
    ensures Twins(i, j, all - {z}) && v == z
  {
    hide Ordered;
    assert z in Elems(j.h);
    v := j.Remove(z.second);
  }

  lemma SameSize<P>(h: seq<Entry<P>>)
    ensures h == [] <==> Elems(h) == {}
  {
    if h != [] { assert h[0] in Elems(h); }
  }

  /** The entries already taken from a heap, in order, all ranked before those still in it. */
  ghost predicate Drained<P>(taken: seq<Entry<P>>, a: Heap<P>, all: set<Entry<P>>)
    reads a, Elems(a.h), Elems(taken), a.Firsts()`first, a.Seconds()`second
  {
    && a.Valid() && Distinct(taken) && Elems(taken) + Elems(a.h) == all && Elems(taken) !! Elems(a.h)
    && (forall k | 0 <= k < |taken| :: a.Ranks(taken[k])) && (forall x | x in a.h :: a.Ranks(x))
    && (forall k, l | 0 <= k < l < |taken| :: a.rank(taken[k].data) <= a.rank(taken[l].data))
    && (forall k, x | 0 <= k < |taken| && x in a.h :: a.rank(taken[k].data) <= a.rank(x.data))
  }

  /** Take one more. */
  method Drain<P>(ghost taken: seq<Entry<P>>, a: Heap<P>, ghost all: set<Entry<P>>) returns (z: Entry<P>)
    requires Drained(taken, a, all) && |a.h| > 0 && a.side.Snapshot?
    modifies a`h, a`keys
    ensures Drained(taken + [z], a, all) && |a.h| == old(|a.h|) - 1 && z in all
  {
    hide Heap.Valid;
    z := a.Pop();
    assert z in old(Elems(a.h));
    assert Elems(taken + [z]) == Elems(taken) + {z};
    forall x | x in a.h ensures x in old(a.h) && x != z { assert x in Elems(a.h); }
  }

  method CopyOf<P>(ghost i: Heap<P>, j: Heap<P>, ghost all: set<Entry<P>>) returns (a: Heap<P>)
    requires Twins(i, j, all)
    ensures fresh(a) && a.side.Snapshot? && a.rank == j.rank && Drained([], a, all)
  {
    a := new Heap<P>.SnapshotOf(j);
  }
}
