/** Sets of trie positions: what a well-formed trie's positions look like. */
module TrieShape {
  import opened Wrappers
  import opened Text
  import opened Paths

  /** With a position, every position above it is there. */
  ghost predicate Closed(keys: set<Path>) {
    Root in keys && forall p :: p in keys && p.Child? ==> p.up in keys
  }

  /** Some position lies directly below `p`. */
  ghost predicate HasChild(keys: set<Path>, p: Path) {
    exists s :: Child(p, s) in keys
  }

  /** Every position other than the root and `except` carries a pool or leads on. */
  ghost predicate Live(keys: set<Path>, pools: set<Path>, except: Path) {
    forall p :: p in keys && p != Root && p != except && p !in pools ==> HasChild(keys, p)
  }

  lemma {:induction false} ClosedPrefix(keys: set<Path>, a: Path, p: Path)
    requires Closed(keys) && p in keys && IsPrefix(a, p)
    ensures a in keys
  {
    if a != p { ClosedPrefix(keys, a, p.up); }
  }

  /** Walking a key only goes down. */
  lemma {:induction false} WalkDown(from: Path, key: string)
    ensures IsPrefix(from, Walk(from, key)) && from != Walk(from, key)
    decreases |key|
  {
    hide IndexOf;
    var i := IndexOf(key, '/');
    if i >= 0 {
      var mid := Child(from, key[..i]);
      WalkDown(mid, key[i + 1..]);
      assert IsPrefix(from, mid);
      PrefixTransitive(from, mid, Walk(from, key));
      PrefixDepth(from, mid);
      PrefixDepth(mid, Walk(from, key));
    }
  }

  /** Adding a child gives its parent something below; only the new leaf may be bare. */
  lemma LiveAdded(keys: set<Path>, pools: set<Path>, p: Path, s: string)
    requires Live(keys, pools, p)
    ensures Live(keys + {Child(p, s)}, pools, Child(p, s))
  {
    var keys' := keys + {Child(p, s)};
    forall q | q in keys' && q != Root && q != Child(p, s) && q !in pools ensures HasChild(keys', q) {
      if q == p {
        assert Child(q, s) in keys';
      } else {
        var t :| Child(q, t) in keys;
        assert Child(q, t) in keys';
      }
    }
  }

  lemma LiveStep(keys: set<Path>, pools: set<Path>, p: Path, s: string)
    requires Live(keys, pools, p) && Child(p, s) in keys
    ensures Live(keys, pools, Child(p, s))
  {
    if p in keys { assert HasChild(keys, p); }
  }

  lemma LiveLeaf(keys: set<Path>, pools: set<Path>, p: Path, s: string)
    requires Live(keys, pools, p) && Child(p, s) in keys
    ensures Live(keys, pools, Root)
  {
    assert HasChild(keys, p);
  }

  lemma LiveExcept(keys: set<Path>, pools: set<Path>, p: Path)
    requires Live(keys, pools, Root)
    ensures Live(keys, pools, p)
  {
  }

  lemma LiveUnset(keys: set<Path>, pools: set<Path>, p: Path)
    requires Live(keys, pools, Root) || Live(keys, pools, p)
    ensures Live(keys, pools - {p}, p)
  {
  }

  /** `r` lies on the way from `q` (exclusive) down to `p` (inclusive). */
  predicate Between(q: Path, r: Path, p: Path) {
    IsPrefix(q, r) && q != r && IsPrefix(r, p)
  }

  /** Below `q`, on the branch towards `p`, there is nothing but empty pools on the way to `p`. */
  ghost predicate Reached(pools: set<Path>, empties: set<Path>, p: Path, q: Path) {
    forall x, r :: x in pools && Between(q, r, p) && IsPrefix(r, x) ==> x in empties && IsPrefix(x, p)
  }

  /** What snipping at `p` takes off: the empty pools at and above `p` that it reaches. */
  ghost function Snipped(pools: set<Path>, empties: set<Path>, p: Path): set<Path> {
    set q | q in pools && q in empties && IsPrefix(q, p) && Reached(pools, empties, p, q)
  }

  lemma ReachedSelf(pools: set<Path>, empties: set<Path>, p: Path)
    ensures Reached(pools, empties, p, p)
  {
    forall r | Between(p, r, p) ensures false {
      PrefixDepth(p, r);
      PrefixDepth(r, p);
    }
  }

  /** A pool that stays, at or below `p`, stops the snipping at `p`. */
  lemma SnipStop(pools: set<Path>, empties: set<Path>, p: Path, x: Path)
    requires x in pools && IsPrefix(p, x) && !(x in empties && IsPrefix(x, p))
    ensures Snipped(pools, empties, p) == pools * empties * {p}
  {
    ReachedSelf(pools, empties, p);
    assert IsPrefix(p, p);
    forall q | IsPrefix(q, p) && q != p ensures !Reached(pools, empties, p, q) {
      assert Between(q, p, p);
    }
  }

  /** When at most the pool at `p` is empty, only that one can go. */
  lemma SnippedOnly(pools: set<Path>, empties: set<Path>, p: Path)
    requires empties <= {p}
    ensures Snipped(pools, empties, p) == pools * empties
  {
    ReachedSelf(pools, empties, p);
    assert IsPrefix(p, p);
  }

  lemma SnipRoot(pools: set<Path>, empties: set<Path>)
    requires Root !in pools
    ensures Snipped(pools, empties, Root) == {}
  {
  }

  /** With nothing else below `p`, snipping goes on one step up. */
  lemma SnipUp(pools: set<Path>, empties: set<Path>, p: Path)
    requires p.Child? && forall x :: x in pools && IsPrefix(p, x) ==> x == p && x in empties
    ensures Snipped(pools, empties, p) == pools * {p} + Snipped(pools - {p}, empties, p.up)
  {
    ReachedSelf(pools, empties, p);
    PrefixUp(p);
    forall q | IsPrefix(q, p.up)
      ensures Reached(pools, empties, p, q) <==> Reached(pools - {p}, empties, p.up, q)
    {
      ReachedUp(pools, empties, p, q);
    }
  }

  lemma ReachedUp(pools: set<Path>, empties: set<Path>, p: Path, q: Path)
    requires p.Child? && IsPrefix(q, p.up) && forall x :: x in pools && IsPrefix(p, x) ==> x == p && x in empties
    ensures Reached(pools, empties, p, q) <==> Reached(pools - {p}, empties, p.up, q)
  {
    var rest := pools - {p};
    if Reached(pools, empties, p, q) {
      forall x, r | x in rest && Between(q, r, p.up) && IsPrefix(r, x) ensures x in empties && IsPrefix(x, p.up) {
        assert Between(q, r, p);
      }
    }
    if Reached(rest, empties, p.up, q) {
      forall x, r | x in pools && Between(q, r, p) && IsPrefix(r, x) ensures x in empties && IsPrefix(x, p) {
        if r != p { assert Between(q, r, p.up); }
        if x == p { assert IsPrefix(p, p) && x in empties; }
      }
    }
  }

  ghost function Below(keys: set<Path>, p: Path): set<Path> {
    set x | x in keys && IsPrefix(p, x)
  }

  /** Every live branch ends in a pool. */
  lemma {:induction false} PoolBelow(keys: set<Path>, pools: set<Path>, p: Path, e: Path) returns (x: Path)
    requires Live(keys, pools, e) && p in keys && p != Root && !IsPrefix(p, e)
    ensures x in pools && IsPrefix(p, x)
    decreases |Below(keys, p)|
  {
    if p in pools {
      x := p;
    } else {
      assert HasChild(keys, p);
      var s :| Child(p, s) in keys;
      var c := Child(p, s);
      SmallerBelow(keys, p, s);
      if IsPrefix(c, e) { PrefixTransitive(p, c, e); }
      x := PoolBelow(keys, pools, c, e);
      PrefixTransitive(p, c, x);
    }
  }

  lemma SmallerBelow(keys: set<Path>, p: Path, s: string)
    requires p in keys
    ensures Below(keys, Child(p, s)) < Below(keys, p)
    ensures |Below(keys, Child(p, s))| < |Below(keys, p)|
  {
    var c := Child(p, s);
    forall x | x in Below(keys, c) ensures x in Below(keys, p) { PrefixTransitive(p, c, x); }
    PrefixUp(c);
    assert p in Below(keys, p) && p !in Below(keys, c);
    ProperSubsetSize(Below(keys, c), Below(keys, p));
  }

  lemma FewerBelow(keys: set<Path>, keys': set<Path>, p: Path, s: string)
    requires p in keys && keys' <= keys
    ensures |Below(keys', Child(p, s))| < |Below(keys, p)|
  {
    SmallerBelow(keys, p, s);
    assert Below(keys', Child(p, s)) <= Below(keys, Child(p, s));
    assert Below(keys', Child(p, s)) < Below(keys, p);
    ProperSubsetSize(Below(keys', Child(p, s)), Below(keys, p));
  }

  lemma ProperSubsetSize<T>(a: set<T>, b: set<T>)
    requires a < b
    ensures |a| < |b|
  {
    assert b == a + (b - a) && b - a != {};
  }

  lemma {:induction false} RootIsPrefix(p: Path)
    ensures IsPrefix(Root, p)
  {
    if p.Child? { RootIsPrefix(p.up); }
  }

  lemma BelowRoot(keys: set<Path>)
    ensures Below(keys, Root) == keys
  {
    forall p | p in keys ensures IsPrefix(Root, p) { RootIsPrefix(p); }
  }

  /** The positions at `p` and below its children `done`. */
  ghost function Counted(pools: set<Path>, p: Path, done: set<string>): set<Path> {
    set q | q in pools && (q == p || exists s :: s in done && IsPrefix(Child(p, s), q))
  }

  lemma CountedNone(pools: set<Path>, p: Path)
    ensures Counted(pools, p, {}) == pools * {p}
    ensures |Counted(pools, p, {})| == if p in pools then 1 else 0
  {
    assert pools * {p} == if p in pools then {p} else {};
  }

  lemma SameChild(p: Path, s: string, t: string, q: Path)
    requires IsPrefix(Child(p, s), q) && IsPrefix(Child(p, t), q)
    ensures s == t && q != p
  {
    PrefixesChain(Child(p, s), Child(p, t), q);
    if IsPrefix(Child(p, s), Child(p, t)) {
      PrefixDepth(Child(p, s), Child(p, t));
    } else {
      PrefixDepth(Child(p, t), Child(p, s));
    }
    PrefixDepth(Child(p, s), q);
  }

  lemma CountedStep(pools: set<Path>, p: Path, done: set<string>, s: string)
    requires s !in done
    ensures |Counted(pools, p, done + {s})| == |Counted(pools, p, done)| + |Below(pools, Child(p, s))|
    ensures Counted(pools, p, done + {s}) == Counted(pools, p, done) + Below(pools, Child(p, s))
    ensures Counted(pools, p, done) !! Below(pools, Child(p, s))
  {
    var a, b := Counted(pools, p, done), Below(pools, Child(p, s));
    forall q | q in a && q in b ensures false {
      if q == p {
        SameChild(p, s, s, q);
      } else {
        var t :| t in done && IsPrefix(Child(p, t), q);
        SameChild(p, s, t, q);
      }
    }
    assert Counted(pools, p, done + {s}) == a + b;
    assert a !! b;
  }

  /** Cutting off a bare leaf can leave only its parent bare. */
  lemma LiveCut(keys: set<Path>, pools: set<Path>, p: Path)
    requires p.Child? && Live(keys, pools, p)
    ensures Live(KeysWithout(keys, p), pools, p.up)
  {
    var keys' := KeysWithout(keys, p);
    forall q | q in keys' && q != Root && q != p.up && q !in pools ensures HasChild(keys', q) {
      assert IsPrefix(p, p);
      assert HasChild(keys, q);
      var s :| Child(q, s) in keys;
      assert Child(q, s) in keys';
    }
  }

  lemma LiveSet(keys: set<Path>, pools: set<Path>, p: Path)
    requires Live(keys, pools, p)
    ensures Live(keys, pools + {p}, Root)
  {
  }

  lemma PrefixUp(p: Path)
    requires p.Child?
    ensures !IsPrefix(p, p.up)
  {
    if IsPrefix(p, p.up) { PrefixDepth(p, p.up); }
  }

  lemma PrefixUpUp(p: Path)
    requires p.Child? && p.up.Child?
    ensures !IsPrefix(p, p.up.up)
  {
    if IsPrefix(p, p.up.up) { PrefixDepth(p, p.up.up); }
  }

  ghost function KeysWithout(keys: set<Path>, cut: Path): set<Path> {
    set q | q in keys && !IsPrefix(cut, q)
  }

  lemma CutClosed(keys: set<Path>, cut: Path)
    requires Closed(keys) && cut.Child?
    ensures Closed(KeysWithout(keys, cut))
  {
  }

  /** `p` stays when a branch below it is cut: it is the root, has a pool, or a second child. */
  ghost predicate Kept(keys: set<Path>, pools: set<Path>, p: Path) {
    p == Root || p in pools || exists s, t :: s != t && Child(p, s) in keys && Child(p, t) in keys
  }

  /** From `top`, the branch leads only to `cur` (and on), and carries no pool up to `cur`. */
  ghost predicate OnlyTo(keys: set<Path>, pools: set<Path>, top: Path, cur: Path) {
    && IsPrefix(top, cur)
    && forall x :: x in keys && IsPrefix(top, x) ==> (IsPrefix(x, cur) && x !in pools) || (IsPrefix(cur, x) && x != cur)
  }

  /** Whatever is strictly below `cur` is below one of its children. */
  lemma {:induction false} BelowChild(cur: Path, x: Path) returns (s: string)
    requires IsPrefix(cur, x) && cur != x
    ensures IsPrefix(Child(cur, s), x)
  {
    if x.up == cur {
      s := x.segment;
    } else {
      s := BelowChild(cur, x.up);
    }
  }

  /** The branch goes on through the only child. */
  lemma OnlyToStep(keys: set<Path>, pools: set<Path>, top: Path, cur: Path, s: string)
    requires Closed(keys) && OnlyTo(keys, pools, top, cur) && Child(cur, s) !in pools
    requires forall t :: Child(cur, t) in keys ==> t == s
    ensures OnlyTo(keys, pools, top, Child(cur, s))
  {
    var next := Child(cur, s);
    forall x | x in keys && IsPrefix(top, x)
      ensures (IsPrefix(x, next) && x !in pools) || (IsPrefix(next, x) && x != next)
    {
      if IsPrefix(cur, x) && x != cur {
        var t := BelowChild(cur, x);
        ClosedPrefix(keys, Child(cur, t), x);
      }
    }
  }

  lemma OnlyToSelf(keys: set<Path>, pools: set<Path>, p: Path)
    requires p !in pools
    ensures OnlyTo(keys, pools, p, p)
  {
  }

  /** Cutting the branch that only leads to the bare leaf `target` leaves every branch live. */
  lemma CutLive(keys: set<Path>, pools: set<Path>, cut: Path, target: Path)
    requires Closed(keys) && pools <= keys && Live(keys, pools, target) && cut.Child? && cut.up in keys
    requires Kept(keys, pools, cut.up) && OnlyTo(keys, pools, cut, target) && !HasChild(keys, target)
    ensures Live(KeysWithout(keys, cut), pools, Root)
    ensures forall q :: q in pools ==> !IsPrefix(cut, q)
  {
    var keys' := KeysWithout(keys, cut);
    forall q | q in keys && IsPrefix(cut, q) ensures q !in pools && IsPrefix(q, target) {
      if IsPrefix(target, q) && q != target {
        var t := BelowChild(target, q);
        ClosedPrefix(keys, Child(target, t), q);
      }
    }
    forall q | q in keys' && q != Root && q !in pools ensures HasChild(keys', q) {
      CutKeepsChild(keys, pools, cut, target, q);
    }
  }

  lemma CutKeepsChild(keys: set<Path>, pools: set<Path>, cut: Path, target: Path, q: Path)
    requires Live(keys, pools, target) && cut.Child? && IsPrefix(cut, target)
    requires Kept(keys, pools, cut.up) && q in keys && !IsPrefix(cut, q) && q != Root && q !in pools
    ensures HasChild(KeysWithout(keys, cut), q)
  {
    var s: string;
    if q == cut.up {
      var a, b :| a != b && Child(q, a) in keys && Child(q, b) in keys;
      s := if Child(q, a) == cut then b else a;
    } else {
      assert HasChild(keys, q);
      s :| Child(q, s) in keys;
    }
    assert Child(q, s) in KeysWithout(keys, cut);
  }

  /** A step that cannot be taken ends the search: nothing below is registered. */
  lemma DeadEnd(keys: set<Path>, pools: set<Path>, cur: Path, next: Path, target: Path)
    requires Closed(keys) && pools <= keys && next.Child? && next.up == cur && next !in keys
    requires IsPrefix(next, target)
    ensures target !in keys
    ensures LongestMatch(pools, target) == LongestMatch(pools, cur)
  {
    forall k | k in pools && IsPrefix(k, target) ensures IsPrefix(k, cur) {
      PrefixesChain(k, next, target);
      if IsPrefix(next, k) {
        ClosedPrefix(keys, next, k);
      }
    }
    if target in keys { ClosedPrefix(keys, next, target); }
    assert IsPrefix(cur, next);
    PrefixTransitive(cur, next, target);
    SameMatch(pools, cur, target);
  }

  lemma SameMatch(pools: set<Path>, cur: Path, target: Path)
    requires IsPrefix(cur, target)
    requires forall k :: k in pools && IsPrefix(k, target) ==> IsPrefix(k, cur)
    ensures LongestMatch(pools, target) == LongestMatch(pools, cur)
  {
    LongestMatchMeaning(pools, cur);
    LongestMatchMeaning(pools, target);
    match LongestMatch(pools, cur)
    case None =>
    case Some(m) => PrefixTransitive(m, cur, target);
  }
}

/** The route trie (registry/container/trie.go). */
module Tries {
  import opened Wrappers
  import opened Text
  import opened Paths
  import opened Uris
  import opened TrieShape
  import opened Pools

  /** The nodes that remain when the branch at `cut` goes. */
  ghost function Without(nodes: map<Path, Trie>, cut: Path): map<Path, Trie> {
    map q | q in nodes && !IsPrefix(cut, q) :: nodes[q]
  }

  class Trie {
    var segment: string
    var pool: Pool?
    var children: map<string, Trie>
    var parent: Trie?
    /** Where this node is. */
    ghost const path: Path
    /** For the root: every node, and every registered pool, by position. */
    ghost var nodes: map<Path, Trie>
    ghost var pools: map<Path, Pool>

    constructor ()
      ensures segment == "" && pool == null && children == map[] && parent == null
      ensures path == Root && nodes == map[Root := this] && pools == map[]
      ensures Valid()
    {
      segment, pool, children, parent := "", null, map[], null;
      path := Root;
      new;
      nodes, pools := map[Root := this], map[];
    }

    constructor UnderNode(segment: string, parent: Trie, ghost path: Path)
      ensures this.segment == segment && pool == null && children == map[] && this.parent == parent
      ensures this.path == path
    {
      this.segment, pool, children, this.parent := segment, null, map[], parent;
      this.path := path;
    }

    /** This node's fields are what its position says: links up and down, segment and pool. */
    ghost predicate NodeOk(p: Path, nodes: map<Path, Trie>, pools: map<Path, Pool>)
      reads this`segment, this`pool, this`children, this`parent
    {
      && path == p
      && pool == (if p in pools then pools[p] else null)
      && (forall s :: s in children <==> Child(p, s) in nodes)
      && (forall s :: s in children ==> children[s] == nodes[Child(p, s)])
      && match p
         case Root => parent == null
         case Child(up, s) => up in nodes && parent == nodes[up] && segment == s
    }

    ghost predicate Wired()
      reads this`nodes, this`pools, nodes.Values
    {
      && Closed(nodes.Keys) && nodes[Root] == this
      && pools.Keys <= nodes.Keys && Root !in pools
      && forall p :: p in nodes ==> nodes[p].NodeOk(p, nodes, pools)
    }

    /** The trie is exactly the map `pools`, with no branch that leads nowhere. */
    ghost predicate Valid()
      reads this`nodes, this`pools, nodes.Values
    {
      Wired() && Live(nodes.Keys, pools.Keys, Root)
    }

    /** `Find`: exact lookup. */
    method Find(uri: string) returns (r: Pool?)
      requires Valid()
      ensures r == if UriPath(uri) in pools then pools[UriPath(uri)] else null
    {
      hide Walk, SplitFirst, Live, Trie.NodeOk, Trie.Wired;
      var key := TrieKey(uri);
      var node := this;
      ghost var cur, target := Root, UriPath(uri);
      RootAt();
      while true
        invariant cur in nodes && nodes[cur] == node && Walk(cur, key) == target
        decreases |key|
      {
        var k := SplitFirst(key);
        ghost var next := Child(cur, k.head);
        WalkStep(cur, key);
        ChildAt(cur, k.head);
        if k.head !in node.children {
          Stuck(cur, k.head, key, target);
          return null;
        }
        node, cur := node.children[k.head], next;
        ChildAt(cur, "");
        if k.rest.None? { return node.pool; }
        key := k.rest.value;
      }
    }

    /** `MatchUri`: the longest registered prefix. */
    method MatchUri(uri: string) returns (r: Pool?)
      requires Valid()
      ensures r == Nearest(UriPath(uri))
    {
      hide Walk, SplitFirst, Live, Trie.NodeOk, Trie.Wired;
      var key := TrieKey(uri);
      var node := this;
      var lastPool: Pool? := null;
      ghost var cur, target := Root, UriPath(uri);
      RootAt();
      while true
        invariant cur in nodes && nodes[cur] == node && Walk(cur, key) == target
        invariant lastPool == Nearest(cur)
        decreases |key|
      {
        var k := SplitFirst(key);
        ghost var next := Child(cur, k.head);
        WalkStep(cur, key);
        ChildAt(cur, k.head);
        if k.head !in node.children {
          Stuck(cur, k.head, key, target);
          break;
        }
        node, cur := node.children[k.head], next;
        ChildAt(cur, "");
        if node.pool != null { lastPool := node.pool; }
        if k.rest.None? { break; }
        key := k.rest.value;
      }
      ChildAt(cur, "");
      r := if node.pool != null then node.pool else lastPool;
    }

    /** The pool of the deepest registered prefix of `p`. */
    ghost function Nearest(p: Path): Pool?
      reads this`pools
    {
      var m := LongestMatch(pools.Keys, p);
      if m.Some? then pools[m.value] else null
    }

    lemma RootAt()
      requires Wired()
      ensures Root in nodes && nodes[Root] == this && Root !in pools && Nearest(Root) == null
      ensures pools.Keys <= nodes.Keys
    {
    }

    /** The nodes are the root and the prefixes of registered positions, no more. */
    lemma NodesArePrefixes(p: Path)
      requires Valid()
      ensures p in nodes <==> p == Root || exists q :: q in pools && IsPrefix(p, q)
    {
      hide Trie.NodeOk;
      if p in nodes && p != Root {
        var q := PoolBelow(nodes.Keys, pools.Keys, p, Root);
      }
      if q :| q in pools && IsPrefix(p, q) {
        ClosedPrefix(nodes.Keys, p, q);
      }
    }

    lemma Facts()
      requires Valid()
      ensures Wired() && Closed(nodes.Keys) && pools.Keys <= nodes.Keys && Live(nodes.Keys, pools.Keys, Root)
    {
    }

    /** No child for the next segment: the target is not there, and nothing deeper than here is. */
    lemma Stuck(cur: Path, seg: string, key: string, target: Path)
      requires Wired() && cur in nodes && Child(cur, seg) !in nodes
      requires seg == SplitFirst(key).head && target == Walk(cur, key)
      ensures target !in pools && Nearest(target) == Nearest(cur)
    {
      var next, k := Child(cur, seg), SplitFirst(key);
      if k.rest.Some? { WalkDown(next, k.rest.value); }
      DeadEnd(nodes.Keys, pools.Keys, cur, next, target);
    }

    /** What a node's children are. */
    lemma ChildAt(p: Path, seg: string)
      requires Wired() && p in nodes
      ensures seg in nodes[p].children <==> Child(p, seg) in nodes
      ensures seg in nodes[p].children ==> nodes[p].children[seg] == nodes[Child(p, seg)]
      ensures nodes[p].pool == if p in pools then pools[p] else null
      ensures p.Child? ==> p.up in nodes && nodes[p].parent == nodes[p.up] && nodes[p].segment == p.segment
      ensures p.Root? ==> nodes[p].parent == null
      ensures nodes[p].path == p
    {
      assert nodes[p].NodeOk(p, nodes, pools);
    }

    /** Different positions are different nodes. */
    lemma NodesApart(p: Path, q: Path)
      requires Wired() && p in nodes && q in nodes && p != q
      ensures nodes[p] != nodes[q]
    {
      assert nodes[p].NodeOk(p, nodes, pools) && nodes[q].NodeOk(q, nodes, pools);
    }

    /** A node elsewhere does not notice a new child of `p`. */
    lemma NodeOkAdded(q: Path, p: Path, seg: string, child: Trie, nodes': map<Path, Trie>, pools': map<Path, Pool>)
      requires NodeOk(q, nodes', pools') && q != p && Child(p, seg) !in nodes'
      ensures NodeOk(q, nodes'[Child(p, seg) := child], pools')
    {
    }

    /** Creates the missing child of `node`. */
    method AddChild(node: Trie, seg: string, ghost p: Path) returns (child: Trie)
      requires Wired() && p in nodes && nodes[p] == node && Child(p, seg) !in nodes
      modifies this`nodes, node`children
      ensures fresh(child) && nodes == old(nodes)[Child(p, seg) := child]
      ensures Wired()
    {
      hide Trie.NodeOk;
      child := new Trie.UnderNode(seg, node, Child(p, seg));
      ghost var nodes' := nodes[Child(p, seg) := child];
      forall q | q in nodes && q != p ensures nodes[q].NodeOk(q, nodes', pools) && nodes[q] != node {
        nodes[q].NodeOkAdded(q, p, seg, child, nodes, pools);
        NodesApart(q, p);
      }
      Attach(node, seg, p, child, nodes');
      nodes := nodes';
    }

    /** The two nodes that do notice. */
    method Attach(node: Trie, seg: string, ghost p: Path, child: Trie, ghost nodes': map<Path, Trie>)
      requires Wired() && p in nodes && nodes[p] == node && Child(p, seg) !in nodes
      requires child.segment == seg && child.pool == null && child.children == map[] && child.parent == node
      requires child.path == Child(p, seg) && nodes' == nodes[Child(p, seg) := child]
      modifies node`children
      ensures node.NodeOk(p, nodes', pools) && child.NodeOk(Child(p, seg), nodes', pools)
    {
      assert node.NodeOk(p, nodes, pools);
      node.children := node.children[seg := child];
      forall s ensures Child(Child(p, seg), s) !in nodes' {
        if Child(Child(p, seg), s) in nodes { assert false; }
      }
    }

    lemma NodeOkPools(q: Path, nodes': map<Path, Trie>, pools': map<Path, Pool>, other: map<Path, Pool>)
      requires NodeOk(q, nodes', pools')
      requires if q in pools' then q in other && other[q] == pools'[q] else q !in other
      ensures NodeOk(q, nodes', other)
    {
    }

    /** `node.Pool = value`. */
    static method SetPool(ghost root: Trie, node: Trie, value: Pool?, ghost p: Path)
      requires root.Wired() && p in root.nodes && root.nodes[p] == node && p != Root
      modifies root`pools, node`pool
      ensures root.Wired()
      ensures root.pools == if value != null then old(root.pools)[p := value] else old(root.pools) - {p}
    {
      hide Trie.NodeOk, Closed;
      ghost var nodes, pools := root.nodes, root.pools;
      ghost var pools' := if value != null then pools[p := value] else pools - {p};
      forall q | q in nodes && q != p ensures nodes[q].NodeOk(q, nodes, pools') && nodes[q] != node {
        assert nodes[q].NodeOk(q, nodes, pools);
        nodes[q].NodeOkPools(q, nodes, pools, pools');
        root.NodesApart(q, p);
      }
      assert node.NodeOk(p, nodes, pools);
      node.AssignPool(value, p, nodes, pools, pools');
      root.pools := pools';
    }

    method AssignPool(value: Pool?, ghost p: Path, ghost nodes': map<Path, Trie>, ghost pools': map<Path, Pool>, ghost next: map<Path, Pool>)
      requires NodeOk(p, nodes', pools')
      requires value == if p in next then next[p] else null
      modifies this`pool
      ensures NodeOk(p, nodes', next)
    {
      pool := value;
    }

    /** The child of `node` for `seg`, created if missing. */
    method Descend(node: Trie, seg: string, ghost p: Path) returns (child: Trie)
      requires Wired() && p in nodes && nodes[p] == node && Live(nodes.Keys, pools.Keys, p)
      modifies this`nodes, node`children
      ensures Wired() && Live(nodes.Keys, pools.Keys, Child(p, seg))
      ensures Child(p, seg) in nodes && nodes[Child(p, seg)] == child
      ensures nodes == old(nodes) || (fresh(child) && nodes == old(nodes)[Child(p, seg) := child])
    {
      hide Trie.NodeOk, Closed;
      ChildAt(p, seg);
      if seg in node.children {
        child := node.children[seg];
        LiveStep(nodes.Keys, pools.Keys, p, seg);
      } else {
        LiveAdded(nodes.Keys, pools.Keys, p, seg);
        child := AddChild(node, seg, p);
        assert nodes.Keys == old(nodes.Keys) + {Child(p, seg)};
      }
    }

    /** `Insert`: registers `value` at the URI's position, creating the nodes on the way. */
    method Insert(uri: string, value: Pool) returns (node: Trie)
      requires Valid()
      modifies this`nodes, this`pools, nodes.Values
      ensures Valid()
      ensures pools == old(pools)[UriPath(uri) := value]
      ensures UriPath(uri) in nodes && nodes[UriPath(uri)] == node
      ensures fresh(nodes.Values - old(nodes.Values))
    {
      hide Trie.NodeOk, Closed, Live, Walk, SplitFirst;
      RootAt();
      var key := TrieKey(uri);
      node := this;
      ghost var cur, target := Root, UriPath(uri);
      while true
        invariant Wired() && pools == old(pools)
        invariant cur in nodes && nodes[cur] == node && Walk(cur, key) == target
        invariant Live(nodes.Keys, pools.Keys, cur)
        invariant fresh(nodes.Values - old(nodes.Values))
        decreases |key|
      {
        var k := SplitFirst(key);
        WalkStep(cur, key);
        assert node in nodes.Values;
        node := Descend(node, k.head, cur);
        cur := Child(cur, k.head);
        if k.rest.None? { break; }
        key := k.rest.value;
      }
      assert node in nodes.Values;
      SetPool(this, node, value, cur);
      LiveSet(nodes.Keys, old(pools).Keys, cur);
      assert pools.Keys == old(pools).Keys + {cur};
    }

    // ---------------------------------------------------------------------------------
    // Removal

    /** A node outside the cut does not notice it. */
    lemma NodeOkCut(q: Path, cut: Path, nodes': map<Path, Trie>, pools': map<Path, Pool>)
      requires cut.Child? && q != cut.up && !IsPrefix(cut, q)
      requires NodeOk(q, nodes', pools')
      ensures NodeOk(q, Without(nodes', cut), pools')
    {
      forall s ensures Child(q, s) in nodes' <==> Child(q, s) in Without(nodes', cut) {
      }
      if q.Child? { assert !IsPrefix(cut, q.up); }
    }

    /** `delete(keep.ChildNodes, segment)`: cuts off the whole branch at `cut`. */
    static method Cut(ghost root: Trie, keep: Trie, segment: string, ghost cut: Path)
      requires root.Wired() && cut.Child? && cut.segment == segment && cut in root.nodes && root.nodes[cut.up] == keep
      requires forall q :: q in root.pools ==> !IsPrefix(cut, q)
      modifies root`nodes, keep`children
      ensures root.Wired()
      ensures root.nodes == Without(old(root.nodes), cut)
    {
      hide Trie.NodeOk;
      ghost var nodes, pools := root.nodes, root.pools;
      ghost var nodes' := Without(nodes, cut);
      CutClosed(nodes.Keys, cut);
      PrefixUp(cut);
      forall q | q in nodes' && q != cut.up ensures nodes[q].NodeOk(q, nodes', pools) && nodes[q] != keep {
        assert nodes[q].NodeOk(q, nodes, pools);
        nodes[q].NodeOkCut(q, cut, nodes, pools);
        root.NodesApart(q, cut.up);
      }
      assert keep.NodeOk(cut.up, nodes, pools);
      keep.DropChild(segment, cut, nodes, pools);
      root.nodes := nodes';
      assert root.nodes.Keys == KeysWithout(nodes.Keys, cut);
    }

    method DropChild(seg: string, ghost cut: Path, ghost nodes': map<Path, Trie>, ghost pools': map<Path, Pool>)
      requires cut.Child? && cut.segment == seg && NodeOk(cut.up, nodes', pools')
      modifies this`children
      ensures NodeOk(cut.up, Without(nodes', cut), pools')
    {
      PrefixUp(cut);
      children := children - {seg};
      forall s ensures Child(cut.up, s) in Without(nodes', cut) <==> Child(cut.up, s) in nodes' && s != seg {
      }
      if cut.up.Child? { PrefixUp(cut.up); PrefixUpUp(cut); }
    }

    /** The next node on the way to a position that is there. */
    lemma OnTheWay(cur: Path, key: string, target: Path)
      requires Wired() && cur in nodes && target in nodes && target == Walk(cur, key)
      ensures var next := Child(cur, SplitFirst(key).head);
              next in nodes && next.segment in nodes[cur].children
              && nodes[cur].children[next.segment] == nodes[next]
              && (SplitFirst(key).rest.None? ==> next == target)
    {
      hide Walk, SplitFirst;
      var k := SplitFirst(key);
      var next := Child(cur, k.head);
      WalkStep(cur, key);
      if k.rest.Some? { WalkDown(next, k.rest.value); }
      ClosedPrefix(nodes.Keys, next, target);
      ChildAt(cur, k.head);
    }

    /** The scan of `deleteEmptyNodes`: the last node to keep and the branch below it. */
    ghost predicate Branch(node: Trie, cur: Path, keep: Trie, kept: Path, remove: Trie?, cut: Path)
      requires Wired()
      reads this`nodes, this`pools, nodes.Values
    {
      && cur in nodes && nodes[cur] == node
      && kept in nodes && nodes[kept] == keep && Kept(nodes.Keys, pools.Keys, kept)
      && (remove == null ==> kept == cur)
      && (remove != null ==>
            && cut.Child? && cut.up == kept && cut in nodes && nodes[cut] == remove
            && OnlyTo(nodes.Keys, pools.Keys, cut, cur) && |node.children| < 2)
    }

    /** One step of the scan. */
    method BranchStep(node: Trie, child: Trie, keep: Trie, remove: Trie?, ghost cur: Path, ghost s: string, ghost kept: Path, ghost cut: Path)
      returns (keep': Trie, remove': Trie?, ghost kept': Path, ghost cut': Path)
      requires Wired() && Branch(node, cur, keep, kept, remove, cut)
      requires Child(cur, s) in nodes && nodes[Child(cur, s)] == child
      ensures Branch(child, Child(cur, s), keep', kept', remove', cut')
      ensures child.pool == null && |child.children| < 2 ==> remove' != null
    {
      hide Trie.NodeOk, Closed, Kept, OnlyTo;
      keep', remove', kept', cut' := keep, remove, kept, cut;
      ghost var next := Child(cur, s);
      ChildAt(next, "");
      if remove == null && child.pool == null && |child.children| < 2 {
        remove', cut' := child, next;
        OnlyToSelf(nodes.Keys, pools.Keys, next);
      } else if child.pool != null || |child.children| > 1 {
        keep', kept', remove' := child, next, null;
        KeptHere(next);
      } else {
        OneChild(cur, s);
        OnlyToStep(nodes.Keys, pools.Keys, cut, cur, s);
      }
    }

    lemma KeptHere(p: Path)
      requires Wired() && p in nodes && (nodes[p].pool != null || |nodes[p].children| > 1)
      ensures Kept(nodes.Keys, pools.Keys, p)
    {
      ChildAt(p, "");
      if |nodes[p].children| > 1 {
        var s, t := TwoKeys(nodes[p].children);
        ChildAt(p, s);
        ChildAt(p, t);
      }
    }

    lemma OneChild(p: Path, s: string)
      requires Wired() && p in nodes && Child(p, s) in nodes && |nodes[p].children| < 2
      ensures forall t :: Child(p, t) in nodes ==> t == s
    {
      ChildAt(p, s);
      forall t | Child(p, t) in nodes ensures t == s {
        ChildAt(p, t);
        OneKey(nodes[p].children, s, t);
      }
    }

    method FindBranch(uriKey: string, ghost target: Path)
      returns (node: Trie, keep: Trie, remove: Trie?, ghost kept: Path, ghost cut: Path)
      requires Wired() && target == Walk(Root, uriKey) && target in nodes
      ensures Branch(node, target, keep, kept, remove, cut)
      ensures node.pool == null && |node.children| < 2 ==> remove != null
    {
      hide Walk, SplitFirst, Trie.NodeOk, Closed, OnlyTo;
      RootAt();
      var key := uriKey;
      ghost var cur := Root;
      node, keep, remove := this, this, null;
      kept, cut := Root, Root;
      while true
        invariant Branch(node, cur, keep, kept, remove, cut) && Walk(cur, key) == target
        decreases |key|
      {
        var k := SplitFirst(key);
        OnTheWay(cur, key, target);
        WalkStep(cur, key);
        var child := node.children[k.head];
        keep, remove, kept, cut := BranchStep(node, child, keep, remove, cur, k.head, kept, cut);
        node, cur := child, Child(cur, k.head);
        if k.rest.None? { break; }
        key := k.rest.value;
      }
    }

    /** `deleteEmptyNodes`: cuts off the longest branch that only led to the deleted node. */
    method DeleteEmptyNodes(key: string)
      requires Wired() && Walk(Root, key) in nodes && Walk(Root, key) !in pools
      requires Live(nodes.Keys, pools.Keys, Walk(Root, key))
      modifies this`nodes, nodes.Values
      ensures Valid() && pools == old(pools)
      ensures nodes.Values <= old(nodes).Values
    {
      hide Walk, Live, Trie.NodeOk, Closed, OnlyTo, Kept;
      ghost var target, kept, cut := Walk(Root, key), Root, Root;
      var node, keep, remove;
      node, keep, remove, kept, cut := FindBranch(key, target);
      ChildAt(target, "");
      if |node.children| == 0 {
        NoChild(target);
        CutLive(nodes.Keys, pools.Keys, cut, target);
        ChildAt(cut, "");
        assert keep in nodes.Values && remove in nodes.Values;
        Detached(cut);
        Cut(this, keep, remove.segment, cut);
        remove.parent := null;
        assert nodes.Keys == KeysWithout(old(nodes).Keys, cut);
      } else {
        var s :| s in node.children;
        ChildAt(target, s);
        LiveLeaf(nodes.Keys, pools.Keys, target, s);
      }
    }

    lemma NoChild(p: Path)
      requires Wired() && p in nodes && |nodes[p].children| == 0
      ensures !HasChild(nodes.Keys, p)
    {
      forall s ensures Child(p, s) !in nodes { ChildAt(p, s); }
    }

    /** The node at a cut is not one of those that remain. */
    lemma Detached(cut: Path)
      requires Wired() && cut in nodes
      ensures forall q :: q in Without(nodes, cut) ==> Without(nodes, cut)[q] != nodes[cut]
    {
      forall q | q in Without(nodes, cut) ensures nodes[q] != nodes[cut] { NodesApart(q, cut); }
    }

    /** The node of a registered position. */
    method NodeOf(key: string, ghost target: Path) returns (node: Trie)
      requires Wired() && target == Walk(Root, key) && target in nodes
      ensures node == nodes[target]
    {
      hide Walk, SplitFirst, Trie.NodeOk, Closed;
      RootAt();
      var key' := key;
      ghost var cur := Root;
      node := this;
      while true
        invariant cur in nodes && nodes[cur] == node && Walk(cur, key') == target
        decreases |key'|
      {
        var k := SplitFirst(key');
        OnTheWay(cur, key', target);
        WalkStep(cur, key');
        node, cur := node.children[k.head], Child(cur, k.head);
        if k.rest.None? { break; }
        key' := k.rest.value;
      }
    }

    /** `Delete` of a registered URI (the registry looks it up first): exactly that one goes. */
    method Delete(uri: string)
      requires Valid() && UriPath(uri) in pools
      modifies this`nodes, this`pools, nodes.Values
      ensures Valid()
      ensures pools == old(pools) - {UriPath(uri)}
      ensures nodes.Values <= old(nodes).Values
    {
      hide Walk, Live, Trie.NodeOk, Closed;
      var key := TrieKey(uri);
      ghost var target := UriPath(uri);
      var node := NodeOf(key, target);
      assert node in nodes.Values;
      SetPool(this, node, null, target);
      assert pools.Keys == old(pools).Keys - {target};
      LiveUnset(nodes.Keys, old(pools).Keys, target);
      DeleteEmptyNodes(key);
    }

    /** `empties` are the registered positions whose pool is empty. */
    ghost predicate Empties(empties: set<Path>)
      reads this`pools, pools.Values
    {
      forall p :: p in pools ==> (p in empties <==> |pools[p].endpoints| == 0)
    }

    /** Snip's first half: an empty pool is taken off the node. */
    method DropEmptyPool(ghost root: Trie, ghost empties: set<Path>)
      requires root.Wired() && path in root.nodes && root.nodes[path] == this
      requires Live(root.nodes.Keys, root.pools.Keys, path) && root.Empties(empties)
      modifies root`pools, this`pool
      ensures root.Wired() && Live(root.nodes.Keys, root.pools.Keys, path) && root.Empties(empties)
      ensures root.pools == old(root.pools) - (if path in empties then {path} else {})
      ensures pool != null <==> path in root.pools
    {
      hide Trie.NodeOk, Live, Closed;
      ghost var before := root.pools.Keys;
      root.ChildAt(path, "");
      if pool != null && |pool.endpoints| == 0 {
        SetPool(root, this, null, path);
        assert root.pools.Keys == before - {path};
        LiveUnset(root.nodes.Keys, before, path);
        root.ChildAt(path, "");
      }
    }

    /** The nodes above `p` are in `ups`. */
    ghost predicate Above(p: Path, ups: set<Trie>)
      reads this`nodes
    {
      forall q :: q in nodes && IsPrefix(q, p) && q != p ==> nodes[q] in ups
    }

    lemma AboveUp(p: Path, ups: set<Trie>)
      requires Above(p, ups) && p.Child? && p.up in nodes
      ensures nodes[p.up] in ups && Above(p.up, ups)
    {
      PrefixUp(p);
      assert IsPrefix(p.up, p.up);
    }

    /** The nodes above `p`. */
    ghost function Ups(p: Path): set<Trie>
      reads this`nodes
    {
      set q | q in nodes && IsPrefix(q, p) && q != p :: nodes[q]
    }

    lemma UpsAbove(p: Path)
      requires Wired() && p in nodes
      ensures Above(p, Ups(p)) && nodes[p] !in Ups(p) && Ups(p) <= nodes.Values
    {
      hide Trie.NodeOk, Closed;
      forall q | q in nodes && q != p ensures nodes[q] != nodes[p] { NodesApart(q, p); }
    }

    /** Snip's second half: a bare leaf is cut off its parent. */
    method CutSelf(ghost root: Trie, ghost empties: set<Path>, ghost ups: set<Trie>)
      requires root.Wired() && path in root.nodes && root.nodes[path] == this && path.Child? && parent != null
      requires forall q :: q in root.pools ==> !IsPrefix(path, q)
      requires Live(KeysWithout(root.nodes.Keys, path), root.pools.Keys, path.up)
      requires root.Above(path.up, ups) && root.Empties(empties)
      modifies root`nodes, parent`children
      ensures root.Wired() && Live(root.nodes.Keys, root.pools.Keys, path.up)
      ensures root.Above(path.up, ups) && root.Empties(empties)
      ensures path.up in root.nodes && root.nodes[path.up] == parent && parent.path == path.up
      ensures Submap(root.nodes, old(root.nodes))
    {
      hide Trie.NodeOk, Trie.Wired, Live, Closed, Trie.Empties;
      root.ChildAt(path, "");
      root.ChildAt(path.up, "");
      PrefixUp(path);
      Cut(root, parent, segment, path);
      assert root.nodes.Keys == KeysWithout(old(root.nodes).Keys, path);
    }

    /**
     `Snip`: an empty pool is taken off the node; a bare leaf is cut off, and the same is done
     for its parent. Only nodes above this one lose children.
     */
    method Snip(ghost root: Trie, ghost empties: set<Path>, ghost ups: set<Trie>)
      requires root.Wired() && path in root.nodes && root.nodes[path] == this && root.Above(path, ups)
      requires Live(root.nodes.Keys, root.pools.Keys, path) && root.Empties(empties)
      modifies root`nodes, root`pools, this`pool, ups`pool, ups`children
      ensures root.Valid()
      ensures root.pools == old(root.pools) - Snipped(old(root.pools).Keys, empties, path)
      ensures Submap(root.nodes, old(root.nodes))
      decreases path
    {
      hide Trie.NodeOk, Trie.Wired, Trie.Above, Trie.Empties, Live, Closed, Snipped, Submap;
      ghost var before := root.pools;
      root.RootAt();
      root.ChildAt(path, "");
      DropEmptyPool(root, empties);
      if pool != null || parent == null || |children| != 0 {
        root.SnipEnds(path, before.Keys, empties);
        MinusSame(before, root.pools, Snipped(before.Keys, empties, path));
        SubmapSelf(root.nodes);
        return;
      }
      root.ChildAt(path.up, "");
      root.AboveUp(path, ups);
      ghost var mid := root.pools;
      root.SnipGoesOn(path, before.Keys, empties);
      CutSelf(root, empties, ups);
      ghost var nodes' := root.nodes;
      parent.Snip(root, empties, ups);
      SubmapTransitive(root.nodes, nodes', old(root.nodes));
      MinusTwice(before, mid, root.pools, {path}, Snipped(mid.Keys, empties, path.up));
    }

    // ---------------------------------------------------------------------------------
    // Reading the trie

    /** Every node of `above` points to the one above it, even after the branch has been cut off. */
    static ghost predicate UpLinks(above: map<Path, Trie>)
      reads above.Values`parent, above.Values`segment
    {
      forall p :: p in above ==>
        && above[p].path == p
        && (p.Root? ==> above[p].parent == null)
        && (p.Child? ==> p.up in above && above[p].parent == above[p.up] && above[p].segment == p.segment)
    }

    lemma WiredUpLinks()
      requires Wired()
      ensures UpLinks(nodes)
    {
      hide Trie.NodeOk;
      forall p | p in nodes
        ensures nodes[p].path == p
        ensures p.Root? ==> nodes[p].parent == null
        ensures p.Child? ==> p.up in nodes && nodes[p].parent == nodes[p.up] && nodes[p].segment == p.segment
      {
        ChildAt(p, "");
      }
    }

    /** `ToPath`: the slash-joined segments from below the root down to this node. */
    method ToPath(ghost above: map<Path, Trie>) returns (t: string)
      requires UpLinks(above) && path in above && above[path] == this && path.Child?
      ensures t == PathText(path)
      decreases path
    {
      if parent.parent == null { return segment; }
      t := parent.ToPath(above);
      t := t + "/" + segment;
    }

    /** `PoolCount`, through `EachNodeWithPool`: the registered positions at and below this node. */
    method PoolCount(ghost root: Trie) returns (n: nat)
      requires root.Wired() && path in root.nodes && root.nodes[path] == this
      ensures n == |Below(root.pools.Keys, path)|
      decreases |Below(root.nodes.Keys, path)|
    {
      hide Trie.NodeOk, Trie.Wired, Closed, Counted, Below;
      root.ChildAt(path, "");
      n := if pool != null then 1 else 0;
      var todo := children.Keys;
      CountedNone(root.pools.Keys, path);
      assert children.Keys - todo == {};
      while todo != {}
        invariant todo <= children.Keys
        invariant n == |Counted(root.pools.Keys, path, children.Keys - todo)|
        decreases |todo|
      {
        var s :| s in todo;
        root.ChildAt(path, s);
        root.ChildAt(Child(path, s), "");
        SmallerBelow(root.nodes.Keys, path, s);
        CountedStep(root.pools.Keys, path, children.Keys - todo, s);
        var m := children[s].PoolCount(root);
        DoneStep(children.Keys, todo, s);
        n, todo := n + m, todo - {s};
      }
      root.CountedAll(path);
      assert children.Keys - {} == children.Keys;
    }

    lemma CountedAll(p: Path)
      requires Wired() && p in nodes
      ensures Counted(pools.Keys, p, nodes[p].children.Keys) == Below(pools.Keys, p)
    {
      hide Trie.NodeOk;
      forall q | q in pools && IsPrefix(p, q) && q != p
        ensures exists s :: s in nodes[p].children && IsPrefix(Child(p, s), q)
      {
        var s := BelowChild(p, q);
        ClosedPrefix(nodes.Keys, Child(p, s), q);
        ChildAt(p, s);
      }
      forall q, s | s in nodes[p].children && IsPrefix(Child(p, s), q) ensures IsPrefix(p, q) {
        assert IsPrefix(p, Child(p, s));
        PrefixTransitive(p, Child(p, s), q);
      }
    }

    /** Why the snipping stops at a node that has a pool or a child, or is the root. */
    lemma SnipEnds(p: Path, before: set<Path>, empties: set<Path>)
      requires Wired() && p in nodes && Live(nodes.Keys, pools.Keys, p) && Root !in before
      requires pools.Keys == before - (if p in empties then {p} else {})
      requires p in pools || p == Root || |nodes[p].children| != 0
      ensures Live(nodes.Keys, pools.Keys, Root)
      ensures pools.Keys == before - Snipped(before, empties, p)
    {
      hide Trie.NodeOk, Closed, Snipped;
      if p == Root {
        SnipRoot(before, empties);
      } else if p in pools {
        SnipStop(before, empties, p, p);
      } else {
        var s :| s in nodes[p].children;
        var c := Child(p, s);
        ChildAt(p, s);
        LiveLeaf(nodes.Keys, pools.Keys, p, s);
        PrefixUp(c);
        var x := PoolBelow(nodes.Keys, pools.Keys, c, p);
        PrefixTransitive(p, c, x);
        if IsPrefix(x, p) { PrefixTransitive(c, x, p); }
        SnipStop(before, empties, p, x);
      }
    }

    /** Why it goes on at a bare leaf: nothing else is below, and only the parent can become bare. */
    lemma SnipGoesOn(p: Path, before: set<Path>, empties: set<Path>)
      requires Wired() && p in nodes && Live(nodes.Keys, pools.Keys, p) && p.Child?
      requires pools.Keys == before - (if p in empties then {p} else {})
      requires p !in pools && |nodes[p].children| == 0
      ensures forall q :: q in pools ==> !IsPrefix(p, q)
      ensures Live(KeysWithout(nodes.Keys, p), pools.Keys, p.up)
      ensures pools.Keys == before - {p}
      ensures Snipped(before, empties, p) == before * {p} + Snipped(before - {p}, empties, p.up)
    {
      hide Trie.NodeOk, Closed, Snipped, Live;
      NoChild(p);
      forall x | x in before && IsPrefix(p, x) ensures x == p && x in empties {
        if x != p {
          var t := BelowChild(p, x);
          ClosedPrefix(nodes.Keys, Child(p, t), x);
        }
      }
      LiveCut(nodes.Keys, pools.Keys, p);
      SnipUp(before, empties, p);
    }
  }

  /** Every node of `a` is the node of `b` at the same position. */
  ghost predicate Submap(a: map<Path, Trie>, b: map<Path, Trie>) {
    forall p :: p in a ==> p in b && a[p] == b[p]
  }

  lemma SubmapSelf(a: map<Path, Trie>)
    ensures Submap(a, a)
  {
  }

  lemma SubmapTransitive(a: map<Path, Trie>, b: map<Path, Trie>, c: map<Path, Trie>)
    requires Submap(a, b) && Submap(b, c)
    ensures Submap(a, c)
  {
  }

  lemma MinusSame<K, V>(m: map<K, V>, n: map<K, V>, gone: set<K>)
    requires n.Keys == m.Keys - gone && forall k :: k in n ==> n[k] == m[k]
    ensures n == m - gone
  {
  }

  lemma MinusTwice<K, V>(m: map<K, V>, mid: map<K, V>, n: map<K, V>, a: set<K>, b: set<K>)
    requires mid.Keys == m.Keys - a && (forall k :: k in mid ==> mid[k] == m[k]) && n == mid - b
    ensures n == m - (m.Keys * a + b)
  {
  }

  lemma DoneStep<T>(all: set<T>, todo: set<T>, s: T)
    requires s in todo && todo <= all
    ensures all - (todo - {s}) == (all - todo) + {s}
  {
  }

  lemma TwoKeys<V>(m: map<string, V>) returns (s: string, t: string)
    requires |m| > 1
    ensures s in m && t in m && s != t
  {
    s :| s in m;
    var rest := m.Keys - {s};
    assert |rest| == |m| - 1;
    t :| t in rest;
  }

  lemma OneKey<V>(m: map<string, V>, s: string, t: string)
    requires |m| < 2 && s in m && t in m
    ensures s == t
  {
    if s != t {
      assert {s, t} <= m.Keys;
      SubsetSize({s, t}, m.Keys);
    }
  }

  lemma {:induction false} SubsetSize<T>(a: set<T>, b: set<T>)
    requires a <= b
    ensures |a| <= |b|
  {
    assert b == a + (b - a);
  }
}
