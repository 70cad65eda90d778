/** The registry object: the trie of pools and the log of updates (registry/registry.go). */
module Registries {
  import opened Wrappers
  import opened Paths
  import opened Uris
  import opened PoolSpec
  import opened Pools
  import opened TrieShape
  import opened Tries
  import opened RegistrySpec

  ghost predicate SubPools(a: map<Path, Pool>, b: map<Path, Pool>) {
    forall p :: p in a ==> p in b && a[p] == b[p]
  }

  class RouteRegistry {
    const byUri: Trie
    const staleThreshold: int
    var disconnected: bool
    /** What the listener has been sent. */
    var log: seq<Update>
    /** The routes as values, and every slot object of every pool. */
    ghost var routes: Routes
    ghost var elems: set<Elem>

    ghost function State(): Registry
      reads this
    {
      Registry(routes, log, disconnected)
    }

    /** The pool's slot objects are among `elems`. */
    static ghost predicate Owned(pool: Pool, elems: set<Elem>)
      reads pool`endpoints
    {
      forall x :: x in pool.endpoints ==> x in elems
    }

    static ghost predicate Holds(pool: Pool, slots: seq<Slot>)
      reads pool`endpoints, pool`slots, pool`byAddr, pool`byId, pool.endpoints
    {
      pool.Valid() && pool.slots == slots
    }

    /** The trie's pools are different objects and hold exactly the routes. */
    ghost predicate LinkedTo(routes: Routes, elems: set<Elem>)
      reads byUri`nodes, byUri`pools, byUri.nodes.Values, byUri.pools.Values, elems
    {
      && byUri.Valid() && byUri.pools.Keys == routes.Keys
      && (forall p, q :: p in routes && q in routes && p != q ==> byUri.pools[p] != byUri.pools[q])
      && (forall p :: p in routes ==> Owned(byUri.pools[p], elems) && Holds(byUri.pools[p], routes[p]))
    }

    ghost predicate Linked()
      reads this`routes, this`elems, byUri`nodes, byUri`pools, byUri.nodes.Values, byUri.pools.Values, elems
    {
      LinkedTo(routes, elems)
    }

    ghost predicate Valid()
      reads this`routes, this`elems, byUri`nodes, byUri`pools, byUri.nodes.Values, byUri.pools.Values, elems
    {
      Linked() && Good(routes)
    }

    constructor (staleThreshold: int)
      ensures Valid() && State() == EMPTY && this.staleThreshold == staleThreshold
    {
      byUri := new Trie();
      this.staleThreshold := staleThreshold;
      disconnected, log := false, [];
      routes, elems := map[], {};
    }

    /** Slot objects of different pools are different. */
    static lemma ElemsApart(a: Pool, s: seq<Slot>, b: Pool, t: seq<Slot>)
      requires Holds(a, s) && Holds(b, t) && a != b
      ensures forall x :: x in a.endpoints ==> x !in b.endpoints
    {
    }

    /** `other` does not notice a change of `pool`. */
    static ghost predicate Clear(other: Pool, pool: Pool)
      reads other`endpoints, pool`endpoints
    {
      other != pool && forall x :: x in other.endpoints ==> x !in pool.endpoints
    }

    /** What holds of the routes other than `p`. */
    ghost predicate Others(p: Path, routes: Routes, elems: set<Elem>)
      reads byUri`pools, byUri.pools.Values, elems
    {
      && routes.Keys == byUri.pools.Keys
      && (forall q, r :: q in routes && r in routes && q != r ==> byUri.pools[q] != byUri.pools[r])
      && forall q :: q in routes && q != p ==> Owned(byUri.pools[q], elems) && Holds(byUri.pools[q], routes[q])
    }

    lemma OthersApart(p: Path, pool: Pool)
      requires Linked() && p in routes && byUri.pools[p] == pool
      ensures Holds(pool, routes[p]) && byUri.Valid()
      ensures Others(p, routes, elems)
      ensures forall q :: q in routes && q != p ==> Clear(byUri.pools[q], pool)
    {
      hide Trie.Valid, Holds;
      forall q | q in routes && q != p ensures Clear(byUri.pools[q], pool) {
        ElemsApart(byUri.pools[q], routes[q], pool, routes[p]);
      }
    }

    /** What is known about one route, or its absence. */
    lemma At(p: Path)
      requires Linked()
      ensures byUri.Valid() && byUri.pools.Keys == routes.Keys
      ensures p in routes ==> Holds(byUri.pools[p], routes[p]) && byUri.pools[p].Valid()
      ensures p in routes ==> |byUri.pools[p].endpoints| == |routes[p]|
      ensures p in routes ==> byUri.pools[p] in byUri.pools.Values && Owned(byUri.pools[p], elems)
      ensures p !in routes ==> Others(p, routes, elems)
    {
      hide Trie.Valid, AddrIndex, IdIndex;
    }

    /** Puts the changed route back among the others. */
    lemma Relink(p: Path, pool: Pool, was: Routes, had: set<Elem>, slots: seq<Slot>, elems': set<Elem>)
      requires byUri.Valid() && p in was && Others(p, was, had)
      requires byUri.pools[p] == pool && had <= elems' && Owned(pool, elems') && Holds(pool, slots)
      ensures LinkedTo(was[p := slots], elems')
    {
      hide Trie.Valid, Holds;
    }

    /** `pool.Put` on the pool of route `p`. */
    method PutAt(pool: Pool, e: Endpoint, now: int, ghost p: Path) returns (ok: bool)
      requires Linked() && p in routes && byUri.pools[p] == pool
      modifies pool, pool.endpoints, this`routes, this`elems
      ensures Linked()
      ensures routes == old(routes)[p := Put(old(routes)[p], e, now)]
      ensures ok == PutAccepted(old(routes)[p], e)
    {
      hide Trie.Valid, AddrIndex, IdIndex, Put, LinkedTo, PutAccepted;
      OthersApart(p, pool);
      ok := pool.Put(e, now);
      forall q | q in routes && q != p ensures Holds(byUri.pools[q], routes[q]) {
        assert old(Clear(byUri.pools[q], pool) && Holds(byUri.pools[q], routes[q]));
      }
      ghost var elems' := elems + set x | x in pool.endpoints;
      Relink(p, pool, routes, elems, pool.slots, elems');
      elems, routes := elems', routes[p := pool.slots];
    }

    /** Registers a new, still empty pool. */
    method AddRoute(key: string, pool: Pool, ghost p: Path)
      requires Linked() && p == UriPath(key) && p !in routes
      requires Holds(pool, []) && pool.endpoints == [] && forall q :: q in byUri.pools ==> byUri.pools[q] != pool
      modifies this`routes, byUri`nodes, byUri`pools, byUri.nodes.Values
      ensures Linked() && routes == old(routes)[p := []] && p in byUri.pools && byUri.pools[p] == pool
    {
      hide Trie.Valid, Pool.Valid, UriPath, LinkedTo, Holds;
      At(p);
      var node := byUri.Insert(key, pool);
      ghost var routes' := routes[p := []];
      OthersGrow(p, pool, old(byUri.pools), routes, routes', elems);
      Relink(p, pool, routes', elems, [], elems);
      assert routes'[p := []] == routes';
      routes := routes';
    }

    lemma OthersGrow(p: Path, pool: Pool, was: map<Path, Pool>, routes: Routes, routes': Routes, elems: set<Elem>)
      requires byUri.pools == was[p := pool] && p !in routes && routes.Keys == was.Keys && routes' == routes[p := []]
      requires forall q :: q in was ==> was[q] != pool && Owned(was[q], elems) && Holds(was[q], routes[q])
      requires forall q, r :: q in was && r in was && q != r ==> was[q] != was[r]
      ensures Others(p, routes', elems)
    {
      hide Holds;
    }

    /** `updateRouter`: sends an update, unless it has no URI. */
    method UpdateRouter(u: Update)
      modifies this`log
      ensures log == Emit(old(log), u)
    {
      if u.uri != "" { log := log + [u]; }
    }

    /** Register's lookup: the route's pool, created if missing, and whether the address is new to it. */
    method PoolFor(key: string, addr: string, ghost p: Path) returns (pool: Pool, isNew: bool)
      requires Linked() && p == UriPath(key)
      modifies this`routes, byUri`nodes, byUri`pools, byUri.nodes.Values
      ensures Linked() && routes == (if p in old(routes) then old(routes) else old(routes)[p := []])
      ensures p in byUri.pools && byUri.pools[p] == pool
      ensures isNew == (Find(SlotsAt(old(routes), p), addr) < 0)
      ensures fresh(pool) || pool in old(byUri.pools.Values)
      ensures elems == old(elems) && Owned(pool, elems)
    {
      hide Trie.Valid, Pool.Valid, UriPath, Find, LinkedTo;
      At(p);
      isNew := true;
      var found := byUri.Find(key);
      if found == null {
        pool := new Pool(staleThreshold / 4);
        assert forall q :: q in byUri.pools ==> byUri.pools[q] != pool;
        NotThere(addr);
        AddRoute(key, pool, p);
      } else {
        pool := found;
        var r := pool.FindByAddr(addr);
        isNew := r.None?;
      }
    }

    /** `Register`. */
    method Register(uri: string, e: Endpoint, now: int)
      requires Valid()
      modifies this, byUri, byUri.nodes.Values, byUri.pools.Values, elems
      ensures Valid()
      ensures State() == RegistrySpec.Register(old(State()), uri, e, now)
    {
      hide Trie.Valid, Pool.Valid, UriPath, RouteKey, Put, Find, LinkedTo, Good;
      var key := RouteKey(uri);
      ghost var p := UriPath(key);
      RegisterGood(State(), uri, e, now);
      var pool, updateRoute := PoolFor(key, e.addr, p);
      var ok := PutAt(pool, e, now, p);
      FirstPut(SlotsAt(old(routes), p), e);
      assert routes == old(routes)[p := Put(SlotsAt(old(routes), p), e, now)];
      if ok && updateRoute { UpdateRouter(Update(Add, key, e)); }
    }

    /** `pool.Remove` on the pool of route `p`. */
    method RemoveAt(pool: Pool, e: Endpoint, ghost p: Path) returns (removed: bool)
      requires Linked() && p in routes && byUri.pools[p] == pool
      modifies pool, pool.endpoints, this`routes
      ensures Linked()
      ensures routes == old(routes)[p := PoolSpec.Remove(old(routes)[p], e)]
      ensures removed == RemoveAccepted(old(routes)[p], e)
    {
      hide Trie.Valid, AddrIndex, IdIndex, PoolSpec.Remove, LinkedTo;
      OthersApart(p, pool);
      At(p);
      removed := pool.Remove(e);
      forall q | q in routes && q != p ensures Holds(byUri.pools[q], routes[q]) {
        assert old(Clear(byUri.pools[q], pool) && Holds(byUri.pools[q], routes[q]));
      }
      Relink(p, pool, routes, elems, pool.slots, elems);
      routes := routes[p := pool.slots];
    }

    /** Takes an emptied route out of the trie. */
    method DeleteRoute(key: string, ghost p: Path)
      requires Linked() && p == UriPath(key) && p in routes
      modifies this`routes, byUri`nodes, byUri`pools, byUri.nodes.Values
      ensures Linked() && routes == old(routes) - {p}
    {
      hide Trie.Valid, Pool.Valid, UriPath, LinkedTo, Holds;
      At(p);
      OthersApart(p, byUri.pools[p]);
      byUri.Delete(key);
      Unlink({p}, old(byUri.pools), routes, elems);
      routes := routes - {p};
    }

    /** The routes that are left when `gone` have been taken out of the trie. */
    lemma Unlink(gone: set<Path>, was: map<Path, Pool>, routes: Routes, elems: set<Elem>)
      requires byUri.Valid() && byUri.pools == was - gone && routes.Keys == was.Keys
      requires forall q :: q in was && q !in gone ==> Owned(was[q], elems) && Holds(was[q], routes[q])
      requires forall q, r :: q in was && r in was && q != r ==> was[q] != was[r]
      ensures LinkedTo(routes - gone, elems)
    {
      hide Trie.Valid, Holds;
    }

    /** Unregister's effect on a known route: an emptied pool takes the route with it. */
    method RemoveFrom(pool: Pool, key: string, e: Endpoint, ghost p: Path) returns (removed: bool)
      requires Linked() && p == UriPath(key) && p in routes && byUri.pools[p] == pool
      modifies pool, pool.endpoints, this`routes, byUri`nodes, byUri`pools, byUri.nodes.Values
      ensures Linked()
      ensures var slots := PoolSpec.Remove(old(routes)[p], e);
              routes == if slots == [] then old(routes) - {p} else old(routes)[p := slots]
      ensures removed == RemoveAccepted(old(routes)[p], e)
    {
      hide Trie.Valid, Pool.Valid, UriPath, PoolSpec.Remove, LinkedTo;
      removed := RemoveAt(pool, e, p);
      At(p);
      if |pool.endpoints| == 0 {
        DeleteRoute(key, p);
        assert routes == old(routes) - {p};
      }
    }

    /** `Unregister`. */
    method Unregister(uri: string, e: Endpoint)
      requires Valid()
      modifies this, byUri, byUri.nodes.Values, byUri.pools.Values, elems
      ensures Valid()
      ensures State() == RegistrySpec.Unregister(old(State()), uri, e)
    {
      hide Trie.Valid, Pool.Valid, UriPath, RouteKey, PoolSpec.Remove, Find, LinkedTo, Good;
      var key := RouteKey(uri);
      ghost var p := UriPath(key);
      UnregisterGood(State(), uri, e);
      At(p);
      var pool := byUri.Find(key);
      if pool != null {
        var removed := RemoveFrom(pool, key, e, p);
        if removed {
          UpdateRouter(Update(Operation.Remove, key, e));
        } else {
          assert routes == old(routes);
        }
      }
    }

    // ---------------------------------------------------------------------------------
    // Pruning

    /** `PruneEndpoints` on the pool of route `p`. */
    method PruneSlots(pool: Pool, now: int, ghost p: Path) returns (dropped: seq<Endpoint>)
      requires Linked() && p in routes && byUri.pools[p] == pool
      modifies pool, pool.endpoints, this`routes
      ensures Linked()
      ensures routes == old(routes)[p := FreshSlots(old(routes)[p], staleThreshold, now)]
      ensures dropped == PruneFrom(old(routes)[p], 0, staleThreshold, now).dropped
    {
      hide Trie.Valid, AddrIndex, IdIndex, PruneFrom, LinkedTo;
      OthersApart(p, pool);
      At(p);
      dropped := pool.PruneEndpoints(staleThreshold, now);
      forall q | q in routes && q != p ensures Holds(byUri.pools[q], routes[q]) {
        assert old(Clear(byUri.pools[q], pool) && Holds(byUri.pools[q], routes[q]));
      }
      Relink(p, pool, routes, elems, pool.slots, elems);
      routes := routes[p := pool.slots];
    }

    lemma EmptiesAre(p: Path)
      requires Linked() && p in routes && forall q :: q in routes && q != p ==> routes[q] != []
      ensures byUri.Empties(if routes[p] == [] then {p} else {})
    {
      hide Trie.Valid, Pool.Valid, LinkedTo;
      At(p);
      forall q | q in byUri.pools ensures |byUri.pools[q].endpoints| == |routes[q]| { At(q); }
    }

    /** What `Snip` needs at route `p`, and what it will take off. */
    lemma SnipReady(p: Path, empties: set<Path>)
      requires Linked() && p in routes && p in byUri.nodes && forall q :: q in routes && q != p ==> routes[q] != []
      requires empties == if routes[p] == [] then {p} else {}
      ensures byUri.Wired() && byUri.Above(p, byUri.Ups(p)) && byUri.Empties(empties)
      ensures byUri.nodes[p] !in byUri.Ups(p) && byUri.Ups(p) <= byUri.nodes.Values && byUri.nodes[p] in byUri.nodes.Values
      ensures byUri.nodes[p].path == p
      ensures Live(byUri.nodes.Keys, byUri.pools.Keys, p)
      ensures byUri.pools.Keys == routes.Keys
      ensures byUri.pools - Snipped(byUri.pools.Keys, empties, p) == byUri.pools - empties
    {
      hide Trie.Wired, Pool.Valid, LinkedTo, Holds, Live, Snipped;
      At(p);
      EmptiesAre(p);
      byUri.UpsAbove(p);
      byUri.ChildAt(p, "");
      LiveExcept(byUri.nodes.Keys, byUri.pools.Keys, p);
      SnippedOnly(byUri.pools.Keys, empties, p);
    }

    /** Every pool is in order. */
    lemma AllHold()
      requires Linked()
      ensures forall q :: q in byUri.pools ==> q in routes && Owned(byUri.pools[q], elems) && Holds(byUri.pools[q], routes[q])
      ensures forall q, r :: q in byUri.pools && r in byUri.pools && q != r ==> byUri.pools[q] != byUri.pools[r]
    {
      hide Trie.Valid, Holds;
    }

    /** `t.Snip()` after its pool has been pruned: the route goes if its pool is empty now. */
    method SnipAt(t: Trie, ghost p: Path)
      requires Linked() && p in routes && p in byUri.nodes && byUri.nodes[p] == t
      requires forall q :: q in routes && q != p ==> routes[q] != []
      modifies this`routes, byUri`nodes, byUri`pools, byUri.nodes.Values`pool, byUri.nodes.Values`children
      ensures Linked() && routes == old(routes) - (if old(routes)[p] == [] then {p} else {})
      ensures Submap(byUri.nodes, old(byUri.nodes)) && t.children == old(t.children)
      ensures SubPools(byUri.pools, old(byUri.pools))
    {
      hide Trie.Wired, Trie.Valid, Pool.Valid, LinkedTo, Holds, Live, Snipped, Trie.Above, Trie.Empties, Trie.Ups,
           Submap;
      ghost var empties: set<Path> := if routes[p] == [] then {p} else {};
      ghost var was := byUri.pools;
      SnipReady(p, empties);
      AllHold();
      t.Snip(byUri, empties, byUri.Ups(p));
      Unlink(empties, was, routes, elems);
      routes := routes - empties;
    }

    /** Reports the dropped endpoints of one route. */
    method Report(text: string, dropped: seq<Endpoint>)
      modifies this`log
      ensures log == old(log) + Reports(text, dropped)
    {
      for i := 0 to |dropped|
        invariant log == old(log) + Reports(text, dropped[..i])
      {
        assert text != "" ==> Reports(text, dropped[..i + 1]) == Reports(text, dropped[..i]) + [Update(Operation.Remove, text, dropped[i])];
        UpdateRouter(Update(Operation.Remove, text, dropped[i]));
      }
      assert dropped[..|dropped|] == dropped;
    }

    /** Prunes one node's pool and snips the node. */
    method PruneAndSnip(t: Trie, pool: Pool, now: int, ghost p: Path) returns (dropped: seq<Endpoint>)
      requires Valid() && p in routes && p in byUri.nodes && byUri.nodes[p] == t && byUri.pools[p] == pool
      modifies pool, pool.endpoints, this`routes, byUri`nodes, byUri`pools
      modifies byUri.nodes.Values`pool, byUri.nodes.Values`children
      ensures Valid() && routes == PrunedAt(old(routes), {p}, staleThreshold, now)
      ensures dropped == PruneFrom(old(routes)[p], 0, staleThreshold, now).dropped
      ensures Submap(byUri.nodes, old(byUri.nodes)) && t.children == old(t.children)
      ensures SubPools(byUri.pools, old(byUri.pools))
    {
      hide LinkedTo, PruneFrom, Submap, PrunedAt;
      PrunedGood(routes, {p}, staleThreshold, now);
      PrunedSingle(routes, p, staleThreshold, now);
      dropped := PruneSlots(pool, now, p);
      SnipAt(t, p);
    }

    /** What pruning does at one node with a pool. */
    method PruneNode(t: Trie, pool: Pool, now: int, ghost p: Path)
      requires Valid() && p in routes && p in byUri.nodes && byUri.nodes[p] == t && byUri.pools[p] == pool
      modifies pool, pool.endpoints, this`routes, this`log, byUri`nodes, byUri`pools
      modifies byUri.nodes.Values`pool, byUri.nodes.Values`children
      ensures Valid() && routes == PrunedAt(old(routes), {p}, staleThreshold, now)
      ensures log == old(log) + Reports(PathText(p), PruneFrom(old(routes)[p], 0, staleThreshold, now).dropped)
      ensures Submap(byUri.nodes, old(byUri.nodes)) && t.children == old(t.children)
      ensures SubPools(byUri.pools, old(byUri.pools))
    {
      hide Trie.Wired, Pool.Valid, LinkedTo, Holds, Live, PruneFrom, PathText, Submap, PrunedAt, Good, SubPools,
           Reports, Trie.UpLinks, Trie.Valid;
      ghost var above := byUri.nodes;
      NodeReady(t, p);
      var dropped := PruneAndSnip(t, pool, now, p);
      var text := t.ToPath(above);
      Report(text, dropped);
    }

    lemma NodeReady(t: Trie, p: Path)
      requires Valid() && p in routes && p in byUri.nodes && byUri.nodes[p] == t
      ensures p.Child? && t.path == p && Trie.UpLinks(byUri.nodes)
    {
      hide LinkedTo, Trie.UpLinks;
      At(p);
      byUri.WiredUpLinks();
      byUri.ChildAt(p, "");
    }

    /** The scan's steps in terms of Progress. */
    lemma NodeProgress(p: Path, routes0: Routes, log0: seq<Update>, now: int)
      requires Good(routes0) && p in routes0 && routes == PrunedAt(routes0, {p}, staleThreshold, now)
      requires log == log0 + Reports(PathText(p), PruneFrom(routes0[p], 0, staleThreshold, now).dropped)
      ensures Progress(routes0, log0, Counted(routes0.Keys, p, {}), staleThreshold, now, routes, log)
    {
      hide PrunedAt, DropsAt, Lists, PruneFrom, PathText, Counted, Reports;
      CountedNone(routes0.Keys, p);
      ReportsListed(routes0, p, staleThreshold, now);
      assert routes0.Keys * {p} == {p};
      assert log[|log0|..] == Reports(PathText(p), PruneFrom(routes0[p], 0, staleThreshold, now).dropped);
    }

    lemma NoProgress(p: Path, now: int)
      requires p !in routes
      ensures Progress(routes, log, Counted(routes.Keys, p, {}), staleThreshold, now, routes, log)
    {
      hide PrunedAt, DropsAt, Counted;
      CountedNone(routes.Keys, p);
      PrunedNone(routes, {}, staleThreshold, now);
      assert routes.Keys * {p} == {};
      assert log[|log|..] == [];
    }

    /** The objects that the scan from `byUri` may touch. */
    ghost predicate Inside(nodes: set<Trie>, pools: set<Pool>)
      reads byUri`nodes, byUri`pools
    {
      && (forall q :: q in byUri.nodes ==> byUri.nodes[q] in nodes)
      && (forall q :: q in byUri.pools ==> byUri.pools[q] in pools)
    }

    lemma InsideAt(p: Path, ns: set<Trie>, ps: set<Pool>)
      requires Linked() && Inside(ns, ps) && p in byUri.pools
      ensures byUri.pools[p] in ps && (forall x :: x in byUri.pools[p].endpoints ==> x in elems)
      ensures byUri.nodes.Values <= ns
    {
      hide LinkedTo;
      At(p);
    }

    /** f(t) of the scan: the node's own pool, if it has one. */
    method PruneHere(t: Trie, now: int, ghost p: Path, ghost ns: set<Trie>, ghost ps: set<Pool>)
      requires Valid() && p in byUri.nodes && byUri.nodes[p] == t && Inside(ns, ps)
      modifies this`routes, this`log, byUri`nodes, byUri`pools, ns`pool, ns`children, ps, elems
      ensures Valid() && Inside(ns, ps) && Submap(byUri.nodes, old(byUri.nodes)) && t.children == old(t.children)
      ensures Progress(old(routes), old(log), Counted(old(routes).Keys, p, {}), staleThreshold, now, routes, log)
    {
      hide Trie.Valid, Pool.Valid, LinkedTo, Holds, Live, PruneFrom, PathText, PrunedAt, Progress, Good, Trie.Wired;
      At(p);
      byUri.Facts();
      byUri.ChildAt(p, "");
      if t.pool != null {
        InsideAt(p, ns, ps);
        PruneNode(t, t.pool, now, p);
        NodeProgress(p, old(routes), old(log), now);
      } else {
        NoProgress(p, now);
      }
    }

    /** The children `todo` of `p` are still to be visited, and are still there. */
    ghost predicate Waiting(t: Trie, p: Path, todo: set<string>)
      reads byUri`nodes
    {
      forall s :: s in todo ==> p in byUri.nodes && byUri.nodes[p] == t && Child(p, s) in byUri.nodes
    }

    /** Pruning elsewhere leaves the waiting children where they are. */
    lemma StillWaiting(t: Trie, p: Path, todo: set<string>, nodes0: map<Path, Trie>, routes0: Routes, done: set<Path>, now: int)
      requires Linked() && Submap(byUri.nodes, nodes0) && p in nodes0 && nodes0[p] == t
      requires Live(nodes0.Keys, routes0.Keys, Root) && routes == PrunedAt(routes0, done, staleThreshold, now)
      requires forall s :: s in todo ==> Child(p, s) in nodes0
      requires forall s, x :: s in todo && x in routes0 && IsPrefix(Child(p, s), x) ==> x !in done
      ensures Waiting(t, p, todo)
    {
      hide Trie.Wired, LinkedTo, Live, Closed, PrunedAt;
      At(p);
      byUri.Facts();
      forall s | s in todo ensures p in byUri.nodes && byUri.nodes[p] == t && Child(p, s) in byUri.nodes {
        ChildStays(nodes0.Keys, routes0, byUri.nodes.Keys, routes, done, Child(p, s), staleThreshold, now);
      }
    }

    /** One child of the scan. */
    method VisitChild(t: Trie, s: string, now: int, ghost p: Path, ghost todo: set<string>, ghost ns: set<Trie>, ghost ps: set<Pool>,
                      ghost nodes0: map<Path, Trie>)
      requires Valid() && Inside(ns, ps) && Submap(byUri.nodes, nodes0) && p in nodes0
      requires s in todo && Waiting(t, p, todo)
      modifies this`routes, this`log, byUri`nodes, byUri`pools, ns`pool, ns`children, ps, elems
      ensures Valid() && Inside(ns, ps) && Submap(byUri.nodes, nodes0) && Waiting(t, p, todo - {s})
      ensures Progress(old(routes), old(log), Below(old(routes).Keys, Child(p, s)), staleThreshold, now, routes, log)
      decreases |Below(nodes0.Keys, p)|, 0
    {
      hide Trie.Valid, Trie.Wired, LinkedTo, Live, Closed, PrunedAt, Good, Below, RouteRegistry.Inside, Extends;
      ghost var c, nodes1, routes1 := Child(p, s), byUri.nodes, routes;
      At(p);
      byUri.Facts();
      byUri.ChildAt(p, s);
      FewerBelow(nodes0.Keys, nodes1.Keys, p, s);
      PruneBelow(t.children[s], now, c, ns, ps);
      SubmapTransitive(byUri.nodes, nodes1, nodes0);
      Elsewhere(p, s, todo - {s}, routes1);
      StillWaiting(t, p, todo - {s}, nodes1, routes1, Below(routes1.Keys, c), now);
    }

    /** The scan at and below `t` (`EachNodeWithPool` with the pruning function). */
    method PruneBelow(t: Trie, now: int, ghost p: Path, ghost ns: set<Trie>, ghost ps: set<Pool>)
      requires Valid() && p in byUri.nodes && byUri.nodes[p] == t && Inside(ns, ps)
      modifies this`routes, this`log, byUri`nodes, byUri`pools, ns`pool, ns`children, ps, elems
      ensures Valid() && Inside(ns, ps) && Submap(byUri.nodes, old(byUri.nodes))
      ensures Progress(old(routes), old(log), Below(old(routes).Keys, p), staleThreshold, now, routes, log)
      decreases |Below(byUri.nodes.Keys, p)|, 1
    {
      hide Trie.Valid, Trie.Wired, LinkedTo, Live, Closed, PrunedAt, Progress, Counted, Below, Submap,
           RouteRegistry.Inside, RouteRegistry.Waiting;
      ghost var nodes0, routes0, log0, all := byUri.nodes, routes, log, t.children.Keys;
      ScanEnds(p);
      PruneHere(t, now, p, ns, ps);
      var todo := t.children.Keys;
      ScanStarts(t, p, todo, nodes0, routes0, log0, now);
      assert all - todo == {};
      while todo != {}
        invariant Valid() && Inside(ns, ps) && Submap(byUri.nodes, nodes0) && todo <= all
        invariant Progress(routes0, log0, Counted(routes0.Keys, p, all - todo), staleThreshold, now, routes, log)
        invariant Waiting(t, p, todo)
        decreases |todo|
      {
        var s :| s in todo;
        ghost var routes1, log1 := routes, log;
        VisitChild(t, s, now, p, todo, ns, ps, nodes0);
        VisitProgress(routes0, log0, p, all - todo, s, routes1, log1, staleThreshold, now, routes, log);
        DoneStep(all, todo, s);
        todo := todo - {s};
      }
      assert all - {} == all;
    }

    /** After the node's own pool, all its children are waiting. */
    lemma ScanStarts(t: Trie, p: Path, todo: set<string>, nodes0: map<Path, Trie>, routes0: Routes, log0: seq<Update>, now: int)
      requires Valid() && Submap(byUri.nodes, nodes0) && p in nodes0 && nodes0[p] == t && Live(nodes0.Keys, routes0.Keys, Root)
      requires Progress(routes0, log0, Counted(routes0.Keys, p, {}), staleThreshold, now, routes, log)
      requires forall s :: s in todo ==> Child(p, s) in nodes0
      ensures Waiting(t, p, todo)
    {
      hide LinkedTo, Live, PrunedAt, Counted, Extends;
      CountedNone(routes0.Keys, p);
      forall s | s in todo ensures !IsPrefix(Child(p, s), p) { PrefixUp(Child(p, s)); }
      StillWaiting(t, p, todo, nodes0, routes0, Counted(routes0.Keys, p, {}), now);
    }

    /** With all children visited, everything at and below `p` is done. */
    lemma ScanEnds(p: Path)
      requires Valid() && p in byUri.nodes
      ensures Counted(routes.Keys, p, byUri.nodes[p].children.Keys) == Below(routes.Keys, p)
      ensures Live(byUri.nodes.Keys, routes.Keys, Root)
      ensures forall s :: s in byUri.nodes[p].children ==> Child(p, s) in byUri.nodes
    {
      hide LinkedTo, Trie.Wired;
      At(p);
      byUri.Facts();
      byUri.CountedAll(p);
      forall s | s in byUri.nodes[p].children ensures Child(p, s) in byUri.nodes { byUri.ChildAt(p, s); }
    }

    // ---------------------------------------------------------------------------------
    // Refreshing after a suspension

    /** `MarkUpdated` on the pool of route `p`. */
    method MarkAt(pool: Pool, now: int, ghost p: Path)
      requires Linked() && p in routes && byUri.pools[p] == pool
      modifies pool, pool.endpoints, this`routes
      ensures Linked() && routes == FreshenedAt(old(routes), {p}, now)
    {
      hide Trie.Valid, AddrIndex, IdIndex, PoolSpec.MarkUpdated, LinkedTo, FreshenedAt;
      OthersApart(p, pool);
      At(p);
      FreshenedOne(routes, p, now);
      pool.MarkUpdated(now);
      forall q | q in routes && q != p ensures Holds(byUri.pools[q], routes[q]) {
        assert old(Clear(byUri.pools[q], pool) && Holds(byUri.pools[q], routes[q]));
      }
      Relink(p, pool, routes, elems, pool.slots, elems);
      routes := routes[p := pool.slots];
    }

    /** The pool of a route that is there, or nothing. */
    ghost function PoolOf(m: Option<Path>): Pool?
      reads byUri`pools
    {
      if m.Some? && m.value in byUri.pools then byUri.pools[m.value] else null
    }

    /** `Lookup`. */
    method Lookup(uri: string) returns (pool: Pool?)
      requires Valid()
      ensures pool == PoolOf(RegistrySpec.Lookup(routes.Keys, uri))
    {
      hide LinkedTo, UriPath, LongestMatch, NextWildcard, DotsLeft, RouteKey, Candidates, FirstHit, Trie.Valid,
           Trie.Wired;
      At(Root);
      var key := RouteKey(uri);
      var more := true;
      pool := byUri.MatchUri(key);
      Found(key);
      while pool == null && more
        invariant pool == PoolOf(LongestMatch(routes.Keys, UriPath(key)))
        invariant pool == null <==> LongestMatch(routes.Keys, UriPath(key)).None?
        invariant FirstHit(routes.Keys, Candidates(key)) == FirstHit(routes.Keys, Candidates(RouteKey(uri)))
        invariant !more ==> NextWildcard(key).None?
        decreases more, DotsLeft(key)
      {
        NextCandidate(routes.Keys, key);
        var next := NextWildcard(key);
        if next.Some? {
          key := next.value;
        } else {
          more := false;
        }
        pool := byUri.MatchUri(key);
        Found(key);
      }
      NextCandidate(routes.Keys, key);
    }

    lemma Found(key: string)
      requires Valid()
      ensures var m := LongestMatch(routes.Keys, UriPath(key));
              byUri.Nearest(UriPath(key)) == PoolOf(m) && (PoolOf(m) == null <==> m.None?)
    {
      hide UriPath;
      assert routes.Keys == byUri.pools.Keys;
      LongestMatchMeaning(routes.Keys, UriPath(key));
    }

    /** The refresh at one node. */
    method FreshenHere(t: Trie, now: int, ghost p: Path)
      requires Linked() && p in byUri.nodes && byUri.nodes[p] == t
      modifies this`routes, byUri.pools.Values, elems
      ensures Linked() && routes == FreshenedAt(old(routes), Counted(old(routes).Keys, p, {}), now)
    {
      hide Trie.Valid, Trie.Wired, Pool.Valid, LinkedTo, FreshenedAt, Counted, Live, Closed;
      At(p);
      byUri.Facts();
      byUri.ChildAt(p, "");
      CountedNone(routes.Keys, p);
      var pool := t.pool;
      assert routes.Keys * {p} == if pool != null then {p} else {};
      FreshenedNone(routes, now);
      if pool != null { MarkAt(pool, now, p); }
    }

    /** The refresh scan at and below `t`. */
    method FreshenBelow(t: Trie, now: int, ghost p: Path)
      requires Linked() && p in byUri.nodes && byUri.nodes[p] == t
      modifies this`routes, byUri.pools.Values, elems
      ensures Linked() && routes == FreshenedAt(old(routes), Below(old(routes).Keys, p), now)
      decreases |Below(byUri.nodes.Keys, p)|
    {
      hide Trie.Valid, Trie.Wired, LinkedTo, FreshenedAt, Counted, Below;
      ghost var routes0, all := routes, t.children.Keys;
      RefreshEnds(p);
      FreshenHere(t, now, p);
      var todo := t.children.Keys;
      assert all - todo == {};
      while todo != {}
        invariant Linked() && todo <= all
        invariant routes == FreshenedAt(routes0, Counted(routes0.Keys, p, all - todo), now)
        decreases |todo|
      {
        var s :| s in todo;
        RefreshStep(p, s);
        FreshenStep(routes0, p, all - todo, s, now);
        FreshenBelow(t.children[s], now, Child(p, s));
        DoneStep(all, todo, s);
        todo := todo - {s};
      }
      assert all - {} == all;
    }

    lemma RefreshStep(p: Path, s: string)
      requires Linked() && p in byUri.nodes && s in byUri.nodes[p].children
      ensures Child(p, s) in byUri.nodes && byUri.nodes[Child(p, s)] == byUri.nodes[p].children[s]
      ensures |Below(byUri.nodes.Keys, Child(p, s))| < |Below(byUri.nodes.Keys, p)|
    {
      hide LinkedTo, Trie.Wired;
      At(p);
      byUri.Facts();
      byUri.ChildAt(p, s);
      SmallerBelow(byUri.nodes.Keys, p, s);
    }

    lemma RefreshEnds(p: Path)
      requires Linked() && p in byUri.nodes
      ensures Counted(routes.Keys, p, byUri.nodes[p].children.Keys) == Below(routes.Keys, p)
    {
      hide LinkedTo, Trie.Wired;
      At(p);
      byUri.Facts();
      byUri.CountedAll(p);
    }

    /** `freshenRoutes`. */
    method FreshenRoutes(now: int)
      requires Valid()
      modifies this`routes, byUri.pools.Values, elems
      ensures Valid() && routes == Freshened(old(routes), now)
    {
      hide LinkedTo, Trie.Valid, Trie.Wired, Freshened, Below;
      At(Root);
      byUri.Facts();
      byUri.RootAt();
      FreshenedGood(routes, now);
      BelowRoot(routes.Keys);
      FreshenedAll(routes, now);
      FreshenBelow(byUri, now, Root);
    }

    /**
     `pruneStaleDroplets`: nothing while suspended; after a suspension the routes are refreshed
     first; then the scan. `now` is the one instant at which the cycle runs.
     */
    method PruneStaleDroplets(suspended: bool, now: int)
      requires Valid()
      modifies this, byUri, byUri.nodes.Values, byUri.pools.Values, elems
      ensures Valid()
      ensures PruneCycle(old(State()), suspended, staleThreshold, now, State())
    {
      hide LinkedTo, Trie.Valid, Trie.Wired, Freshened, Below, Good, PrunedAt, DropsAt, Lists;
      if suspended {
        disconnected := true;
        return;
      }
      if disconnected { FreshenRoutes(now); }
      disconnected := false;
      ScanRoot();
      PruneBelow(byUri, now, Root, byUri.nodes.Values, byUri.pools.Values);
    }

    lemma ScanRoot()
      requires Valid()
      ensures Root in byUri.nodes && byUri.nodes[Root] == byUri && Inside(byUri.nodes.Values, byUri.pools.Values)
      ensures Below(routes.Keys, Root) == routes.Keys
    {
      hide LinkedTo, Trie.Wired;
      At(Root);
      byUri.Facts();
      byUri.RootAt();
      BelowRoot(routes.Keys);
    }
  }

  lemma FreshenedOne(routes: Routes, p: Path, now: int)
    requires p in routes
    ensures routes[p := PoolSpec.MarkUpdated(routes[p], now)] == FreshenedAt(routes, {p}, now)
  {
  }

  lemma FreshenedNone(routes: Routes, now: int)
    ensures FreshenedAt(routes, {}, now) == routes
  {
  }

  lemma FreshenStep(routes: Routes, p: Path, done: set<string>, s: string, now: int)
    requires s !in done
    ensures var r := FreshenedAt(routes, Counted(routes.Keys, p, done), now);
            FreshenedAt(r, Below(r.Keys, Child(p, s)), now) == FreshenedAt(routes, Counted(routes.Keys, p, done + {s}), now)
  {
    hide Counted, Below, MarkUpdated;
    CountedStep(routes.Keys, p, done, s);
    FreshenedCompose(routes, Counted(routes.Keys, p, done), Below(routes.Keys, Child(p, s)), now);
    assert FreshenedAt(routes, Counted(routes.Keys, p, done), now).Keys == routes.Keys;
  }

  /** What is below another child is not below this one. */
  lemma Elsewhere(p: Path, s: string, todo: set<string>, routes: Routes)
    requires s !in todo
    ensures forall r, x :: r in todo && x in routes && IsPrefix(Child(p, r), x) ==> x !in Below(routes.Keys, Child(p, s))
  {
    forall r, x | r in todo && x in routes && IsPrefix(Child(p, r), x) && IsPrefix(Child(p, s), x) ensures false {
      SameChild(p, r, s, x);
    }
  }

  lemma VisitProgress(r0: Routes, l0: seq<Update>, p: Path, done: set<string>, s: string, r1: Routes, l1: seq<Update>,
                      threshold: int, now: int, r2: Routes, l2: seq<Update>)
    requires Good(r0) && s !in done
    requires Progress(r0, l0, Counted(r0.Keys, p, done), threshold, now, r1, l1)
    requires Progress(r1, l1, Below(r1.Keys, Child(p, s)), threshold, now, r2, l2)
    ensures Progress(r0, l0, Counted(r0.Keys, p, done + {s}), threshold, now, r2, l2)
  {
    hide Extends, Good, Counted, FreshSlots, DropsAt;
    var a, b := Counted(r0.Keys, p, done), Below(r0.Keys, Child(p, s));
    CountedStep(r0.Keys, p, done, s);
    assert Below(r1.Keys, Child(p, s)) == b;
    ProgressChain(r0, l0, a, r1, l1, b, threshold, now, r2, l2);
  }

  /** A child whose branch has not been pruned is still there. */
  lemma ChildStays(keys: set<Path>, routes: Routes, keys': set<Path>, routes': Routes, done: set<Path>, c: Path, threshold: int, now: int)
    requires Live(keys, routes.Keys, Root) && c in keys && c.Child?
    requires forall x :: x in routes && IsPrefix(c, x) ==> x !in done
    requires routes' == PrunedAt(routes, done, threshold, now)
    requires Closed(keys') && routes'.Keys <= keys'
    ensures c in keys' && c.up in keys'
  {
    hide Live, Closed, FreshSlots;
    if IsPrefix(c, Root) { assert false; }
    var x := PoolBelow(keys, routes.Keys, c, Root);
    assert x in routes';
    ClosedPrefix(keys', c, x);
    assert IsPrefix(c.up, c);
    ClosedPrefix(keys', c.up, c);
  }
}
