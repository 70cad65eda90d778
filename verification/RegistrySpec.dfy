/**
 The route registry as values: a map from route to pool, the log of updates sent to the
 router, and what every operation and every run does to them (registry/registry.go).
 */
module RegistrySpec {
  import opened Wrappers
  import opened Text
  import opened Paths
  import opened Uris
  import opened PoolSpec

  datatype Operation = Add | Remove

  /** An update handed to the router. */
  datatype Update = Update(op: Operation, uri: string, endpoint: Endpoint)

  type Routes = map<Path, seq<Slot>>

  datatype Registry = Registry(routes: Routes, log: seq<Update>, disconnected: bool)

  function SlotsAt(routes: Routes, p: Path): seq<Slot> {
    if p in routes then routes[p] else []
  }

  /** `updateRouter`: an update without a URI is refused and dropped. */
  function Emit(log: seq<Update>, u: Update): seq<Update> {
    if u.uri == "" then log else log + [u]
  }

  // ---------------------------------------------------------------------------------
  // The operations

  function Register(r: Registry, uri: string, e: Endpoint, now: int): Registry {
    var key := RouteKey(uri);
    var p := UriPath(key);
    var slots := SlotsAt(r.routes, p);
    r.(routes := r.routes[p := Put(slots, e, now)],
       log := if Find(slots, e.addr) < 0 then Emit(r.log, Update(Add, key, e)) else r.log)
  }

  function Unregister(r: Registry, uri: string, e: Endpoint): Registry {
    var key := RouteKey(uri);
    var p := UriPath(key);
    if p !in r.routes || !RemoveAccepted(r.routes[p], e) then r
    else
      var slots := PoolSpec.Remove(r.routes[p], e);
      r.(routes := if slots == [] then r.routes - {p} else r.routes[p := slots],
         log := Emit(r.log, Update(Operation.Remove, key, e)))
  }

  function FreshSlots(slots: seq<Slot>, threshold: int, now: int): seq<Slot> {
    PruneFrom(slots, 0, threshold, now).kept
  }

  /** The routes after the positions `done` have been pruned. */
  function PrunedAt(routes: Routes, done: set<Path>, threshold: int, now: int): Routes {
    map p | p in routes && (p in done ==> FreshSlots(routes[p], threshold, now) != []) ::
      if p in done then FreshSlots(routes[p], threshold, now) else routes[p]
  }

  /** The updates for the endpoints dropped from the positions `done`. */
  function DropsAt(routes: Routes, done: set<Path>, threshold: int, now: int): set<Update> {
    set p, a | p in routes && p in done && p.Child? && PathText(p) != ""
               && a in Contents(routes[p]) && Stale(Contents(routes[p])[a], threshold, now)
      :: Update(Operation.Remove, PathText(p), Contents(routes[p])[a].endpoint)
  }

  function Freshened(routes: Routes, now: int): Routes {
    map p | p in routes :: MarkUpdated(routes[p], now)
  }

  /** The routes after the positions `done` have been marked updated. */
  function FreshenedAt(routes: Routes, done: set<Path>, now: int): Routes {
    map p | p in routes :: if p in done then MarkUpdated(routes[p], now) else routes[p]
  }

  ghost predicate NoDuplicates<T(!new)>(s: seq<T>) {
    forall i, j :: 0 <= i < j < |s| ==> s[i] != s[j]
  }

  ghost predicate Lists<T(!new)>(s: seq<T>, elems: set<T>) {
    NoDuplicates(s) && forall x :: x in s <==> x in elems
  }

  /** The scan over all routes; the order in which it meets them is not fixed. */
  ghost predicate Pruned(r: Registry, threshold: int, now: int, r': Registry) {
    && r'.routes == PrunedAt(r.routes, r.routes.Keys, threshold, now)
    && r'.disconnected == r.disconnected
    && |r.log| <= |r'.log| && r'.log[..|r.log|] == r.log
    && Lists(r'.log[|r.log|..], DropsAt(r.routes, r.routes.Keys, threshold, now))
  }

  /** `pruneStaleDroplets`: suspended, it only remembers that; after a suspension it refreshes first. */
  ghost predicate PruneCycle(r: Registry, suspended: bool, threshold: int, now: int, r': Registry) {
    if suspended then r' == r.(disconnected := true)
    else
      var start := if r.disconnected then r.(routes := Freshened(r.routes, now)) else r;
      Pruned(start.(disconnected := false), threshold, now, r')
  }

  // ---------------------------------------------------------------------------------
  // What holds of every registry state

  /** Routes are real positions, pools are never empty, and no address is twice in a pool. */
  ghost predicate Good(routes: Routes) {
    forall p :: p in routes ==> p.Child? && SlashFree(p) && routes[p] != [] && Distinct(routes[p])
  }

  /** Every (route, address) pair that is registered. */
  function Pairs(routes: Routes): set<(Path, string)> {
    set p, a | p in routes && a in Contents(routes[p]) :: (p, a)
  }

  function PairOf(u: Update): (Path, string) { (UriPath(u.uri), u.endpoint.addr) }

  /** What a listener that starts empty and follows the log ends up with. */
  function Replay(log: seq<Update>): set<(Path, string)> {
    if log == [] then {}
    else
      var before := Replay(log[..|log| - 1]);
      var u := log[|log| - 1];
      if u.op.Add? then before + {PairOf(u)} else before - {PairOf(u)}
  }

  /** Adds and Removes of one pair take turns, an Add first. */
  ghost predicate Alternating(log: seq<Update>) {
    forall k :: 0 <= k < |log| ==> (log[k].op.Add? <==> PairOf(log[k]) !in Replay(log[..k]))
  }

  /** A route whose text names it again, which is what pruning reports. */
  predicate Proper(p: Path) {
    p.Child? && PathText(p) != "" && CleanText(p)
  }

  ghost predicate AllProper(routes: Routes) {
    forall p :: p in routes ==> Proper(p)
  }

  /** The log is a faithful account of the index. */
  ghost predicate InStep(r: Registry) {
    Good(r.routes) && Replay(r.log) == Pairs(r.routes) && Alternating(r.log)
  }

  ghost predicate Mirrored(r: Registry) { InStep(r) && AllProper(r.routes) }

  // ---------------------------------------------------------------------------------
  // The log mirrors the index

  lemma ReplaySnoc(log: seq<Update>, u: Update)
    ensures Replay(log + [u]) == if u.op.Add? then Replay(log) + {PairOf(u)} else Replay(log) - {PairOf(u)}
  {
    assert (log + [u])[..|log|] == log;
  }

  lemma AlternatingSnoc(log: seq<Update>, u: Update)
    requires Alternating(log) && (u.op.Add? <==> PairOf(u) !in Replay(log))
    ensures Alternating(log + [u])
  {
    hide Replay, PairOf;
    var l := log + [u];
    forall k | 0 <= k < |l| ensures l[k].op.Add? <==> PairOf(l[k]) !in Replay(l[..k]) {
      if k < |log| {
        assert l[..k] == log[..k];
      } else {
        assert l[..k] == log;
      }
    }
  }

  /** The pairs after one route's pool has been replaced. */
  lemma PairsUpdate(routes: Routes, p: Path, slots: seq<Slot>)
    ensures forall q, a :: (q, a) in Pairs(routes[p := slots]) <==>
              if q == p then a in Contents(slots) else (q, a) in Pairs(routes)
    ensures forall q, a :: (q, a) in Pairs(routes - {p}) <==> q != p && (q, a) in Pairs(routes)
  {
    hide Contents;
  }

  /** Registering keeps log and index in step exactly when a new pair has a key to be reported under. */
  lemma RegisterInStep(r: Registry, uri: string, e: Endpoint, now: int)
    requires InStep(r)
    ensures InStep(Register(r, uri, e, now)) <==>
            RouteKey(uri) != "" || (UriPath(RouteKey(uri)), e.addr) in Pairs(r.routes)
  {
    hide Replay, Alternating, Pairs, UriPath, RouteKey, Contents, Put, Find;
    var key := RouteKey(uri);
    var p := UriPath(key);
    var slots := SlotsAt(r.routes, p);
    UriPathProper(key);
    DistinctSlots(r.routes, p);
    PutPairs(r.routes, p, e, now);
    PutNotEmpty(slots, e, now);
    if Find(slots, e.addr) < 0 && key != "" {
      ReplaySnoc(r.log, Update(Add, key, e));
      AlternatingSnoc(r.log, Update(Add, key, e));
    }
  }

  lemma RegisterGood(r: Registry, uri: string, e: Endpoint, now: int)
    requires Good(r.routes)
    ensures Good(Register(r, uri, e, now).routes)
  {
    hide UriPath, RouteKey, Put, Find;
    var key := RouteKey(uri);
    UriPathProper(key);
    DistinctSlots(r.routes, UriPath(key));
    PutContents(SlotsAt(r.routes, UriPath(key)), e, now);
    PutNotEmpty(SlotsAt(r.routes, UriPath(key)), e, now);
  }

  /** A refused Unregister leaves a pool as it is, and pools are not empty. */
  lemma UnregisterGood(r: Registry, uri: string, e: Endpoint)
    requires Good(r.routes)
    ensures Good(Unregister(r, uri, e).routes)
    ensures var p := UriPath(RouteKey(uri));
            p in r.routes && !RemoveAccepted(r.routes[p], e) ==>
              PoolSpec.Remove(r.routes[p], e) == r.routes[p] && r.routes[p] != []
  {
    hide UriPath, RouteKey, PoolSpec.Remove, Find;
    var p := UriPath(RouteKey(uri));
    if p in r.routes { RemoveContents(r.routes[p], e); }
  }

  lemma NotThere(a: string)
    ensures Find([], a) < 0
  {
  }

  lemma FirstPut(slots: seq<Slot>, e: Endpoint)
    ensures Find(slots, e.addr) < 0 ==> PutAccepted(slots, e)
  {
  }

  lemma KeyNotEmpty(key: string)
    requires Proper(UriPath(key))
    ensures key != ""
  {
    PathTextWalk(TrieKey(key));
  }

  lemma DistinctSlots(routes: Routes, p: Path)
    requires Good(routes)
    ensures Distinct(SlotsAt(routes, p))
  {
  }

  lemma PutNotEmpty(slots: seq<Slot>, e: Endpoint, now: int)
    ensures Put(slots, e, now) != []
  {
  }

  /** Registering adds exactly its own pair. */
  lemma PutPairs(routes: Routes, p: Path, e: Endpoint, now: int)
    requires Distinct(SlotsAt(routes, p))
    ensures var slots := SlotsAt(routes, p);
            && Distinct(Put(slots, e, now))
            && Pairs(routes[p := Put(slots, e, now)]) == Pairs(routes) + {(p, e.addr)}
            && (Find(slots, e.addr) < 0 <==> (p, e.addr) !in Pairs(routes))
  {
    hide Contents, Put, Find;
    var slots := SlotsAt(routes, p);
    PutContents(slots, e, now);
    ContentsAt(slots);
    PairsUpdate(routes, p, Put(slots, e, now));
    if p !in routes { assert (p, e.addr) !in Pairs(routes); }
  }

  /** Unregistering keeps them in step exactly when a removed pair has a key to be reported under. */
  lemma UnregisterInStep(r: Registry, uri: string, e: Endpoint)
    requires InStep(r)
    ensures var p := UriPath(RouteKey(uri));
            InStep(Unregister(r, uri, e)) <==>
            RouteKey(uri) != "" || p !in r.routes || !RemoveAccepted(r.routes[p], e)
  {
    hide Replay, Alternating, Pairs, UriPath, RouteKey, Contents, PoolSpec.Remove, Find;
    var key := RouteKey(uri);
    var p := UriPath(key);
    if p in r.routes && RemoveAccepted(r.routes[p], e) {
      RemovePairs(r.routes, p, e);
      UnregisterGood(r, uri, e);
      if key != "" {
        ReplaySnoc(r.log, Update(Operation.Remove, key, e));
        AlternatingSnoc(r.log, Update(Operation.Remove, key, e));
      }
    }
  }

  /** Unregistering removes exactly its own pair, and an emptied route with it. */
  lemma RemovePairs(routes: Routes, p: Path, e: Endpoint)
    requires Good(routes) && p in routes && RemoveAccepted(routes[p], e)
    ensures var slots := PoolSpec.Remove(routes[p], e);
            && Distinct(slots)
            && (p, e.addr) in Pairs(routes)
            && Pairs(if slots == [] then routes - {p} else routes[p := slots]) == Pairs(routes) - {(p, e.addr)}
  {
    hide PoolSpec.Remove, Find;
    var slots := PoolSpec.Remove(routes[p], e);
    RemoveContents(routes[p], e);
    PairsUpdate(routes, p, slots);
    if slots == [] { assert Contents(slots) == map[]; }
  }

  function Covered(suffix: seq<Update>): set<(Path, string)> {
    set k | 0 <= k < |suffix| :: PairOf(suffix[k])
  }

  /** A batch of Removes of different registered pairs, in any order. */
  lemma {:induction false} ReplayRemoves(log: seq<Update>, suffix: seq<Update>)
    requires Alternating(log)
    requires forall k :: 0 <= k < |suffix| ==> suffix[k].op.Remove? && PairOf(suffix[k]) in Replay(log)
    requires forall j, k :: 0 <= j < k < |suffix| ==> PairOf(suffix[j]) != PairOf(suffix[k])
    ensures Alternating(log + suffix) && Replay(log + suffix) == Replay(log) - Covered(suffix)
    decreases |suffix|
  {
    hide Replay, PairOf, Alternating;
    if suffix == [] {
      assert log + suffix == log;
    } else {
      var n := |suffix| - 1;
      var front := suffix[..n];
      ReplayRemoves(log, front);
      assert log + suffix == (log + front) + [suffix[n]];
      ReplaySnoc(log + front, suffix[n]);
      forall k | 0 <= k < n ensures PairOf(suffix[n]) != PairOf(front[k]) {
        assert front[k] == suffix[k];
      }
      CoveredSnoc(suffix);
      AlternatingSnoc(log + front, suffix[n]);
    }
  }

  lemma CoveredSnoc(suffix: seq<Update>)
    requires suffix != []
    ensures var n := |suffix| - 1;
            Covered(suffix) == Covered(suffix[..n]) + {PairOf(suffix[n])}
  {
    hide PairOf;
    var n := |suffix| - 1;
    forall k | 0 <= k < n ensures PairOf(suffix[k]) == PairOf(suffix[..n][k]) {}
  }

  /** The pairs that pruning drops. */
  function StalePairs(routes: Routes, threshold: int, now: int): set<(Path, string)> {
    set p, a | p in routes && a in Contents(routes[p]) && Stale(Contents(routes[p])[a], threshold, now) :: (p, a)
  }

  lemma KeptContents(slots: seq<Slot>, threshold: int, now: int)
    requires Distinct(slots)
    ensures Distinct(FreshSlots(slots, threshold, now))
    ensures Contents(FreshSlots(slots, threshold, now)) == Fresh(Contents(slots), threshold, now)
  {
    PruneContents(slots, 0, threshold, now);
  }

  lemma PrunedPairs(routes: Routes, threshold: int, now: int)
    requires Good(routes)
    ensures var routes' := PrunedAt(routes, routes.Keys, threshold, now);
            Good(routes') && Pairs(routes') == Pairs(routes) - StalePairs(routes, threshold, now)
  {
    hide Contents, FreshSlots, Distinct;
    var routes' := PrunedAt(routes, routes.Keys, threshold, now);
    forall p | p in routes
      ensures Distinct(FreshSlots(routes[p], threshold, now))
      ensures Contents(FreshSlots(routes[p], threshold, now)) == Fresh(Contents(routes[p]), threshold, now)
    {
      KeptContents(routes[p], threshold, now);
    }
    EmptyContents();
    var gone := StalePairs(routes, threshold, now);
    forall p, a | p in routes && a in Contents(routes[p])
      ensures (p, a) in Pairs(routes') <==> (p, a) !in gone
    {
      if !Stale(Contents(routes[p])[a], threshold, now) {
        assert a in Contents(FreshSlots(routes[p], threshold, now));
        assert p in routes';
      }
    }
    forall x | x in Pairs(routes') ensures x in Pairs(routes) {
      var p, a :| p in routes' && a in Contents(routes'[p]) && x == (p, a);
    }
  }

  lemma EmptyContents()
    ensures Contents([]) == map[]
  {
  }

  /** Only endpoints of proper routes are stale. */
  ghost predicate StaleProper(routes: Routes, threshold: int, now: int) {
    forall x :: x in StalePairs(routes, threshold, now) ==> Proper(x.0)
  }

  /** Updates of dropped endpoints stand for the stale pairs, one for one. */
  lemma DropPairs(routes: Routes, threshold: int, now: int, u: Update)
    requires Good(routes) && StaleProper(routes, threshold, now) && u in DropsAt(routes, routes.Keys, threshold, now)
    ensures PairOf(u) in StalePairs(routes, threshold, now)
    ensures u == Update(Operation.Remove, PathText(PairOf(u).0), Contents(routes[PairOf(u).0])[PairOf(u).1].endpoint)
  {
    hide Contents, PathText;
    var p, a :| p in routes && a in Contents(routes[p]) && Stale(Contents(routes[p])[a], threshold, now)
             && u == Update(Operation.Remove, PathText(p), Contents(routes[p])[a].endpoint);
    assert (p, a) in StalePairs(routes, threshold, now);
    PathTextNamesNode(p);
    ContentsAt(routes[p]);
  }

  lemma StalePairDropped(routes: Routes, threshold: int, now: int, p: Path, a: string)
    requires Good(routes) && StaleProper(routes, threshold, now) && (p, a) in StalePairs(routes, threshold, now)
    ensures var u := Update(Operation.Remove, PathText(p), Contents(routes[p])[a].endpoint);
            u in DropsAt(routes, routes.Keys, threshold, now) && PairOf(u) == (p, a)
  {
    hide Contents, PathText;
    PathTextNamesNode(p);
    ContentsAt(routes[p]);
  }

  lemma DropsCover(routes: Routes, threshold: int, now: int, suffix: seq<Update>)
    requires Good(routes) && StaleProper(routes, threshold, now)
    requires Lists(suffix, DropsAt(routes, routes.Keys, threshold, now))
    ensures Covered(suffix) == StalePairs(routes, threshold, now)
    ensures forall j, k :: 0 <= j < k < |suffix| ==> PairOf(suffix[j]) != PairOf(suffix[k])
    ensures forall k :: 0 <= k < |suffix| ==> suffix[k].op.Remove?
  {
    hide DropsAt, StalePairs, PairOf, Contents, Good, StaleProper, PathText;
    forall k | 0 <= k < |suffix|
      ensures PairOf(suffix[k]) in StalePairs(routes, threshold, now) && suffix[k].op.Remove?
    {
      DropPairs(routes, threshold, now, suffix[k]);
    }
    forall j, k | 0 <= j < k < |suffix| ensures PairOf(suffix[j]) != PairOf(suffix[k]) {
      DropPairs(routes, threshold, now, suffix[j]);
      DropPairs(routes, threshold, now, suffix[k]);
    }
    forall x | x in StalePairs(routes, threshold, now) ensures x in Covered(suffix) {
      StalePairDropped(routes, threshold, now, x.0, x.1);
    }
    forall x | x in Covered(suffix) ensures x in StalePairs(routes, threshold, now) {
      var k :| 0 <= k < |suffix| && PairOf(suffix[k]) == x;
    }
  }

  /** Pruning keeps log and index in step exactly when only proper routes lose endpoints. */
  lemma PrunedInStep(r: Registry, threshold: int, now: int, r': Registry)
    requires InStep(r) && Pruned(r, threshold, now, r')
    ensures InStep(r') <==> StaleProper(r.routes, threshold, now)
  {
    hide DropsAt, StalePairs, Pairs, Replay, Alternating, Lists, PrunedAt, Good, StaleProper;
    if StaleProper(r.routes, threshold, now) {
      PrunedProper(r, threshold, now, r');
    } else {
      PrunedImproper(r, threshold, now, r');
    }
  }

  lemma PrunedProper(r: Registry, threshold: int, now: int, r': Registry)
    requires InStep(r) && Pruned(r, threshold, now, r') && StaleProper(r.routes, threshold, now)
    ensures InStep(r')
  {
    hide DropsAt, StalePairs, PairOf, Contents, Pairs, Replay, Alternating, FreshSlots, Lists, StaleProper;
    var suffix := r'.log[|r.log|..];
    assert r'.log == r.log + suffix;
    PrunedPairs(r.routes, threshold, now);
    DropsCover(r.routes, threshold, now, suffix);
    StaleArePairs(r.routes, threshold, now);
    forall k | 0 <= k < |suffix| ensures PairOf(suffix[k]) in Replay(r.log) {
      assert PairOf(suffix[k]) in Covered(suffix);
    }
    ReplayRemoves(r.log, suffix);
  }

  /** Of the improper routes that lose an endpoint, the one with the longest text is not reported. */
  lemma PrunedImproper(r: Registry, threshold: int, now: int, r': Registry)
    requires InStep(r) && Pruned(r, threshold, now, r') && !StaleProper(r.routes, threshold, now)
    ensures Replay(r'.log) != Pairs(r'.routes)
  {
    hide DropsAt, PairOf, Contents, Pairs, Replay, Alternating, FreshSlots, Lists, Proper, PathText;
    var suffix := r'.log[|r.log|..];
    assert r'.log == r.log + suffix;
    PrunedPairs(r.routes, threshold, now);
    StaleArePairs(r.routes, threshold, now);
    var stale := StalePairs(r.routes, threshold, now);
    var bad := set x | x in stale && !Proper(x.0);
    var y :| y in stale && !Proper(y.0);
    assert y in bad;
    assert forall x :: x in bad ==> x.0.Child? by { StaleRoutes(r.routes, threshold, now); }
    var x := LongestText(bad);
    forall k | 0 <= k < |suffix| ensures suffix[k].op.Remove? && PairOf(suffix[k]) != x {
      DropElsewhere(r.routes, threshold, now, suffix, k, x, bad);
    }
    NotCovered(r.log, suffix, x);
  }

  lemma StaleRoutes(routes: Routes, threshold: int, now: int)
    requires Good(routes)
    ensures forall x :: x in StalePairs(routes, threshold, now) ==> x.0 in routes && x.0.Child? && SlashFree(x.0)
  {
  }

  lemma {:induction false} LongestText(bad: set<(Path, string)>) returns (x: (Path, string))
    requires bad != {} && forall y :: y in bad ==> y.0.Child?
    ensures x in bad && forall y :: y in bad ==> |PathText(y.0)| <= |PathText(x.0)|
    decreases |bad|
  {
    x :| x in bad;
    var rest := bad - {x};
    if rest != {} {
      var z := LongestText(rest);
      assert forall y :: y in bad ==> y == x || y in rest;
      if |PathText(x.0)| < |PathText(z.0)| { x := z; }
    }
  }

  /** No reported drop stands for the improper pair with the longest text. */
  lemma DropElsewhere(routes: Routes, threshold: int, now: int, suffix: seq<Update>, k: nat,
                      x: (Path, string), bad: set<(Path, string)>)
    requires Good(routes) && Lists(suffix, DropsAt(routes, routes.Keys, threshold, now)) && k < |suffix|
    requires bad == set y | y in StalePairs(routes, threshold, now) && !Proper(y.0)
    requires x in bad && x.0.Child? && forall y :: y in bad ==> y.0.Child? && |PathText(y.0)| <= |PathText(x.0)|
    ensures suffix[k].op.Remove? && PairOf(suffix[k]) != x
  {
    hide Contents, PathText, Proper, UriPath;
    var u := suffix[k];
    assert u in suffix;
    var q, a :| q in routes && q.Child? && PathText(q) != "" && a in Contents(routes[q])
             && Stale(Contents(routes[q])[a], threshold, now)
             && u == Update(Operation.Remove, PathText(q), Contents(routes[q])[a].endpoint);
    assert (q, a) in StalePairs(routes, threshold, now);
    ReportedAt(q);
    if !Proper(q) { assert (q, a) in bad; }
  }

  /** A proper route's text names it; an improper one's names a position with a shorter text. */
  lemma ReportedAt(q: Path)
    requires q.Child? && SlashFree(q) && PathText(q) != ""
    ensures var p := UriPath(PathText(q));
            p.Child? && if Proper(q) then p == q else |PathText(p)| < |PathText(q)|
  {
    var t := PathText(q);
    PathTextNamesNode(q);
    PathTextWalk(TrieKey(t));
  }

  lemma {:induction false} NotCovered(log: seq<Update>, suffix: seq<Update>, x: (Path, string))
    requires x in Replay(log) && forall k :: 0 <= k < |suffix| ==> suffix[k].op.Remove? && PairOf(suffix[k]) != x
    ensures x in Replay(log + suffix)
    decreases |suffix|
  {
    hide Replay, PairOf;
    if suffix == [] {
      assert log + suffix == log;
    } else {
      var n := |suffix| - 1;
      NotCovered(log, suffix[..n], x);
      assert log + suffix == (log + suffix[..n]) + [suffix[n]];
      ReplaySnoc(log + suffix[..n], suffix[n]);
    }
  }

  lemma StaleArePairs(routes: Routes, threshold: int, now: int)
    ensures StalePairs(routes, threshold, now) <= Pairs(routes)
  {
  }

  // ---------------------------------------------------------------------------------
  // Whole runs

  datatype Event =
    | Registered(uri: string, endpoint: Endpoint, now: int)
    | Unregistered(uri: string, endpoint: Endpoint)
    | PruneTick(suspended: bool, threshold: int, now: int)

  /** The routes a prune tick looks at: after a suspension they have just been refreshed. */
  function Looked(r: Registry, now: int): Routes { if r.disconnected then Freshened(r.routes, now) else r.routes }

  /**
   An event on which the source panics: the update it sends has a URI that `makeObjectName`
   cannot cut at a dot.
   */
  ghost predicate Panics(r: Registry, ev: Event) {
    match ev
    case Registered(uri, e, now) =>
      var key := RouteKey(uri);
      key != "" && !Nameable(key) && Find(SlotsAt(r.routes, UriPath(key)), e.addr) < 0
    case Unregistered(uri, e) =>
      var key := RouteKey(uri);
      key != "" && !Nameable(key) && UriPath(key) in r.routes && RemoveAccepted(r.routes[UriPath(key)], e)
    case PruneTick(suspended, threshold, now) =>
      !suspended && exists x :: x in StalePairs(Looked(r, now), threshold, now)
                                && x.0.Child? && PathText(x.0) != "" && !Nameable(PathText(x.0))
  }

  /** One event; a panic has no next state. */
  ghost predicate Next(r: Registry, ev: Event, r': Registry) {
    !Panics(r, ev) &&
    match ev
    case Registered(uri, e, now) => r' == Register(r, uri, e, now)
    case Unregistered(uri, e) => r' == Unregister(r, uri, e)
    case PruneTick(suspended, threshold, now) => PruneCycle(r, suspended, threshold, now, r')
  }

  /** Everything the event changes in the index can be reported under its own name. */
  ghost predicate Reportable(r: Registry, ev: Event) {
    match ev
    case Registered(uri, e, now) => RouteKey(uri) != "" || (UriPath(RouteKey(uri)), e.addr) in Pairs(r.routes)
    case Unregistered(uri, e) =>
      var p := UriPath(RouteKey(uri));
      RouteKey(uri) != "" || p !in r.routes || !RemoveAccepted(r.routes[p], e)
    case PruneTick(suspended, threshold, now) => suspended || StaleProper(Looked(r, now), threshold, now)
  }

  const EMPTY := Registry(map[], [], false)

  /** A run from the empty registry: `states[k+1]` follows `states[k]` by `events[k]`. */
  ghost predicate IsRun(states: seq<Registry>, events: seq<Event>) {
    && |states| == |events| + 1 && states[0] == EMPTY
    && forall k :: 0 <= k < |events| ==> Next(states[k], events[k], states[k + 1])
  }

  /** Only routes whose path text names them are ever registered. */
  ghost predicate ProperRun(events: seq<Event>) {
    forall k :: 0 <= k < |events| && events[k].Registered? ==> Proper(UriPath(RouteKey(events[k].uri)))
  }

  lemma FreshenedInStep(r: Registry, now: int)
    requires InStep(r)
    ensures InStep(r.(routes := Freshened(r.routes, now)))
  {
    hide Replay, Alternating, MarkUpdated, Contents;
    var routes' := Freshened(r.routes, now);
    forall p | p in r.routes
      ensures Distinct(routes'[p]) && Contents(routes'[p]).Keys == Contents(r.routes[p]).Keys && routes'[p] != []
    {
      MarkedContents(r.routes[p], now);
    }
    forall x ensures x in Pairs(routes') <==> x in Pairs(r.routes) {}
  }

  lemma MarkedContents(slots: seq<Slot>, now: int)
    requires Distinct(slots)
    ensures Distinct(MarkUpdated(slots, now))
    ensures Contents(MarkUpdated(slots, now)).Keys == Contents(slots).Keys
    ensures |MarkUpdated(slots, now)| == |slots|
    ensures forall i :: 0 <= i < |slots| ==> MarkUpdated(slots, now)[i] == slots[i].(updated := now)
  {
    var marked := MarkUpdated(slots, now);
    assert forall i :: 0 <= i < |slots| ==> marked[i].endpoint == slots[i].endpoint;
    ContentsRepresents(slots);
    ContentsRepresents(marked);
    SameAddresses(slots, marked, Contents(slots), Contents(marked));
  }

  lemma SameAddresses(s: seq<Slot>, t: seq<Slot>, c: map<string, Slot>, d: map<string, Slot>)
    requires |s| == |t| && forall i :: 0 <= i < |s| ==> t[i].endpoint.addr == s[i].endpoint.addr
    requires Represents(s, c) && Represents(t, d)
    ensures c.Keys == d.Keys
  {
    forall a | a in c ensures a in d {
      var i :| 0 <= i < |s| && s[i].endpoint.addr == a;
      assert t[i].endpoint.addr == a;
    }
    forall a | a in d ensures a in c {
      var i :| 0 <= i < |t| && t[i].endpoint.addr == a;
      assert s[i].endpoint.addr == a;
    }
  }

  /** Every event keeps log and index in step exactly when it is reportable. */
  lemma StepInStep(r: Registry, ev: Event, r': Registry)
    requires InStep(r) && Next(r, ev, r')
    ensures InStep(r') <==> Reportable(r, ev)
  {
    hide InStep, Pruned, Register, Unregister, StaleProper, Panics;
    match ev
    case Registered(uri, e, now) => RegisterInStep(r, uri, e, now);
    case Unregistered(uri, e) => UnregisterInStep(r, uri, e);
    case PruneTick(suspended, threshold, now) =>
      InStepFlag(r, suspended);
      if !suspended {
        FreshenedInStep(r, now);
        var start := r.(routes := Looked(r, now));
        InStepFlag(start, false);
        PrunedInStep(start.(disconnected := false), threshold, now, r');
      }
  }

  lemma InStepFlag(r: Registry, flag: bool)
    requires InStep(r)
    ensures InStep(r.(disconnected := flag))
  {
  }

  /**
   Over every run, following the log from nothing gives exactly the (route, address) pairs in
   the index, with Adds and Removes of a pair alternating and no stored pool empty, as long as
   every event is reportable; and the first event that is not puts them out of step.
   */
  lemma {:induction false} LogMirrorsIndex(states: seq<Registry>, events: seq<Event>, k: nat)
    requires IsRun(states, events) && k <= |events|
    ensures (forall j :: 0 <= j <= k ==> InStep(states[j])) <==> forall j :: 0 <= j < k ==> Reportable(states[j], events[j])
  {
    hide InStep, Next, Reportable;
    if k == 0 {
      MirroredEmpty();
    } else {
      LogMirrorsIndex(states, events, k - 1);
      if InStep(states[k - 1]) { StepInStep(states[k - 1], events[k - 1], states[k]); }
    }
  }

  /** Runs that register proper routes only are in step throughout. */
  lemma {:induction false} ProperRunMirrored(states: seq<Registry>, events: seq<Event>, k: nat)
    requires IsRun(states, events) && ProperRun(events) && k <= |events|
    ensures Mirrored(states[k])
  {
    hide InStep, Next, Reportable, AllProper;
    if k == 0 {
      MirroredEmpty();
    } else {
      ProperRunMirrored(states, events, k - 1);
      ProperStep(states[k - 1], events[k - 1], states[k]);
      StepInStep(states[k - 1], events[k - 1], states[k]);
    }
  }

  lemma ProperStep(r: Registry, ev: Event, r': Registry)
    requires AllProper(r.routes) && Next(r, ev, r')
    requires ev.Registered? ==> Proper(UriPath(RouteKey(ev.uri)))
    ensures Reportable(r, ev) && AllProper(r'.routes)
  {
    hide Proper, UriPath, RouteKey, Put, PoolSpec.Remove, Lists, DropsAt, Panics, Contents, FreshSlots;
    match ev
    case Registered(uri, e, now) => KeyNotEmpty(RouteKey(uri));
    case Unregistered(uri, e) => if UriPath(RouteKey(uri)) in r.routes { KeyNotEmpty(RouteKey(uri)); }
    case PruneTick(suspended, threshold, now) =>
  }

  // ---------------------------------------------------------------------------------
  // Panics

  /** Every route could be named when it was registered. */
  ghost predicate AllNameable(routes: Routes) {
    forall p :: p in routes ==> p.Child? && (PathText(p) == "" || Nameable(PathText(p)))
  }

  lemma KeyNames(key: string)
    ensures UriPath(key).Child? && PathText(UriPath(key)) == TrieKey(key)
    ensures Nameable(key) <==> Nameable(PathText(UriPath(key)))
  {
    PathTextWalk(TrieKey(key));
    NameableKey(key);
  }

  lemma NextNameable(r: Registry, ev: Event, r': Registry)
    requires AllNameable(r.routes) && Next(r, ev, r')
    ensures AllNameable(r'.routes)
  {
    hide UriPath, RouteKey, Put, PoolSpec.Remove, Lists, DropsAt, PathText, Nameable, Contents, FreshSlots, StalePairs;
    match ev
    case Registered(uri, e, now) =>
      KeyNames(RouteKey(uri));
      NotThere(e.addr);
      assert TrieKey("") == "";
    case Unregistered(uri, e) =>
    case PruneTick(suspended, threshold, now) =>
  }

  lemma {:induction false} RunNameable(states: seq<Registry>, events: seq<Event>, k: nat)
    requires IsRun(states, events) && k <= |events|
    ensures AllNameable(states[k].routes)
  {
    hide Next, AllNameable;
    if k == 0 {
      assert AllNameable(map[]) by { NothingNamed(); }
    } else {
      RunNameable(states, events, k - 1);
      NextNameable(states[k - 1], events[k - 1], states[k]);
    }
  }

  lemma NothingNamed()
    ensures AllNameable(map[])
  {
  }

  /**
   What can panic in a run: registering a new pair whose key has neither dot nor wildcard, or
   unregistering, under a key of slashes only, what was registered under the empty key.
   */
  lemma PanicsExactly(states: seq<Registry>, events: seq<Event>, k: nat, ev: Event)
    requires IsRun(states, events) && k <= |events|
    ensures Panics(states[k], ev) <==>
            match ev
            case Registered(uri, e, now) =>
              var key := RouteKey(uri);
              key != "" && '.' !in key && '*' !in key && Find(SlotsAt(states[k].routes, UriPath(key)), e.addr) < 0
            case Unregistered(uri, e) =>
              var key := RouteKey(uri);
              && key != "" && TrieKey(key) == "" && UriPath(key) in states[k].routes
              && RemoveAccepted(states[k].routes[UriPath(key)], e)
            case PruneTick(suspended, threshold, now) => false
  {
    hide UriPath, RouteKey, PathText, Next, Nameable;
    RunNameable(states, events, k);
    var r := states[k];
    match ev
    case Registered(uri, e, now) => NameableKey(RouteKey(uri));
    case Unregistered(uri, e) => KeyNames(RouteKey(uri)); NotNamed();
    case PruneTick(suspended, threshold, now) => LookedRoutes(r, threshold, now);
  }

  lemma NotNamed()
    ensures !Nameable("")
  {
  }

  lemma LookedRoutes(r: Registry, threshold: int, now: int)
    ensures forall x :: x in StalePairs(Looked(r, now), threshold, now) ==> x.0 in r.routes
  {
  }

  lemma MirroredEmpty()
    ensures InStep(EMPTY) && AllProper(EMPTY.routes)
  {
  }

  lemma FreshenedPairs(routes: Routes, now: int)
    requires Good(routes)
    ensures var start := Freshened(routes, now);
            && Good(start) && Pairs(start) == Pairs(routes)
            && forall p, a :: (p, a) in Pairs(start) ==> Contents(start[p])[a].updated == now
  {
    hide Contents, MarkUpdated;
    var start := Freshened(routes, now);
    forall p | p in routes
      ensures Distinct(start[p]) && Contents(start[p]).Keys == Contents(routes[p]).Keys && start[p] != []
      ensures forall a :: a in Contents(start[p]) ==> Contents(start[p])[a].updated == now
    {
      MarkedContents(routes[p], now);
      ContentsAt(start[p]);
    }
    forall x ensures x in Pairs(start) <==> x in Pairs(routes) {}
  }

  /** A freshly marked entry is stale exactly when the threshold is negative. */
  lemma AllOrNothingStale(routes: Routes, threshold: int, now: int)
    requires forall p, a :: (p, a) in Pairs(routes) ==> Contents(routes[p])[a].updated == now
    ensures StalePairs(routes, threshold, now) == if threshold >= 0 then {} else Pairs(routes)
  {
    hide Contents;
    forall p, a | p in routes && a in Contents(routes[p])
      ensures Stale(Contents(routes[p])[a], threshold, now) <==> threshold < 0
    {
      assert (p, a) in Pairs(routes);
    }
  }

  lemma SomePair(routes: Routes, p: Path)
    requires Good(routes) && p in routes
    ensures Pairs(routes) != {}
  {
    ContentsAt(routes[p]);
    assert (p, routes[p][0].endpoint.addr) in Pairs(routes);
  }

  /** When a cycle drops nothing: suspended; just reconnected with a sensible threshold; or nothing is stale. */
  ghost predicate Quiet(r: Registry, suspended: bool, threshold: int, now: int) {
    || suspended
    || if r.disconnected then threshold >= 0 || r.routes == map[] else StalePairs(r.routes, threshold, now) == {}
  }

  /** A cycle keeps every registered pair exactly when it is quiet, and then it reports nothing either. */
  lemma CycleKeeps(r: Registry, suspended: bool, threshold: int, now: int, r': Registry)
    requires Good(r.routes) && PruneCycle(r, suspended, threshold, now, r')
    ensures Pairs(r'.routes) == Pairs(r.routes) <==> Quiet(r, suspended, threshold, now)
    ensures Quiet(r, suspended, threshold, now) ==> r'.log == r.log
  {
    hide StalePairs, Pairs, Good, Lists, DropsAt, PrunedAt;
    if !suspended {
      var start := Looked(r, now);
      FreshenedPairs(r.routes, now);
      PrunedPairs(start, threshold, now);
      StaleArePairs(start, threshold, now);
      if r.disconnected { ReconnectStale(r.routes, threshold, now); }
      assert Quiet(r, suspended, threshold, now) <==> StalePairs(start, threshold, now) == {};
      if StalePairs(start, threshold, now) == {} { NothingReported(start, threshold, now, r'.log[|r.log|..]); }
    }
  }

  /** After a suspension, at one instant, all or nothing is stale. */
  lemma ReconnectStale(routes: Routes, threshold: int, now: int)
    requires Good(routes)
    ensures StalePairs(Freshened(routes, now), threshold, now) == {} <==> threshold >= 0 || routes == map[]
  {
    hide StalePairs, Pairs, Good;
    FreshenedPairs(routes, now);
    AllOrNothingStale(Freshened(routes, now), threshold, now);
    if routes == map[] {
      NoPairs();
    } else {
      var p :| p in routes;
      SomePair(routes, p);
    }
  }

  lemma NothingReported(routes: Routes, threshold: int, now: int, suffix: seq<Update>)
    requires StalePairs(routes, threshold, now) == {} && Lists(suffix, DropsAt(routes, routes.Keys, threshold, now))
    ensures suffix == []
  {
    hide DropsAt, StalePairs;
    if suffix != [] {
      assert suffix[0] in suffix;
      DropIsStale(routes, threshold, now, suffix[0]);
    }
  }

  lemma DropIsStale(routes: Routes, threshold: int, now: int, u: Update)
    requires u in DropsAt(routes, routes.Keys, threshold, now)
    ensures exists x :: x in StalePairs(routes, threshold, now)
  {
    hide Contents, PathText;
    var p, a :| p in routes && p.Child? && a in Contents(routes[p]) && Stale(Contents(routes[p])[a], threshold, now)
             && u == Update(Operation.Remove, PathText(p), Contents(routes[p])[a].endpoint);
    assert (p, a) in StalePairs(routes, threshold, now);
  }

  lemma ContentsHas(slots: seq<Slot>)
    requires Distinct(slots) && slots != []
    ensures slots[0].endpoint.addr in Contents(slots)
  {
    ContentsAt(slots);
  }

  lemma NoPairs()
    ensures Pairs(map[]) == {}
  {
  }

  // ---------------------------------------------------------------------------------
  // Pruning piece by piece

  ghost predicate Apart(routes: Routes, a: set<Path>, b: set<Path>) {
    forall p :: p in routes ==> !(p in a && p in b)
  }

  /** Pruning two sets of routes one after the other is pruning both. */
  lemma PrunedCompose(routes: Routes, a: set<Path>, b: set<Path>, threshold: int, now: int)
    requires Apart(routes, a, b)
    ensures PrunedAt(PrunedAt(routes, a, threshold, now), b, threshold, now) == PrunedAt(routes, a + b, threshold, now)
    ensures DropsAt(PrunedAt(routes, a, threshold, now), b, threshold, now) == DropsAt(routes, b, threshold, now)
  {
    hide FreshSlots, Contents;
  }

  lemma DropsUnion(routes: Routes, a: set<Path>, b: set<Path>, threshold: int, now: int)
    requires Good(routes) && Apart(routes, a, b)
    ensures DropsAt(routes, a + b, threshold, now) == DropsAt(routes, a, threshold, now) + DropsAt(routes, b, threshold, now)
    ensures DropsAt(routes, a, threshold, now) !! DropsAt(routes, b, threshold, now)
  {
    hide Contents, PathText;
    forall u | u in DropsAt(routes, a, threshold, now) && u in DropsAt(routes, b, threshold, now) ensures false {
      var p :| p in routes && p in a && u.uri == PathText(p);
      var q :| q in routes && q in b && u.uri == PathText(q);
      WalkPathText(p);
      WalkPathText(q);
    }
  }

  lemma ListsConcat<T(!new)>(s: seq<T>, a: set<T>, t: seq<T>, b: set<T>)
    requires Lists(s, a) && Lists(t, b) && a !! b
    ensures Lists(s + t, a + b)
  {
    var r := s + t;
    forall i, j | 0 <= i < j < |r| ensures r[i] != r[j] {
      if i < |s| <= j {
        assert s[i] in a && t[j - |s|] in b;
      }
    }
  }

  lemma FreshenedCompose(routes: Routes, a: set<Path>, b: set<Path>, now: int)
    requires Apart(routes, a, b)
    ensures FreshenedAt(FreshenedAt(routes, a, now), b, now) == FreshenedAt(routes, a + b, now)
  {
    hide MarkUpdated;
  }

  lemma FreshenedGood(routes: Routes, now: int)
    requires Good(routes)
    ensures Good(Freshened(routes, now))
  {
    FreshenedPairs(routes, now);
  }

  lemma FreshenedAll(routes: Routes, now: int)
    ensures FreshenedAt(routes, routes.Keys, now) == Freshened(routes, now)
  {
    hide MarkUpdated;
  }

  lemma PrunedGood(routes: Routes, done: set<Path>, threshold: int, now: int)
    requires Good(routes)
    ensures Good(PrunedAt(routes, done, threshold, now))
  {
    hide Contents, FreshSlots;
    forall p | p in routes ensures Distinct(FreshSlots(routes[p], threshold, now)) {
      KeptContents(routes[p], threshold, now);
    }
  }

  lemma PrunedSingle(routes: Routes, p: Path, threshold: int, now: int)
    requires p in routes
    ensures var kept := FreshSlots(routes[p], threshold, now);
            PrunedAt(routes, {p}, threshold, now) == routes[p := kept] - (if kept == [] then {p} else {})
  {
    hide FreshSlots;
  }

  /** Nothing to prune, nothing to report. */
  lemma PrunedNone(routes: Routes, done: set<Path>, threshold: int, now: int)
    requires forall p :: p in routes ==> p !in done
    ensures PrunedAt(routes, done, threshold, now) == routes
    ensures DropsAt(routes, done, threshold, now) == {} && Lists<Update>([], {})
  {
  }

  /** `log` goes on from `log0` with the updates `drops`, each once. */
  ghost predicate Extends(log0: seq<Update>, log: seq<Update>, drops: set<Update>) {
    |log0| <= |log| && log[..|log0|] == log0 && Lists(log[|log0|..], drops)
  }

  lemma ExtendsChain(l0: seq<Update>, l1: seq<Update>, l2: seq<Update>, a: set<Update>, b: set<Update>)
    requires Extends(l0, l1, a) && Extends(l1, l2, b) && a !! b
    ensures Extends(l0, l2, a + b)
  {
    hide Lists;
    assert l2[|l0|..] == l1[|l0|..] + l2[|l1|..];
    ListsConcat(l1[|l0|..], a, l2[|l1|..], b);
    assert l2[..|l0|] == l1[..|l0|];
  }

  /** Pruning has got as far as `done`. */
  ghost predicate Progress(routes0: Routes, log0: seq<Update>, done: set<Path>, threshold: int, now: int, routes: Routes, log: seq<Update>) {
    routes == PrunedAt(routes0, done, threshold, now) && Extends(log0, log, DropsAt(routes0, done, threshold, now))
  }

  /** Two stretches of pruning, of different routes, make one. */
  lemma ProgressChain(r0: Routes, l0: seq<Update>, a: set<Path>, r1: Routes, l1: seq<Update>, b: set<Path>,
                      threshold: int, now: int, r2: Routes, l2: seq<Update>)
    requires Good(r0) && Progress(r0, l0, a, threshold, now, r1, l1) && Progress(r1, l1, b, threshold, now, r2, l2)
    requires Apart(r0, a, b)
    ensures Progress(r0, l0, a + b, threshold, now, r2, l2)
  {
    hide Extends, PrunedAt, DropsAt, Good;
    PrunedCompose(r0, a, b, threshold, now);
    DropsUnion(r0, a, b, threshold, now);
    ExtendsChain(l0, l1, l2, DropsAt(r0, a, threshold, now), DropsAt(r0, b, threshold, now));
  }

  function Reports(text: string, dropped: seq<Endpoint>): (r: seq<Update>)
    ensures |r| == if text == "" then 0 else |dropped|
  {
    if text == "" then [] else seq(|dropped|, i requires 0 <= i < |dropped| => Update(Operation.Remove, text, dropped[i]))
  }

  /** The reports for one pruned route. */
  lemma ReportsListed(routes: Routes, p: Path, threshold: int, now: int)
    requires Good(routes) && p in routes
    ensures Lists(Reports(PathText(p), PruneFrom(routes[p], 0, threshold, now).dropped), DropsAt(routes, {p}, threshold, now))
  {
    hide Contents, PathText, PruneFrom;
    var dropped := PruneFrom(routes[p], 0, threshold, now).dropped;
    PruneContents(routes[p], 0, threshold, now);
    DropsAre(routes, p, threshold, now, dropped);
  }

  lemma DropsAre(routes: Routes, p: Path, threshold: int, now: int, dropped: seq<Endpoint>)
    requires p in routes && p.Child? && DropsStale(Contents(routes[p]), dropped, threshold, now)
    ensures Lists(Reports(PathText(p), dropped), DropsAt(routes, {p}, threshold, now))
  {
    hide Contents, PathText;
    var text := PathText(p);
    var c := Contents(routes[p]);
    var r := Reports(text, dropped);
    forall u | u in DropsAt(routes, {p}, threshold, now) ensures u in r {
      var a :| a in c && Stale(c[a], threshold, now) && u == Update(Operation.Remove, text, c[a].endpoint);
      var k :| 0 <= k < |dropped| && dropped[k].addr == a;
      assert r[k] == u;
    }
    forall u | u in r ensures u in DropsAt(routes, {p}, threshold, now) {
      var k :| 0 <= k < |r| && r[k] == u;
      assert dropped[k].addr in c;
    }
  }

  // ---------------------------------------------------------------------------------
  // Lookup

  /** The route that the first candidate with any match picks. */
  function FirstHit(keys: set<Path>, candidates: seq<string>): Option<Path> {
    if candidates == [] then None
    else
      var m := LongestMatch(keys, UriPath(candidates[0]));
      if m.Some? then m else FirstHit(keys, candidates[1..])
  }

  function Lookup(keys: set<Path>, uri: string): Option<Path> { FirstHit(keys, Candidates(RouteKey(uri))) }

  ghost predicate Unmatched(keys: set<Path>, u: string) {
    forall q | q in keys :: !IsPrefix(q, UriPath(u))
  }

  /** The longest registered prefix of one candidate, no earlier candidate having any. */
  lemma {:induction false} FirstHitMeaning(keys: set<Path>, candidates: seq<string>)
    ensures var r := FirstHit(keys, candidates);
            && (r.None? <==> forall k | 0 <= k < |candidates| :: Unmatched(keys, candidates[k]))
            && (r.Some? ==> exists k | 0 <= k < |candidates| ::
                  && r == LongestMatch(keys, UriPath(candidates[k]))
                  && forall j | 0 <= j < k :: Unmatched(keys, candidates[j]))
  {
    hide UriPath;
    if candidates != [] {
      var c := candidates[0];
      LongestMatchMeaning(keys, UriPath(c));
      FirstHitMeaning(keys, candidates[1..]);
      if Unmatched(keys, c) {
        assert candidates == [c] + candidates[1..];
      }
    }
  }

  /** The key itself beats every wildcard, and a wildcard with more labels beats one with fewer. */
  lemma LookupPrefersExact(keys: set<Path>, uri: string, k: nat)
    requires k < |KeyLabels(RouteKey(uri))|
    requires forall j | 0 <= j < k :: Unmatched(keys, NthCandidate(RouteKey(uri), j))
    ensures var m := LongestMatch(keys, UriPath(NthCandidate(RouteKey(uri), k)));
            m.Some? ==> Lookup(keys, uri) == m
  {
    hide UriPath, NthCandidate, Unmatched, LongestMatch, Candidates, FirstHit, RouteKey, KeyLabels;
    CandidatesMeaning(RouteKey(uri));
    FirstHitAt(keys, Candidates(RouteKey(uri)), k);
  }

  lemma NextCandidate(keys: set<Path>, key: string)
    ensures var m := LongestMatch(keys, UriPath(key));
            FirstHit(keys, Candidates(key)) ==
            match NextWildcard(key) { case Some(w) => if m.None? then FirstHit(keys, Candidates(w)) else m case None => m }
  {
    hide UriPath, NextWildcard, DotsLeft;
    if NextWildcard(key).Some? {
      assert Candidates(key)[1..] == Candidates(NextWildcard(key).value);
    }
  }

  lemma {:induction false} FirstHitAt(keys: set<Path>, candidates: seq<string>, k: nat)
    requires k < |candidates| && forall j | 0 <= j < k :: Unmatched(keys, candidates[j])
    ensures var m := LongestMatch(keys, UriPath(candidates[k]));
            m.Some? ==> FirstHit(keys, candidates) == m
  {
    hide UriPath;
    if k > 0 {
      LongestMatchMeaning(keys, UriPath(candidates[0]));
      FirstHitAt(keys, candidates[1..], k - 1);
    }
  }

  // ---------------------------------------------------------------------------------
  // Why the routes have to be proper

  /** A route with slashes at its end is registered and logged, and pruned under another name. */
  lemma SlashRouteLeaks(e: Endpoint, r': Registry)
    requires Next(Register(EMPTY, "a.b///", e, 0), PruneTick(false, 0, 1), r')
    ensures !Panics(EMPTY, Registered("a.b///", e, 0)) && InStep(Register(EMPTY, "a.b///", e, 0))
    ensures Replay(r'.log) != Pairs(r'.routes)
  {
    hide RouteKey, UriPath, Replay, Pairs, Alternating, StalePairs, Panics, Put, Proper, Lists, DropsAt;
    var r := Register(EMPTY, "a.b///", e, 0);
    SlashKey(e);
    MirroredEmpty();
    RegisterInStep(EMPTY, "a.b///", e, 0);
    var p := Child(Child(Root, "a.b"), "");
    SlashStale(e);
    assert (p, e.addr) in StalePairs(r.routes, 0, 1);
    PrunedImproper(r.(disconnected := false), 0, 1, r');
  }

  lemma SlashKey(e: Endpoint)
    ensures RouteKey("a.b///") == "a.b//" && UriPath("a.b//") == Child(Child(Root, "a.b"), "")
    ensures !Panics(EMPTY, Registered("a.b///", e, 0))
    ensures !Proper(Child(Child(Root, "a.b"), ""))
  {
    hide Walk, RouteKey, TrieKey, Nameable;
    var key, p := "a.b//", Child(Child(Root, "a.b"), "");
    SlashTexts();
    NameableKey(key);
    assert PathText(p) == "a.b/";
    WalkPathText(p);
  }

  lemma SlashTexts()
    ensures RouteKey("a.b///") == "a.b//" && TrieKey("a.b//") == "a.b/" && '.' in "a.b//"
  {
    hide ToLower, IndexOf;
    var key := "a.b//";
    assert UriString("a.b///") == key;
    LowerFixed(key);
    assert IndexOf(key, '?') == -1;
    assert key[1] == '.';
    assert UriString(key) == "a.b/" && "a.b/"[0] != '/';
  }

  lemma LowerFixed(u: string)
    requires forall c :: c in u ==> !('A' <= c <= 'Z')
    ensures ToLower(u) == u
  {
    forall i | 0 <= i < |u| ensures ToLower(u)[i] == u[i] { assert u[i] in u; }
  }

  lemma SlashStale(e: Endpoint)
    requires RouteKey("a.b///") == "a.b//" && UriPath("a.b//") == Child(Child(Root, "a.b"), "")
    ensures (Child(Child(Root, "a.b"), ""), e.addr) in StalePairs(Register(EMPTY, "a.b///", e, 0).routes, 0, 1)
  {
    hide RouteKey, UriPath;
    var slots := [Slot(e, 0, None)];
    assert Find([], e.addr) < 0 && Put([], e, 0) == slots;
    assert slots[..0] == [] && Contents([]) == map[];
    assert Contents(slots) == map[e.addr := slots[0]];
  }
}
