/**
 The registry against the history of its events: each (route, address) pair lives a life of its
 own, and the whole index is nothing but those lives.
 */
module RegistryLives {
  import opened Wrappers
  import opened Text
  import opened Paths
  import opened Uris
  import opened Tags
  import opened PoolSpec
  import opened RegistrySpec

  /** Who holds a pair, and when it was last heard of. */
  datatype Life = Life(endpoint: Endpoint, since: int)

  /** The last prune tick was suspended. */
  predicate Suspended(events: seq<Event>) {
    events != [] &&
    var before, ev := events[..|events| - 1], events[|events| - 1];
    if ev.PruneTick? then ev.suspended else Suspended(before)
  }

  /** Not heard of for longer than the threshold, or than the endpoint's own positive one. */
  predicate Overdue(e: Endpoint, age: int, threshold: int) {
    age > threshold || (e.staleThreshold > 0 && age > e.staleThreshold)
  }

  predicate Concerns(ev: Event, p: Path, a: string) {
    (ev.Registered? || ev.Unregistered?) && UriPath(RouteKey(ev.uri)) == p && ev.endpoint.addr == a
  }

  /** What one event does to a pair, knowing whether the tick before was suspended. */
  function Lived(held: Option<Life>, ev: Event, suspended: bool, p: Path, a: string): Option<Life> {
    match ev
    case Registered(uri, e, now) =>
      if Concerns(ev, p, a) && (held.Some? && held.value.endpoint.ref != e.ref ==> SucceededBy(held.value.endpoint.tag, e.tag))
      then Some(Life(e, now)) else held
    case Unregistered(uri, e) =>
      if Concerns(ev, p, a) && held.Some? && SameOrSucceededBy(held.value.endpoint.tag, e.tag) then None else held
    case PruneTick(paused, threshold, now) =>
      if paused || held.None? then held
      else
        var life := if suspended then held.value.(since := now) else held.value;
        if Overdue(life.endpoint, now - life.since, threshold) then None else Some(life)
  }

  /** The life of a pair, from the events alone. */
  function LifeOf(events: seq<Event>, p: Path, a: string): Option<Life> {
    if events == [] then None
    else
      var before := events[..|events| - 1];
      Lived(LifeOf(before, p, a), events[|events| - 1], Suspended(before), p, a)
  }

  /** What the index holds under a pair. */
  function Held(routes: Routes, p: Path, a: string): Option<Life> {
    if p in routes && a in Contents(routes[p]) then
      var x := Contents(routes[p])[a];
      Some(Life(x.endpoint, x.updated))
    else None
  }

  // ---------------------------------------------------------------------------------
  // One event

  lemma StaleIsOverdue(x: Slot, threshold: int, now: int)
    ensures Stale(x, threshold, now) <==> Overdue(x.endpoint, now - x.updated, threshold)
  {
  }

  lemma HeldAt(routes: Routes, p: Path, a: string)
    requires Good(routes)
    ensures Held(routes, p, a).Some? <==> (p, a) in Pairs(routes)
    ensures Held(routes, p, a) ==
            var i := Find(SlotsAt(routes, p), a);
            if i < 0 then None else Some(Life(SlotsAt(routes, p)[i].endpoint, SlotsAt(routes, p)[i].updated))
  {
    hide Contents, Find;
    DistinctSlots(routes, p);
    ContentsAt(SlotsAt(routes, p));
  }

  lemma RegisterLived(r: Registry, uri: string, e: Endpoint, now: int, suspended: bool, p: Path, a: string)
    requires Good(r.routes)
    ensures Held(Register(r, uri, e, now).routes, p, a) ==
            Lived(Held(r.routes, p, a), Registered(uri, e, now), suspended, p, a)
  {
    hide Contents, Find, UriPath, RouteKey, Put, SucceededBy;
    var q := UriPath(RouteKey(uri));
    EmptyContents();
    if q == p {
      DistinctSlots(r.routes, p);
      PutHeld(SlotsAt(r.routes, p), e, now);
      HeldAt(r.routes, p, e.addr);
    }
  }

  /** What Put does at its address and elsewhere. */
  lemma PutHeld(slots: seq<Slot>, e: Endpoint, now: int)
    requires Distinct(slots)
    ensures var c, r := Contents(slots), Contents(Put(slots, e, now));
            && (forall a :: a != e.addr ==> (a in r <==> a in c) && (a in r ==> r[a] == c[a]))
            && e.addr in r && (e.addr in c <==> Find(slots, e.addr) >= 0)
            && if e.addr in c && c[e.addr].endpoint.ref != e.ref && !SucceededBy(c[e.addr].endpoint.tag, e.tag)
               then r[e.addr] == c[e.addr] else r[e.addr].endpoint == e && r[e.addr].updated == now
  {
    hide Put, Contents, SucceededBy;
    PutContents(slots, e, now);
    ContentsAt(slots);
  }

  lemma UnregisterLived(r: Registry, uri: string, e: Endpoint, suspended: bool, p: Path, a: string)
    requires Good(r.routes)
    ensures Held(Unregister(r, uri, e).routes, p, a) ==
            Lived(Held(r.routes, p, a), Unregistered(uri, e), suspended, p, a)
  {
    hide Contents, Find, UriPath, RouteKey, PoolSpec.Remove, SameOrSucceededBy;
    var q := UriPath(RouteKey(uri));
    HeldAt(r.routes, p, a);
    HeldAt(r.routes, q, e.addr);
    EmptyContents();
    if q in r.routes {
      var slots := r.routes[q];
      RemoveContents(slots, e);
      if RemoveAccepted(slots, e) && p == q {
        assert a in Contents(PoolSpec.Remove(slots, e)) <==> a in Contents(slots) && a != e.addr;
      }
    }
  }

  /** Marking changes the times and nothing else. */
  lemma MarkedHeld(slots: seq<Slot>, now: int, a: string)
    requires Distinct(slots)
    ensures var c, r := Contents(slots), Contents(MarkUpdated(slots, now));
            && Distinct(MarkUpdated(slots, now)) && (a in r <==> a in c)
            && (a in c ==> r[a] == c[a].(updated := now))
  {
    hide Contents, MarkUpdated, Find;
    MarkedContents(slots, now);
    ContentsAt(slots);
    ContentsAt(MarkUpdated(slots, now));
    if a in Contents(slots) {
      var i := Find(slots, a);
      assert MarkUpdated(slots, now)[i].endpoint.addr == a;
    }
  }

  lemma FreshenedHeld(routes: Routes, now: int, p: Path, a: string)
    requires Good(routes)
    ensures Good(Freshened(routes, now))
    ensures var held := Held(routes, p, a);
            Held(Freshened(routes, now), p, a) == if held.None? then None else Some(held.value.(since := now))
  {
    hide Contents, MarkUpdated;
    FreshenedGood(routes, now);
    if p in routes { MarkedHeld(routes[p], now, a); }
  }

  lemma PrunedHeld(routes: Routes, threshold: int, now: int, p: Path, a: string)
    requires Good(routes)
    ensures var routes' := PrunedAt(routes, routes.Keys, threshold, now);
            var held := Held(routes, p, a);
            && Good(routes')
            && Held(routes', p, a) ==
               if held.Some? && Overdue(held.value.endpoint, now - held.value.since, threshold) then None else held
  {
    hide Contents, FreshSlots, Stale, Overdue;
    var routes' := PrunedAt(routes, routes.Keys, threshold, now);
    PrunedPairs(routes, threshold, now);
    EmptyContents();
    if p in routes {
      KeptContents(routes[p], threshold, now);
      var kept := FreshSlots(routes[p], threshold, now);
      assert a in Contents(kept) <==> a in Contents(routes[p]) && !Stale(Contents(routes[p])[a], threshold, now);
      if a in Contents(routes[p]) { StaleIsOverdue(Contents(routes[p])[a], threshold, now); }
    }
  }

  lemma CycleLived(r: Registry, paused: bool, threshold: int, now: int, r': Registry, p: Path, a: string)
    requires Good(r.routes) && PruneCycle(r, paused, threshold, now, r')
    ensures Good(r'.routes) && r'.disconnected == paused
    ensures Held(r'.routes, p, a) == Lived(Held(r.routes, p, a), PruneTick(paused, threshold, now), r.disconnected, p, a)
  {
    hide Held, PrunedAt, DropsAt, Lists, Good, Freshened, Overdue;
    if !paused {
      FreshenedHeld(r.routes, now, p, a);
      PrunedHeld(if r.disconnected then Freshened(r.routes, now) else r.routes, threshold, now, p, a);
    }
  }

  lemma StepLived(r: Registry, ev: Event, r': Registry, p: Path, a: string)
    requires Good(r.routes) && Next(r, ev, r')
    ensures Good(r'.routes) && r'.disconnected == (if ev.PruneTick? then ev.suspended else r.disconnected)
    ensures Held(r'.routes, p, a) == Lived(Held(r.routes, p, a), ev, r.disconnected, p, a)
  {
    hide Good, Held, Lived, Put, PoolSpec.Remove, PruneCycle, Panics, UriPath, RouteKey, Find, RemoveAccepted;
    match ev
    case Registered(uri, e, now) =>
      RegisterGood(r, uri, e, now);
      RegisterLived(r, uri, e, now, r.disconnected, p, a);
    case Unregistered(uri, e) =>
      UnregisterGood(r, uri, e);
      UnregisterLived(r, uri, e, r.disconnected, p, a);
    case PruneTick(paused, threshold, now) =>
      CycleLived(r, paused, threshold, now, r', p, a);
  }

  // ---------------------------------------------------------------------------------
  // Whole runs

  /** At every point of every run the index is exactly the lives of all pairs so far. */
  lemma {:induction false} IndexIsItsLives(states: seq<Registry>, events: seq<Event>, k: nat, p: Path, a: string)
    requires IsRun(states, events) && k <= |events|
    ensures Good(states[k].routes) && states[k].disconnected == Suspended(events[..k])
    ensures Held(states[k].routes, p, a) == LifeOf(events[..k], p, a)
    ensures (p, a) in Pairs(states[k].routes) <==> LifeOf(events[..k], p, a).Some?
  {
    hide Good, Held, Lived, Next, Pairs;
    if k == 0 {
      NothingHeld(p, a);
      assert events[..0] == [];
    } else {
      IndexIsItsLives(states, events, k - 1, p, a);
      StepLived(states[k - 1], events[k - 1], states[k], p, a);
      assert events[..k][..k - 1] == events[..k - 1];
    }
    HeldAt(states[k].routes, p, a);
  }

  lemma NothingHeld(p: Path, a: string)
    ensures Good(map[]) && Held(map[], p, a) == None
  {
  }

  predicate NoTicks(events: seq<Event>) { forall k | 0 <= k < |events| :: !events[k].PruneTick? }

  lemma {:induction false} SuspendedSince(events: seq<Event>, j: nat)
    requires j < |events| && events[j].PruneTick? && NoTicks(events[j + 1..])
    ensures Suspended(events) == events[j].suspended
  {
    var n := |events| - 1;
    if j < n {
      assert events[j + 1..][n - j - 1] == events[n];
      assert events[..n][j + 1..] == events[j + 1..][..n - j - 1];
      SuspendedSince(events[..n], j);
    }
  }

  lemma RunLength(states: seq<Registry>, events: seq<Event>)
    requires IsRun(states, events)
    ensures |states| == |events| + 1
  {
  }

  lemma LifeStep(events: seq<Event>, k: nat, p: Path, a: string)
    requires k < |events|
    ensures LifeOf(events[..k + 1], p, a) == Lived(LifeOf(events[..k], p, a), events[k], Suspended(events[..k]), p, a)
  {
    assert events[..k + 1][..k] == events[..k];
  }

  /**
   Of two prune ticks that follow one another, neither suspended, the second removes exactly the
   pairs not heard of for too long by then, and keeps the rest as they are, with no refresh.
   */
  lemma SecondTickPrunes(states: seq<Registry>, events: seq<Event>, j: nat, k: nat, p: Path, a: string)
    requires IsRun(states, events) && j < k < |events|
    requires events[j].PruneTick? && !events[j].suspended && events[k].PruneTick? && !events[k].suspended
    requires NoTicks(events[j + 1..k])
    ensures var life := LifeOf(events[..k], p, a);
            Held(states[k + 1].routes, p, a) ==
            if life.Some? && Overdue(life.value.endpoint, events[k].now - life.value.since, events[k].threshold)
            then None else life
  {
    hide Held, IsRun, Overdue, Suspended, LifeOf;
    RunLength(states, events);
    IndexIsItsLives(states, events, k + 1, p, a);
    LifeStep(events, k, p, a);
    assert events[..k][j + 1..] == events[j + 1..k];
    SuspendedSince(events[..k], j);
  }

  /** The first tick after a suspension refreshes every pair and, unless a threshold is negative, drops none. */
  lemma FirstTickRefreshes(states: seq<Registry>, events: seq<Event>, j: nat, k: nat, p: Path, a: string)
    requires IsRun(states, events) && j < k < |events|
    requires events[j].PruneTick? && events[j].suspended && events[k].PruneTick? && !events[k].suspended
    requires NoTicks(events[j + 1..k]) && events[k].threshold >= 0
    ensures var life := LifeOf(events[..k], p, a);
            Held(states[k + 1].routes, p, a) == if life.Some? then Some(Life(life.value.endpoint, events[k].now)) else None
  {
    hide Held, IsRun, Suspended, LifeOf;
    RunLength(states, events);
    IndexIsItsLives(states, events, k + 1, p, a);
    LifeStep(events, k, p, a);
    assert events[..k][j + 1..] == events[j + 1..k];
    SuspendedSince(events[..k], j);
  }

  // ---------------------------------------------------------------------------------
  // The case of a URI

  /** URIs that differ in case only, or in what their keys leave out, are one route to every operation. */
  lemma CaseDoesNotMatter(r: Registry, u: string, v: string, e: Endpoint, now: int, keys: set<Path>)
    requires SameText(u[..KeyLength(u)], v[..KeyLength(v)])
    ensures Register(r, u, e, now) == Register(r, v, e, now)
    ensures Unregister(r, u, e) == Unregister(r, v, e)
    ensures Lookup(keys, u) == Lookup(keys, v)
  {
    hide RouteKey, SameText, KeyLength;
    RouteKeyCase(u, v);
  }

  /** What was registered under one spelling is unregistered under another, and nothing else is. */
  lemma UnregisterUndoes(r: Registry, u: string, v: string, e: Endpoint, now: int, p: Path, a: string)
    requires Good(r.routes) && SameText(u, v)
    requires var held := Held(r.routes, UriPath(RouteKey(u)), e.addr);
             held.None? || held.value.endpoint.ref == e.ref || SucceededBy(held.value.endpoint.tag, e.tag)
    ensures Held(Unregister(Register(r, u, e, now), v, e).routes, p, a) ==
            if p == UriPath(RouteKey(u)) && a == e.addr then None else Held(r.routes, p, a)
  {
    hide Good, Held, Register, Unregister, UriPath, RouteKey, SucceededBy;
    RouteKeyCase(u, v);
    RegisterGood(r, u, e, now);
    RegisterLived(r, u, e, now, false, p, a);
    UnregisterLived(Register(r, u, e, now), v, e, false, p, a);
  }
}
