/** Modification tags of the routing API: which of two versions replaces the other. */
module Tags {
  /** An empty guid means "unversioned"; the index counts up within one guid. */
  datatype ModificationTag = ModificationTag(guid: string, index: nat)

  /** `ModificationTag.SucceededBy`. */
  predicate SucceededBy(m: ModificationTag, other: ModificationTag) {
    m.guid == "" || other.guid == "" || m.guid != other.guid || m.index < other.index
  }

  predicate SameOrSucceededBy(m: ModificationTag, other: ModificationTag) {
    m == other || SucceededBy(m, other)
  }
}

/** What an endpoint pool holds, as values, and what each operation makes of it. */
module PoolSpec {
  import opened Wrappers
  import opened Tags

  /**
   A backend endpoint. Its fields never change after construction; `ref` is the identity of
   the object, which `Put` compares. `addr` is `CanonicalAddr`, "address:port".
   */
  datatype Endpoint = Endpoint(ref: nat, applicationId: string, addr: string, instanceId: string,
                               staleThreshold: int, tag: ModificationTag)

  /** What the pool knows about one endpoint. */
  datatype Slot = Slot(endpoint: Endpoint, updated: int, failedAt: Option<int>)

  /** Position of the slot with address `a`, or -1. */
  function Find(slots: seq<Slot>, a: string): (i: int)
    ensures -1 <= i < |slots|
    ensures i >= 0 ==> slots[i].endpoint.addr == a
    ensures i < 0 ==> forall k :: 0 <= k < |slots| ==> slots[k].endpoint.addr != a
  {
    if slots == [] then -1
    else if slots[|slots| - 1].endpoint.addr == a then |slots| - 1
    else Find(slots[..|slots| - 1], a)
  }

  /** No address occurs twice. */
  ghost predicate Distinct(slots: seq<Slot>) {
    forall i, j :: 0 <= i < j < |slots| ==> slots[i].endpoint.addr != slots[j].endpoint.addr
  }

  /** Last one in, first one out of its place: the hole is filled with the last slot. */
  function SwapDelete<T>(s: seq<T>, i: nat): (r: seq<T>)
    requires i < |s|
    ensures |r| == |s| - 1
    ensures forall k :: 0 <= k < |r| ==> r[k] == if k == i then s[|s| - 1] else s[k]
  {
    s[i := s[|s| - 1]][..|s| - 1]
  }

  // ---------------------------------------------------------------------------------
  // The operations on the sequence of slots

  predicate PutAccepted(slots: seq<Slot>, e: Endpoint) {
    var i := Find(slots, e.addr);
    i >= 0 && slots[i].endpoint.ref != e.ref ==> SucceededBy(slots[i].endpoint.tag, e.tag)
  }

  function Put(slots: seq<Slot>, e: Endpoint, now: int): seq<Slot> {
    var i := Find(slots, e.addr);
    if i < 0 then slots + [Slot(e, now, None)]
    else if PutAccepted(slots, e) then slots[i := Slot(e, now, slots[i].failedAt)]
    else slots
  }

  predicate RemoveAccepted(slots: seq<Slot>, e: Endpoint) {
    var i := Find(slots, e.addr);
    i >= 0 && SameOrSucceededBy(slots[i].endpoint.tag, e.tag)
  }

  function Remove(slots: seq<Slot>, e: Endpoint): seq<Slot> {
    if RemoveAccepted(slots, e) then SwapDelete(slots, Find(slots, e.addr)) else slots
  }

  /** An endpoint's own threshold applies only when it is positive and below the default. */
  predicate Stale(x: Slot, threshold: int, now: int) {
    var t := x.endpoint.staleThreshold;
    x.updated < now - (if 0 < t < threshold then t else threshold)
  }

  function MarkUpdated(slots: seq<Slot>, t: int): (r: seq<Slot>)
    ensures |r| == |slots|
  {
    seq(|slots|, i requires 0 <= i < |slots| => slots[i].(updated := t))
  }

  // ---------------------------------------------------------------------------------
  // The pool as a map from address to slot

  function Contents(slots: seq<Slot>): map<string, Slot> {
    if slots == [] then map[]
    else Contents(slots[..|slots| - 1])[slots[|slots| - 1].endpoint.addr := slots[|slots| - 1]]
  }

  /** With distinct addresses the map holds each slot under its address, and nothing else. */
  lemma {:induction false} ContentsAt(slots: seq<Slot>)
    requires Distinct(slots)
    ensures forall i :: 0 <= i < |slots| ==>
              slots[i].endpoint.addr in Contents(slots) && Contents(slots)[slots[i].endpoint.addr] == slots[i]
    ensures forall a :: a in Contents(slots) <==> Find(slots, a) >= 0
    ensures forall a :: a in Contents(slots) ==> Contents(slots)[a] == slots[Find(slots, a)]
  {
    if slots != [] { ContentsAt(slots[..|slots| - 1]); }
  }

  /** `c` holds every slot under its address, and only addresses that some slot has. */
  ghost predicate Represents(slots: seq<Slot>, c: map<string, Slot>) {
    && (forall i :: 0 <= i < |slots| ==> slots[i].endpoint.addr in c && c[slots[i].endpoint.addr] == slots[i])
    && (forall a :: a in c ==> exists i :: 0 <= i < |slots| && slots[i].endpoint.addr == a)
  }

  lemma ContentsUnique(slots: seq<Slot>, c: map<string, Slot>)
    requires Distinct(slots) && Represents(slots, c)
    ensures Contents(slots) == c
  {
    ContentsAt(slots);
  }

  lemma ContentsRepresents(slots: seq<Slot>)
    requires Distinct(slots)
    ensures Represents(slots, Contents(slots))
  {
    ContentsAt(slots);
  }

  lemma ContentsUpdate(slots: seq<Slot>, i: nat, x: Slot)
    requires Distinct(slots) && i < |slots| && x.endpoint.addr == slots[i].endpoint.addr
    ensures Distinct(slots[i := x])
    ensures Contents(slots[i := x]) == Contents(slots)[x.endpoint.addr := x]
  {
    var s', c := slots[i := x], Contents(slots);
    ContentsRepresents(slots);
    forall a | a in c ensures exists k :: 0 <= k < |s'| && s'[k].endpoint.addr == a {
      var k :| 0 <= k < |slots| && slots[k].endpoint.addr == a;
      assert s'[k].endpoint.addr == a;
    }
    ContentsUnique(s', c[x.endpoint.addr := x]);
  }

  lemma ContentsDelete(slots: seq<Slot>, i: nat)
    requires Distinct(slots) && i < |slots|
    ensures Distinct(SwapDelete(slots, i))
    ensures Contents(SwapDelete(slots, i)) == Contents(slots) - {slots[i].endpoint.addr}
  {
    ContentsRepresents(slots);
    DistinctDelete(slots, i);
    RepresentsDelete(slots, Contents(slots), i);
    ContentsUnique(SwapDelete(slots, i), Contents(slots) - {slots[i].endpoint.addr});
  }

  lemma RepresentsDelete(slots: seq<Slot>, c: map<string, Slot>, i: nat)
    requires Distinct(slots) && Represents(slots, c) && i < |slots|
    ensures Represents(SwapDelete(slots, i), c - {slots[i].endpoint.addr})
  {
    var s', n := SwapDelete(slots, i), |slots| - 1;
    DistinctDelete(slots, i);
    forall a | a in c && a != slots[i].endpoint.addr ensures exists k :: 0 <= k < |s'| && s'[k].endpoint.addr == a {
      var k :| 0 <= k < |slots| && slots[k].endpoint.addr == a;
      assert s'[if k == n then i else k].endpoint.addr == a;
    }
  }

  lemma DistinctDelete(slots: seq<Slot>, i: nat)
    requires Distinct(slots) && i < |slots|
    ensures Distinct(SwapDelete(slots, i))
    ensures forall k :: 0 <= k < |slots| - 1 ==> SwapDelete(slots, i)[k].endpoint.addr != slots[i].endpoint.addr
  {
  }

  /** Put adds or replaces one address and touches no other. */
  lemma PutContents(slots: seq<Slot>, e: Endpoint, now: int)
    requires Distinct(slots)
    ensures Distinct(Put(slots, e, now))
    ensures PutAccepted(slots, e) ==>
              e.addr in Contents(Put(slots, e, now))
              && Contents(Put(slots, e, now)) == Contents(slots)[e.addr := Contents(Put(slots, e, now))[e.addr]]
              && Contents(Put(slots, e, now))[e.addr].endpoint == e
              && Contents(Put(slots, e, now))[e.addr].updated == now
              && Contents(Put(slots, e, now))[e.addr].failedAt
                 == (if e.addr in Contents(slots) then Contents(slots)[e.addr].failedAt else None)
    ensures !PutAccepted(slots, e) ==> Put(slots, e, now) == slots
  {
    var i := Find(slots, e.addr);
    ContentsAt(slots);
    if i < 0 {
      assert (slots + [Slot(e, now, None)])[..|slots|] == slots;
    } else if PutAccepted(slots, e) {
      ContentsUpdate(slots, i, Slot(e, now, slots[i].failedAt));
    }
  }

  lemma RemoveContents(slots: seq<Slot>, e: Endpoint)
    requires Distinct(slots)
    ensures Distinct(Remove(slots, e))
    ensures RemoveAccepted(slots, e) ==>
              e.addr in Contents(slots) && Contents(Remove(slots, e)) == Contents(slots) - {e.addr}
    ensures !RemoveAccepted(slots, e) ==> Remove(slots, e) == slots
  {
    if RemoveAccepted(slots, e) {
      ContentsAt(slots);
      ContentsDelete(slots, Find(slots, e.addr));
    }
  }

  // ---------------------------------------------------------------------------------
  // Versions: the newest tag wins, in whatever order the messages arrive

  /** A message that puts an endpoint. */
  datatype Arrival = Arrival(endpoint: Endpoint, now: int)

  function PutAll(slots: seq<Slot>, puts: seq<Arrival>): seq<Slot> {
    if puts == [] then slots
    else
      var last := puts[|puts| - 1];
      Put(PutAll(slots, puts[..|puts| - 1]), last.endpoint, last.now)
  }

  /** The endpoint stored under an address. */
  function Stored(slots: seq<Slot>, a: string): Option<Endpoint> {
    if a in Contents(slots) then Some(Contents(slots)[a].endpoint) else None
  }

  /** One address on its own: the stored endpoint stays only against a version it does not give way to. */
  function Winner(start: Option<Endpoint>, puts: seq<Arrival>, a: string): Option<Endpoint> {
    if puts == [] then start
    else
      var held, e := Winner(start, puts[..|puts| - 1], a), puts[|puts| - 1].endpoint;
      if e.addr != a then held
      else if held.Some? && held.value.ref != e.ref && !SucceededBy(held.value.tag, e.tag) then held
      else Some(e)
  }

  /** Addresses do not interfere. */
  lemma {:induction false} StoredIsWinner(slots: seq<Slot>, puts: seq<Arrival>, a: string)
    requires Distinct(slots)
    ensures Distinct(PutAll(slots, puts)) && Stored(PutAll(slots, puts), a) == Winner(Stored(slots, a), puts, a)
  {
    hide Put, Contents;
    if puts != [] {
      var n := |puts| - 1;
      StoredIsWinner(slots, puts[..n], a);
      PutStored(PutAll(slots, puts[..n]), puts[n].endpoint, puts[n].now);
    }
  }

  /** What Put does at its address and elsewhere. */
  lemma PutStored(slots: seq<Slot>, e: Endpoint, now: int)
    requires Distinct(slots)
    ensures var c, r := Contents(slots), Contents(Put(slots, e, now));
            && Distinct(Put(slots, e, now))
            && (forall a :: a != e.addr ==> (a in r <==> a in c) && (a in r ==> r[a] == c[a]))
            && e.addr in r
            && r[e.addr].endpoint ==
               if e.addr in c && c[e.addr].endpoint.ref != e.ref && !SucceededBy(c[e.addr].endpoint.tag, e.tag)
               then c[e.addr].endpoint else e
  {
    hide Put, Contents;
    PutContents(slots, e, now);
    ContentsAt(slots);
  }

  /** `e` is no older than any endpoint put to its address. */
  ghost predicate Newest(puts: seq<Arrival>, e: Endpoint) {
    forall k :: 0 <= k < |puts| && puts[k].endpoint.addr == e.addr ==> puts[k].endpoint.tag.index <= e.tag.index
  }

  ghost predicate PutTo(puts: seq<Arrival>, a: string) {
    exists k :: 0 <= k < |puts| && puts[k].endpoint.addr == a
  }

  ghost predicate Among(puts: seq<Arrival>, e: Endpoint) {
    exists k :: 0 <= k < |puts| && puts[k].endpoint == e
  }

  /** Equal object identity means equal object, for the endpoints put and the one there before. */
  ghost predicate Identified(start: Option<Endpoint>, puts: seq<Arrival>) {
    && (forall j, k :: 0 <= j < |puts| && 0 <= k < |puts| && puts[j].endpoint.ref == puts[k].endpoint.ref ==>
          puts[j].endpoint == puts[k].endpoint)
    && (start.Some? ==>
          forall k :: 0 <= k < |puts| && puts[k].endpoint.ref == start.value.ref ==> puts[k].endpoint == start.value)
  }

  lemma {:induction false} WinnerNewest(start: Option<Endpoint>, puts: seq<Arrival>, a: string, guid: string)
    requires guid != "" && Identified(start, puts) && (start.Some? ==> start.value.addr == a)
    requires forall k :: 0 <= k < |puts| && puts[k].endpoint.addr == a ==> puts[k].endpoint.tag.guid == guid
    ensures var w := Winner(start, puts, a);
            && (!PutTo(puts, a) ==> w == start)
            && (w.Some? ==> w.value.addr == a && (Among(puts, w.value) || w == start))
            && (PutTo(puts, a) ==> w.Some? && w.value.tag.guid == guid && Newest(puts, w.value))
    decreases |puts|
  {
    if puts != [] {
      var n := |puts| - 1;
      var front := puts[..n];
      assert forall k :: 0 <= k < n ==> front[k] == puts[k];
      WinnerNewest(start, front, a, guid);
      WinnerStep(start, puts, a, guid);
    }
  }

  lemma WinnerStep(start: Option<Endpoint>, puts: seq<Arrival>, a: string, guid: string)
    requires puts != [] && guid != "" && Identified(start, puts)
    requires puts[|puts| - 1].endpoint.addr == a ==> puts[|puts| - 1].endpoint.tag.guid == guid
    requires var front := puts[..|puts| - 1];
             var held := Winner(start, front, a);
             && (!PutTo(front, a) ==> held == start)
             && (held.Some? ==> held.value.addr == a && (Among(front, held.value) || held == start))
             && (PutTo(front, a) ==> held.Some? && held.value.tag.guid == guid && Newest(front, held.value))
    ensures var w := Winner(start, puts, a);
            && (!PutTo(puts, a) ==> w == start)
            && (w.Some? ==> w.value.addr == a && (Among(puts, w.value) || w == start))
            && (PutTo(puts, a) ==> w.Some? && w.value.tag.guid == guid && Newest(puts, w.value))
  {
    var n := |puts| - 1;
    var front, e := puts[..n], puts[n].endpoint;
    var held, w := Winner(start, front, a), Winner(start, puts, a);
    PutToSnoc(puts, a);
    if held.Some? { AmongSnoc(puts, held.value); }
    AmongSnoc(puts, e);
    if e.addr == a && held.Some? && held.value.ref == e.ref { assert held.value == e; }
  }

  lemma PutToSnoc(puts: seq<Arrival>, a: string)
    requires puts != []
    ensures var n := |puts| - 1;
            PutTo(puts, a) <==> PutTo(puts[..n], a) || puts[n].endpoint.addr == a
  {
    var n := |puts| - 1;
    if k :| 0 <= k < n && puts[..n][k].endpoint.addr == a { assert puts[k].endpoint.addr == a; }
    if k :| 0 <= k < |puts| && puts[k].endpoint.addr == a { if k < n { assert puts[..n][k].endpoint.addr == a; } }
  }

  lemma AmongSnoc(puts: seq<Arrival>, e: Endpoint)
    requires puts != []
    ensures var n := |puts| - 1;
            Among(puts, e) <==> Among(puts[..n], e) || puts[n].endpoint == e
  {
    var n := |puts| - 1;
    if k :| 0 <= k < n && puts[..n][k].endpoint == e { assert puts[k].endpoint == e; }
    if k :| 0 <= k < |puts| && puts[k].endpoint == e { if k < n { assert puts[..n][k].endpoint == e; } }
  }

  /**
   Into any pool, with messages for any addresses at any times: if those for address `a` carry one
   non-empty guid, then what is stored under `a` carries it too, with the greatest index put
   there in whatever order, and is one of the endpoints put or the one that was there before.
   */
  lemma NewestTagWins(slots: seq<Slot>, puts: seq<Arrival>, a: string, guid: string)
    requires Distinct(slots) && guid != "" && Identified(Stored(slots, a), puts)
    requires forall k :: 0 <= k < |puts| && puts[k].endpoint.addr == a ==> puts[k].endpoint.tag.guid == guid
    ensures var w := Stored(PutAll(slots, puts), a);
            && Distinct(PutAll(slots, puts))
            && (!PutTo(puts, a) ==> w == Stored(slots, a))
            && (w.Some? ==> w.value.addr == a && (Among(puts, w.value) || w == Stored(slots, a)))
            && (PutTo(puts, a) ==> w.Some? && w.value.tag.guid == guid && Newest(puts, w.value))
  {
    hide Contents, Winner, Identified, PutAll;
    ContentsAt(slots);
    StoredIsWinner(slots, puts, a);
    WinnerNewest(Stored(slots, a), puts, a, guid);
  }

  /** The last Put to an address. */
  ghost predicate IsLast(puts: seq<Arrival>, a: string, k: nat) {
    k < |puts| && puts[k].endpoint.addr == a && forall j :: k < j < |puts| ==> puts[j].endpoint.addr != a
  }

  /**
   An endpoint without a version is a plain heartbeat: whatever the pool held and whatever came
   before, it is accepted, and what its address then holds is that endpoint with the time of that Put.
   */
  lemma {:induction false} UnversionedRenews(slots: seq<Slot>, puts: seq<Arrival>, a: string, k: nat)
    requires Distinct(slots) && IsLast(puts, a, k) && puts[k].endpoint.tag.guid == ""
    ensures PutAccepted(PutAll(slots, puts[..k]), puts[k].endpoint)
    ensures var c := Contents(PutAll(slots, puts));
            a in c && c[a].endpoint == puts[k].endpoint && c[a].updated == puts[k].now
  {
    hide Put, Contents, Find;
    var n := |puts| - 1;
    var front := puts[..n];
    StoredIsWinner(slots, front, a);
    PutContents(PutAll(slots, front), puts[n].endpoint, puts[n].now);
    if k < n {
      assert front[..k] == puts[..k];
      UnversionedRenews(slots, front, a, k);
    }
  }

  /** And it gives way to whatever comes next. */
  lemma UnversionedGivesWay(slots: seq<Slot>, e: Endpoint)
    requires Distinct(slots) && (e.addr in Contents(slots) ==> Contents(slots)[e.addr].endpoint.tag.guid == "")
    ensures PutAccepted(slots, e) && (e.addr in Contents(slots) ==> RemoveAccepted(slots, e))
  {
    ContentsAt(slots);
  }

  // ---------------------------------------------------------------------------------
  // Pruning

  datatype Pruned = Pruned(kept: seq<Slot>, dropped: seq<Endpoint>)

  /** The prune scan from position `i`: a stale slot is swap-deleted and the position looked at again. */
  function PruneFrom(slots: seq<Slot>, i: nat, threshold: int, now: int): (r: Pruned)
    requires i <= |slots|
    ensures |r.kept| + |r.dropped| == |slots|
    decreases |slots| - i
  {
    if i == |slots| then Pruned(slots, [])
    else if Stale(slots[i], threshold, now) then
      var r := PruneFrom(SwapDelete(slots, i), i, threshold, now);
      Pruned(r.kept, [slots[i].endpoint] + r.dropped)
    else PruneFrom(slots, i + 1, threshold, now)
  }

  lemma PruneUnfold(slots: seq<Slot>, i: nat, threshold: int, now: int)
    requires i <= |slots|
    ensures i == |slots| ==> PruneFrom(slots, i, threshold, now) == Pruned(slots, [])
    ensures i < |slots| && !Stale(slots[i], threshold, now) ==>
              PruneFrom(slots, i, threshold, now) == PruneFrom(slots, i + 1, threshold, now)
    ensures i < |slots| && Stale(slots[i], threshold, now) ==>
              && PruneFrom(slots, i, threshold, now).kept == PruneFrom(SwapDelete(slots, i), i, threshold, now).kept
              && PruneFrom(slots, i, threshold, now).dropped
                 == [slots[i].endpoint] + PruneFrom(SwapDelete(slots, i), i, threshold, now).dropped
  {
  }

  lemma SwapDeleteMembers<T>(s: seq<T>, i: nat)
    requires i < |s|
    ensures forall x :: x in SwapDelete(s, i) ==> x in s
  {
  }

  /** The map without its stale entries. */
  function Fresh(c: map<string, Slot>, threshold: int, now: int): map<string, Slot> {
    map a | a in c && !Stale(c[a], threshold, now) :: c[a]
  }

  /** `dropped` lists exactly the stale endpoints of `c`, each once. */
  ghost predicate DropsStale(c: map<string, Slot>, dropped: seq<Endpoint>, threshold: int, now: int) {
    && (forall k :: 0 <= k < |dropped| ==>
          dropped[k].addr in c && c[dropped[k].addr].endpoint == dropped[k] && Stale(c[dropped[k].addr], threshold, now))
    && (forall j, k :: 0 <= j < k < |dropped| ==> dropped[j].addr != dropped[k].addr)
    && (forall a :: a in c && Stale(c[a], threshold, now) ==> exists k :: 0 <= k < |dropped| && dropped[k].addr == a)
  }

  /** Pruning keeps exactly the fresh entries and reports exactly the stale ones. */
  lemma {:induction false} PruneContents(slots: seq<Slot>, i: nat, threshold: int, now: int)
    requires Distinct(slots) && i <= |slots|
    requires forall k :: 0 <= k < i ==> !Stale(slots[k], threshold, now)
    ensures var r := PruneFrom(slots, i, threshold, now);
            && Distinct(r.kept)
            && Contents(r.kept) == Fresh(Contents(slots), threshold, now)
            && DropsStale(Contents(slots), r.dropped, threshold, now)
    decreases |slots| - i
  {
    if i == |slots| {
      AllFresh(slots, threshold, now);
    } else if Stale(slots[i], threshold, now) {
      ContentsDelete(slots, i);
      PruneContents(SwapDelete(slots, i), i, threshold, now);
      ContentsAt(slots);
      DropOne(Contents(slots), slots[i], PruneFrom(SwapDelete(slots, i), i, threshold, now).dropped, threshold, now);
    } else {
      PruneContents(slots, i + 1, threshold, now);
    }
  }

  lemma AllFresh(slots: seq<Slot>, threshold: int, now: int)
    requires Distinct(slots) && forall k :: 0 <= k < |slots| ==> !Stale(slots[k], threshold, now)
    ensures Fresh(Contents(slots), threshold, now) == Contents(slots)
    ensures DropsStale(Contents(slots), [], threshold, now)
  {
    ContentsAt(slots);
  }

  lemma DropOne(c: map<string, Slot>, x: Slot, rest: seq<Endpoint>, threshold: int, now: int)
    requires x.endpoint.addr in c && c[x.endpoint.addr] == x && Stale(x, threshold, now)
    requires DropsStale(c - {x.endpoint.addr}, rest, threshold, now)
    ensures DropsStale(c, [x.endpoint] + rest, threshold, now)
    ensures Fresh(c - {x.endpoint.addr}, threshold, now) == Fresh(c, threshold, now)
  {
    var all, a := [x.endpoint] + rest, x.endpoint.addr;
    forall b | b in c && Stale(c[b], threshold, now) ensures exists k :: 0 <= k < |all| && all[k].addr == b {
      if b == a {
        assert all[0].addr == b;
      } else {
        assert b in c - {a};
        var k :| 0 <= k < |rest| && rest[k].addr == b;
        assert all[k + 1].addr == b;
      }
    }
  }
}

/** The pool object (route/pool.go): a swap-delete slice of slots, indexed by address and id. */
module Pools {
  import opened Wrappers
  import opened Tags
  import opened PoolSpec

  /** A slot of the slice; `index` is its position, so that it can be removed in place. */
  class Elem {
    var endpoint: Endpoint
    var index: int
    var updated: int
    var failedAt: Option<int>
    ghost const home: Pool

    constructor (endpoint: Endpoint, index: int, updated: int, ghost home: Pool)
      ensures this.endpoint == endpoint && this.index == index && this.updated == updated
      ensures this.failedAt == None && this.home == home
    {
      this.endpoint, this.index, this.updated, this.failedAt, this.home := endpoint, index, updated, None, home;
    }
  }

  /** Every address leads to its slot, and every address key belongs to some slot. */
  ghost predicate AddrIndex(endpoints: seq<Elem>, slots: seq<Slot>, byAddr: map<string, Elem>)
    requires |slots| == |endpoints|
  {
    && (forall i :: 0 <= i < |slots| ==> slots[i].endpoint.addr in byAddr && byAddr[slots[i].endpoint.addr] == endpoints[i])
    && (forall a :: a in byAddr ==> exists i :: 0 <= i < |slots| && slots[i].endpoint.addr == a)
  }

  /** Every id key resolves to a slot that is in the pool now and has that id. */
  ghost predicate IdIndex(endpoints: seq<Elem>, slots: seq<Slot>, byId: map<string, Elem>)
    requires |slots| == |endpoints|
  {
    forall k :: k in byId ==> exists i :: 0 <= i < |slots| && byId[k] == endpoints[i] && slots[i].endpoint.instanceId == k
  }

  lemma AppendIndex(endpoints: seq<Elem>, slots: seq<Slot>, byAddr: map<string, Elem>, x: Elem, s: Slot)
    requires |slots| == |endpoints| && AddrIndex(endpoints, slots, byAddr) && s.endpoint.addr !in byAddr
    ensures AddrIndex(endpoints + [x], slots + [s], byAddr[s.endpoint.addr := x])
  {
    var slots' := slots + [s];
    forall a | a in byAddr ensures exists i :: 0 <= i < |slots'| && slots'[i].endpoint.addr == a {
      var i :| 0 <= i < |slots| && slots[i].endpoint.addr == a;
      assert slots'[i].endpoint.addr == a;
    }
    assert slots'[|slots|].endpoint.addr == s.endpoint.addr;
  }

  lemma AppendIds(endpoints: seq<Elem>, slots: seq<Slot>, byId: map<string, Elem>, x: Elem, s: Slot)
    requires |slots| == |endpoints| && IdIndex(endpoints, slots, byId)
    ensures IdIndex(endpoints + [x], slots + [s], byId[s.endpoint.instanceId := x])
  {
    var slots', es' := slots + [s], endpoints + [x];
    forall k | k in byId && k != s.endpoint.instanceId
      ensures exists i :: 0 <= i < |slots'| && byId[k] == es'[i] && slots'[i].endpoint.instanceId == k
    {
      var i :| 0 <= i < |slots| && byId[k] == endpoints[i] && slots[i].endpoint.instanceId == k;
      assert byId[k] == es'[i] && slots'[i].endpoint.instanceId == k;
    }
    assert es'[|slots|] == x && slots'[|slots|].endpoint.instanceId == s.endpoint.instanceId;
  }

  lemma ReplaceIndex(endpoints: seq<Elem>, slots: seq<Slot>, byAddr: map<string, Elem>, i: nat, s: Slot)
    requires |slots| == |endpoints| && AddrIndex(endpoints, slots, byAddr)
    requires i < |slots| && s.endpoint.addr == slots[i].endpoint.addr
    ensures AddrIndex(endpoints, slots[i := s], byAddr)
  {
    var slots' := slots[i := s];
    forall a | a in byAddr ensures exists k :: 0 <= k < |slots'| && slots'[k].endpoint.addr == a {
      var k :| 0 <= k < |slots| && slots[k].endpoint.addr == a;
      assert slots'[k].endpoint.addr == a;
    }
  }

  lemma ReplaceIds(endpoints: seq<Elem>, slots: seq<Slot>, byId: map<string, Elem>, i: nat, s: Slot)
    requires |slots| == |endpoints| && IdIndex(endpoints, slots, byId) && i < |slots|
    requires forall j, k :: 0 <= j < k < |endpoints| ==> endpoints[j] != endpoints[k]
    ensures slots[i].endpoint.instanceId == s.endpoint.instanceId ==> IdIndex(endpoints, slots[i := s], byId)
    ensures IdIndex(endpoints, slots[i := s], (byId - {slots[i].endpoint.instanceId})[s.endpoint.instanceId := endpoints[i]])
  {
    var slots', was := slots[i := s], slots[i].endpoint.instanceId;
    forall k | k in byId && (k != was || was == s.endpoint.instanceId)
      ensures exists j :: 0 <= j < |slots'| && byId[k] == endpoints[j] && slots'[j].endpoint.instanceId == k
    {
      var j :| 0 <= j < |slots| && byId[k] == endpoints[j] && slots[j].endpoint.instanceId == k;
      assert byId[k] == endpoints[j] && slots'[j].endpoint.instanceId == k;
    }
    assert slots'[i].endpoint.instanceId == s.endpoint.instanceId;
  }

  lemma DeleteIndex(endpoints: seq<Elem>, slots: seq<Slot>, byAddr: map<string, Elem>, i: nat)
    requires |slots| == |endpoints| && AddrIndex(endpoints, slots, byAddr) && Distinct(slots) && i < |slots|
    ensures AddrIndex(SwapDelete(endpoints, i), SwapDelete(slots, i), byAddr - {slots[i].endpoint.addr})
  {
    hide SwapDelete, Distinct;
    DeleteAddrKeys(slots, byAddr, i);
    var a := slots[i].endpoint.addr;
    forall k | 0 <= k < |slots| - 1
      ensures var b := SwapDelete(slots, i)[k].endpoint.addr; b in byAddr && b != a && byAddr[b] == SwapDelete(endpoints, i)[k]
    {
      DeletePlace(endpoints, slots, byAddr, i, k);
    }
  }

  lemma DeletePlace(endpoints: seq<Elem>, slots: seq<Slot>, byAddr: map<string, Elem>, i: nat, k: nat)
    requires |slots| == |endpoints| && AddrIndex(endpoints, slots, byAddr) && Distinct(slots) && i < |slots| && k < |slots| - 1
    ensures var b := SwapDelete(slots, i)[k].endpoint.addr;
            b in byAddr && b != slots[i].endpoint.addr && byAddr[b] == SwapDelete(endpoints, i)[k]
  {
    hide SwapDelete;
    var j := if k == i then |slots| - 1 else k;
    assert SwapDelete(slots, i)[k] == slots[j] && SwapDelete(endpoints, i)[k] == endpoints[j];
  }

  lemma DeleteAddrKeys(slots: seq<Slot>, byAddr: map<string, Elem>, i: nat)
    requires i < |slots|
    requires forall a :: a in byAddr ==> exists i :: 0 <= i < |slots| && slots[i].endpoint.addr == a
    ensures forall a :: a in byAddr && a != slots[i].endpoint.addr ==>
              exists k :: 0 <= k < |slots| - 1 && SwapDelete(slots, i)[k].endpoint.addr == a
  {
    var slots', n := SwapDelete(slots, i), |slots| - 1;
    forall a | a in byAddr && a != slots[i].endpoint.addr
      ensures exists k :: 0 <= k < |slots'| && slots'[k].endpoint.addr == a
    {
      var k :| 0 <= k < |slots| && slots[k].endpoint.addr == a;
      assert slots'[if k == n then i else k].endpoint.addr == a;
    }
  }

  lemma DeleteIds(endpoints: seq<Elem>, slots: seq<Slot>, byId: map<string, Elem>, i: nat)
    requires |slots| == |endpoints| && IdIndex(endpoints, slots, byId) && i < |slots|
    ensures IdIndex(SwapDelete(endpoints, i), SwapDelete(slots, i), byId - {slots[i].endpoint.instanceId})
  {
    var slots', es', n := SwapDelete(slots, i), SwapDelete(endpoints, i), |slots| - 1;
    forall k | k in byId && k != slots[i].endpoint.instanceId
      ensures exists j :: 0 <= j < |slots'| && byId[k] == es'[j] && slots'[j].endpoint.instanceId == k
    {
      var j :| 0 <= j < |slots| && byId[k] == endpoints[j] && slots[j].endpoint.instanceId == k;
      var j' := if j == n then i else j;
      assert byId[k] == es'[j'] && slots'[j'].endpoint.instanceId == k;
    }
  }

  ghost predicate UniqueIds(slots: seq<Slot>) {
    forall i, j :: 0 <= i < j < |slots| ==> slots[i].endpoint.instanceId != slots[j].endpoint.instanceId
  }

  /** Every slot is found under its instance id. */
  ghost predicate FullIds(endpoints: seq<Elem>, slots: seq<Slot>, byId: map<string, Elem>)
    requires |slots| == |endpoints|
  {
    forall i :: 0 <= i < |slots| ==> slots[i].endpoint.instanceId in byId && byId[slots[i].endpoint.instanceId] == endpoints[i]
  }

  lemma AppendFull(endpoints: seq<Elem>, slots: seq<Slot>, byId: map<string, Elem>, x: Elem, s: Slot)
    requires |slots| == |endpoints| && FullIds(endpoints, slots, byId) && UniqueIds(slots + [s])
    ensures FullIds(endpoints + [x], slots + [s], byId[s.endpoint.instanceId := x])
  {
    var all := slots + [s];
    forall i | 0 <= i < |slots| ensures slots[i].endpoint.instanceId != s.endpoint.instanceId {
      assert all[i] == slots[i] && all[|slots|] == s;
    }
  }

  lemma ReplaceFull(endpoints: seq<Elem>, slots: seq<Slot>, byId: map<string, Elem>, i: nat, s: Slot)
    requires |slots| == |endpoints| && FullIds(endpoints, slots, byId) && i < |slots| && UniqueIds(slots[i := s])
    requires forall j, k :: 0 <= j < k < |endpoints| ==> endpoints[j] != endpoints[k]
    ensures slots[i].endpoint.instanceId == s.endpoint.instanceId ==> FullIds(endpoints, slots[i := s], byId)
    ensures FullIds(endpoints, slots[i := s], (byId - {slots[i].endpoint.instanceId})[s.endpoint.instanceId := endpoints[i]])
  {
    var all := slots[i := s];
    forall j | 0 <= j < |slots| && j != i
      ensures slots[j].endpoint.instanceId != s.endpoint.instanceId
      ensures slots[j].endpoint.instanceId != slots[i].endpoint.instanceId
    {
      assert all[j] == slots[j] && all[i] == s;
      assert endpoints[j] != endpoints[i];
    }
  }

  lemma DeleteFull(endpoints: seq<Elem>, slots: seq<Slot>, byId: map<string, Elem>, i: nat)
    requires |slots| == |endpoints| && FullIds(endpoints, slots, byId) && i < |slots|
    requires forall j, k :: 0 <= j < k < |endpoints| ==> endpoints[j] != endpoints[k]
    ensures FullIds(SwapDelete(endpoints, i), SwapDelete(slots, i), byId - {slots[i].endpoint.instanceId})
  {
    var slots', es', n := SwapDelete(slots, i), SwapDelete(endpoints, i), |slots| - 1;
    forall k | 0 <= k < n
      ensures slots'[k].endpoint.instanceId in byId - {slots[i].endpoint.instanceId}
      ensures byId[slots'[k].endpoint.instanceId] == es'[k]
    {
      var j := if k == i then n else k;
      assert slots'[k] == slots[j] && es'[k] == endpoints[j] && endpoints[j] != endpoints[i];
    }
  }

  /**
   The source keeps one index map for addresses and instance ids. Ids are GUIDs and never equal
   an "address:port", so the two kinds of key are two maps here.
   */
  class Pool {
    var endpoints: seq<Elem>
    var byAddr: map<string, Elem>
    var byId: map<string, Elem>
    const retryAfterFailure: int
    var nextIdx: int
    /** What the slot objects hold, in slice order. */
    ghost var slots: seq<Slot>

    /** Each slot object knows its position, belongs to this pool and holds what `slots` says. */
    ghost predicate Mirrored()
      reads this`endpoints, this`slots, endpoints
    {
      && |slots| == |endpoints|
      && forall i :: 0 <= i < |endpoints| ==>
        && endpoints[i].index == i && endpoints[i].home == this
        && Slot(endpoints[i].endpoint, endpoints[i].updated, endpoints[i].failedAt) == slots[i]
    }

    ghost predicate Valid()
      reads this`endpoints, this`slots, this`byAddr, this`byId, endpoints
    {
      Mirrored() && AddrIndex(endpoints, slots, byAddr) && IdIndex(endpoints, slots, byId)
    }

    /** Every endpoint can be found under its instance id. */
    ghost predicate Full()
      reads this`endpoints, this`slots, this`byId
    {
      |slots| == |endpoints| && FullIds(endpoints, slots, byId)
    }

    constructor (retryAfterFailure: int)
      ensures Valid() && Full() && slots == [] && endpoints == [] && nextIdx == -1
      ensures this.retryAfterFailure == retryAfterFailure
    {
      endpoints, byAddr, byId, slots := [], map[], map[], [];
      this.retryAfterFailure := retryAfterFailure;
      nextIdx := -1;
    }

    /** Addresses are one to one with the slots, and the index finds them. */
    lemma Indexed()
      requires Valid()
      ensures Distinct(slots)
      ensures forall a :: a in byAddr <==> Find(slots, a) >= 0
      ensures forall a :: a in byAddr ==> byAddr[a] == endpoints[Find(slots, a)]
    {
      DistinctSlots();
    }

    lemma DistinctSlots()
      requires Valid()
      ensures Distinct(slots)
    {
      forall i, j | 0 <= i < j < |slots| ensures slots[i].endpoint.addr != slots[j].endpoint.addr {
        assert endpoints[i].index != endpoints[j].index;
      }
    }

    lemma Apart()
      requires Mirrored()
      ensures forall j, k :: 0 <= j < k < |endpoints| ==> endpoints[j] != endpoints[k]
    {
      forall j, k | 0 <= j < k < |endpoints| ensures endpoints[j] != endpoints[k] {
        assert endpoints[j].index != endpoints[k].index;
      }
    }

    /** Put's branch for a known address whose stored version gives way. */
    method Replace(x: Elem, e: Endpoint, now: int, ghost i: nat)
      requires Valid() && i < |endpoints| && endpoints[i] == x && slots[i].endpoint.addr == e.addr
      modifies this`byId, this`slots, x`endpoint, x`updated
      ensures Valid()
      ensures slots == old(slots)[i := Slot(e, now, old(slots)[i].failedAt)]
      ensures old(Full()) && UniqueIds(slots) ==> Full()
    {
      hide AddrIndex, IdIndex, FullIds, UniqueIds;
      ghost var s := Slot(e, now, slots[i].failedAt);
      Apart();
      ReplaceIndex(endpoints, slots, byAddr, i, s);
      ReplaceIds(endpoints, slots, byId, i, s);
      if Full() && UniqueIds(slots[i := s]) { ReplaceFull(endpoints, slots, byId, i, s); }
      var previous := x.endpoint;
      x.endpoint := e;
      x.updated := now;
      if previous.instanceId != e.instanceId {
        byId := (byId - {previous.instanceId})[e.instanceId := x];
      }
      slots := slots[i := s];
    }

    /** Put's branch for a new address. */
    method Append(e: Endpoint, now: int)
      requires Valid() && e.addr !in byAddr
      modifies this
      ensures Valid()
      ensures |endpoints| == old(|endpoints|) + 1 && endpoints[..old(|endpoints|)] == old(endpoints)
      ensures fresh(endpoints[old(|endpoints|)])
      ensures slots == old(slots) + [Slot(e, now, None)]
      ensures nextIdx == old(nextIdx)
      ensures old(Full()) && UniqueIds(slots) ==> Full()
    {
      hide AddrIndex, IdIndex, FullIds, UniqueIds;
      var x := new Elem(e, |endpoints|, now, this);
      ghost var s := Slot(e, now, None);
      AppendIndex(endpoints, slots, byAddr, x, s);
      AppendIds(endpoints, slots, byId, x, s);
      if Full() && UniqueIds(slots + [s]) { AppendFull(endpoints, slots, byId, x, s); }
      endpoints := endpoints + [x];
      byAddr := byAddr[e.addr := x];
      byId := byId[e.instanceId := x];
      slots := slots + [s];
    }

    /** `Put`: insert, or replace when the stored tag is succeeded by the new one. */
    method Put(e: Endpoint, now: int) returns (ok: bool)
      requires Valid()
      modifies this, endpoints
      ensures Valid()
      ensures forall x :: x in endpoints ==> x in old(endpoints) || fresh(x)
      ensures ok == PutAccepted(old(slots), e)
      ensures slots == PoolSpec.Put(old(slots), e, now)
      ensures nextIdx == old(nextIdx)
      ensures old(Full()) && UniqueIds(slots) ==> Full()
    {
      hide AddrIndex, IdIndex, FullIds, UniqueIds;
      Indexed();
      if e.addr in byAddr {
        var x := byAddr[e.addr];
        ghost var i := Find(slots, e.addr);
        assert x == endpoints[i];
        if x.endpoint.ref != e.ref && !SucceededBy(x.endpoint.tag, e.tag) { return false; }
        Replace(x, e, now, i);
      } else {
        Append(e, now);
        assert endpoints == old(endpoints) + [endpoints[|endpoints| - 1]];
      }
      ok := true;
    }

    /** The slice part of `removeEndpoint`: the last slot moves into the hole. */
    method SwapOut(i: nat)
      requires Mirrored() && i < |endpoints|
      modifies this`endpoints, this`slots, {endpoints[|endpoints| - 1]}`index
      ensures Mirrored()
      ensures endpoints == SwapDelete(old(endpoints), i) && slots == SwapDelete(old(slots), i)
    {
      Apart();
      var last := |endpoints|;
      endpoints := endpoints[i := endpoints[last - 1]][..last - 1];
      if i < last - 1 { endpoints[i].index := i; }
      slots := SwapDelete(slots, i);
    }

    /** `removeEndpoint`: swap-delete and drop both keys. */
    method RemoveEndpoint(x: Elem, ghost at: nat)
      requires Valid() && at < |endpoints| && endpoints[at] == x
      modifies this`endpoints, this`byAddr, this`byId, this`slots, {endpoints[|endpoints| - 1]}`index
      ensures Valid()
      ensures endpoints == SwapDelete(old(endpoints), at) && slots == SwapDelete(old(slots), at)
      ensures old(Full()) ==> Full()
    {
      hide AddrIndex, IdIndex, FullIds;
      DistinctSlots();
      Apart();
      if Full() { DeleteFull(endpoints, slots, byId, at); }
      DeleteIndex(endpoints, slots, byAddr, at);
      DeleteIds(endpoints, slots, byId, at);
      SwapOut(x.index);
      byAddr := byAddr - {x.endpoint.addr};
      byId := byId - {x.endpoint.instanceId};
    }

    /** `Remove`: only a version that the stored one gives way to removes it. */
    method Remove(e: Endpoint) returns (removed: bool)
      requires Valid()
      modifies this, endpoints
      ensures Valid()
      ensures forall x :: x in endpoints ==> x in old(endpoints)
      ensures removed == RemoveAccepted(old(slots), e)
      ensures slots == PoolSpec.Remove(old(slots), e)
      ensures nextIdx == old(nextIdx)
      ensures old(Full()) ==> Full()
    {
      hide AddrIndex, IdIndex, FullIds;
      Indexed();
      if |endpoints| > 0 && e.addr in byAddr {
        var x := byAddr[e.addr];
        if SameOrSucceededBy(x.endpoint.tag, e.tag) {
          RemoveEndpoint(x, Find(slots, e.addr));
          return true;
        }
      }
      return false;
    }

    /** One look of the prune scan: a stale slot is removed. */
    method PruneAt(i: nat, threshold: int, now: int) returns (stale: bool, e: Endpoint)
      requires Valid() && i < |endpoints|
      modifies this`endpoints, this`byAddr, this`byId, this`slots, {endpoints[|endpoints| - 1]}`index
      ensures Valid()
      ensures stale == Stale(old(slots)[i], threshold, now) && e == old(slots)[i].endpoint
      ensures slots == if stale then SwapDelete(old(slots), i) else old(slots)
      ensures endpoints == if stale then SwapDelete(old(endpoints), i) else old(endpoints)
      ensures old(Full()) ==> Full()
    {
      hide FullIds;
      var x := endpoints[i];
      e := x.endpoint;
      var limit := if 0 < e.staleThreshold < threshold then e.staleThreshold else threshold;
      stale := x.updated < now - limit;
      if stale { RemoveEndpoint(x, i); }
    }

    /** `PruneEndpoints`: scan with swap-delete; the result lists what was dropped. */
    method PruneEndpoints(threshold: int, now: int) returns (dropped: seq<Endpoint>)
      requires Valid()
      modifies this, endpoints
      ensures Valid()
      ensures forall x :: x in endpoints ==> x in old(endpoints)
      ensures Pruned(slots, dropped) == PruneFrom(old(slots), 0, threshold, now)
      ensures nextIdx == old(nextIdx)
      ensures old(Full()) ==> Full()
    {
      hide Pool.Valid, Pool.Full, PruneFrom, SwapDelete, Stale;
      var last, i := |endpoints|, 0;
      dropped := [];
      Sizes();
      while i < last
        invariant Valid() && 0 <= i <= last == |endpoints| == |slots|
        invariant forall x :: x in endpoints ==> x in old(endpoints)
        invariant nextIdx == old(nextIdx) && (old(Full()) ==> Full())
        invariant PruneFrom(old(slots), 0, threshold, now) ==
                  Pruned(PruneFrom(slots, i, threshold, now).kept, dropped + PruneFrom(slots, i, threshold, now).dropped)
        decreases last - i
      {
        PruneUnfold(slots, i, threshold, now);
        SwapDeleteMembers(endpoints, i);
        assert endpoints[last - 1] in old(endpoints);
        var stale, e := PruneAt(i, threshold, now);
        Sizes();
        if stale {
          dropped := dropped + [e];
          last := last - 1;
        } else {
          i := i + 1;
        }
      }
      PruneUnfold(slots, i, threshold, now);
    }

    lemma Sizes()
      requires Valid()
      ensures |slots| == |endpoints|
    {
    }

    method MarkUpdated(t: int)
      requires Valid()
      modifies this`slots, endpoints
      ensures Valid()
      ensures slots == PoolSpec.MarkUpdated(old(slots), t)
    {
      hide AddrIndex, IdIndex;
      for i := 0 to |endpoints|
        invariant Valid()
        invariant |slots| == old(|slots|)
        invariant forall k :: 0 <= k < |slots| ==>
                    slots[k] == if k < i then old(slots)[k].(updated := t) else old(slots)[k]
      {
        Touch(i, t);
      }
    }

    /** One step of MarkUpdated. */
    method Touch(i: nat, t: int)
      requires Valid() && i < |endpoints|
      modifies this`slots, {endpoints[i]}`updated
      ensures Valid() && slots == old(slots)[i := old(slots)[i].(updated := t)]
    {
      hide AddrIndex, IdIndex;
      Apart();
      Refresh(i, slots[i].(updated := t));
      endpoints[i].updated := t;
      slots := slots[i := slots[i].(updated := t)];
    }

    /** Writes one slot's failure time. */
    method SetFailed(i: nat, t: Option<int>)
      requires Valid() && i < |endpoints|
      modifies this`slots, {endpoints[i]}`failedAt
      ensures Valid() && slots == old(slots)[i := old(slots)[i].(failedAt := t)]
    {
      hide AddrIndex, IdIndex;
      Apart();
      Refresh(i, slots[i].(failedAt := t));
      endpoints[i].failedAt := t;
      slots := slots[i := slots[i].(failedAt := t)];
    }

    /** `endpointFailed`: the address is marked failed, whatever endpoint it holds now. */
    method EndpointFailed(e: Endpoint, now: int)
      requires Valid()
      modifies this`slots, endpoints
      ensures Valid() && endpoints == old(endpoints)
      ensures var i := Find(old(slots), e.addr);
              slots == if i < 0 then old(slots) else old(slots)[i := old(slots)[i].(failedAt := Some(now))]
    {
      hide AddrIndex, IdIndex;
      Indexed();
      if e.addr in byAddr {
        SetFailed(byAddr[e.addr].index, Some(now));
      }
    }

    /** A change of times in one slot leaves the index as it is. */
    lemma Refresh(i: nat, s: Slot)
      requires Valid() && i < |slots| && s.endpoint == slots[i].endpoint
      ensures AddrIndex(endpoints, slots[i := s], byAddr) && IdIndex(endpoints, slots[i := s], byId)
    {
      Apart();
      ReplaceIndex(endpoints, slots, byAddr, i, s);
      ReplaceIds(endpoints, slots, byId, i, s);
    }

    /** `FindById` with an address. */
    method FindByAddr(addr: string) returns (r: Option<Endpoint>)
      requires Valid()
      ensures r == if Find(slots, addr) >= 0 then Some(slots[Find(slots, addr)].endpoint) else None
    {
      Indexed();
      r := if addr in byAddr then Some(byAddr[addr].endpoint) else None;
    }

    /** The endpoint known under a key: an address, else an instance id. */
    ghost function Known(id: string): Option<Endpoint>
      reads this`slots, this`byId, byId.Values`endpoint
    {
      if Find(slots, id) >= 0 then Some(slots[Find(slots, id)].endpoint)
      else if id in byId then Some(byId[id].endpoint)
      else None
    }

    /** What is known under a key is in the pool under that key; and with full ids every endpoint is known by its own. */
    lemma KnownMeaning(id: string)
      requires Valid()
      ensures var r := Known(id);
              r.Some? ==> exists i :: 0 <= i < |slots| && slots[i].endpoint == r.value && id in [r.value.addr, r.value.instanceId]
      ensures Full() ==> forall i :: 0 <= i < |slots| && slots[i].endpoint.instanceId == id && Find(slots, id) < 0 ==>
                Known(id) == Some(slots[i].endpoint)
    {
      hide AddrIndex;
      if Find(slots, id) < 0 && id in byId {
        var i :| 0 <= i < |slots| && byId[id] == endpoints[i] && slots[i].endpoint.instanceId == id;
        assert slots[i].endpoint == byId[id].endpoint;
      }
    }

    /** `FindById`: by address, or by instance id. */
    method FindById(id: string) returns (r: Option<Endpoint>)
      requires Valid()
      ensures r == Known(id)
      ensures r.Some? ==> exists i :: 0 <= i < |slots| && slots[i].endpoint == r.value && id in [r.value.addr, r.value.instanceId]
      ensures r.None? ==> Find(slots, id) < 0 && id !in byId
      ensures Full() ==> forall i :: 0 <= i < |slots| && slots[i].endpoint.instanceId == id && Find(slots, id) < 0 ==>
                r == Some(slots[i].endpoint)
    {
      hide AddrIndex, IdIndex, FullIds, Find;
      Indexed();
      KnownMeaning(id);
      if id in byAddr {
        r := Some(byAddr[id].endpoint);
      } else if id in byId {
        r := Some(byId[id].endpoint);
      } else {
        r := None;
      }
    }
  }
}
