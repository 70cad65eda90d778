/** The TCP routing table as values (routingtable/routingtable.go). */
module TableSpec {
  import opened Tags
  import opened RouterSpec

  datatype Backend = Backend(address: string, port: int)

  datatype Details = Details(tag: ModificationTag, ttl: int, updated: int)

  /** What an upsert or a delete carries. */
  datatype Info = Info(backend: Backend, tag: ModificationTag, ttl: int)

  type Entry = map<Backend, Details>
  type Table = map<nat, Entry>

  predicate Has(t: Table, port: nat, b: Backend) { port in t && b in t[port] }

  /** No route is kept without a backend. */
  predicate NoEmpty(t: Table) {
    forall p | p in t :: t[p] != map[]
  }

  function EntryAt(t: Table, port: nat): Entry { if port in t then t[port] else map[] }

  /** An entry put back; an emptied one goes. */
  function WithEntry(t: Table, port: nat, e: Entry): Table { if e == map[] then t - {port} else t[port := e] }

  /** `UpsertBackendServerKey`, on the table: a stale tag changes nothing. */
  function Upserted(t: Table, port: nat, info: Info, now: int): Table {
    if Has(t, port, info.backend) && !SucceededBy(t[port][info.backend].tag, info.tag) then t
    else t[port := EntryAt(t, port)[info.backend := Details(info.tag, info.ttl, now)]]
  }

  /** Whether a delete is accepted. */
  predicate Deletes(t: Table, port: nat, info: Info) {
    Has(t, port, info.backend) && SameOrSucceededBy(t[port][info.backend].tag, info.tag)
  }

  /** `DeleteBackendServerKey`, on the table. */
  function Deleted(t: Table, port: nat, info: Info): Table {
    if Deletes(t, port, info) then WithEntry(t, port, t[port] - {info.backend}) else t
  }

  // ---------------------------------------------------------------------------------
  // Expiry

  const SECOND := 1000000000

  /** 999999999 * INVERSE == 1 + COFACTOR * 2^64. */
  const INVERSE := 9340617356365346303
  const COFACTOR := 506355881

  /** Two's complement arithmetic on 64 bits. */
  function Wrap64(x: int): int { (x + 0x8000_0000_0000_0000) % 0x1_0000_0000_0000_0000 - 0x8000_0000_0000_0000 }

  predicate Int64(x: int) { -0x8000_0000_0000_0000 <= x < 0x8000_0000_0000_0000 }

  function Lifetime(d: Details, defaultTtl: int): int { if d.ttl == 0 then defaultTtl else d.ttl }

  /** `expired`, on instants in nanoseconds. */
  predicate Expired(d: Details, defaultTtl: int, now: int) {
    now + Wrap64(Wrap64(-Lifetime(d, defaultTtl)) * SECOND) > d.updated
  }

  /** What it is for: the entry is older than its own lifetime in seconds, or than the default if it has none. */
  predicate Outlived(d: Details, defaultTtl: int, now: int) {
    if d.ttl != 0 then now - d.updated > d.ttl * SECOND else now - d.updated > defaultTtl * SECOND
  }

  /** They agree at every instant exactly for lifetimes up to 9223372036 seconds. */
  lemma ExpiredExact(tag: ModificationTag, ttl: int, defaultTtl: int)
    requires Int64(ttl) && Int64(defaultTtl)
    ensures (forall updated, now :: Expired(Details(tag, ttl, updated), defaultTtl, now)
                                    <==> Outlived(Details(tag, ttl, updated), defaultTtl, now))
            <==> -9223372036 <= (if ttl != 0 then ttl else defaultTtl) <= 9223372036
  {
    var life := if ttl != 0 then ttl else defaultTtl;
    var d := Wrap64(Wrap64(-life) * SECOND);
    if -9223372036 <= life <= 9223372036 {
      assert d == -life * SECOND;
    } else {
      WrapDiffers(life);
      var updated := if d < -life * SECOND then d else -life * SECOND;
      assert Expired(Details(tag, ttl, updated), defaultTtl, 0) != Outlived(Details(tag, ttl, updated), defaultTtl, 0);
    }
  }

  lemma WrapDiffers(life: int)
    requires Int64(life) && !(-9223372036 <= life <= 9223372036)
    ensures Wrap64(Wrap64(-life) * SECOND) != -life * SECOND
  {
    assert Int64(Wrap64(Wrap64(-life) * SECOND));
    assert !Int64(-life * SECOND);
  }

  /** What the default is for: the pruning interval, which the source passes in nanoseconds. */
  predicate OutlivedInterval(d: Details, interval: int, now: int) { now - d.updated > interval }

  /** An odd number is invertible modulo 2^64, so multiplying by 10^9 keeps only zero. */
  lemma OnlyZeroKept(x: int)
    requires Int64(x) && Wrap64(x * SECOND) == x
    ensures x == 0
  {
    var q := (x * SECOND + 0x8000_0000_0000_0000) / 0x1_0000_0000_0000_0000;
    assert x * 999999999 == q * 0x1_0000_0000_0000_0000;
    assert x == (q * INVERSE - x * COFACTOR) * 0x1_0000_0000_0000_0000;
  }

  /** An entry without a lifetime expires with the interval exactly when the interval is zero. */
  lemma DefaultExact(tag: ModificationTag, interval: int)
    requires Int64(interval)
    ensures (forall updated, now :: Expired(Details(tag, 0, updated), interval, now)
                                    <==> OutlivedInterval(Details(tag, 0, updated), interval, now))
            <==> interval == 0
  {
    var d := Wrap64(Wrap64(-interval) * SECOND);
    if interval != 0 {
      assert d != -interval by {
        if d == -interval { OnlyZeroKept(-interval); }
      }
      var updated := if d < -interval then d else -interval;
      assert Expired(Details(tag, 0, updated), interval, 0) != OutlivedInterval(Details(tag, 0, updated), interval, 0);
    }
  }

  /** An interval of 30 seconds: such an entry has expired as soon as it is there. */
  lemma ThirtySecondsExpireAtOnce(tag: ModificationTag, updated: int, now: int)
    requires updated <= now
    ensures Expired(Details(tag, 0, updated), 30 * SECOND, now)
  {
    assert Wrap64(Wrap64(-(30 * SECOND)) * SECOND) == 6893488147419103232;
  }

  /** An interval of 60 seconds: it does not expire for 147 years. */
  lemma SixtySecondsLinger(tag: ModificationTag, updated: int, now: int)
    requires now - updated <= 4659767778871345152
    ensures !Expired(Details(tag, 0, updated), 60 * SECOND, now)
  {
    assert Wrap64(Wrap64(-(60 * SECOND)) * SECOND) == -4659767778871345152;
  }

  /** `pruneBackends`. */
  function LiveBackends(e: Entry, defaultTtl: int, now: int): Entry {
    map b | b in e && !Expired(e[b], defaultTtl, now) :: e[b]
  }

  /** `pruneEntries`, on the table. */
  function Pruned(t: Table, defaultTtl: int, now: int): Table {
    map p | p in t && LiveBackends(t[p], defaultTtl, now) != map[] :: LiveBackends(t[p], defaultTtl, now)
  }

  /** What pruning keeps: exactly the backends that have not expired. */
  lemma PrunedMeaning(t: Table, defaultTtl: int, now: int, port: nat, b: Backend)
    ensures var r := Pruned(t, defaultTtl, now);
            && NoEmpty(r)
            && (Has(r, port, b) <==> Has(t, port, b) && !Expired(t[port][b], defaultTtl, now))
            && (Has(r, port, b) ==> r[port][b] == t[port][b])
  {
    hide Expired;
    if Has(t, port, b) && !Expired(t[port][b], defaultTtl, now) {
      assert b in LiveBackends(t[port], defaultTtl, now);
    }
  }

  // ---------------------------------------------------------------------------------
  // The updates sent to the router

  function AddOf(port: nat, b: Backend): Update { AddTcp(port, b.address, b.port) }

  function RemoveOf(port: nat, b: Backend): Update { RemoveTcp(port, b.address, b.port) }

  /** An upsert is announced when the backend is new. */
  function UpsertUpdates(t: Table, port: nat, info: Info): seq<Update> {
    if Has(t, port, info.backend) then [] else [AddOf(port, info.backend)]
  }

  function DeleteUpdates(t: Table, port: nat, info: Info): seq<Update> {
    if Deletes(t, port, info) then [RemoveOf(port, info.backend)] else []
  }

  /** One removal for every backend that goes, in any order. */
  ghost predicate PruneUpdates(t: Table, t': Table, updates: seq<Update>) {
    && (forall k | 0 <= k < |updates| :: updates[k].RemoveTcp?
          && var b := Backend(updates[k].address, updates[k].port);
             Has(t, updates[k].route, b) && !Has(t', updates[k].route, b))
    && (forall p, b | Has(t, p, b) && !Has(t', p, b) :: RemoveOf(p, b) in updates)
    && (forall j, k | 0 <= j < k < |updates| :: updates[j] != updates[k])
  }

  datatype Event =
    | Upsert(port: nat, info: Info, now: int)
    | Delete(port: nat, info: Info)
    | Prune(defaultTtl: int, now: int)

  /** One operation on the table and the updates it sends. */
  ghost predicate Step(t: Table, ev: Event, t': Table, updates: seq<Update>) {
    match ev
    case Upsert(port, info, now) => t' == Upserted(t, port, info, now) && updates == UpsertUpdates(t, port, info)
    case Delete(port, info) => t' == Deleted(t, port, info) && updates == DeleteUpdates(t, port, info)
    case Prune(defaultTtl, now) => t' == Pruned(t, defaultTtl, now) && PruneUpdates(t, t', updates)
  }

  /** Every operation keeps the table free of empty routes, and announces exactly what it changes. */
  lemma StepAnnounces(t: Table, ev: Event, t': Table, updates: seq<Update>, port: nat, b: Backend)
    requires NoEmpty(t) && Step(t, ev, t', updates)
    ensures NoEmpty(t')
    ensures Has(t', port, b) <==> (Has(t, port, b) && RemoveOf(port, b) !in updates) || AddOf(port, b) in updates
    ensures !(AddOf(port, b) in updates && RemoveOf(port, b) in updates)
  {
    hide Upserted, Deleted, Pruned, Deletes;
    match ev
    case Upsert(p, info, now) => UpsertAnnounces(t, p, info, now, port, b);
    case Delete(p, info) => DeleteAnnounces(t, p, info, port, b);
    case Prune(defaultTtl, now) =>
      PrunedMeaning(t, defaultTtl, now, port, b);
      if RemoveOf(port, b) in updates {
        var k :| 0 <= k < |updates| && updates[k] == RemoveOf(port, b);
        assert !Has(t', port, b);
      }
  }

  lemma UpsertAnnounces(t: Table, port: nat, info: Info, now: int, p: nat, b: Backend)
    requires NoEmpty(t)
    ensures var r := Upserted(t, port, info, now);
            NoEmpty(r) && (Has(r, p, b) <==> Has(t, p, b) || (p == port && b == info.backend))
  {
    hide SucceededBy;
    var r := Upserted(t, port, info, now);
    forall q | q in r ensures r[q] != map[] {
      if q == port && r != t { assert info.backend in r[q]; }
    }
  }

  lemma DeleteAnnounces(t: Table, port: nat, info: Info, p: nat, b: Backend)
    requires NoEmpty(t)
    ensures var r := Deleted(t, port, info);
            && NoEmpty(r)
            && (Has(r, p, b) <==> Has(t, p, b) && !(Deletes(t, port, info) && p == port && b == info.backend))
  {
    hide SameOrSucceededBy;
    if Deletes(t, port, info) {
      var e := t[port] - {info.backend};
      assert Has(t, port, b) && b != info.backend ==> b in e;
    }
  }
}

/** `RoutingTable`, with the updates it has handed to its listener. */
module RoutingTables {
  import opened Tags
  import opened RouterSpec
  import opened TableSpec

  class RoutingTable {
    var entries: Table
    var sent: seq<Update>

    constructor ()
      ensures entries == map[] && sent == []
    {
      entries, sent := map[], [];
    }

    method UpsertBackendServerKey(key: nat, info: Info, now: int) returns (update: bool)
      modifies this
      ensures Step(old(entries), Upsert(key, info, now), entries, UpsertUpdates(old(entries), key, info))
      ensures sent == old(sent) + UpsertUpdates(old(entries), key, info)
      ensures update <==> !Has(old(entries), key, info.backend)
    {
      hide SucceededBy;
      ghost var was := entries;
      update := false;
      var details := Details(info.tag, info.ttl, now);
      var existing;
      if key !in entries {
        existing := map[info.backend := details];
        entries := entries[key := existing];
        update := true;
      } else {
        existing := entries[key];
      }
      var found := info.backend in existing;
      if !found || SucceededBy(existing[info.backend].tag, details.tag) {
        existing := existing[info.backend := details];
        entries := entries[key := existing];
      }
      if !found { update := true; }
      assert key !in was ==> entries[key] == EntryAt(was, key)[info.backend := details];
      assert entries == Upserted(was, key, info, now);
      if update { sent := sent + [AddOf(key, info.backend)]; }
    }

    method DeleteBackendServerKey(key: nat, info: Info) returns (update: bool)
      modifies this
      ensures Step(old(entries), Delete(key, info), entries, DeleteUpdates(old(entries), key, info))
      ensures sent == old(sent) + DeleteUpdates(old(entries), key, info)
      ensures update <==> Deletes(old(entries), key, info)
    {
      hide SucceededBy;
      update := false;
      if key in entries {
        var existing := entries[key];
        if info.backend in existing && SameOrSucceededBy(existing[info.backend].tag, info.tag) {
          existing := existing - {info.backend};
          entries := entries[key := existing];
          if existing == map[] { entries := entries - {key}; }
          update := true;
        }
      }
      if update { sent := sent + [RemoveOf(key, info.backend)]; }
    }

    /** `pruneBackends`. */
    static method PruneBackends(e: Entry, defaultTtl: int, now: int) returns (live: Entry, removed: seq<Backend>)
      ensures live == LiveBackends(e, defaultTtl, now)
      ensures forall b :: b in removed <==> b in e && Expired(e[b], defaultTtl, now)
      ensures forall j, k | 0 <= j < k < |removed| :: removed[j] != removed[k]
    {
      hide Expired;
      live, removed := e, [];
      var todo := e.Keys;
      while todo != {}
        invariant todo <= e.Keys
        invariant live == map b | b in e && (b in todo || !Expired(e[b], defaultTtl, now)) :: e[b]
        invariant forall b :: b in removed <==> b in e && b !in todo && Expired(e[b], defaultTtl, now)
        invariant forall j, k | 0 <= j < k < |removed| :: removed[j] != removed[k]
        decreases |todo|
      {
        var b :| b in todo;
        todo := todo - {b};
        if Expired(e[b], defaultTtl, now) {
          removed := removed + [b];
          live := live - {b};
        }
      }
    }

    /** The removals sent for the routes `done`. */
    static ghost predicate Sent(t: Table, done: set<nat>, defaultTtl: int, now: int, updates: seq<Update>) {
      && (forall u | u in updates :: u.RemoveTcp? && u.route in done
            && Has(t, u.route, Backend(u.address, u.port)) && Expired(t[u.route][Backend(u.address, u.port)], defaultTtl, now))
      && (forall p, b | p in done && Has(t, p, b) && Expired(t[p][b], defaultTtl, now) :: RemoveOf(p, b) in updates)
      && (forall j, k | 0 <= j < k < |updates| :: updates[j] != updates[k])
    }

    static ghost function PrunedAmong(t: Table, done: set<nat>, defaultTtl: int, now: int): Table {
      map p | p in t && (p in done ==> LiveBackends(t[p], defaultTtl, now) != map[]) ::
        if p in done then LiveBackends(t[p], defaultTtl, now) else t[p]
    }

    /** `pruneEntries`. */
    method PruneEntries(defaultTtl: int, now: int) returns (ghost updates: seq<Update>)
      modifies this
      ensures sent == old(sent) + updates
      ensures Step(old(entries), Prune(defaultTtl, now), entries, updates)
    {
      hide Expired, LiveBackends, PrunedAmong, Sent;
      ghost var was := entries;
      var todo := entries.Keys;
      updates := [];
      Starts(was, defaultTtl, now);
      assert was.Keys - todo == {};
      while todo != {}
        invariant todo <= was.Keys
        invariant entries == PrunedAmong(was, was.Keys - todo, defaultTtl, now)
        invariant sent == old(sent) + updates && Sent(was, was.Keys - todo, defaultTtl, now, updates)
        decreases |todo|
      {
        var p :| p in todo;
        AmongStep(was, todo, p, defaultTtl, now);
        var live, removed := PruneBackends(entries[p], defaultTtl, now);
        SentStep(was, todo, p, defaultTtl, now, updates, removed);
        SendAll(p, removed);
        updates := updates + Removals(p, removed);
        entries := if live == map[] then entries - {p} else entries[p := live];
        todo := todo - {p};
      }
      assert was.Keys - {} == was.Keys;
      Ends(was, defaultTtl, now, updates);
    }

    static ghost function Removals(p: nat, removed: seq<Backend>): seq<Update> {
      seq(|removed|, k requires 0 <= k < |removed| => RemoveOf(p, removed[k]))
    }

    method SendAll(p: nat, removed: seq<Backend>)
      modifies this`sent
      ensures sent == old(sent) + Removals(p, removed)
    {
      var k := 0;
      while k < |removed|
        invariant 0 <= k <= |removed| && sent == old(sent) + Removals(p, removed[..k])
      {
        sent := sent + [RemoveOf(p, removed[k])];
        k := k + 1;
      }
      assert removed[..k] == removed;
    }

    static lemma Starts(t: Table, defaultTtl: int, now: int)
      ensures PrunedAmong(t, {}, defaultTtl, now) == t && Sent(t, {}, defaultTtl, now, [])
    {
    }

    static lemma AmongStep(t: Table, todo: set<nat>, p: nat, defaultTtl: int, now: int)
      requires p in todo && todo <= t.Keys
      ensures var before, after := PrunedAmong(t, t.Keys - todo, defaultTtl, now), PrunedAmong(t, t.Keys - (todo - {p}), defaultTtl, now);
              var live := LiveBackends(t[p], defaultTtl, now);
              p in before && before[p] == t[p] && after == if live == map[] then before - {p} else before[p := live]
    {
    }

    static lemma SentStep(t: Table, todo: set<nat>, p: nat, defaultTtl: int, now: int, updates: seq<Update>, removed: seq<Backend>)
      requires p in todo && todo <= t.Keys && Sent(t, t.Keys - todo, defaultTtl, now, updates)
      requires forall b :: b in removed <==> b in t[p] && Expired(t[p][b], defaultTtl, now)
      requires forall j, k | 0 <= j < k < |removed| :: removed[j] != removed[k]
      ensures Sent(t, t.Keys - (todo - {p}), defaultTtl, now, updates + Removals(p, removed))
    {
      hide Expired;
      var more := Removals(p, removed);
      forall u | u in more
        ensures u.RemoveTcp? && u.route == p && Backend(u.address, u.port) in removed && u !in updates
      {
        var k :| 0 <= k < |more| && more[k] == u;
        assert removed[k] in removed;
      }
      forall b | b in removed ensures RemoveOf(p, b) in more {
        var k :| 0 <= k < |removed| && removed[k] == b;
        assert more[k] == RemoveOf(p, b);
      }
    }

    static lemma Ends(t: Table, defaultTtl: int, now: int, updates: seq<Update>)
      requires Sent(t, t.Keys, defaultTtl, now, updates)
      ensures PrunedAmong(t, t.Keys, defaultTtl, now) == Pruned(t, defaultTtl, now)
      ensures PruneUpdates(t, Pruned(t, defaultTtl, now), updates)
    {
      hide Expired, Pruned, PrunedAmong;
      assert PrunedAmong(t, t.Keys, defaultTtl, now) == Pruned(t, defaultTtl, now) by { AllPruned(t, defaultTtl, now); }
      forall p, b ensures Has(Pruned(t, defaultTtl, now), p, b) <==> Has(t, p, b) && !Expired(t[p][b], defaultTtl, now) {
        PrunedMeaning(t, defaultTtl, now, p, b);
      }
    }

    static lemma AllPruned(t: Table, defaultTtl: int, now: int)
      ensures PrunedAmong(t, t.Keys, defaultTtl, now) == Pruned(t, defaultTtl, now)
    {
    }
  }
}
