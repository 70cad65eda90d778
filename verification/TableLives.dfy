/** The TCP routing table against the history of its events: every backend lives a life of its own. */
module TableLives {
  import opened Wrappers
  import opened Tags
  import opened TableSpec
  import RS = RouterSpec

  predicate Concerns(ev: Event, port: nat, b: Backend) {
    (ev.Upsert? || ev.Delete?) && ev.port == port && ev.info.backend == b
  }

  /** What one event does to a backend of a port. */
  function Lived(held: Option<Details>, ev: Event, port: nat, b: Backend): Option<Details> {
    match ev
    case Upsert(_, info, now) =>
      if Concerns(ev, port, b) && (held.Some? ==> SucceededBy(held.value.tag, info.tag))
      then Some(Details(info.tag, info.ttl, now)) else held
    case Delete(_, info) =>
      if Concerns(ev, port, b) && held.Some? && SameOrSucceededBy(held.value.tag, info.tag) then None else held
    case Prune(defaultTtl, now) =>
      if held.Some? && Expired(held.value, defaultTtl, now) then None else held
  }

  /** The life of a backend, from the events alone. */
  function LifeOf(start: Option<Details>, events: seq<Event>, port: nat, b: Backend): Option<Details> {
    if events == [] then start
    else Lived(LifeOf(start, events[..|events| - 1], port, b), events[|events| - 1], port, b)
  }

  function Held(t: Table, port: nat, b: Backend): Option<Details> {
    if Has(t, port, b) then Some(t[port][b]) else None
  }

  lemma StepLived(t: Table, ev: Event, t': Table, updates: seq<RS.Update>, port: nat, b: Backend)
    requires NoEmpty(t) && Step(t, ev, t', updates)
    ensures NoEmpty(t') && Held(t', port, b) == Lived(Held(t, port, b), ev, port, b)
  {
    hide Expired, SucceededBy, SameOrSucceededBy;
    StepAnnounces(t, ev, t', updates, port, b);
    match ev
    case Upsert(p, info, now) =>
    case Delete(p, info) => if Deletes(t, p, info) && b != info.backend && Has(t, p, b) { assert b in t[p] - {info.backend}; }
    case Prune(defaultTtl, now) => PrunedMeaning(t, defaultTtl, now, port, b);
  }

  // ---------------------------------------------------------------------------------
  // Runs

  ghost predicate IsRun(tables: seq<Table>, events: seq<Event>, updates: seq<seq<RS.Update>>) {
    && |tables| == |events| + 1 && |updates| == |events| && NoEmpty(tables[0])
    && forall k | 0 <= k < |events| :: Step(tables[k], events[k], tables[k + 1], updates[k])
  }

  /** At every point of every run the table is exactly the lives of all backends so far. */
  lemma {:induction false} TableIsItsLives(tables: seq<Table>, events: seq<Event>, updates: seq<seq<RS.Update>>, k: nat,
                                           port: nat, b: Backend)
    requires IsRun(tables, events, updates) && k <= |events|
    ensures NoEmpty(tables[k]) && Held(tables[k], port, b) == LifeOf(Held(tables[0], port, b), events[..k], port, b)
  {
    hide Step, Lived, NoEmpty, Held;
    if k > 0 {
      TableIsItsLives(tables, events, updates, k - 1, port, b);
      StepLived(tables[k - 1], events[k - 1], tables[k], updates[k - 1], port, b);
      assert events[..k][..k - 1] == events[..k - 1];
    }
  }

  /** After event `j` nothing concerns the backend, and no pruning finds those details expired. */
  ghost predicate LastWord(events: seq<Event>, j: nat, d: Details, port: nat, b: Backend) {
    && j < |events| && Concerns(events[j], port, b)
    && forall k | j < k < |events| ::
         !Concerns(events[k], port, b) && (events[k].Prune? ==> !Expired(d, events[k].defaultTtl, events[k].now))
  }

  /**
   An upsert without a version is always taken: whatever came before, the table then holds its tag,
   its lifetime and its time.
   */
  lemma {:induction false} UnversionedRenews(start: Option<Details>, events: seq<Event>, j: nat, port: nat, b: Backend)
    requires j < |events| && events[j].Upsert? && events[j].info.tag.guid == ""
    requires LastWord(events, j, Details(events[j].info.tag, events[j].info.ttl, events[j].now), port, b)
    ensures LifeOf(start, events, port, b) == Some(Details(events[j].info.tag, events[j].info.ttl, events[j].now))
  {
    hide Expired;
    var n := |events| - 1;
    if j < n {
      var front := events[..n];
      assert forall k | 0 <= k < n :: front[k] == events[k];
      UnversionedRenews(start, front, j, port, b);
    }
  }

  /** Upserts of one guid, in whatever order: the greatest index is held, with the details it came with. */
  lemma {:induction false} NewestUpsertHeld(start: Option<Details>, events: seq<Event>, port: nat, b: Backend, guid: string)
    requires guid != "" && (start.Some? ==> start.value.tag.guid != guid)
    requires forall k | 0 <= k < |events| && Concerns(events[k], port, b) :: events[k].Upsert? && events[k].info.tag.guid == guid
    requires forall k | 0 <= k < |events| :: !events[k].Prune?
    requires exists k :: 0 <= k < |events| && Concerns(events[k], port, b)
    ensures exists k :: 0 <= k < |events| && Concerns(events[k], port, b)
                        && LifeOf(start, events, port, b) == Some(Details(events[k].info.tag, events[k].info.ttl, events[k].now))
                        && forall j | 0 <= j < |events| && Concerns(events[j], port, b) ::
                             events[j].info.tag.index <= events[k].info.tag.index
  {
    var n := |events| - 1;
    var front, ev := events[..n], events[n];
    assert forall k | 0 <= k < n :: front[k] == events[k];
    if exists k :: 0 <= k < n && Concerns(front[k], port, b) {
      NewestUpsertHeld(start, front, port, b, guid);
      var k :| 0 <= k < n && Concerns(front[k], port, b)
               && LifeOf(start, front, port, b) == Some(Details(front[k].info.tag, front[k].info.ttl, front[k].now))
               && forall j | 0 <= j < n && Concerns(front[j], port, b) :: front[j].info.tag.index <= front[k].info.tag.index;
      var w := if Concerns(ev, port, b) && events[k].info.tag.index < ev.info.tag.index then n else k;
      assert Concerns(events[w], port, b);
    } else {
      NoConcern(start, front, port, b);
      assert Concerns(ev, port, b);
    }
  }

  lemma {:induction false} NoConcern(start: Option<Details>, events: seq<Event>, port: nat, b: Backend)
    requires forall k | 0 <= k < |events| :: !Concerns(events[k], port, b) && !events[k].Prune?
    ensures LifeOf(start, events, port, b) == start
  {
    if events != [] {
      var front := events[..|events| - 1];
      assert forall k | 0 <= k < |front| :: front[k] == events[k];
      NoConcern(start, front, port, b);
    }
  }
}
