/** Snapshot reconciliation of the TCP routes (routefetcher/tcp_fetcher.go). */
module ReconcileSpec {
  import opened Wrappers
  import opened Tags
  import opened TableSpec

  /** A route of a snapshot: an external port and a backend with its version. */
  datatype Mapping = Mapping(port: nat, info: Info)

  predicate Is(m: Mapping, port: nat, b: Backend) { m.port == port && m.info.backend == b }

  /** `routeEqualsTCP`. */
  predicate SameRoute(a: Mapping, b: Mapping) { Is(a, b.port, b.info.backend) }

  predicate Occurs(m: Mapping, routes: seq<Mapping>) {
    exists k | 0 <= k < |routes| :: SameRoute(m, routes[k])
  }

  /** The routes of the last snapshot that the new one no longer has. */
  function Diff(endpoints: seq<Mapping>, routes: seq<Mapping>): seq<Mapping> {
    if endpoints == [] then []
    else
      var before, m := Diff(endpoints[..|endpoints| - 1], routes), endpoints[|endpoints| - 1];
      if Occurs(m, routes) then before else before + [m]
  }

  function DeleteAll(t: Table, routes: seq<Mapping>): Table {
    if routes == [] then t
    else
      var m := routes[|routes| - 1];
      Deleted(DeleteAll(t, routes[..|routes| - 1]), m.port, m.info)
  }

  function UpsertAll(t: Table, routes: seq<Mapping>, now: int): Table {
    if routes == [] then t
    else
      var m := routes[|routes| - 1];
      Upserted(UpsertAll(t, routes[..|routes| - 1], now), m.port, m.info, now)
  }

  /** `refreshTCPEndpoints`, on the table. */
  function Refreshed(t: Table, endpoints: seq<Mapping>, routes: seq<Mapping>, now: int): Table {
    UpsertAll(DeleteAll(t, Diff(endpoints, routes)), routes, now)
  }

  /** The tag of the last mapping of a pair, if the snapshot has the pair. */
  function LastTag(routes: seq<Mapping>, port: nat, b: Backend): Option<ModificationTag> {
    if routes == [] then None
    else if Is(routes[|routes| - 1], port, b) then Some(routes[|routes| - 1].info.tag)
    else LastTag(routes[..|routes| - 1], port, b)
  }

  /** The table holds exactly the snapshot's pairs, under their last tags. */
  ghost predicate Synced(t: Table, routes: seq<Mapping>) {
    NoEmpty(t) && forall port, b :: SyncedAt(t, routes, port, b)
  }

  predicate SyncedAt(t: Table, routes: seq<Mapping>, port: nat, b: Backend) {
    LastTag(routes, port, b) == if Has(t, port, b) then Some(t[port][b].tag) else None
  }

  /** The tags of a pair never go backwards. */
  predicate Forward(routes: seq<Mapping>) {
    forall i, j | 0 <= i < j < |routes| && SameRoute(routes[i], routes[j]) ::
      SameOrSucceededBy(routes[i].info.tag, routes[j].info.tag)
  }

  // ---------------------------------------------------------------------------------
  // Lists

  lemma {:induction false} LastTagMeaning(routes: seq<Mapping>, port: nat, b: Backend)
    ensures LastTag(routes, port, b).None? <==> forall k | 0 <= k < |routes| :: !Is(routes[k], port, b)
    ensures LastTag(routes, port, b).Some? ==>
              exists k :: 0 <= k < |routes| && Is(routes[k], port, b) && LastTag(routes, port, b) == Some(routes[k].info.tag)
  {
    if routes != [] {
      var k := |routes| - 1;
      LastTagMeaning(routes[..k], port, b);
      assert forall i | 0 <= i < k :: routes[..k][i] == routes[i];
    }
  }

  /** Dropping the pairs of the new snapshot keeps the last tag of every other pair. */
  lemma {:induction false} DiffTags(endpoints: seq<Mapping>, routes: seq<Mapping>, port: nat, b: Backend)
    ensures LastTag(Diff(endpoints, routes), port, b) ==
            if LastTag(routes, port, b).Some? then None else LastTag(endpoints, port, b)
  {
    if endpoints != [] {
      var before, m := endpoints[..|endpoints| - 1], endpoints[|endpoints| - 1];
      DiffTags(before, routes, port, b);
      LastTagMeaning(routes, port, b);
      var d := Diff(before, routes);
      assert (d + [m])[..|d|] == d;
      if Is(m, port, b) { assert Occurs(m, routes) <==> LastTag(routes, port, b).Some?; }
    }
  }

  // ---------------------------------------------------------------------------------
  // Deleting what is gone

  lemma DeletedAt(t: Table, m: Mapping, port: nat, b: Backend)
    requires NoEmpty(t)
    ensures var r := Deleted(t, m.port, m.info);
            && NoEmpty(r)
            && (Has(r, port, b) <==> Has(t, port, b) && !(Is(m, port, b) && Deletes(t, port, m.info)))
            && (Has(r, port, b) ==> r[port][b] == t[port][b])
  {
    hide SameOrSucceededBy;
    DeleteAnnounces(t, m.port, m.info, port, b);
  }

  /** A pair goes if the list has its stored tag; a pair the list does not have stays. */
  lemma {:induction false} DeleteAllAt(t: Table, routes: seq<Mapping>, port: nat, b: Backend)
    requires NoEmpty(t)
    ensures var r := DeleteAll(t, routes);
            && NoEmpty(r)
            && (Has(r, port, b) ==> Has(t, port, b) && r[port][b] == t[port][b])
            && (LastTag(routes, port, b).None? ==> (Has(r, port, b) <==> Has(t, port, b)))
            && (Has(t, port, b) && LastTag(routes, port, b) == Some(t[port][b].tag) ==> !Has(r, port, b))
  {
    hide Deleted, NoEmpty;
    if routes != [] {
      var before, m := routes[..|routes| - 1], routes[|routes| - 1];
      DeleteAllAt(t, before, port, b);
      DeletedAt(DeleteAll(t, before), m, port, b);
    }
  }

  // ---------------------------------------------------------------------------------
  // Upserting what is there

  lemma UpsertedAt(t: Table, m: Mapping, now: int, port: nat, b: Backend)
    requires NoEmpty(t)
    ensures var r := Upserted(t, m.port, m.info, now);
            && NoEmpty(r)
            && (!Is(m, port, b) ==> (Has(r, port, b) <==> Has(t, port, b)) && (Has(r, port, b) ==> r[port][b] == t[port][b]))
            && (Is(m, port, b) ==>
                  && Has(r, port, b)
                  && (r[port][b].tag == if Has(t, port, b) && !SucceededBy(t[port][b].tag, m.info.tag) then t[port][b].tag
                                        else m.info.tag))
  {
    hide SucceededBy;
    UpsertAnnounces(t, m.port, m.info, now, port, b);
  }

  /** With tags that never go backwards, the last tag is the one stored. */
  lemma {:induction false} UpsertAllAt(t: Table, routes: seq<Mapping>, now: int, port: nat, b: Backend)
    requires NoEmpty(t) && Forward(routes)
    requires Has(t, port, b) ==>
               forall k | 0 <= k < |routes| && Is(routes[k], port, b) :: SameOrSucceededBy(t[port][b].tag, routes[k].info.tag)
    ensures var r := UpsertAll(t, routes, now);
            && NoEmpty(r)
            && (Has(r, port, b) <==> Has(t, port, b) || LastTag(routes, port, b).Some?)
            && (LastTag(routes, port, b).Some? ==> LastTag(routes, port, b) == Some(r[port][b].tag))
            && (LastTag(routes, port, b).None? && Has(t, port, b) ==> r[port][b] == t[port][b])
  {
    hide Upserted, NoEmpty, SucceededBy;
    if routes != [] {
      var before, m := routes[..|routes| - 1], routes[|routes| - 1];
      UpsertAllAt(t, before, now, port, b);
      UpsertedAt(UpsertAll(t, before, now), m, now, port, b);
      LastTagMeaning(before, port, b);
    }
  }

  /** The details that a mapping of a snapshot brings. */
  function Brought(m: Mapping, now: int): Details { Details(m.info.tag, m.info.ttl, now) }

  /** The k-th mapping of the list is of the pair, and no later one is. */
  ghost predicate IsLast(routes: seq<Mapping>, port: nat, b: Backend, k: int) {
    0 <= k < |routes| && Is(routes[k], port, b) && forall j | k < j < |routes| :: !Is(routes[j], port, b)
  }

  /**
   What a pair holds was there before or came with one of its mappings, with its lifetime and the
   time of the refresh; and a last mapping without a version is always taken.
   */
  lemma {:induction false} UpsertAllBrings(t: Table, routes: seq<Mapping>, now: int, port: nat, b: Backend)
    requires NoEmpty(t)
    ensures var r := UpsertAll(t, routes, now);
            && NoEmpty(r)
            && (Has(r, port, b) ==>
                  || (Has(t, port, b) && r[port][b] == t[port][b])
                  || exists k :: 0 <= k < |routes| && Is(routes[k], port, b) && r[port][b] == Brought(routes[k], now))
            && (forall k :: IsLast(routes, port, b, k) && routes[k].info.tag.guid == "" ==>
                  Has(r, port, b) && r[port][b] == Brought(routes[k], now))
  {
    hide NoEmpty;
    if routes != [] {
      var n := |routes| - 1;
      var front, m := routes[..n], routes[n];
      UpsertAllBrings(t, front, now, port, b);
      UpsertAnnounces(UpsertAll(t, front, now), m.port, m.info, now, port, b);
      assert forall k | 0 <= k < n :: front[k] == routes[k];
      forall k | IsLast(routes, port, b, k) && k < n ensures IsLast(front, port, b, k) && front[k] == routes[k] {}
      if Is(m, port, b) {
        assert routes[n] == m;
        forall k | IsLast(routes, port, b, k) ensures k == n {}
      }
    }
  }

  /** A refresh of any table: what it stores, and that it renews whatever is listed without a version. */
  lemma RefreshRenews(t: Table, endpoints: seq<Mapping>, routes: seq<Mapping>, now: int, port: nat, b: Backend)
    requires NoEmpty(t)
    ensures var r := Refreshed(t, endpoints, routes, now);
            && (Has(r, port, b) ==>
                  || (Has(t, port, b) && r[port][b] == t[port][b])
                  || exists k :: 0 <= k < |routes| && Is(routes[k], port, b) && r[port][b] == Brought(routes[k], now))
            && (forall k :: IsLast(routes, port, b, k) && routes[k].info.tag.guid == "" ==>
                  Has(r, port, b) && r[port][b] == Brought(routes[k], now))
  {
    hide DeleteAll, UpsertAll, Diff, NoEmpty, IsLast, Brought;
    DeleteAllAt(t, Diff(endpoints, routes), port, b);
    UpsertAllBrings(DeleteAll(t, Diff(endpoints, routes)), routes, now, port, b);
  }

  // ---------------------------------------------------------------------------------
  // A refresh, with any tags

  ghost predicate Lists(routes: seq<Mapping>, port: nat, b: Backend) {
    exists k | 0 <= k < |routes| :: Is(routes[k], port, b)
  }

  /** The list has a mapping of the pair that a stored tag gives way to. */
  ghost predicate Releases(routes: seq<Mapping>, port: nat, b: Backend, tag: ModificationTag) {
    exists k | 0 <= k < |routes| :: Is(routes[k], port, b) && SameOrSucceededBy(tag, routes[k].info.tag)
  }

  /** Deleting a list takes out exactly the pairs that it releases. */
  lemma {:induction false} DeleteAllExact(t: Table, routes: seq<Mapping>, port: nat, b: Backend)
    requires NoEmpty(t)
    ensures var r := DeleteAll(t, routes);
            && NoEmpty(r)
            && (Has(r, port, b) <==> Has(t, port, b) && !Releases(routes, port, b, t[port][b].tag))
            && (Has(r, port, b) ==> r[port][b] == t[port][b])
  {
    hide Deleted, NoEmpty, SameOrSucceededBy, Releases;
    if routes != [] {
      var before, m := routes[..|routes| - 1], routes[|routes| - 1];
      DeleteAllExact(t, before, port, b);
      DeletedAt(DeleteAll(t, before), m, port, b);
      if Has(t, port, b) { ReleasesSnoc(routes, port, b, t[port][b].tag); }
    } else if Has(t, port, b) {
      ReleasesNone(port, b, t[port][b].tag);
    }
  }

  lemma ReleasesNone(port: nat, b: Backend, tag: ModificationTag)
    ensures !Releases([], port, b, tag)
  {
  }

  lemma ReleasesSnoc(routes: seq<Mapping>, port: nat, b: Backend, tag: ModificationTag)
    requires routes != []
    ensures var n := |routes| - 1;
            Releases(routes, port, b, tag) <==>
            || Releases(routes[..n], port, b, tag)
            || (Is(routes[n], port, b) && SameOrSucceededBy(tag, routes[n].info.tag))
  {
    hide SameOrSucceededBy;
    var n := |routes| - 1;
    var front := routes[..n];
    if k :| 0 <= k < n && Is(front[k], port, b) && SameOrSucceededBy(tag, front[k].info.tag) {
      assert routes[k] == front[k];
    }
    if k :| 0 <= k < |routes| && Is(routes[k], port, b) && SameOrSucceededBy(tag, routes[k].info.tag) {
      if k < n { assert front[k] == routes[k]; }
    }
  }

  /** The difference releases what the last snapshot does, for pairs that the new one does not have. */
  lemma {:induction false} DiffReleases(endpoints: seq<Mapping>, routes: seq<Mapping>, port: nat, b: Backend, tag: ModificationTag)
    ensures Releases(Diff(endpoints, routes), port, b, tag) <==>
            Releases(endpoints, port, b, tag) && !Lists(routes, port, b)
  {
    hide SameOrSucceededBy, Releases, Lists;
    if endpoints != [] {
      var before, m := endpoints[..|endpoints| - 1], endpoints[|endpoints| - 1];
      DiffReleases(before, routes, port, b, tag);
      ReleasesSnoc(endpoints, port, b, tag);
      var d := Diff(before, routes);
      ReleasesSnoc(d + [m], port, b, tag);
      assert (d + [m])[..|d|] == d;
      if Is(m, port, b) { OccursLists(m, routes); }
    } else {
      ReleasesNone(port, b, tag);
    }
  }

  lemma OccursLists(m: Mapping, routes: seq<Mapping>)
    ensures Occurs(m, routes) <==> Lists(routes, m.port, m.info.backend)
  {
    if k :| 0 <= k < |routes| && SameRoute(m, routes[k]) { assert Is(routes[k], m.port, m.info.backend); }
    if k :| 0 <= k < |routes| && Is(routes[k], m.port, m.info.backend) { assert SameRoute(m, routes[k]); }
  }

  lemma {:induction false} UpsertAllExact(t: Table, routes: seq<Mapping>, now: int, port: nat, b: Backend)
    requires NoEmpty(t)
    ensures var r := UpsertAll(t, routes, now);
            NoEmpty(r) && (Has(r, port, b) <==> Has(t, port, b) || Lists(routes, port, b))
  {
    hide Upserted, NoEmpty, Lists, SucceededBy;
    if routes != [] {
      var n := |routes| - 1;
      UpsertAllExact(t, routes[..n], now, port, b);
      UpsertedAt(UpsertAll(t, routes[..n], now), routes[n], now, port, b);
      ListsSnoc(routes, port, b);
    } else {
      ListsNone(port, b);
    }
  }

  lemma ListsNone(port: nat, b: Backend)
    ensures !Lists([], port, b)
  {
  }

  lemma ListsSnoc(routes: seq<Mapping>, port: nat, b: Backend)
    requires routes != []
    ensures var n := |routes| - 1;
            Lists(routes, port, b) <==> Lists(routes[..n], port, b) || Is(routes[n], port, b)
  {
    var n := |routes| - 1;
    var front := routes[..n];
    if k :| 0 <= k < n && Is(front[k], port, b) { assert routes[k] == front[k]; }
    if k :| 0 <= k < |routes| && Is(routes[k], port, b) { if k < n { assert front[k] == routes[k]; } }
  }

  /** What a refresh leaves of one pair, in any table and with any tags. */
  lemma RefreshedAt(t: Table, endpoints: seq<Mapping>, routes: seq<Mapping>, now: int, port: nat, b: Backend)
    requires NoEmpty(t)
    ensures var r := Refreshed(t, endpoints, routes, now);
            && NoEmpty(r)
            && (Has(r, port, b) <==>
                Lists(routes, port, b) || (Has(t, port, b) && !Releases(endpoints, port, b, t[port][b].tag)))
  {
    hide DeleteAll, UpsertAll, Diff, NoEmpty, Releases, Lists;
    var d := Diff(endpoints, routes);
    DeleteAllExact(t, d, port, b);
    if Has(t, port, b) { DiffReleases(endpoints, routes, port, b, t[port][b].tag); }
    UpsertAllExact(DeleteAll(t, d), routes, now, port, b);
  }

  /** The table has exactly the snapshot's pairs. */
  ghost predicate SamePairs(t: Table, routes: seq<Mapping>) {
    forall port, b :: Has(t, port, b) <==> Lists(routes, port, b)
  }

  /** Every stored pair that is gone from the new snapshot is released by the last one. */
  ghost predicate Releasable(t: Table, endpoints: seq<Mapping>, routes: seq<Mapping>) {
    forall port, b :: Has(t, port, b) && !Lists(routes, port, b) ==> Releases(endpoints, port, b, t[port][b].tag)
  }

  /** A refresh leaves exactly the new snapshot's pairs if and only if every pair that is gone is released. */
  lemma RefreshExact(t: Table, endpoints: seq<Mapping>, routes: seq<Mapping>, now: int)
    requires NoEmpty(t)
    ensures NoEmpty(Refreshed(t, endpoints, routes, now))
    ensures SamePairs(Refreshed(t, endpoints, routes, now), routes) <==> Releasable(t, endpoints, routes)
  {
    hide Refreshed, NoEmpty, Releases, Lists;
    var r := Refreshed(t, endpoints, routes, now);
    forall port, b
      ensures NoEmpty(r)
      ensures Has(r, port, b) <==>
              Lists(routes, port, b) || (Has(t, port, b) && !Releases(endpoints, port, b, t[port][b].tag))
    {
      RefreshedAt(t, endpoints, routes, now, port, b);
    }
    RefreshedAt(t, endpoints, routes, now, 0, Backend("", 0));
  }

  // ---------------------------------------------------------------------------------
  // A refresh

  /** A refresh from one snapshot to the next leaves exactly the new snapshot's pairs. */
  lemma RefreshSyncs(t: Table, endpoints: seq<Mapping>, routes: seq<Mapping>, now: int)
    requires Synced(t, endpoints) && Forward(endpoints + routes)
    ensures Synced(Refreshed(t, endpoints, routes, now), routes)
  {
    hide DeleteAll, UpsertAll, Diff, LastTag;
    var r := Refreshed(t, endpoints, routes, now);
    forall port, b ensures NoEmpty(r) && SyncedAt(r, routes, port, b) {
      RefreshSyncsAt(t, endpoints, routes, now, port, b);
    }
    assert NoEmpty(r) by { RefreshSyncsAt(t, endpoints, routes, now, 0, Backend("", 0)); }
  }

  lemma RefreshSyncsAt(t: Table, endpoints: seq<Mapping>, routes: seq<Mapping>, now: int, port: nat, b: Backend)
    requires NoEmpty(t) && SyncedAt(t, endpoints, port, b) && Forward(endpoints + routes)
    ensures NoEmpty(Refreshed(t, endpoints, routes, now)) && SyncedAt(Refreshed(t, endpoints, routes, now), routes, port, b)
  {
    hide DeleteAll, UpsertAll, Diff, LastTag, NoEmpty, SameOrSucceededBy;
    DiffTags(endpoints, routes, port, b);
    DeleteAllAt(t, Diff(endpoints, routes), port, b);
    ForwardParts(endpoints, routes, port, b);
    UpsertAllAt(DeleteAll(t, Diff(endpoints, routes)), routes, now, port, b);
  }

  lemma ForwardParts(endpoints: seq<Mapping>, routes: seq<Mapping>, port: nat, b: Backend)
    requires Forward(endpoints + routes)
    ensures Forward(routes)
    ensures LastTag(endpoints, port, b).Some? ==>
              forall k | 0 <= k < |routes| && Is(routes[k], port, b) ::
                SameOrSucceededBy(LastTag(endpoints, port, b).value, routes[k].info.tag)
  {
    hide SameOrSucceededBy, LastTag;
    var all, n := endpoints + routes, |endpoints|;
    LastTagMeaning(endpoints, port, b);
    forall i, j | 0 <= i < j < |routes| && SameRoute(routes[i], routes[j])
      ensures SameOrSucceededBy(routes[i].info.tag, routes[j].info.tag)
    {
      assert all[n + i] == routes[i] && all[n + j] == routes[j];
    }
    if LastTag(endpoints, port, b).Some? {
      var i :| 0 <= i < n && Is(endpoints[i], port, b) && LastTag(endpoints, port, b) == Some(endpoints[i].info.tag);
      forall k | 0 <= k < |routes| && Is(routes[k], port, b)
        ensures SameOrSucceededBy(LastTag(endpoints, port, b).value, routes[k].info.tag)
      {
        assert all[i] == endpoints[i] && all[n + k] == routes[k];
      }
    }
  }

  // ---------------------------------------------------------------------------------
  // Runs of refreshes

  /** The table after refreshing from every snapshot in turn, each at its time, from empty. */
  function RefreshAll(snapshots: seq<seq<Mapping>>, times: seq<int>): Table
    requires |times| == |snapshots|
  {
    if snapshots == [] then map[]
    else
      var k := |snapshots| - 1;
      Refreshed(RefreshAll(snapshots[..k], times[..k]), Latest(snapshots[..k]), snapshots[k], times[k])
  }

  function Latest(snapshots: seq<seq<Mapping>>): seq<Mapping> {
    if snapshots == [] then [] else snapshots[|snapshots| - 1]
  }

  /** From each snapshot to the next no tag goes backwards. */
  predicate AllForward(snapshots: seq<seq<Mapping>>) {
    forall k | 0 <= k < |snapshots| :: Forward(Latest(snapshots[..k]) + snapshots[k])
  }

  /** After any number of refreshes the table holds exactly the last snapshot's pairs. */
  lemma {:induction false} RefreshesSync(snapshots: seq<seq<Mapping>>, times: seq<int>)
    requires AllForward(snapshots) && |times| == |snapshots|
    ensures Synced(RefreshAll(snapshots, times), Latest(snapshots))
  {
    hide Refreshed, Forward, LastTag;
    if snapshots != [] {
      var k := |snapshots| - 1;
      var before := snapshots[..k];
      assert forall j | 0 <= j < k :: before[..j] == snapshots[..j];
      RefreshesSync(before, times[..k]);
      RefreshSyncs(RefreshAll(before, times[..k]), Latest(before), snapshots[k], times[k]);
    } else {
      forall port, b ensures SyncedAt(map[], [], port, b) { LastTagMeaning([], port, b); }
    }
  }

  /**
   Over any run of refreshes from an empty table: the table has exactly the latest snapshot's pairs
   after every refresh if and only if every refresh finds what is gone released.
   */
  lemma {:induction false} RefreshesExact(snapshots: seq<seq<Mapping>>, times: seq<int>, n: nat)
    requires |times| == |snapshots| && n <= |snapshots|
    ensures NoEmpty(RefreshAll(snapshots[..n], times[..n]))
    ensures (forall k | 0 <= k <= n :: SamePairs(RefreshAll(snapshots[..k], times[..k]), Latest(snapshots[..k])))
            <==> forall k | 0 <= k < n ::
                   Releasable(RefreshAll(snapshots[..k], times[..k]), Latest(snapshots[..k]), snapshots[k])
  {
    hide Refreshed, SamePairs, Releasable, NoEmpty, RefreshAll, Latest;
    if n > 0 {
      RefreshesExact(snapshots, times, n - 1);
      RefreshUnfold(snapshots, times, n);
      RefreshExact(RefreshAll(snapshots[..n - 1], times[..n - 1]), Latest(snapshots[..n - 1]), snapshots[n - 1], times[n - 1]);
    } else {
      Nothing();
      assert snapshots[..0] == [] && times[..0] == [];
    }
  }

  lemma Nothing()
    ensures RefreshAll([], []) == map[] && Latest([]) == [] && NoEmpty(map[]) && SamePairs(map[], [])
  {
    forall port, b ensures !Lists([], port, b) { ListsNone(port, b); }
  }

  lemma RefreshUnfold(snapshots: seq<seq<Mapping>>, times: seq<int>, n: nat)
    requires |times| == |snapshots| && 0 < n <= |snapshots|
    ensures RefreshAll(snapshots[..n], times[..n]) ==
            Refreshed(RefreshAll(snapshots[..n - 1], times[..n - 1]), Latest(snapshots[..n - 1]), snapshots[n - 1], times[n - 1])
    ensures Latest(snapshots[..n]) == snapshots[n - 1]
  {
    assert snapshots[..n][..n - 1] == snapshots[..n - 1] && times[..n][..n - 1] == times[..n - 1];
  }

  /** What that says of one pair. */
  lemma RefreshedPairs(snapshots: seq<seq<Mapping>>, times: seq<int>, port: nat, b: Backend)
    requires AllForward(snapshots) && |times| == |snapshots|
    ensures Has(RefreshAll(snapshots, times), port, b) <==>
            exists k :: 0 <= k < |Latest(snapshots)| && Is(Latest(snapshots)[k], port, b)
  {
    hide RefreshAll, LastTag, AllForward, Latest;
    RefreshesSync(snapshots, times);
    LastTagMeaning(Latest(snapshots), port, b);
    assert SyncedAt(RefreshAll(snapshots, times), Latest(snapshots), port, b);
  }

  /** A tag that goes backwards leaves the pair behind when the route disappears. */
  lemma BackwardsTagLingers(port: nat, b: Backend, guid: string, now: int)
    requires guid != ""
    ensures var newer := Mapping(port, Info(b, ModificationTag(guid, 5), 0));
            var older := Mapping(port, Info(b, ModificationTag(guid, 3), 0));
            Has(Refreshed(Refreshed(Refreshed(map[], [], [newer], now), [newer], [older], now), [older], [], now), port, b)
  {
    var newer := Mapping(port, Info(b, ModificationTag(guid, 5), 0));
    var older := Mapping(port, Info(b, ModificationTag(guid, 3), 0));
    var t: Table := map[port := map[b := Details(newer.info.tag, 0, now)]];
    One(map[], newer, now);
    assert Upserted(map[], port, newer.info, now) == t;
    assert Refreshed(map[], [], [newer], now) == t;
    One(t, newer, now);
    One(t, older, now);
    assert SameRoute(newer, [older][0]);
    assert Diff([newer], [older]) == [];
    assert Refreshed(t, [newer], [older], now) == t;
    assert Diff([older], []) == [older];
    assert Refreshed(t, [older], [], now) == t;
  }

  lemma One(t: Table, m: Mapping, now: int)
    ensures UpsertAll(t, [m], now) == Upserted(t, m.port, m.info, now) && UpsertAll(t, [], now) == t
    ensures DeleteAll(t, [m]) == Deleted(t, m.port, m.info) && DeleteAll(t, []) == t
    ensures [m][..0] == []
  {
    assert [m][..0] == [];
  }
}

/** `TCPFetcher`. */
module TcpFetchers {
  import opened RouterSpec
  import opened TableSpec
  import opened RoutingTables
  import opened ReconcileSpec

  class TcpFetcher {
    const routingTable: RoutingTable
    var endpoints: seq<Mapping>

    constructor (routingTable: RoutingTable)
      ensures this.routingTable == routingTable && endpoints == []
    {
      this.routingTable, endpoints := routingTable, [];
    }

    /** `refreshTCPEndpoints`. */
    method RefreshTcpEndpoints(validRoutes: seq<Mapping>, now: int)
      modifies this`endpoints, routingTable
      ensures endpoints == validRoutes
      ensures routingTable.entries == Refreshed(old(routingTable.entries), old(endpoints), validRoutes, now)
    {
      DeleteTcpEndpoints(validRoutes);
      ghost var was := routingTable.entries;
      endpoints := validRoutes;
      var i := 0;
      while i < |endpoints|
        invariant 0 <= i <= |endpoints| && endpoints == validRoutes
        invariant routingTable.entries == UpsertAll(was, validRoutes[..i], now)
      {
        assert validRoutes[..i + 1][..i] == validRoutes[..i];
        var _ := routingTable.UpsertBackendServerKey(endpoints[i].port, endpoints[i].info, now);
        i := i + 1;
      }
      assert validRoutes[..i] == validRoutes;
    }

    /** `deleteTCPEndpoints`. */
    method DeleteTcpEndpoints(validRoutes: seq<Mapping>)
      modifies routingTable
      ensures routingTable.entries == DeleteAll(old(routingTable.entries), Diff(endpoints, validRoutes))
    {
      var diff := FindGone(validRoutes);
      var i := 0;
      while i < |diff|
        invariant 0 <= i <= |diff|
        invariant routingTable.entries == DeleteAll(old(routingTable.entries), diff[..i])
      {
        assert diff[..i + 1][..i] == diff[..i];
        var _ := routingTable.DeleteBackendServerKey(diff[i].port, diff[i].info);
        i := i + 1;
      }
      assert diff[..i] == diff;
    }

    /** The nested loops that compare the last snapshot with the new one. */
    method FindGone(validRoutes: seq<Mapping>) returns (diff: seq<Mapping>)
      ensures diff == Diff(endpoints, validRoutes)
    {
      diff := [];
      var i := 0;
      while i < |endpoints|
        invariant 0 <= i <= |endpoints| && diff == Diff(endpoints[..i], validRoutes)
      {
        assert endpoints[..i + 1][..i] == endpoints[..i];
        var found := false;
        var j := 0;
        while j < |validRoutes| && !found
          invariant 0 <= j <= |validRoutes|
          invariant found <==> exists k | 0 <= k < j :: SameRoute(endpoints[i], validRoutes[k])
        {
          if SameRoute(endpoints[i], validRoutes[j]) { found := true; }
          j := j + 1;
        }
        if !found { diff := diff + [endpoints[i]]; }
        i := i + 1;
      }
      assert endpoints[..i] == endpoints;
    }
  }
}
