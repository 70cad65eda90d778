/** Safety of the router over whole runs. */
module RouterRuns {
  import opened Wrappers
  import opened Text
  import opened Uris
  import opened AddressSpace
  import opened Allocators
  import opened Members
  import opened RouterSpec
  import opened RouterFacts
  import opened Uniqueness

  // ---------------------------------------------------------------------------------
  // Every update is defined in every state

  lemma AddPoolNonEmpty(pools: Pools, n: Name, p: PoolValue)
    requires NonEmpty(pools) && p.members != [] && AllEnabled(p.members)
    ensures NonEmpty(AddPool(pools, n, p))
  {
  }

  lemma ShrunkNonEmpty(pools: Pools, n: Name, ms: seq<Member>)
    requires NonEmpty(pools) && n in pools && AllEnabled(ms)
    ensures NonEmpty(Shrunk(pools, n, ms))
  {
  }

  lemma AmongEnabled(ms: seq<Member>, rest: seq<Member>)
    requires AllEnabled(ms) && forall m :: m in rest ==> m in ms
    ensures AllEnabled(rest)
  {
    forall k | 0 <= k < |rest| ensures rest[k].session == ENABLED { assert rest[k] in rest; }
  }

  lemma RemovedEnabled(ms: seq<Member>, x: Member)
    requires AllEnabled(ms)
    ensures AllEnabled(Removed(ms, x)) && AllEnabled(SelfRemoved(ms))
  {
    hide Removed, SelfRemoved;
    RemovedAmong(ms, x);
    AmongEnabled(ms, Removed(ms, x));
    AmongEnabled(ms, SelfRemoved(ms));
  }

  lemma AddReady(cfg: Config, s: State, uri: string, address: string, port: int, app: string)
    requires Ready(cfg, s)
    ensures Ready(cfg, HttpAdd(cfg, s, uri, address, port, app))
  {
    hide Assign, UriString, Capacity, MakeDescription, NonEmpty, Accepted, AddPool, NewPool, NewVirtual, NewMonitors,
         AddVirtual;
    var n := NameOf(uri);
    AssignFrame(cfg.block, s, n);
    var r := Assign(cfg.block, s, n).0;
    AddPoolNonEmpty(r.pools, n, NewPool(cfg, r.unmapped, n, Enabled(address, port), MakeDescription(UriString(uri), app)));
  }

  lemma RemoveReady(cfg: Config, s: State, n: Name, x: Member)
    requires Ready(cfg, s) && n in s.pools
    ensures NonEmpty(Shrunk(s.pools, n, Removed(s.pools[n].members, x)))
    ensures NonEmpty(Shrunk(s.pools, n, SelfRemoved(s.pools[n].members)))
  {
    hide Removed, SelfRemoved, Shrunk;
    RemovedEnabled(s.pools[n].members, x);
    ShrunkNonEmpty(s.pools, n, Removed(s.pools[n].members, x));
    ShrunkNonEmpty(s.pools, n, SelfRemoved(s.pools[n].members));
  }

  lemma UnbindReady(cfg: Config, s: State, uri: string)
    requires Ready(cfg, s)
    ensures Ready(cfg, HttpUnbind(cfg, s, uri))
  {
    hide UriString, Capacity, SelfRemoved, Shrunk, AddPool;
    var n := NameOf(uri);
    if Mapped(s, n) {
      var p := s.pools[n];
      RemoveReady(cfg, s, n, BLANK);
      AddPoolNonEmpty(Shrunk(s.pools, n, SelfRemoved(p.members)), n,
                      PoolValue(cfg.balance, p.members, cfg.monitorNames, p.description));
    }
  }

  lemma BindReady(cfg: Config, s: State, uri: string, plan: Option<Plan>)
    requires Ready(cfg, s)
    ensures Ready(cfg, HttpBind(s, uri, plan))
  {
    hide UriString, Capacity;
  }

  lemma RemoveRouteReady(cfg: Config, s: State, uri: string, address: string, port: int)
    requires Ready(cfg, s)
    ensures Ready(cfg, HttpRemove(s, uri, address, port))
  {
    hide UriString, Capacity, Removed, Shrunk, Accepted, SelfRemoved;
    if NameOf(uri) in s.pools { RemoveReady(cfg, s, NameOf(uri), Enabled(address, port)); }
  }

  lemma TcpAddReady(cfg: Config, s: State, route: nat, address: string, port: int)
    requires Ready(cfg, s)
    ensures Ready(cfg, TcpAdd(cfg, s, route, address, port))
  {
    hide Capacity, AddPool;
    AddPoolNonEmpty(s.pools, Tcp(route), TcpPool(cfg, route, address, port));
  }

  lemma TcpRemoveReady(cfg: Config, s: State, route: nat, address: string, port: int)
    requires Ready(cfg, s)
    ensures Ready(cfg, TcpRemove(s, route, address, port))
  {
    hide Capacity, Removed, Shrunk, SelfRemoved;
    if Tcp(route) in s.pools { RemoveReady(cfg, s, Tcp(route), Enabled(address, port)); }
  }

  /** So every update can follow every update. */
  lemma StepReady(cfg: Config, s: State, u: Update, s': State)
    requires Ready(cfg, s) && Next(cfg, s, u, s')
    ensures Ready(cfg, s')
  {
    hide HttpAdd, HttpRemove, HttpBind, HttpUnbind, TcpAdd, TcpRemove, Capacity, NonEmpty, Lists;
    match u
    case AddRoute(uri, address, port, app) => AddReady(cfg, s, uri, address, port, app);
    case RemoveRoute(uri, address, port) => RemoveRouteReady(cfg, s, uri, address, port);
    case BindRoute(uri, plan) => BindReady(cfg, s, uri, plan);
    case UnbindRoute(uri) => UnbindReady(cfg, s, uri);
    case AddTcp(route, address, port) => TcpAddReady(cfg, s, route, address, port);
    case RemoveTcp(route, address, port) => TcpRemoveReady(cfg, s, route, address, port);
    case FirstDrain =>
  }

  // ---------------------------------------------------------------------------------
  // Runs

  ghost predicate IsRun(cfg: Config, states: seq<State>, updates: seq<Update>) {
    && |states| == |updates| + 1 && Ready(cfg, states[0])
    && forall i | 0 <= i < |updates| :: Ready(cfg, states[i]) && Next(cfg, states[i], updates[i], states[i + 1])
  }

  ghost predicate RegularRun(states: seq<State>, updates: seq<Update>)
    requires |states| == |updates| + 1
  {
    forall i | 0 <= i < |updates| :: Regular(states[i], updates[i])
  }

  /**
   Over every run pools, rules and virtuals agree and every virtual has its record, as long as
   every update is regular; and the first update that is not breaks it.
   */
  lemma {:induction false} RunExact(cfg: Config, states: seq<State>, updates: seq<Update>, i: nat)
    requires IsRun(cfg, states, updates) && Coherent(states[0]) && i <= |updates|
    ensures (forall j | 0 <= j <= i :: Coherent(states[j])) <==> forall j | 0 <= j < i :: Regular(states[j], updates[j])
  {
    hide Coherent, Regular, Next, Ready;
    if i > 0 {
      RunExact(cfg, states, updates, i - 1);
      if Coherent(states[i - 1]) { StepExact(cfg, states[i - 1], updates[i - 1], states[i]); }
    }
  }

  lemma RunCoherent(cfg: Config, states: seq<State>, updates: seq<Update>, i: nat)
    requires IsRun(cfg, states, updates) && RegularRun(states, updates) && Coherent(states[0]) && i <= |updates|
    ensures Coherent(states[i])
  {
    hide Coherent, Regular, Next, Ready;
    RunExact(cfg, states, updates, i);
  }

  /** Every run keeps the state sound, regular or not. */
  lemma {:induction false} RunSound(cfg: Config, states: seq<State>, updates: seq<Update>, i: nat)
    requires IsRun(cfg, states, updates) && Sound(states[0]) && i <= |updates|
    ensures Sound(states[i])
  {
    hide Sound, Next, Ready;
    if i > 0 {
      RunSound(cfg, states, updates, i - 1);
      StepSound(cfg, states[i - 1], updates[i - 1], states[i]);
    }
  }

  /** A route added as u and as u + "/" and then removed as u leaves the rule u + "/" behind. */
  lemma SlashRuleLingers(cfg: Config, s: State, u: string, m: Member)
    requires Ready(cfg, s) && Coherent(s) && UriString(u) == u && u in s.rules && Accepted(u, m.address)
    requires Http(u) in s.pools && s.pools[Http(u)].members == [m]
    requires !Crashes(cfg, s, AddRoute(u + "/", m.address, m.port, ""))
    ensures var r := HttpAdd(cfg, s, u + "/", m.address, m.port, "");
            Coherent(r) && !Coherent(HttpRemove(r, u, m.address, m.port))
  {
    hide Capacity, NonEmpty, Coherent, UriString, Spellings, Accepted, HttpAdd, HttpRemove, Crashes;
    var r := HttpAdd(cfg, s, u + "/", m.address, m.port, "");
    AddCoherent(cfg, s, u + "/", m.address, m.port, "");
    SlashAdded(cfg, s, u, m);
    RemoveCoherent(r, u, m.address, m.port);
    assert u + "/" in Spellings(r, Http(u)) && u + "/" != u by { SlashSpelled(r, u); }
  }

  lemma SlashSpelled(s: State, u: string)
    requires u + "/" in s.rules && UriString(u) == u
    ensures u + "/" in Spellings(s, Http(u)) && u + "/" != u
  {
    SlashOff(u);
    assert |u + "/"| == |u| + 1;
  }

  lemma SlashAdded(cfg: Config, s: State, u: string, m: Member)
    requires Ready(cfg, s) && Coherent(s) && UriString(u) == u && u in s.rules && Accepted(u, m.address)
    requires Http(u) in s.pools && s.pools[Http(u)].members == [m]
    requires !Crashes(cfg, s, AddRoute(u + "/", m.address, m.port, ""))
    ensures var r := HttpAdd(cfg, s, u + "/", m.address, m.port, "");
            && m == Enabled(m.address, m.port) && r.pools == s.pools && u + "/" in r.rules
  {
    hide NewPool, NewVirtual, NewMonitors, MakeDescription, Rulable, Nameable, Count, UriString, Destined, Spelled;
    SlashOff(u);
    assert GoodPool(Http(u), s.pools[Http(u)]);
    assert s.pools[Http(u)].members[0] == m && m.session == ENABLED;
    assert '*' !in UriString(u);
    assert m in s.pools[Http(u)].members;
  }

  lemma SlashOff(u: string)
    ensures UriString(u + "/") == u
  {
    assert (u + "/")[|u|..] == "/" && (u + "/")[..|u|] == u;
  }

  /** A route that stays live keeps its destination. */
  lemma {:induction false} DestinationStable(cfg: Config, states: seq<State>, updates: seq<Update>, n: Name, i: nat, j: nat)
    requires IsRun(cfg, states, updates) && i <= j <= |updates|
    requires forall k | i <= k <= j :: n in states[k].virtuals
    ensures states[j].virtuals[n].destination == states[i].virtuals[n].destination
  {
    hide Next, Ready;
    if i < j {
      DestinationStable(cfg, states, updates, n, i, j - 1);
      DestinationKept(cfg, states[j - 1], updates[j - 1], states[j], n);
    }
  }

  // ---------------------------------------------------------------------------------
  // After the first drain

  lemma AddTidy(cfg: Config, s: State, uri: string, address: string, port: int, app: string)
    requires Ready(cfg, s) && Tidy(s)
    ensures Tidy(HttpAdd(cfg, s, uri, address, port, app))
  {
    hide Installed, UriString, Capacity, MakeDescription, NonEmpty, Accepted, FirstFree, Nth, TakeFirst;
    var n := NameOf(uri);
    AssignFrame(cfg.block, s, n);
    var (r, d) := Assign(cfg.block, s, n);
    if d.Some? { InstalledVirtuals(cfg, r, uri, Enabled(address, port), MakeDescription(UriString(uri), app), d.value); }
  }

  lemma StepTidy(cfg: Config, s: State, u: Update, s': State)
    requires Ready(cfg, s) && Sound(s) && Tidy(s) && Next(cfg, s, u, s')
    ensures Tidy(s')
  {
    hide HttpAdd, HttpUnbind, UriString, Capacity, Removed, Shrunk, AddPool, Accepted, Lists, Sound, NonEmpty,
         PlannedPool, PlannedVirtual, WithMonitors;
    match u
    case AddRoute(uri, address, port, app) => AddTidy(cfg, s, uri, address, port, app);
    case UnbindRoute(uri) => UnbindQuiet(cfg, s, uri);
    case _ =>
  }

  /** From the first drain on, the HTTP records are exactly those of live virtuals. */
  lemma {:induction false} RecordsAreLive(cfg: Config, states: seq<State>, updates: seq<Update>, d: nat, i: nat, n: Name)
    requires IsRun(cfg, states, updates) && Sound(states[0])
    requires d < i <= |updates| && updates[d].FirstDrain? && n.Http?
    ensures Tidy(states[i]) && (n in states[i].dataGroup <==> n in states[i].virtuals)
  {
    hide Next, Ready, Described;
    RunSound(cfg, states, updates, i - 1);
    RunSound(cfg, states, updates, i);
    if i == d + 1 {
      DrainTidies(cfg, states[d], states[i]);
    } else {
      RecordsAreLive(cfg, states, updates, d, i - 1, n);
      StepTidy(cfg, states[i - 1], updates[i - 1], states[i]);
    }
  }

  lemma DrainTidies(cfg: Config, s: State, s': State)
    requires Ready(cfg, s) && Sound(s) && Next(cfg, s, FirstDrain, s')
    ensures Tidy(s')
  {
    hide Lists, Described;
  }

  // ---------------------------------------------------------------------------------
  // No two live routes share an address

  lemma StepPartitioned(cfg: Config, s: State, u: Update, s': State)
    requires Ready(cfg, s) && Partitioned(s) && Next(cfg, s, u, s') && (u.FirstDrain? ==> SafeDrain(s))
    ensures Partitioned(s')
  {
    hide HttpAdd, HttpRemove, HttpBind, HttpUnbind, TcpAdd, TcpRemove, Divided, Truncated, Ready;
    match u
    case AddRoute(uri, address, port, app) => AddPartitioned(cfg, s, uri, address, port, app);
    case RemoveRoute(uri, address, port) => RemovePartitioned(s, uri, address, port);
    case FirstDrain => DrainExact(s, s');
    case _ => OthersPartitioned(cfg, s, u, s');
  }

  /** The first drain comes at index `d`, if it has come. */
  predicate DrainsAt(updates: seq<Update>, d: nat) {
    forall i | 0 <= i < |updates| :: updates[i].FirstDrain? <==> i == d
  }

  /** No HTTP route is removed before index `d`. */
  predicate NoRemovalBefore(updates: seq<Update>, d: nat) {
    forall i | 0 <= i < |updates| && i < d :: !updates[i].RemoveRoute?
  }

  lemma StepQuiet(cfg: Config, s: State, u: Update, s': State)
    requires Ready(cfg, s) && Sound(s) && Next(cfg, s, u, s') && s.reaped == [] && !u.RemoveRoute? && !u.FirstDrain?
    ensures s'.reaped == []
    ensures forall n | n in s.dataGroup :: n in s'.dataGroup && s'.dataGroup[n] == s.dataGroup[n]
    ensures forall n | n in s'.dataGroup && n !in s.dataGroup :: n in s'.virtuals && n.Http?
    ensures forall n | n in s.virtuals && n.Http? :: n in s'.virtuals
  {
    hide HttpAdd, HttpUnbind, UriString, Capacity, Removed, Shrunk, AddPool, Accepted, Sound, NonEmpty,
         PlannedPool, PlannedVirtual, WithMonitors;
    match u
    case AddRoute(uri, address, port, app) => AddQuiet(cfg, s, uri, address, port, app);
    case UnbindRoute(uri) => UnbindQuiet(cfg, s, uri);
    case _ =>
  }

  /** Unbinding leaves every virtual in place. */
  lemma UnbindQuiet(cfg: Config, s: State, uri: string)
    requires Ready(cfg, s) && Sound(s)
    ensures var r := HttpUnbind(cfg, s, uri);
            r.virtuals.Keys == s.virtuals.Keys && r.dataGroup == s.dataGroup && r.reaped == s.reaped
  {
    hide UriString, Capacity, SelfRemoved, Shrunk, AddPool, Sound;
    UnbindSound(cfg, s, uri);
  }

  lemma AddQuiet(cfg: Config, s: State, uri: string, address: string, port: int, app: string)
    requires Ready(cfg, s) && s.reaped == []
    ensures var s' := HttpAdd(cfg, s, uri, address, port, app);
            && s'.reaped == []
            && (forall n | n in s.dataGroup :: n in s'.dataGroup && s'.dataGroup[n] == s.dataGroup[n])
            && (forall n | n in s'.dataGroup && n !in s.dataGroup :: n in s'.virtuals && n.Http?)
            && (forall n | n in s.virtuals :: n in s'.virtuals)
  {
    hide Installed, UriString, Capacity, MakeDescription, NonEmpty, Accepted, FirstFree, Nth;
    var n := NameOf(uri);
    AssignFrame(cfg.block, s, n);
    var (r, d) := Assign(cfg.block, s, n);
    if d.Some? { InstalledVirtuals(cfg, r, uri, Enabled(address, port), MakeDescription(UriString(uri), app), d.value); }
  }

  /** Until a removal or the first drain nothing is reaped and every new record is live. */
  lemma {:induction false} QuietUntil(cfg: Config, states: seq<State>, updates: seq<Update>, d: nat, i: nat)
    requires IsRun(cfg, states, updates) && Sound(states[0]) && states[0].reaped == []
    requires i <= |updates| && i <= d && DrainsAt(updates, d) && NoRemovalBefore(updates, d)
    ensures states[i].reaped == []
    ensures forall n | n in states[0].dataGroup :: n in states[i].dataGroup && states[i].dataGroup[n] == states[0].dataGroup[n]
    ensures forall n | n in states[i].dataGroup && n !in states[0].dataGroup :: n in states[i].virtuals && n.Http?
  {
    hide Next, Ready, Sound;
    if i > 0 {
      QuietUntil(cfg, states, updates, d, i - 1);
      RunSound(cfg, states, updates, i - 1);
      StepQuiet(cfg, states[i - 1], updates[i - 1], states[i]);
    }
  }

  /**
   On every run in which no route is removed before the first drain and every record the
   controller started with has a live route at that drain, the used addresses are always the
   disjoint union of the recorded and the reaped ones.
   */
  lemma {:induction false} RunPartitioned(cfg: Config, states: seq<State>, updates: seq<Update>, d: nat, i: nat)
    requires IsRun(cfg, states, updates) && i <= |updates|
    requires Sound(states[0]) && Partitioned(states[0]) && states[0].reaped == []
    requires DrainsAt(updates, d) && NoRemovalBefore(updates, d)
    requires d < |updates| ==> states[0].dataGroup.Keys <= states[d].virtuals.Keys
    ensures Partitioned(states[i])
  {
    hide Next, Ready, Sound, Partitioned;
    if i > 0 {
      RunPartitioned(cfg, states, updates, d, i - 1);
      if i - 1 == d { QuietUntil(cfg, states, updates, d, d); }
      StepPartitioned(cfg, states[i - 1], updates[i - 1], states[i]);
    }
  }

  /** So no two live tier-2 virtuals ever share a destination. */
  lemma NoSharedAddress(cfg: Config, states: seq<State>, updates: seq<Update>, d: nat, i: nat, m: Name, n: Name)
    requires IsRun(cfg, states, updates) && i <= |updates|
    requires Sound(states[0]) && Partitioned(states[0]) && states[0].reaped == []
    requires DrainsAt(updates, d) && NoRemovalBefore(updates, d)
    requires d < |updates| ==> states[0].dataGroup.Keys <= states[d].virtuals.Keys
    requires m in states[i].virtuals && n in states[i].virtuals && m != n
    ensures states[i].virtuals[m].destination != states[i].virtuals[n].destination
  {
    hide Next, Ready, Described, Destined, Partitioned, DrainsAt, NoRemovalBefore;
    RunPartitioned(cfg, states, updates, d, i);
    RunSound(cfg, states, updates, i);
    DestinationsDiffer(states[i], m, n);
  }

  // ---------------------------------------------------------------------------------
  // No address is ever lost

  /** Used addresses are divided and the cursor has passed only used ones. */
  ghost predicate Accounted(b: Block, s: State) { Partitioned(s) && Filled(b, s) }

  lemma AddFilled(cfg: Config, s: State, uri: string, address: string, port: int, app: string)
    requires Ready(cfg, s) && Filled(cfg.block, s)
    ensures Filled(cfg.block, HttpAdd(cfg, s, uri, address, port, app))
  {
    hide Assign, Installed, UriString, Capacity, MakeDescription, NonEmpty, Accepted, Nth;
    var n := NameOf(uri);
    AssignFrame(cfg.block, s, n);
    AssignFilled(cfg.block, s, n);
    var (r, d) := Assign(cfg.block, s, n);
    if d.Some? { InstalledVirtuals(cfg, r, uri, Enabled(address, port), MakeDescription(UriString(uri), app), d.value); }
  }

  /** Every update keeps the account, the first drain if it is harmless. */
  lemma StepAccounted(cfg: Config, s: State, u: Update, s': State)
    requires Ready(cfg, s) && Accounted(cfg.block, s) && Next(cfg, s, u, s') && (u.FirstDrain? ==> SafeDrain(s))
    ensures Accounted(cfg.block, s')
  {
    hide HttpAdd, HttpBind, HttpUnbind, TcpAdd, TcpRemove, Partitioned, Capacity, Nth, NonEmpty, Crashes, UriString,
         Removed, Shrunk, Accepted, RemoveRule, LiveRecords, Lists;
    StepPartitioned(cfg, s, u, s');
    match u
    case AddRoute(uri, address, port, app) => AddFilled(cfg, s, uri, address, port, app);
    case RemoveRoute(uri, address, port) => RemoveFrame(s, uri, address, port);
    case FirstDrain => DrainSafe(s, s');
    case _ => OthersPartitioned(cfg, s, u, s');
  }

  lemma RemoveFrame(s: State, uri: string, address: string, port: int)
    ensures var r := HttpRemove(s, uri, address, port); r.used == s.used && r.cursor == s.cursor
  {
    hide UriString, Removed, Shrunk, Accepted;
  }

  /** On every run with a harmless first drain every address that the cursor has passed is recorded or reaped. */
  lemma {:induction false} RunAccounted(cfg: Config, states: seq<State>, updates: seq<Update>, i: nat)
    requires IsRun(cfg, states, updates) && i <= |updates| && Accounted(cfg.block, states[0])
    requires forall j | 0 <= j < |updates| && updates[j].FirstDrain? :: SafeDrain(states[j])
    ensures Accounted(cfg.block, states[i])
  {
    hide Next, Ready, Accounted;
    if i > 0 {
      RunAccounted(cfg, states, updates, i - 1);
      StepAccounted(cfg, states[i - 1], updates[i - 1], states[i]);
    }
  }

  /**
   So over such a run no address is ever lost: a route is refused exactly when it is neither live
   nor recorded, nothing is reaped and every address of the cursor is recorded, and never while
   fewer addresses are recorded than a fresh cursor can hand out.
   */
  lemma NoAddressLost(cfg: Config, states: seq<State>, updates: seq<Update>, i: nat, n: Name)
    requires IsRun(cfg, states, updates) && i <= |updates| && Accounted(cfg.block, states[0])
    requires forall j | 0 <= j < |updates| && updates[j].FirstDrain? :: SafeDrain(states[j])
    ensures var s := states[i];
            s.cursor < Capacity(cfg.block)
            && (Assign(cfg.block, s, n).1.Some? <==> HasRoom(cfg.block, s, n))
            && (|s.dataGroup| < Capacity(cfg.block) ==> Assign(cfg.block, s, n).1.Some?)
  {
    hide Next, Capacity, Nth, NonEmpty, Assign, HasRoom, Partitioned;
    RunAccounted(cfg, states, updates, i);
    AssignExact(cfg.block, states[i], n);
    if |states[i].dataGroup| < Capacity(cfg.block) { RoomByCount(cfg.block, states[i], n); }
  }

  // ---------------------------------------------------------------------------------
  // Restart

  /** Started from the cached data group alone. */
  function Booted(b: Block, records: seq<Record>): State {
    var (dataGroup, used) := Cached(b, {}, records);
    State(map[], map[], {}, {}, dataGroup, used, [], 0, map[], map[])
  }

  lemma BootedGood(cfg: Config, records: seq<Record>)
    requires ValidBlock(cfg.block) && UniqueNames(records)
    ensures var s := Booted(cfg.block, records); Ready(cfg, s) && Coherent(s) && Partitioned(s) && Filled(cfg.block, s) && s.reaped == []
  {
    CachedDivided(cfg.block, records);
  }

  /**
   After a restart, until a removal or the first drain, a cached record that was kept reserves its
   address: its route gets precisely that address and no other route does.
   */
  lemma RestartStable(cfg: Config, records: seq<Record>, states: seq<State>, updates: seq<Update>, r: nat, i: nat, n: Name)
    requires ValidBlock(cfg.block) && UniqueNames(records) && r < |records| && Kept(cfg.block, records, r)
    requires IsRun(cfg, states, updates) && i <= |updates|
    requires states[0] == Booted(cfg.block, records)
    requires DrainsAt(updates, |updates|) && NoRemovalBefore(updates, |updates|)
    requires n in states[i].virtuals
    ensures var rec := records[r];
            if n == rec.name && n.Http? then states[i].virtuals[n].destination == Internal(rec.data.value)
            else states[i].virtuals[n].destination != Internal(rec.data.value)
  {
    hide Next, Ready, Described, Booted, DrainsAt, NoRemovalBefore;
    BootedGood(cfg, records);
    CoherentSound(states[0]);
    CachedKeeps(cfg.block, records, r);
    assert states[0].dataGroup == Cached(cfg.block, {}, records).0 by { BootedRecords(cfg.block, records); }
    QuietUntil(cfg, states, updates, |updates|, i);
    RunSound(cfg, states, updates, i);
    RunPartitioned(cfg, states, updates, |updates|, i);
  }

  lemma BootedRecords(b: Block, records: seq<Record>)
    ensures Booted(b, records).dataGroup == Cached(b, {}, records).0
  {
  }
}
