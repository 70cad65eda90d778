/** The TCP routing table and the router's TCP pools, end to end. */
module TcpAgreement {
  import opened Wrappers
  import opened Text
  import opened Uris
  import opened AddressSpace
  import opened Members
  import opened RouterSpec
  import opened RouterFacts
  import opened RouterRuns
  import opened TableSpec

  predicate InPool(s: State, port: nat, b: Backend) {
    Tcp(port) in s.pools && Enabled(b.address, b.port) in s.pools[Tcp(port)].members
  }

  /** A port has a pool exactly when it has a virtual, and the pool has members, none twice. */
  ghost predicate TcpGood(s: State) {
    forall port :: && (Tcp(port) in s.pools <==> Tcp(port) in s.virtuals)
                   && (Tcp(port) in s.pools ==> GoodPool(Tcp(port), s.pools[Tcp(port)]))
  }

  /** The router's TCP pools hold exactly the table's backends. */
  ghost predicate Agree(t: Table, s: State) {
    NoEmpty(t) && TcpGood(s) && forall port, b :: Has(t, port, b) <==> InPool(s, port, b)
  }

  function MemberOf(b: Backend): Member { Enabled(b.address, b.port) }

  /** What agreement means for one port. */
  lemma AgreeMeaning(t: Table, s: State, port: nat)
    requires Agree(t, s)
    ensures port in t <==> Tcp(port) in s.pools
    ensures port in t <==> Tcp(port) in s.virtuals
    ensures port in t ==>
              && (forall m :: m in s.pools[Tcp(port)].members <==> exists b :: b in t[port] && m == MemberOf(b))
              && Distinct(s.pools[Tcp(port)].members) && t[port] != map[]
  {
    var n := Tcp(port);
    if n in s.pools {
      assert GoodPool(n, s.pools[n]);
      var ms := s.pools[n].members;
      var m := ms[0];
      assert InPool(s, port, Backend(m.address, m.port));
      assert Has(t, port, Backend(m.address, m.port));
      forall m | m in ms ensures exists b :: b in t[port] && m == MemberOf(b) {
        assert InPool(s, port, Backend(m.address, m.port));
        assert m == MemberOf(Backend(m.address, m.port));
      }
    }
    if port in t {
      var b :| b in t[port];
      assert Has(t, port, b);
      forall b | b in t[port] ensures MemberOf(b) in s.pools[n].members { assert Has(t, port, b); }
    }
  }

  // ---------------------------------------------------------------------------------
  // Delivering updates in order

  function Delivered(cfg: Config, s: State, u: Update): State {
    match u
    case AddTcp(route, address, port) => TcpAdd(cfg, s, route, address, port)
    case RemoveTcp(route, address, port) => TcpRemove(s, route, address, port)
    case _ => s
  }

  function Deliver(cfg: Config, s: State, updates: seq<Update>): State {
    if updates == [] then s
    else Delivered(cfg, Deliver(cfg, s, updates[..|updates| - 1]), updates[|updates| - 1])
  }

  lemma AddDelivered(cfg: Config, s: State, port: nat, b: Backend, p: nat, c: Backend)
    requires TcpGood(s)
    ensures var r := Delivered(cfg, s, AddOf(port, b));
            TcpGood(r) && (InPool(r, p, c) <==> InPool(s, p, c) || (p == port && c == b))
  {
    hide Decimal, TcpGood;
    TcpAddGood(cfg, s, port, b.address, b.port);
  }

  lemma TcpAddGood(cfg: Config, s: State, port: nat, address: string, memberPort: int)
    requires TcpGood(s)
    ensures TcpGood(TcpAdd(cfg, s, port, address, memberPort))
  {
    hide Decimal;
    var n, m := Tcp(port), Enabled(address, memberPort);
    if n in s.pools && m !in s.pools[n].members {
      assert GoodPool(n, s.pools[n]);
      assert s.pools[n].members + [m] == s.pools[n].members + TcpPool(cfg, port, address, memberPort).members;
    }
  }

  lemma RemoveDelivered(cfg: Config, s: State, port: nat, b: Backend, p: nat, c: Backend)
    requires TcpGood(s)
    ensures var r := Delivered(cfg, s, RemoveOf(port, b));
            TcpGood(r) && (InPool(r, p, c) <==> InPool(s, p, c) && !(p == port && c == b))
  {
    hide Removed;
    var n := Tcp(port);
    if n in s.pools {
      assert GoodPool(n, s.pools[n]);
      RemovedMembers(s.pools[n].members, Enabled(b.address, b.port));
    }
  }

  lemma {:induction false} RemovesDelivered(cfg: Config, s: State, updates: seq<Update>, p: nat, c: Backend)
    requires TcpGood(s) && forall k | 0 <= k < |updates| :: updates[k].RemoveTcp?
    ensures var r := Deliver(cfg, s, updates);
            TcpGood(r) && (InPool(r, p, c) <==> InPool(s, p, c) && RemoveOf(p, c) !in updates)
  {
    hide TcpGood, InPool, Delivered;
    if updates != [] {
      var k := |updates| - 1;
      var u := updates[k];
      RemovesDelivered(cfg, s, updates[..k], p, c);
      RemoveDelivered(cfg, Deliver(cfg, s, updates[..k]), u.route, Backend(u.address, u.port), p, c);
      assert updates == updates[..k] + [u];
    }
  }

  /** After every operation on the table, delivered in order, the two agree again. */
  lemma StepAgrees(cfg: Config, t: Table, ev: Event, t': Table, updates: seq<Update>, s: State)
    requires Agree(t, s) && Step(t, ev, t', updates)
    ensures Agree(t', Deliver(cfg, s, updates))
  {
    hide TcpGood, Step, Has, InPool;
    var r := Deliver(cfg, s, updates);
    forall p, c ensures NoEmpty(t') && TcpGood(r) && (Has(t', p, c) <==> InPool(r, p, c)) {
      StepAnnounces(t, ev, t', updates, p, c);
      StepDelivered(cfg, t, ev, t', updates, s, p, c);
    }
    assert NoEmpty(t') && TcpGood(r) by {
      StepAnnounces(t, ev, t', updates, 0, Backend("", 0));
      StepDelivered(cfg, t, ev, t', updates, s, 0, Backend("", 0));
    }
  }

  lemma StepDelivered(cfg: Config, t: Table, ev: Event, t': Table, updates: seq<Update>, s: State, p: nat, c: Backend)
    requires TcpGood(s) && Step(t, ev, t', updates)
    ensures var r := Deliver(cfg, s, updates);
            TcpGood(r) && (InPool(r, p, c) <==> (InPool(s, p, c) && RemoveOf(p, c) !in updates) || AddOf(p, c) in updates)
  {
    hide TcpGood, InPool, Delivered, Has, Upserted, Deleted, Pruned, Deletes;
    match ev
    case Upsert(port, info, now) =>
      AddDelivered(cfg, s, port, info.backend, p, c);
      DeliverFew(cfg, s, AddOf(port, info.backend));
    case Delete(port, info) =>
      RemovesDelivered(cfg, s, updates, p, c);
    case Prune(defaultTtl, now) =>
      RemovesDelivered(cfg, s, updates, p, c);
  }

  lemma DeliverFew(cfg: Config, s: State, u: Update)
    ensures Deliver(cfg, s, []) == s && Deliver(cfg, s, [u]) == Delivered(cfg, s, u)
  {
    assert [u][..0] == [];
  }

  // ---------------------------------------------------------------------------------
  // With HTTP updates in between

  predicate NotTcp(u: Update) { !u.AddTcp? && !u.RemoveTcp? }

  /** The same pool or none, and the same virtual or none, under the name. */
  predicate SameAt(s: State, r: State, n: Name) {
    && (n in r.pools <==> n in s.pools) && (n in r.pools ==> r.pools[n] == s.pools[n])
    && (n in r.virtuals <==> n in s.virtuals) && (n in r.virtuals ==> r.virtuals[n] == s.virtuals[n])
  }

  /** HTTP updates and the first drain leave the TCP pools and virtuals alone. */
  lemma HttpLeavesTcp(cfg: Config, s: State, u: Update, s': State, port: nat)
    requires Ready(cfg, s) && Next(cfg, s, u, s') && NotTcp(u)
    ensures SameAt(s, s', Tcp(port))
  {
    hide HttpAdd, HttpRemove, HttpBind, HttpUnbind, Capacity, NonEmpty, Lists, LiveRecords;
    match u
    case AddRoute(uri, address, p, app) => AddLeavesOthers(cfg, s, uri, address, p, app, Tcp(port));
    case RemoveRoute(uri, address, p) => RemoveLeavesOthers(s, uri, address, p, Tcp(port));
    case BindRoute(uri, plan) => BindLeavesOthers(s, uri, plan, Tcp(port));
    case UnbindRoute(uri) => UnbindLeavesOthers(cfg, s, uri, Tcp(port));
    case FirstDrain =>
  }

  lemma RemoveLeavesOthers(s: State, uri: string, address: string, port: int, n: Name)
    requires n != NameOf(uri)
    ensures SameAt(s, HttpRemove(s, uri, address, port), n)
  {
    hide UriString, Removed, Accepted;
  }

  lemma BindLeavesOthers(s: State, uri: string, plan: Option<Plan>, n: Name)
    requires n != NameOf(uri)
    ensures SameAt(s, HttpBind(s, uri, plan), n)
  {
    hide UriString, PlannedPool, PlannedVirtual, WithMonitors;
  }

  lemma UnbindLeavesOthers(cfg: Config, s: State, uri: string, n: Name)
    requires n != NameOf(uri) && NonEmpty(s.pools)
    ensures SameAt(s, HttpUnbind(cfg, s, uri), n)
  {
    hide UriString, SelfRemoved, AddPool;
    var m := NameOf(uri);
    if Mapped(s, m) {
      var p := s.pools[m];
      AddPoolElsewhere(Shrunk(s.pools, m, SelfRemoved(p.members)), m,
                       PoolValue(cfg.balance, p.members, cfg.monitorNames, p.description), n);
    }
  }

  lemma AddLeavesOthers(cfg: Config, s: State, uri: string, address: string, port: int, app: string, n: Name)
    requires Ready(cfg, s) && n != NameOf(uri)
    ensures SameAt(s, HttpAdd(cfg, s, uri, address, port, app), n)
  {
    hide Assign, UriString, Capacity, MakeDescription, NonEmpty, Accepted, NewPool, NewVirtual, NewMonitors, AddPool,
         Rulable;
    AssignFrame(cfg.block, s, NameOf(uri));
    var p := NewPool(cfg, s.unmapped, NameOf(uri), Enabled(address, port), MakeDescription(UriString(uri), app));
    AddPoolElsewhere(s.pools, NameOf(uri), p, n);
  }

  lemma AddPoolElsewhere(pools: Pools, m: Name, p: PoolValue, n: Name)
    requires p.members != [] && n != m
    ensures var r := AddPool(pools, m, p); (n in r <==> n in pools) && (n in r ==> r[n] == pools[n])
  {
  }

  datatype Action = OnTable(ev: Event) | OnRouter(u: Update)

  datatype System = System(table: Table, router: State)

  /** A table operation with its updates delivered, or an update that is not about TCP. */
  ghost predicate SystemNext(cfg: Config, x: System, a: Action, y: System) {
    match a
    case OnTable(ev) => exists updates ::
      Step(x.table, ev, y.table, updates) && y.router == Deliver(cfg, x.router, updates)
    case OnRouter(u) =>
      && NotTcp(u) && y.table == x.table
      && Ready(cfg, x.router) && Next(cfg, x.router, u, y.router)
  }

  lemma SystemStepAgrees(cfg: Config, x: System, a: Action, y: System)
    requires Agree(x.table, x.router) && SystemNext(cfg, x, a, y)
    ensures Agree(y.table, y.router)
  {
    hide Step, Next, Ready, Deliver;
    match a
    case OnTable(ev) =>
      var updates :| Step(x.table, ev, y.table, updates) && y.router == Deliver(cfg, x.router, updates);
      StepAgrees(cfg, x.table, ev, y.table, updates, x.router);
    case OnRouter(u) =>
      forall port ensures SameAt(x.router, y.router, Tcp(port)) { HttpLeavesTcp(cfg, x.router, u, y.router, port); }
  }

  /** End to end: over every run the TCP pools are the table's routes with the table's backends. */
  lemma {:induction false} SystemAgrees(cfg: Config, run: seq<System>, actions: seq<Action>, i: nat)
    requires |run| == |actions| + 1 && i <= |actions| && Agree(run[0].table, run[0].router)
    requires forall k | 0 <= k < |actions| :: SystemNext(cfg, run[k], actions[k], run[k + 1])
    ensures Agree(run[i].table, run[i].router)
  {
    hide Agree, SystemNext;
    if i > 0 {
      SystemAgrees(cfg, run, actions, i - 1);
      SystemStepAgrees(cfg, run[i - 1], actions[i - 1], run[i]);
    }
  }
}
