/** What service plans make of a route, over every run. */
module RouterPlans {
  import opened Wrappers
  import opened Text
  import opened Uris
  import opened AddressSpace
  import opened Members
  import opened RouterSpec
  import opened RouterFacts
  import opened RouterRuns
  import opened TcpAgreement

  // ---------------------------------------------------------------------------------
  // The settings that a list of plans leaves

  function BalanceOf(p: Plan): string { p.balance }

  function MonitorNamesOf(p: Plan): seq<string> { p.monitorNames }

  function ProfilesOf(p: Plan): seq<string> { p.profiles }

  function PoliciesOf(p: Plan): seq<string> { p.policies }

  /** The field of the last plan that sets it, else the default. */
  function Effective<T(==)>(default: seq<T>, plans: seq<Plan>, field: Plan -> seq<T>): seq<T> {
    if plans == [] then default
    else
      var last := field(plans[|plans| - 1]);
      if last != [] then last else Effective(default, plans[..|plans| - 1], field)
  }

  /** A value that the last plan to set the field gave it, or the default when none does. */
  ghost predicate LastSet<T>(default: seq<T>, plans: seq<Plan>, field: Plan -> seq<T>, r: seq<T>) {
    || (r == default && forall k | 0 <= k < |plans| :: field(plans[k]) == [])
    || exists k :: 0 <= k < |plans| && r == field(plans[k]) != [] && forall j | k < j < |plans| :: field(plans[j]) == []
  }

  lemma {:induction false} EffectiveMeaning<T>(default: seq<T>, plans: seq<Plan>, field: Plan -> seq<T>)
    ensures LastSet(default, plans, field, Effective(default, plans, field))
  {
    if plans != [] {
      var n := |plans| - 1;
      var front := plans[..n];
      assert forall k | 0 <= k < n :: front[k] == plans[k];
      EffectiveMeaning(default, front, field);
    }
  }

  lemma EffectiveSnoc<T>(default: seq<T>, plans: seq<Plan>, p: Plan, field: Plan -> seq<T>)
    ensures Effective(default, plans + [p], field) == if field(p) != [] then field(p) else Effective(default, plans, field)
  {
    assert (plans + [p])[..|plans|] == plans;
  }

  /** The pool of a route is that of the configuration under a list of plans. */
  predicate PoolUnder(cfg: Config, p: PoolValue, plans: seq<Plan>) {
    && p.balance == Effective(cfg.balance, plans, BalanceOf)
    && p.monitorNames == Effective(cfg.monitorNames, plans, MonitorNamesOf)
  }

  predicate VirtualUnder(cfg: Config, v: VirtualValue, plans: seq<Plan>) {
    && v.profiles == Effective(cfg.httpProfiles, plans, ProfilesOf)
    && v.policies == Effective([], plans, PoliciesOf)
  }

  // ---------------------------------------------------------------------------------
  // The history of a route

  /**
   The plan kept for when the route appears, the plans in force for its pool and for its virtual
   since it did, its monitors, and the description it appeared with.
   */
  datatype History = History(kept: Option<Plan>, pool: seq<Plan>, virtual: seq<Plan>, monitors: Option<seq<string>>,
                             description: string)

  const FRESH := History(None, [], [], None, "")

  function Listed(plan: Option<Plan>): seq<Plan> { if plan.Some? then [plan.value] else [] }

  /** The monitors after a plan: its own, or none if it names some without defining any, or those before. */
  function MonitorsUnder(monitors: Option<seq<string>>, plan: Plan): Option<seq<string>> {
    if plan.monitors != [] then Some(plan.monitors) else if plan.hasMonitors then None else monitors
  }

  /** How many members the route has; none when it is not live. */
  function Size(s: State, n: Name): nat { if Mapped(s, n) then |s.pools[n].members| else 0 }

  /**
   What one update makes of it, knowing only the number of members before and after. Every Add looks
   at the kept plan's monitors again, and an Unbind resets the pool only if it has one member.
   */
  function Recorded(h: History, u: Update, before: nat, after: nat, n: Name): History {
    match u
    case AddRoute(uri, address, port, app) =>
      if NameOf(uri) != n || !Accepted(uri, address) || after == 0 then h
      else
        var plans := Listed(h.kept);
        History(h.kept, if before > 0 then h.pool else plans, if before > 0 then h.virtual else plans,
                if h.kept.Some? && h.kept.value.monitors != [] then Some(h.kept.value.monitors) else h.monitors,
                if before > 0 then h.description else MakeDescription(UriString(uri), app))
    case RemoveRoute(uri, address, port) => if NameOf(uri) == n && after == 0 then h.(monitors := None) else h
    case BindRoute(uri, plan) =>
      if NameOf(uri) != n || plan.None? then h
      else if before == 0 then h.(kept := plan)
      else
        h.(pool := h.pool + [plan.value], virtual := h.virtual + [plan.value],
           monitors := MonitorsUnder(h.monitors, plan.value))
    case UnbindRoute(uri) =>
      if NameOf(uri) != n then h
      else if before == 0 then h.(kept := None)
      else h.(pool := if before == 1 then [] else h.pool, virtual := [], monitors := None)
    case _ => h
  }

  function HistoryOf(states: seq<State>, updates: seq<Update>, k: nat, n: Name): History
    requires k <= |updates| && |states| == |updates| + 1
  {
    if k == 0 then FRESH
    else Recorded(HistoryOf(states, updates, k - 1, n), updates[k - 1], Size(states[k - 1], n), Size(states[k], n), n)
  }

  function Look<T>(m: map<Name, T>, n: Name): Option<T> { if n in m then Some(m[n]) else None }

  /** The state agrees with the history of one HTTP route. */
  predicate Follows(cfg: Config, s: State, h: History, n: Name) {
    && (n in s.pools <==> n in s.virtuals)
    && h.kept == Look(s.unmapped, n) && h.monitors == Look(s.monitors, n)
    && if n in s.pools && n in s.virtuals then
         && PoolUnder(cfg, s.pools[n], h.pool) && VirtualUnder(cfg, s.virtuals[n], h.virtual)
         && s.pools[n].description == h.description
       else n !in s.monitors
  }

  // ---------------------------------------------------------------------------------
  // Every update

  lemma AddFollows(cfg: Config, s: State, uri: string, address: string, port: int, app: string, h: History, n: Name)
    requires Ready(cfg, s) && n.Http? && Follows(cfg, s, h, n)
    ensures var s' := HttpAdd(cfg, s, uri, address, port, app);
            Follows(cfg, s', Recorded(h, AddRoute(uri, address, port, app), Size(s, n), Size(s', n), n), n)
  {
    hide Assign, UriString, Capacity, MakeDescription, NonEmpty, Accepted, NewPool, NewVirtual, NewMonitors, AddPool,
         AddVirtual, PoolUnder, VirtualUnder, AddRule, RuleSet, WildcardSet;
    var m := NameOf(uri);
    AssignFrame(cfg.block, s, m);
    var (r, d) := Assign(cfg.block, s, m);
    if Accepted(uri, address) && d.Some? {
      var description := MakeDescription(UriString(uri), app);
      InstallFollows(cfg, r, uri, Enabled(address, port), description, d.value, h, n);
    } else if n == m && Accepted(uri, address) {
      assert n !in s.virtuals by { AssignLive(cfg.block, s, m); }
    }
  }

  lemma AssignLive(b: Block, s: State, n: Name)
    requires ValidBlock(b) && s.cursor < Capacity(b)
    ensures n in s.virtuals ==> Assign(b, s, n).1.Some?
  {
  }

  lemma InstallFollows(cfg: Config, s: State, uri: string, m: Member, description: string, d: Destination, h: History, n: Name)
    requires n.Http? && NonEmpty(s.pools) && Follows(cfg, s, h, n)
    ensures var s' := Installed(cfg, s, uri, m, description, d);
            && (n == NameOf(uri) ==> Size(s', n) > 0)
            && Follows(cfg, s', if n != NameOf(uri) then h else
                 History(h.kept, if Size(s, n) > 0 then h.pool else Listed(h.kept),
                         if Size(s, n) > 0 then h.virtual else Listed(h.kept),
                         if h.kept.Some? && h.kept.value.monitors != [] then Some(h.kept.value.monitors) else h.monitors,
                         if Size(s, n) > 0 then h.description else description), n)
  {
    hide UriString, NewPool, NewVirtual, PoolUnder, VirtualUnder, AddRule, RuleSet, WildcardSet;
    var k := NameOf(uri);
    var p, v := NewPool(cfg, s.unmapped, k, m, description), NewVirtual(cfg, s.unmapped, k, d);
    RuleApart(s.(pools := AddPool(s.pools, k, p), virtuals := AddVirtual(s.virtuals, k, v),
                 monitors := NewMonitors(s.monitors, s.unmapped, k)), uri);
    if n == k {
      NewUnder(cfg, s.unmapped, n, m, description, d);
      if n in s.pools { OtherMembers(cfg, s.pools[n], s.pools[n].members + p.members, h.pool); }
    }
  }

  /** A new route gets the defaults, under the plan kept for it if there is one. */
  lemma NewUnder(cfg: Config, unmapped: map<Name, Plan>, n: Name, m: Member, description: string, d: Destination)
    ensures PoolUnder(cfg, NewPool(cfg, unmapped, n, m, description), Listed(Look(unmapped, n)))
    ensures VirtualUnder(cfg, NewVirtual(cfg, unmapped, n, d), Listed(Look(unmapped, n)))
  {
    if n in unmapped {
      var plan := unmapped[n];
      assert [] + [plan] == [plan];
      EffectiveSnoc(cfg.balance, [], plan, BalanceOf);
      EffectiveSnoc(cfg.monitorNames, [], plan, MonitorNamesOf);
      EffectiveSnoc(cfg.httpProfiles, [], plan, ProfilesOf);
      EffectiveSnoc([], [], plan, PoliciesOf);
    }
  }

  lemma OtherMembers(cfg: Config, p: PoolValue, ms: seq<Member>, plans: seq<Plan>)
    requires PoolUnder(cfg, p, plans)
    ensures PoolUnder(cfg, p.(members := ms), plans)
  {
  }

  lemma Gone(s: State, uri: string)
    ensures var r, n := Dismantled(s, uri), NameOf(uri);
            && r.pools == s.pools && r.virtuals == s.virtuals - {n} && r.monitors == s.monitors - {n}
            && r.unmapped == s.unmapped
  {
    hide UriString;
  }

  lemma RemoveFollows(cfg: Config, s: State, uri: string, address: string, port: int, h: History, n: Name)
    requires n.Http? && NonEmpty(s.pools) && Follows(cfg, s, h, n)
    ensures var s' := HttpRemove(s, uri, address, port);
            Follows(cfg, s', Recorded(h, RemoveRoute(uri, address, port), Size(s, n), Size(s', n), n), n)
  {
    hide UriString, Removed, Accepted, PoolUnder, VirtualUnder, Dismantled;
    if NameOf(uri) in s.pools { Gone(s.(pools := s.pools - {NameOf(uri)}), uri); }
    if n in s.pools { OtherMembers(cfg, s.pools[n], Removed(s.pools[n].members, Enabled(address, port)), h.pool); }
  }

  lemma BindFollows(cfg: Config, s: State, uri: string, plan: Option<Plan>, h: History, n: Name)
    requires n.Http? && NonEmpty(s.pools) && Follows(cfg, s, h, n)
    ensures var s' := HttpBind(s, uri, plan);
            Follows(cfg, s', Recorded(h, BindRoute(uri, plan), Size(s, n), Size(s', n), n), n)
  {
    hide UriString, PlannedPool, PlannedVirtual, PoolUnder, VirtualUnder;
    if n == NameOf(uri) && plan.Some? && Mapped(s, n) {
      PlanUnder(cfg, s.pools[n], s.virtuals[n], h.pool, h.virtual, plan.value);
    }
  }

  /** A plan bound to a live route is the last in the lists. */
  lemma PlanUnder(cfg: Config, p: PoolValue, v: VirtualValue, pool: seq<Plan>, virtual: seq<Plan>, plan: Plan)
    requires PoolUnder(cfg, p, pool) && VirtualUnder(cfg, v, virtual)
    ensures PoolUnder(cfg, PlannedPool(p, plan), pool + [plan]) && VirtualUnder(cfg, PlannedVirtual(v, plan), virtual + [plan])
  {
    EffectiveSnoc(cfg.balance, pool, plan, BalanceOf);
    EffectiveSnoc(cfg.monitorNames, pool, plan, MonitorNamesOf);
    EffectiveSnoc(cfg.httpProfiles, virtual, plan, ProfilesOf);
    EffectiveSnoc([], virtual, plan, PoliciesOf);
  }

  lemma UnbindFollows(cfg: Config, s: State, uri: string, h: History, n: Name)
    requires Ready(cfg, s) && Sound(s) && n.Http? && Follows(cfg, s, h, n)
    ensures var s' := HttpUnbind(cfg, s, uri);
            Follows(cfg, s', Recorded(h, UnbindRoute(uri), Size(s, n), Size(s', n), n), n)
  {
    hide UriString, SelfRemoved, Capacity, Destined, Effective;
    var m := NameOf(uri);
    NoPlans(cfg);
    if n == m && Mapped(s, m) {
      assert s.pools[m].members[0] in s.pools[m].members;
      SelfRemovedEmpty(s.pools[m].members);
    }
  }

  lemma NoPlans(cfg: Config)
    ensures Effective(cfg.balance, [], BalanceOf) == cfg.balance
    ensures Effective(cfg.monitorNames, [], MonitorNamesOf) == cfg.monitorNames
    ensures Effective(cfg.httpProfiles, [], ProfilesOf) == cfg.httpProfiles
    ensures Effective([], [], PoliciesOf) == []
  {
  }

  lemma TcpFollows(cfg: Config, s: State, route: nat, address: string, port: int, h: History, n: Name)
    requires n.Http? && Follows(cfg, s, h, n)
    ensures Follows(cfg, TcpAdd(cfg, s, route, address, port), h, n)
    ensures Follows(cfg, TcpRemove(s, route, address, port), h, n)
  {
    hide Removed, Decimal, PoolUnder, VirtualUnder;
  }

  /** Every update keeps state and history together. */
  lemma StepFollows(cfg: Config, s: State, u: Update, s': State, h: History, n: Name)
    requires Ready(cfg, s) && Sound(s) && Next(cfg, s, u, s') && n.Http? && Follows(cfg, s, h, n)
    ensures Follows(cfg, s', Recorded(h, u, Size(s, n), Size(s', n), n), n)
  {
    hide Follows, HttpAdd, HttpRemove, HttpBind, HttpUnbind, TcpAdd, TcpRemove, Capacity, NonEmpty, Lists, Crashes, Size, Sound;
    match u
    case AddRoute(uri, address, port, app) => AddFollows(cfg, s, uri, address, port, app, h, n);
    case RemoveRoute(uri, address, port) => RemoveFollows(cfg, s, uri, address, port, h, n);
    case BindRoute(uri, plan) => BindFollows(cfg, s, uri, plan, h, n);
    case UnbindRoute(uri) => UnbindFollows(cfg, s, uri, h, n);
    case AddTcp(route, address, port) => TcpFollows(cfg, s, route, address, port, h, n);
    case RemoveTcp(route, address, port) => TcpFollows(cfg, s, route, address, port, h, n);
    case FirstDrain => DrainFollows(cfg, s, s', h, n);
  }

  lemma DrainFollows(cfg: Config, s: State, s': State, h: History, n: Name)
    requires Truncated(s, s') && Follows(cfg, s, h, n)
    ensures Follows(cfg, s', h, n)
  {
    hide Lists, PoolUnder, VirtualUnder;
  }

  // ---------------------------------------------------------------------------------
  // Runs

  /** Nothing is configured yet but what the cache recorded. */
  predicate Unconfigured(s: State) { s.pools == map[] && s.virtuals == map[] && s.unmapped == map[] && s.monitors == map[] }

  /**
   Over every run, regular or not, a route that is live has the balance, monitor names, profiles and
   policies that the plans in force make of the configuration, and the monitors its history says.
   */
  lemma {:induction false} PlansInForce(cfg: Config, states: seq<State>, updates: seq<Update>, k: nat, n: Name)
    requires IsRun(cfg, states, updates) && Unconfigured(states[0]) && k <= |updates| && n.Http?
    ensures Follows(cfg, states[k], HistoryOf(states, updates, k, n), n)
  {
    hide Follows, Next, Ready, Recorded, Sound;
    if k == 0 {
      StartFollows(cfg, states[0], n);
    } else {
      PlansInForce(cfg, states, updates, k - 1, n);
      StartFollows(cfg, states[0], n);
      RunSound(cfg, states, updates, k - 1);
      StepFollows(cfg, states[k - 1], updates[k - 1], states[k], HistoryOf(states, updates, k - 1, n), n);
    }
  }

  lemma StartFollows(cfg: Config, s: State, n: Name)
    requires Unconfigured(s)
    ensures Follows(cfg, s, FRESH, n) && Sound(s)
  {
  }

  /** The settings of a live route, field by field. */
  lemma SettingsInForce(cfg: Config, states: seq<State>, updates: seq<Update>, k: nat, n: Name)
    requires IsRun(cfg, states, updates) && Unconfigured(states[0]) && k <= |updates| && n.Http? && Mapped(states[k], n)
    ensures var h, p, v := HistoryOf(states, updates, k, n), states[k].pools[n], states[k].virtuals[n];
            && LastSet(cfg.balance, h.pool, BalanceOf, p.balance)
            && LastSet(cfg.monitorNames, h.pool, MonitorNamesOf, p.monitorNames)
            && LastSet(cfg.httpProfiles, h.virtual, ProfilesOf, v.profiles)
            && LastSet([], h.virtual, PoliciesOf, v.policies)
  {
    hide Next, Ready, Effective, LastSet;
    PlansInForce(cfg, states, updates, k, n);
    var h := HistoryOf(states, updates, k, n);
    EffectiveMeaning(cfg.balance, h.pool, BalanceOf);
    EffectiveMeaning(cfg.monitorNames, h.pool, MonitorNamesOf);
    EffectiveMeaning(cfg.httpProfiles, h.virtual, ProfilesOf);
    EffectiveMeaning([], h.virtual, PoliciesOf);
  }

  // ---------------------------------------------------------------------------------
  // Single updates

  /** A Bind of a live route sets what the plan sets and nothing else. */
  lemma BindApplies(s: State, uri: string, plan: Plan)
    requires Mapped(s, NameOf(uri))
    ensures var n, r := NameOf(uri), HttpBind(s, uri, Some(plan));
            && Mapped(r, n)
            && LastSet(s.pools[n].balance, [plan], BalanceOf, r.pools[n].balance)
            && LastSet(s.pools[n].monitorNames, [plan], MonitorNamesOf, r.pools[n].monitorNames)
            && LastSet(s.virtuals[n].profiles, [plan], ProfilesOf, r.virtuals[n].profiles)
            && LastSet(s.virtuals[n].policies, [plan], PoliciesOf, r.virtuals[n].policies)
            && Look(r.monitors, n) == MonitorsUnder(Look(s.monitors, n), plan)
            && r.unmapped == s.unmapped
  {
    hide UriString;
    assert [plan][0] == plan;
  }

  /**
   Another endpoint for a live route leaves its monitors alone exactly when no plan is kept for it,
   or the kept plan defines none, or they are the very same.
   */
  lemma AddRevertsMonitors(cfg: Config, s: State, uri: string, address: string, port: int, app: string)
    requires Ready(cfg, s) && Mapped(s, NameOf(uri)) && Accepted(uri, address)
    ensures var n := NameOf(uri);
            Look(HttpAdd(cfg, s, uri, address, port, app).monitors, n) == Look(s.monitors, n) <==>
            (n in s.unmapped && s.unmapped[n].monitors != [] ==> Look(s.monitors, n) == Some(s.unmapped[n].monitors))
  {
    hide UriString, NewPool, NewVirtual, Accepted, MakeDescription, AddPool, AddVirtual, Capacity, NonEmpty, AddRule, RuleSet,
         WildcardSet;
    var n := NameOf(uri);
    var m, description := Enabled(address, port), MakeDescription(UriString(uri), app);
    var d := s.virtuals[n].destination;
    RuleApart(s.(pools := AddPool(s.pools, n, NewPool(cfg, s.unmapped, n, m, description)),
                 virtuals := AddVirtual(s.virtuals, n, NewVirtual(cfg, s.unmapped, n, d)),
                 monitors := NewMonitors(s.monitors, s.unmapped, n)), uri);
  }

  /** An Unbind of a live route resets its pool exactly when it has one member or has the defaults anyway. */
  lemma UnbindResets(cfg: Config, s: State, uri: string)
    requires Ready(cfg, s) && Sound(s) && Mapped(s, NameOf(uri))
    ensures var n, r := NameOf(uri), HttpUnbind(cfg, s, uri);
            var p := s.pools[n];
            && Mapped(r, n) && n !in r.monitors
            && r.virtuals[n] == VirtualValue(s.virtuals[n].destination, cfg.httpProfiles, [])
            && r.pools[n].description == p.description
            && ((r.pools[n].balance, r.pools[n].monitorNames) == (cfg.balance, cfg.monitorNames) <==>
                |p.members| == 1 || (p.balance, p.monitorNames) == (cfg.balance, cfg.monitorNames))
  {
    hide UriString, SelfRemoved, Capacity, Destined;
    var n := NameOf(uri);
    assert s.pools[n].members[0] in s.pools[n].members;
    SelfRemovedEmpty(s.pools[n].members);
  }

  // ---------------------------------------------------------------------------------
  // TCP routes

  /** No plan touches a TCP route. */
  ghost predicate TcpPlain(cfg: Config, s: State) {
    forall port ::
      && (Tcp(port) in s.pools ==> (s.pools[Tcp(port)].balance, s.pools[Tcp(port)].monitorNames) == (cfg.balance, cfg.monitorNames))
      && (Tcp(port) in s.virtuals ==> s.virtuals[Tcp(port)] == VirtualValue(External(port), cfg.tcpProfiles, []))
  }

  lemma StepTcpPlain(cfg: Config, s: State, u: Update, s': State)
    requires Ready(cfg, s) && TcpPlain(cfg, s) && Next(cfg, s, u, s')
    ensures TcpPlain(cfg, s')
  {
    hide HttpAdd, HttpRemove, HttpBind, HttpUnbind, Capacity, NonEmpty, Lists, LiveRecords, Removed, Decimal, Crashes;
    if NotTcp(u) {
      forall port ensures SameAt(s, s', Tcp(port)) { HttpLeavesTcp(cfg, s, u, s', port); }
    }
  }

  /** Over every run the TCP pools and virtuals have the configured settings. */
  lemma {:induction false} RunTcpPlain(cfg: Config, states: seq<State>, updates: seq<Update>, k: nat)
    requires IsRun(cfg, states, updates) && Unconfigured(states[0]) && k <= |updates|
    ensures TcpPlain(cfg, states[k])
  {
    hide Next, Ready;
    if k > 0 {
      RunTcpPlain(cfg, states, updates, k - 1);
      StepTcpPlain(cfg, states[k - 1], updates[k - 1], states[k]);
    }
  }
}
