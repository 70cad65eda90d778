/** What every update keeps. */
module RouterFacts {
  import opened Wrappers
  import opened Text
  import opened Uris
  import opened AddressSpace
  import opened Allocators
  import opened Members
  import opened RouterSpec

  predicate GoodPool(n: Name, p: PoolValue) {
    && p.members != [] && AllEnabled(p.members) && Distinct(p.members)
    && (n.Http? ==> p.description != "" && forall k | 0 <= k < |p.members| :: p.members[k].address != "")
  }

  predicate GoodPools(pools: Pools) {
    forall n | n in pools :: GoodPool(n, pools[n])
  }

  /** Every HTTP virtual has a record that holds its destination. */
  predicate Destined(virtuals: Virtuals, dataGroup: map<Name, Addr>) {
    forall n | n in virtuals ::
      match n
      case Http(_) => n in dataGroup && virtuals[n].destination == Internal(dataGroup[n])
      case Tcp(route) => virtuals[n].destination == External(route)
  }

  /** The names that the rules stand for. */
  function Spelled(rules: set<string>, wildcards: set<string>): set<Name> { set r | r in rules + wildcards :: NameOf(r) }

  /** The rules that stand for a name, with and without a trailing slash. */
  function Spellings(s: State, n: Name): set<string> { set r | r in s.rules + s.wildcards && NameOf(r) == n }

  /** Every HTTP pool has a rule and every rule a pool, in the table its URI belongs to. */
  ghost predicate Ruled(names: set<Name>, rules: set<string>, wildcards: set<string>) {
    && (forall u :: Http(u) in names <==> Http(u) in Spelled(rules, wildcards))
    && (forall r | r in rules :: '*' !in UriString(r))
    && (forall r | r in wildcards :: '*' in UriString(r))
  }

  /** Pools, tier-2 virtuals and rules have the same names, and every pool has members, none twice. */
  ghost predicate Coherent(s: State) {
    && s.pools.Keys == s.virtuals.Keys && GoodPools(s.pools)
    && Destined(s.virtuals, s.dataGroup) && Ruled(s.pools.Keys, s.rules, s.wildcards)
  }

  /** The update takes the last member of a route. */
  predicate Empties(s: State, uri: string, address: string, port: int) {
    Accepted(uri, address) && NameOf(uri) in s.pools && s.pools[NameOf(uri)].members == [Enabled(address, port)]
  }

  /** The last member of a route goes under the one spelling it has, and a route is unbound with one member. */
  predicate Regular(s: State, u: Update) {
    match u
    case RemoveRoute(uri, address, port) => Empties(s, uri, address, port) ==> Spellings(s, NameOf(uri)) <= {uri}
    case UnbindRoute(uri) => Mapped(s, NameOf(uri)) ==> |s.pools[NameOf(uri)].members| == 1
    case _ => true
  }

  // ---------------------------------------------------------------------------------
  // Pieces

  lemma AddPoolGood(pools: Pools, n: Name, p: PoolValue)
    requires GoodPools(pools) && GoodPool(n, p) && |p.members| == 1
    ensures GoodPools(AddPool(pools, n, p)) && AddPool(pools, n, p).Keys == pools.Keys + {n}
  {
    var m := p.members[0];
    if n in pools && m !in pools[n].members {
      var ms := pools[n].members;
      assert ms + p.members == ms + [m];
      assert GoodPool(n, pools[n]);
    }
  }

  lemma ShrunkGood(pools: Pools, n: Name, x: Member)
    requires GoodPools(pools) && n in pools
    ensures var ms := Removed(pools[n].members, x);
            && GoodPools(Shrunk(pools, n, ms))
            && Shrunk(pools, n, ms).Keys == if ms == [] then pools.Keys - {n} else pools.Keys
  {
    hide Removed;
    RemovedMembers(pools[n].members, x);
    var ms := Removed(pools[n].members, x);
    assert GoodPool(n, pools[n]);
    forall k | 0 <= k < |ms| ensures ms[k] in pools[n].members { assert ms[k] in ms; }
  }

  /** The same but for the allocator and the records. */
  predicate SameResources(s: State, r: State) {
    && r.pools == s.pools && r.virtuals == s.virtuals && r.rules == s.rules && r.wildcards == s.wildcards
    && r.unmapped == s.unmapped && r.monitors == s.monitors
  }

  lemma AllocateFrame(b: Block, s: State)
    requires ValidBlock(b) && s.cursor < Capacity(b)
    ensures var r := Allocate(b, s).0; SameResources(s, r) && r.cursor < Capacity(b) && r.dataGroup == s.dataGroup
  {
    hide FirstFree, Nth, Capacity, TakeFirst;
    FirstFreeMeaning(b, s.used, s.cursor);
  }

  /** Assigning a destination touches only the allocator and the records. */
  lemma AssignFrame(b: Block, s: State, n: Name)
    requires ValidBlock(b) && s.cursor < Capacity(b)
    ensures var (r, d) := Assign(b, s, n);
            SameResources(s, r) && r.cursor < Capacity(b)
  {
    hide Allocate, Capacity;
    AllocateFrame(b, s);
  }

  lemma AssignFacts(b: Block, s: State, n: Name)
    requires ValidBlock(b) && s.cursor < Capacity(b) && n.Http? && Destined(s.virtuals, s.dataGroup)
    ensures var (r, d) := Assign(b, s, n);
            && Destined(r.virtuals, r.dataGroup)
            && SameResources(s, r)
            && (d.Some? ==> n in r.dataGroup && d.value == Internal(r.dataGroup[n]))
  {
    hide Allocate, Capacity;
    AllocateFrame(b, s);
  }

  lemma RuledAdd(names: set<Name>, s: State, uri: string)
    requires Ruled(names, s.rules, s.wildcards) && Rulable(uri)
    ensures Ruled(names + {NameOf(uri)}, AddRule(s, uri).rules, AddRule(s, uri).wildcards)
  {
    hide UriString, Rulable, Spelled;
    SpelledAdd(s, uri);
  }

  lemma SpelledAdd(s: State, uri: string)
    requires Rulable(uri)
    ensures Spelled(AddRule(s, uri).rules, AddRule(s, uri).wildcards) == Spelled(s.rules, s.wildcards) + {NameOf(uri)}
  {
    hide UriString, Rulable;
    var r := AddRule(s, uri);
    assert r.rules + r.wildcards == s.rules + s.wildcards + {uri};
    assert uri in r.rules + r.wildcards;
    forall n | n in Spelled(s.rules, s.wildcards) ensures n in Spelled(r.rules, r.wildcards) {
      var x :| x in s.rules + s.wildcards && NameOf(x) == n;
      assert x in r.rules + r.wildcards;
    }
  }

  /** Removing the rule of one spelling removes the name exactly when there is no other spelling. */
  lemma RuledRemove(names: set<Name>, s: State, uri: string)
    requires Ruled(names, s.rules, s.wildcards)
    ensures Ruled(names - {NameOf(uri)}, RemoveRule(s, uri).rules, RemoveRule(s, uri).wildcards) <==>
            Spellings(s, NameOf(uri)) <= {uri}
  {
    hide UriString, Spelled, Spellings;
    SpelledRemove(s, uri);
    assert NameOf(uri) == Http(UriString(uri));
  }

  lemma SpelledRemove(s: State, uri: string)
    requires forall r | r in s.rules :: '*' !in UriString(r)
    requires forall r | r in s.wildcards :: '*' in UriString(r)
    ensures var n, r := NameOf(uri), RemoveRule(s, uri);
            var was, left := Spelled(s.rules, s.wildcards), Spelled(r.rules, r.wildcards);
            && (forall m | m != n :: m in left <==> m in was)
            && (n !in left <==> Spellings(s, n) <= {uri})
  {
    hide UriString;
    var n, r := NameOf(uri), RemoveRule(s, uri);
    var all, rest := s.rules + s.wildcards, r.rules + r.wildcards;
    assert rest == all - {uri};
    forall m | m != n ensures m in Spelled(r.rules, r.wildcards) <==> m in Spelled(s.rules, s.wildcards) {
      if x :| x in all && NameOf(x) == m { assert x in rest; }
      if x :| x in rest && NameOf(x) == m { assert x in all; }
    }
    if n in Spelled(r.rules, r.wildcards) {
      var x :| x in rest && NameOf(x) == n;
      assert x in Spellings(s, n) && x != uri;
    }
    if x :| x in Spellings(s, n) && x != uri { assert x in rest; }
  }

  // ---------------------------------------------------------------------------------
  // Every update keeps the resources coherent

  lemma AddCoherent(cfg: Config, s: State, uri: string, address: string, port: int, app: string)
    requires Ready(cfg, s) && Coherent(s) && !Crashes(cfg, s, AddRoute(uri, address, port, app))
    ensures Coherent(HttpAdd(cfg, s, uri, address, port, app))
  {
    hide UriString, Rulable, Nameable, Count, Capacity, FirstFree, Nth, Assign, GoodPools, Ruled, AddPool, MakeDescription, AddRule,
         NonEmpty;
    HasDescription(UriString(uri), app);
    var n := NameOf(uri);
    AssignFacts(cfg.block, s, n);
    var (r, d) := Assign(cfg.block, s, n);
    if Accepted(uri, address) && d.Some? {
      InstalledCoherent(cfg, r, uri, Enabled(address, port), MakeDescription(UriString(uri), app), d.value);
    }
  }

  lemma HasDescription(uri: string, app: string)
    ensures MakeDescription(uri, app) != ""
  {
  }

  /** The description begins with the route and tells applications apart. */
  lemma DescriptionTells(uri: string, app: string, other: string)
    ensures HasPrefix(MakeDescription(uri, app), "route: " + uri)
    ensures MakeDescription(uri, app) == MakeDescription(uri, other) ==> app == other
    ensures MakeDescription(uri, "") == "route: " + uri
  {
    var head := "route: " + uri;
    var mark := head + " - App GUID: ";
    assert (mark + app)[|mark|..] == app && (mark + other)[|mark|..] == other;
    assert (mark + app)[..|head|] == head && |mark + app| > |head| && |mark + other| > |head|;
  }

  lemma InstalledCoherent(cfg: Config, s: State, uri: string, m: Member, description: string, d: Destination)
    requires Coherent(s) && Rulable(uri) && m.address != "" && m.session == ENABLED && description != ""
    requires NameOf(uri) in s.dataGroup && d == Internal(s.dataGroup[NameOf(uri)])
    ensures Coherent(Installed(cfg, s, uri, m, description, d))
  {
    hide UriString, Rulable, GoodPools, Ruled, AddPool, NewPool, NewVirtual, NewMonitors, Spelled;
    var n := NameOf(uri);
    AddPoolGood(s.pools, n, NewPool(cfg, s.unmapped, n, m, description));
    RuledAdd(s.pools.Keys, s, uri);
  }

  /** Removing keeps the resources coherent exactly when it is not the last member under one of two spellings. */
  lemma RemoveCoherent(s: State, uri: string, address: string, port: int)
    requires Coherent(s)
    ensures Coherent(HttpRemove(s, uri, address, port)) <==> Regular(s, RemoveRoute(uri, address, port))
  {
    hide UriString, Count, GoodPools, Ruled, Removed, Shrunk, Spellings, RemoveRule, Destined;
    var n, x := NameOf(uri), Enabled(address, port);
    if Accepted(uri, address) && n in s.pools {
      ShrunkGood(s.pools, n, x);
      EmptiedExactly(s.pools, n, x);
      RuledRemove(s.pools.Keys, s, uri);
      RemoveRuleApart(s, uri);
      if Removed(s.pools[n].members, x) == [] { DismantledParts(s.(pools := Shrunk(s.pools, n, [])), uri); }
    }
  }

  lemma EmptiedExactly(pools: Pools, n: Name, x: Member)
    requires GoodPools(pools) && n in pools
    ensures Removed(pools[n].members, x) == [] <==> pools[n].members == [x]
  {
    hide Removed;
    var ms := pools[n].members;
    assert GoodPool(n, pools[n]);
    RemovedMembers(ms, x);
    var r := Removed(ms, x);
    if r == [] {
      assert forall k | 0 <= k < |ms| :: ms[k] in ms;
      assert ms[0] == x;
      if |ms| > 1 { OtherMember(ms, x); }
    } else {
      assert r[0] in r;
    }
  }

  lemma OtherMember(ms: seq<Member>, x: Member)
    requires Distinct(ms) && |ms| > 1
    ensures exists m :: m in ms && m != x
  {
    assert ms[0] in ms && ms[1] in ms && ms[0] != ms[1];
  }

  /** What is left when a route has gone. */
  lemma DismantledParts(s: State, uri: string)
    requires Destined(s.virtuals, s.dataGroup)
    ensures var r, t := Dismantled(s, uri), RemoveRule(s, uri);
            && r.pools == s.pools && r.virtuals.Keys == s.virtuals.Keys - {NameOf(uri)}
            && Destined(r.virtuals, r.dataGroup) && r.rules == t.rules && r.wildcards == t.wildcards
  {
    hide UriString, Destined;
    DestinedMinus(s.virtuals, s.dataGroup, NameOf(uri));
  }

  lemma DestinedMinus(virtuals: Virtuals, dataGroup: map<Name, Addr>, n: Name)
    requires Destined(virtuals, dataGroup)
    ensures Destined(virtuals - {n}, dataGroup - {n})
  {
  }

  lemma RemoveRuleApart(s: State, uri: string)
    ensures forall pools: Pools ::
              && RemoveRule(s.(pools := pools), uri).rules == RemoveRule(s, uri).rules
              && RemoveRule(s.(pools := pools), uri).wildcards == RemoveRule(s, uri).wildcards
  {
  }

  lemma BindCoherent(s: State, uri: string, plan: Option<Plan>)
    requires Coherent(s)
    ensures Coherent(HttpBind(s, uri, plan))
  {
    hide UriString, Ruled, PlannedPool, PlannedVirtual, WithMonitors, AllEnabled, Distinct;
    var n, r := NameOf(uri), HttpBind(s, uri, plan);
    assert r.pools.Keys == s.pools.Keys && r.virtuals.Keys == s.virtuals.Keys;
    forall m | m in r.pools ensures GoodPool(m, r.pools[m]) { assert GoodPool(m, s.pools[m]); }
  }

  lemma UnbindCoherent(cfg: Config, s: State, uri: string)
    requires Ready(cfg, s) && Coherent(s)
    requires Mapped(s, NameOf(uri)) ==> |s.pools[NameOf(uri)].members| == 1
    ensures Coherent(HttpUnbind(cfg, s, uri))
  {
    hide UriString, Ruled, SelfRemoved, Capacity;
    var n := NameOf(uri);
    if Mapped(s, n) {
      assert GoodPool(n, s.pools[n]);
      SelfRemovedDistinct(s.pools[n].members);
      var r := HttpUnbind(cfg, s, uri);
      assert r.pools.Keys == s.pools.Keys && r.virtuals.Keys == s.virtuals.Keys;
      forall m | m in r.pools ensures GoodPool(m, r.pools[m]) { assert GoodPool(m, s.pools[m]); }
    }
  }

  lemma TcpAddCoherent(cfg: Config, s: State, route: nat, address: string, port: int)
    requires Coherent(s)
    ensures Coherent(TcpAdd(cfg, s, route, address, port))
  {
    hide GoodPools, AddPool;
    AddPoolGood(s.pools, Tcp(route), TcpPool(cfg, route, address, port));
  }

  lemma TcpRemoveCoherent(s: State, route: nat, address: string, port: int)
    requires Coherent(s)
    ensures Coherent(TcpRemove(s, route, address, port))
  {
    hide GoodPools, Removed, Shrunk;
    if Tcp(route) in s.pools { ShrunkGood(s.pools, Tcp(route), Enabled(address, port)); }
  }

  /** After the first drain no record is left without a live virtual. */
  predicate Tidy(s: State) {
    forall n | n in s.dataGroup && n.Http? :: n in s.virtuals
  }

  lemma TruncateCoherent(s: State, s': State)
    requires Coherent(s) && Truncated(s, s')
    ensures Coherent(s') && Tidy(s')
  {
    hide Lists, GoodPools, Ruled;
  }

  /** An update keeps the resources coherent exactly when it is regular. */
  lemma StepExact(cfg: Config, s: State, u: Update, s': State)
    requires Ready(cfg, s) && Coherent(s) && Next(cfg, s, u, s')
    ensures Coherent(s') <==> Regular(s, u)
  {
    hide Coherent, HttpAdd, HttpRemove, HttpBind, HttpUnbind, TcpAdd, TcpRemove, Truncated, Capacity, NonEmpty,
         UriString, Empties, Spellings, Crashes;
    match u
    case AddRoute(uri, address, port, app) => AddCoherent(cfg, s, uri, address, port, app);
    case RemoveRoute(uri, address, port) => RemoveCoherent(s, uri, address, port);
    case BindRoute(uri, plan) => BindCoherent(s, uri, plan);
    case UnbindRoute(uri) =>
      if Mapped(s, NameOf(uri)) { UnbindExact(cfg, s, uri); } else { UnbindCoherent(cfg, s, uri); }
    case AddTcp(route, address, port) => TcpAddCoherent(cfg, s, route, address, port);
    case RemoveTcp(route, address, port) => TcpRemoveCoherent(s, route, address, port);
    case FirstDrain => TruncateCoherent(s, s');
  }

  /** Unbinding a mapped route keeps the resources coherent exactly when it has one member. */
  lemma UnbindExact(cfg: Config, s: State, uri: string)
    requires Ready(cfg, s) && Coherent(s) && Mapped(s, NameOf(uri))
    ensures Coherent(HttpUnbind(cfg, s, uri)) <==> |s.pools[NameOf(uri)].members| == 1
  {
    hide UriString, Ruled, SelfRemoved, Capacity;
    var n := NameOf(uri);
    var ms := s.pools[n].members;
    assert GoodPool(n, s.pools[n]);
    if |ms| == 1 {
      UnbindCoherent(cfg, s, uri);
    } else {
      UnbindDoubles(cfg, s, uri);
      var r := HttpUnbind(cfg, s, uri).pools[n];
      var rest := SwapDelete(ms, 0);
      assert r.members[0] == ms[|ms| - 1] == r.members[|rest| + |ms| - 1];
      assert !GoodPool(n, r);
    }
  }

  /** With n > 1 members it leaves 2n - 1, all but the first of them twice. */
  lemma UnbindDoubles(cfg: Config, s: State, uri: string)
    requires Ready(cfg, s) && Coherent(s) && Mapped(s, NameOf(uri)) && |s.pools[NameOf(uri)].members| > 1
    ensures var n := NameOf(uri);
            var ms := s.pools[n].members;
            && n in HttpUnbind(cfg, s, uri).pools
            && HttpUnbind(cfg, s, uri).pools[n].members == SwapDelete(ms, 0) + ms
  {
    hide UriString, Ruled, SelfRemoved, Capacity;
    var n := NameOf(uri);
    var ms := s.pools[n].members;
    assert GoodPool(n, s.pools[n]);
    SelfRemovedDistinct(ms);
    SwapDeleteDistinct(ms, 0);
  }

  // ---------------------------------------------------------------------------------
  // What every update keeps, regular or not

  predicate WithAddress(ms: seq<Member>) { forall m | m in ms :: m.address != "" }

  /** What an Unbind needs to put an HTTP pool back. */
  predicate Described(pools: Pools) {
    forall n | n in pools && n.Http? :: pools[n].description != "" && WithAddress(pools[n].members)
  }

  /** Every virtual has its record, and every HTTP pool a description and members with addresses. */
  predicate Sound(s: State) { Destined(s.virtuals, s.dataGroup) && Described(s.pools) }

  lemma CoherentSound(s: State)
    requires Coherent(s)
    ensures Sound(s)
  {
    hide Ruled, Destined, Distinct, AllEnabled;
    forall n | n in s.pools && n.Http? ensures WithAddress(s.pools[n].members) { assert GoodPool(n, s.pools[n]); }
  }

  lemma AddPoolDescribed(pools: Pools, n: Name, p: PoolValue)
    requires Described(pools) && p.members != [] && (n.Http? ==> p.description != "" && WithAddress(p.members))
    ensures Described(AddPool(pools, n, p))
  {
  }

  lemma ShrunkDescribed(pools: Pools, n: Name, x: Member)
    requires Described(pools) && n in pools
    ensures Described(Shrunk(pools, n, Removed(pools[n].members, x)))
    ensures Described(Shrunk(pools, n, SelfRemoved(pools[n].members)))
  {
    hide Removed, SelfRemoved;
    RemovedAmong(pools[n].members, x);
  }

  lemma AddSound(cfg: Config, s: State, uri: string, address: string, port: int, app: string)
    requires Ready(cfg, s) && Sound(s)
    ensures Sound(HttpAdd(cfg, s, uri, address, port, app))
  {
    hide UriString, Count, Capacity, Assign, AddPool, NewPool, NewVirtual, NewMonitors, MakeDescription, AddRule,
         NonEmpty, Described, RuleSet, WildcardSet;
    var n, m := NameOf(uri), Enabled(address, port);
    var description := MakeDescription(UriString(uri), app);
    HasDescription(UriString(uri), app);
    AssignFacts(cfg.block, s, n);
    var (r, d) := Assign(cfg.block, s, n);
    if Accepted(uri, address) && d.Some? {
      AddPoolDescribed(r.pools, n, NewPool(cfg, r.unmapped, n, m, description));
      RuleApart(r.(pools := AddPool(r.pools, n, NewPool(cfg, r.unmapped, n, m, description)),
                   virtuals := AddVirtual(r.virtuals, n, NewVirtual(cfg, r.unmapped, n, d.value)),
                   monitors := NewMonitors(r.monitors, r.unmapped, n)), uri);
    }
  }

  lemma RemoveSound(s: State, uri: string, address: string, port: int)
    requires Sound(s)
    ensures Sound(HttpRemove(s, uri, address, port))
  {
    hide UriString, Accepted, Removed, SelfRemoved, Shrunk, Described, RemoveRule, Destined;
    var n, x := NameOf(uri), Enabled(address, port);
    if n in s.pools {
      ShrunkDescribed(s.pools, n, x);
      DismantledParts(s.(pools := Shrunk(s.pools, n, [])), uri);
    }
  }

  lemma BindSound(s: State, uri: string, plan: Option<Plan>)
    requires Sound(s)
    ensures Sound(HttpBind(s, uri, plan))
  {
    hide UriString, PlannedPool, PlannedVirtual, WithMonitors;
  }

  lemma UnbindSound(cfg: Config, s: State, uri: string)
    requires Ready(cfg, s) && Sound(s)
    ensures Sound(HttpUnbind(cfg, s, uri)) && HttpUnbind(cfg, s, uri).virtuals.Keys == s.virtuals.Keys
  {
    hide UriString, Capacity, Removed, SelfRemoved, Shrunk, AddPool;
    var n := NameOf(uri);
    if Mapped(s, n) {
      var p := s.pools[n];
      ShrunkDescribed(s.pools, n, BLANK);
      assert p.members[0] in p.members;
      AddPoolDescribed(Shrunk(s.pools, n, SelfRemoved(p.members)), n,
                       PoolValue(cfg.balance, p.members, cfg.monitorNames, p.description));
    }
  }

  lemma TcpSound(cfg: Config, s: State, route: nat, address: string, port: int)
    requires Sound(s)
    ensures Sound(TcpAdd(cfg, s, route, address, port)) && Sound(TcpRemove(s, route, address, port))
  {
    hide Removed, SelfRemoved, Shrunk, AddPool, Decimal, Described;
    AddPoolDescribed(s.pools, Tcp(route), TcpPool(cfg, route, address, port));
    if Tcp(route) in s.pools { ShrunkDescribed(s.pools, Tcp(route), Enabled(address, port)); }
  }

  /** Every update keeps the state sound. */
  lemma StepSound(cfg: Config, s: State, u: Update, s': State)
    requires Ready(cfg, s) && Sound(s) && Next(cfg, s, u, s')
    ensures Sound(s')
  {
    hide Described, HttpAdd, HttpRemove, HttpBind, HttpUnbind, TcpAdd, TcpRemove, Capacity, NonEmpty, Lists, Crashes;
    match u
    case AddRoute(uri, address, port, app) => AddSound(cfg, s, uri, address, port, app);
    case RemoveRoute(uri, address, port) => RemoveSound(s, uri, address, port);
    case BindRoute(uri, plan) => BindSound(s, uri, plan);
    case UnbindRoute(uri) => UnbindSound(cfg, s, uri);
    case AddTcp(route, address, port) => TcpSound(cfg, s, route, address, port);
    case RemoveTcp(route, address, port) => TcpSound(cfg, s, route, address, port);
    case FirstDrain =>
  }

  // ---------------------------------------------------------------------------------
  // A live route keeps its destination

  lemma AddKeepsVirtuals(cfg: Config, s: State, uri: string, address: string, port: int, app: string, n: Name)
    requires Ready(cfg, s) && n in s.virtuals
    ensures n in HttpAdd(cfg, s, uri, address, port, app).virtuals
    ensures HttpAdd(cfg, s, uri, address, port, app).virtuals[n] == s.virtuals[n]
  {
    hide Assign, Installed, UriString, Capacity, MakeDescription, NonEmpty, Accepted;
    AssignFrame(cfg.block, s, NameOf(uri));
    var (r, d) := Assign(cfg.block, s, NameOf(uri));
    if d.Some? { InstalledVirtuals(cfg, r, uri, Enabled(address, port), MakeDescription(UriString(uri), app), d.value); }
  }

  /** Installing a route touches only its own virtual, and that only if it is new. */
  lemma InstalledVirtuals(cfg: Config, s: State, uri: string, m: Member, description: string, d: Destination)
    ensures var r := Installed(cfg, s, uri, m, description, d);
            && r.virtuals.Keys == s.virtuals.Keys + {NameOf(uri)}
            && (forall n | n in s.virtuals :: r.virtuals[n] == s.virtuals[n])
            && (NameOf(uri) !in s.virtuals ==> r.virtuals[NameOf(uri)].destination == d)
            && r.dataGroup == s.dataGroup && r.used == s.used && r.reaped == s.reaped && r.cursor == s.cursor
  {
    hide UriString, AddPool, NewPool, NewVirtual, NewMonitors, AddRule, RuleSet, WildcardSet;
    var n := NameOf(uri);
    RuleApart(s.(pools := AddPool(s.pools, n, NewPool(cfg, s.unmapped, n, m, description)),
                 virtuals := AddVirtual(s.virtuals, n, NewVirtual(cfg, s.unmapped, n, d)),
                 monitors := NewMonitors(s.monitors, s.unmapped, n)), uri);
  }

  lemma BindKeepsVirtuals(s: State, uri: string, plan: Option<Plan>, n: Name)
    requires n in s.virtuals
    ensures var r := HttpBind(s, uri, plan); n in r.virtuals && r.virtuals[n].destination == s.virtuals[n].destination
  {
    hide UriString, PlannedPool, WithMonitors;
  }

  lemma UnbindKeepsVirtuals(cfg: Config, s: State, uri: string, n: Name)
    requires Ready(cfg, s) && n in s.virtuals
    ensures var r := HttpUnbind(cfg, s, uri);
            n in r.virtuals ==> r.virtuals[n].destination == s.virtuals[n].destination
  {
    hide UriString, AddPool, Shrunk, SelfRemoved, Capacity;
  }

  /** Binding changes only what the plan sets, and binding twice is binding once. */
  lemma BindChangesPlanOnly(s: State, uri: string, plan: Plan)
    requires Mapped(s, NameOf(uri))
    ensures var n, r := NameOf(uri), HttpBind(s, uri, Some(plan));
            && r.pools.Keys == s.pools.Keys && r.virtuals.Keys == s.virtuals.Keys
            && r.pools - {n} == s.pools - {n} && r.virtuals - {n} == s.virtuals - {n}
            && r.pools[n].members == s.pools[n].members && r.pools[n].description == s.pools[n].description
            && r.virtuals[n].destination == s.virtuals[n].destination
            && r.rules == s.rules && r.wildcards == s.wildcards && r.dataGroup == s.dataGroup
            && r.used == s.used && r.reaped == s.reaped && r.cursor == s.cursor
            && HttpBind(r, uri, Some(plan)) == r
  {
    hide UriString;
    var n, r := NameOf(uri), HttpBind(s, uri, Some(plan));
    var rr := HttpBind(r, uri, Some(plan));
    assert rr.pools[n] == r.pools[n] && rr.virtuals[n] == r.virtuals[n];
    assert rr.pools == r.pools && rr.virtuals == r.virtuals;
    assert rr.monitors == r.monitors by {
      assert plan.hasMonitors && plan.monitors == [] ==> n !in r.monitors;
    }
  }

  /**
   Binding a route before it has endpoints or after its first one gives the same resources; only
   the early binding is remembered for the next time the route appears.
   */
  lemma BindBeforeOrAfterAdd(cfg: Config, s: State, uri: string, address: string, port: int, app: string, plan: Plan)
    requires Ready(cfg, s)
    requires var n := NameOf(uri); n !in s.pools && n !in s.virtuals && n !in s.unmapped && n !in s.monitors
    ensures var late := HttpBind(HttpAdd(cfg, s, uri, address, port, app), uri, Some(plan));
            HttpAdd(cfg, HttpBind(s, uri, Some(plan)), uri, address, port, app)
            == late.(unmapped := s.unmapped[NameOf(uri) := plan])
  {
    hide UriString, Capacity, MakeDescription, NonEmpty, Accepted, Allocate, PlannedPool, PlannedVirtual;
    var n := NameOf(uri);
    var m, description := Enabled(address, port), MakeDescription(UriString(uri), app);
    var (r, d) := Assign(cfg.block, s, n);
    AssignFrame(cfg.block, s, n);
    AssignIgnoresPlans(cfg.block, s, n, s.unmapped[n := plan]);
    if d.Some? { InstallOrder(cfg, r, uri, m, description, d.value, plan); }
  }

  lemma AssignIgnoresPlans(b: Block, s: State, n: Name, unmapped: map<Name, Plan>)
    requires ValidBlock(b) && s.cursor < Capacity(b)
    ensures var (r, d) := Assign(b, s, n);
            Assign(b, s.(unmapped := unmapped), n) == (r.(unmapped := unmapped), d)
  {
    hide Capacity, FirstFree, Nth, TakeFirst;
  }

  lemma InstallOrder(cfg: Config, s: State, uri: string, m: Member, description: string, d: Destination, plan: Plan)
    requires var n := NameOf(uri); n !in s.pools && n !in s.virtuals && n !in s.unmapped && n !in s.monitors
    ensures var n := NameOf(uri);
            var unmapped := s.unmapped[n := plan];
            Installed(cfg, s.(unmapped := unmapped), uri, m, description, d)
            == HttpBind(Installed(cfg, s, uri, m, description, d), uri, Some(plan)).(unmapped := unmapped)
  {
    hide UriString, NewPool, NewVirtual, NewMonitors, PlannedPool, PlannedVirtual, WithMonitors, AddRule, AddPool,
         AddVirtual;
    var n := NameOf(uri);
    PlanLater(cfg, s, n, m, description, d, plan);
    var p, v := NewPool(cfg, s.unmapped, n, m, description), NewVirtual(cfg, s.unmapped, n, d);
    Overwrites(s.pools, s.virtuals, n, p, PlannedPool(p, plan), v, PlannedVirtual(v, plan));
    RuleApart(s.(pools := s.pools[n := p], virtuals := s.virtuals[n := v]), uri);
    RuleApart(s.(unmapped := s.unmapped[n := plan], pools := s.pools[n := PlannedPool(p, plan)],
                 virtuals := s.virtuals[n := PlannedVirtual(v, plan)], monitors := WithMonitors(s.monitors, n, plan.monitors)), uri);
    RuleApart(s, uri);
  }

  lemma Overwrites(pools: Pools, virtuals: Virtuals, n: Name, p: PoolValue, p': PoolValue, v: VirtualValue, v': VirtualValue)
    requires n !in pools && n !in virtuals && p.members != [] && p'.members != []
    ensures AddPool(pools, n, p) == pools[n := p] && AddVirtual(virtuals, n, v) == virtuals[n := v]
    ensures AddPool(pools, n, p') == pools[n := p'] && AddVirtual(virtuals, n, v') == virtuals[n := v']
    ensures pools[n := p][n := p'] == pools[n := p'] && virtuals[n := v][n := v'] == virtuals[n := v']
  {
  }

  /** A rule touches only the rule tables. */
  lemma RuleApart(s: State, uri: string)
    ensures AddRule(s, uri) == s.(rules := s.rules + RuleSet(uri), wildcards := s.wildcards + WildcardSet(uri))
  {
    assert s.rules + {} == s.rules && s.wildcards + {} == s.wildcards;
  }

  function RuleSet(uri: string): set<string> { if !Rulable(uri) || '*' in UriString(uri) then {} else {uri} }

  function WildcardSet(uri: string): set<string> { if Rulable(uri) && '*' in UriString(uri) then {uri} else {} }

  lemma PlanLater(cfg: Config, s: State, n: Name, m: Member, description: string, d: Destination, plan: Plan)
    requires n !in s.unmapped && n !in s.monitors
    ensures var unmapped := s.unmapped[n := plan];
            && NewPool(cfg, unmapped, n, m, description) == PlannedPool(NewPool(cfg, s.unmapped, n, m, description), plan)
            && NewVirtual(cfg, unmapped, n, d) == PlannedVirtual(NewVirtual(cfg, s.unmapped, n, d), plan)
            && NewMonitors(s.monitors, unmapped, n) == WithMonitors(s.monitors, n, plan.monitors)
            && NewMonitors(s.monitors, s.unmapped, n) == s.monitors == s.monitors - {n}
  {
  }

  lemma DestinationKept(cfg: Config, s: State, u: Update, s': State, n: Name)
    requires Ready(cfg, s) && Next(cfg, s, u, s') && n in s.virtuals && n in s'.virtuals
    ensures s'.virtuals[n].destination == s.virtuals[n].destination
  {
    hide HttpAdd, HttpBind, HttpUnbind, UriString, AddPool, Shrunk, Removed, Capacity, Accepted, NonEmpty, Lists;
    match u
    case AddRoute(uri, address, port, app) => AddKeepsVirtuals(cfg, s, uri, address, port, app, n);
    case BindRoute(uri, plan) => BindKeepsVirtuals(s, uri, plan, n);
    case UnbindRoute(uri) => UnbindKeepsVirtuals(cfg, s, uri, n);
    case _ =>
  }
}
