/** The router's resources as values, and what every update does to them. */
module RouterSpec {
  import opened Wrappers
  import opened Text
  import opened Uris
  import opened AddressSpace
  import opened Allocators
  import opened Members
  import P = Policy

  datatype Destination = Unset | Internal(addr: Addr) | External(port: nat)

  datatype PoolValue = PoolValue(balance: string, members: seq<Member>, monitorNames: seq<string>, description: string)

  datatype VirtualValue = VirtualValue(destination: Destination, profiles: seq<string>, policies: seq<string>)

  /** What a service plan sets; an empty field sets nothing. */
  datatype Plan = Plan(profiles: seq<string>, policies: seq<string>, balance: string,
                       monitorNames: seq<string>, monitors: seq<string>, hasMonitors: bool)

  datatype Config = Config(block: Block, balance: string, monitorNames: seq<string>, httpProfiles: seq<string>,
                           tcpProfiles: seq<string>, routerGroup: string)

  type Pools = map<Name, PoolValue>
  type Virtuals = map<Name, VirtualValue>

  datatype State = State(pools: Pools, virtuals: Virtuals, rules: set<string>, wildcards: set<string>,
                         dataGroup: map<Name, Addr>, used: set<Addr>, reaped: seq<Addr>, cursor: nat,
                         unmapped: map<Name, Plan>, monitors: map<Name, seq<string>>)

  // ---------------------------------------------------------------------------------
  // The pieces

  function MakeDescription(uri: string, app: string): string {
    if app == "" then "route: " + uri else "route: " + uri + " - App GUID: " + app
  }

  function OrElse<T(==)>(a: seq<T>, b: seq<T>): seq<T> { if a != [] then a else b }

  /** `UpdateResources`, on the pool. */
  function PlannedPool(p: PoolValue, plan: Plan): (r: PoolValue)
    ensures r.members == p.members && r.description == p.description
  {
    p.(balance := OrElse(plan.balance, p.balance), monitorNames := OrElse(plan.monitorNames, p.monitorNames))
  }

  /** `UpdateResources`, on the virtual. */
  function PlannedVirtual(v: VirtualValue, plan: Plan): (r: VirtualValue)
    ensures r.destination == v.destination
  {
    v.(profiles := OrElse(plan.profiles, v.profiles), policies := OrElse(plan.policies, v.policies))
  }

  function WithMonitors(monitors: map<Name, seq<string>>, n: Name, added: seq<string>): map<Name, seq<string>> {
    if added != [] then monitors[n := added] else monitors
  }

  /** `addPool`. */
  function AddPool(pools: Pools, n: Name, p: PoolValue): Pools
    requires p.members != []
  {
    if n !in pools then pools[n := p]
    else if p.members[0] in pools[n].members then pools
    else pools[n := pools[n].(members := pools[n].members + p.members)]
  }

  /** A pool left with some members; an emptied one goes. */
  function Shrunk(pools: Pools, n: Name, members: seq<Member>): Pools
    requires n in pools
  {
    if members == [] then pools - {n} else pools[n := pools[n].(members := members)]
  }

  function AddVirtual(virtuals: Virtuals, n: Name, v: VirtualValue): Virtuals {
    if n in virtuals then virtuals else virtuals[n := v]
  }

  /** `getAvailableVirtualAddress`. */
  function Allocate(b: Block, s: State): (State, Option<Addr>)
    requires ValidBlock(b) && s.cursor < Capacity(b)
  {
    if s.reaped != [] then (s.(reaped := TakeFirst(s.reaped)), Some(s.reaped[0]))
    else
      match FirstFree(b, s.used, s.cursor)
      case Some(k) => (s.(used := s.used + {Nth(b, k)}, cursor := k), Some(Nth(b, k)))
      case None => (s.(cursor := Capacity(b) - 1), None)
  }

  /** `assignVSPort`: the address of the live virtual, else of the record, else a new one with a record. */
  function Assign(b: Block, s: State, n: Name): (State, Option<Destination>)
    requires ValidBlock(b) && s.cursor < Capacity(b)
  {
    if n in s.virtuals then (s, Some(s.virtuals[n].destination))
    else if n in s.dataGroup then (s, Some(Internal(s.dataGroup[n])))
    else
      var (r, a) := Allocate(b, s);
      if a.None? then (r, None) else (r.(dataGroup := r.dataGroup[n := a.value]), Some(Internal(a.value)))
  }

  /** Whether `makeRouteRule` gets through: with a '*' in the path only it panics. */
  predicate Rulable(uri: string) { P.RuleFor(uri).Some? }

  /**
   `addRule`: a rule is determined by its URI, so the tables are sets of URIs. After a panic the
   tables stay as they were. A URI that `url.Parse` refuses, whose rule would be nil, is not modelled.
   */
  function AddRule(s: State, uri: string): State {
    if !Rulable(uri) then s
    else if '*' in UriString(uri) then s.(wildcards := s.wildcards + {uri})
    else s.(rules := s.rules + {uri})
  }

  function RemoveRule(s: State, uri: string): State {
    if '*' in UriString(uri) then s.(wildcards := s.wildcards - {uri}) else s.(rules := s.rules - {uri})
  }

  /** `verifyRouteURI` and the endpoint check of `createResources`. */
  predicate Accepted(uri: string, address: string) { Count(UriString(uri), '*') <= 1 && address != "" }

  // ---------------------------------------------------------------------------------
  // HTTP updates

  function HttpAdd(cfg: Config, s: State, uri: string, address: string, port: int, app: string): State
    requires ValidBlock(cfg.block) && s.cursor < Capacity(cfg.block)
  {
    var n := NameOf(uri);
    var (r, d) := Assign(cfg.block, s, n);
    if !Accepted(uri, address) then s
    else if d.None? then r
    else Installed(cfg, r, uri, Enabled(address, port), MakeDescription(UriString(uri), app), d.value)
  }

  /** The pool of a new route, under the plan it was bound to before it had endpoints. */
  function NewPool(cfg: Config, unmapped: map<Name, Plan>, n: Name, m: Member, description: string): (p: PoolValue)
    ensures p.members == [m] && p.description == description
  {
    var p := PoolValue(cfg.balance, [m], cfg.monitorNames, description);
    if n in unmapped then PlannedPool(p, unmapped[n]) else p
  }

  function NewVirtual(cfg: Config, unmapped: map<Name, Plan>, n: Name, d: Destination): (v: VirtualValue)
    ensures v.destination == d
  {
    var v := VirtualValue(d, cfg.httpProfiles, []);
    if n in unmapped then PlannedVirtual(v, unmapped[n]) else v
  }

  function NewMonitors(monitors: map<Name, seq<string>>, unmapped: map<Name, Plan>, n: Name): map<Name, seq<string>> {
    if n in unmapped then WithMonitors(monitors, n, unmapped[n].monitors) else monitors
  }

  /** The rest of `processRouteAdd`, once the destination is known. */
  function Installed(cfg: Config, s: State, uri: string, m: Member, description: string, d: Destination): State {
    var n := NameOf(uri);
    AddRule(s.(pools := AddPool(s.pools, n, NewPool(cfg, s.unmapped, n, m, description)),
               virtuals := AddVirtual(s.virtuals, n, NewVirtual(cfg, s.unmapped, n, d)),
               monitors := NewMonitors(s.monitors, s.unmapped, n)), uri)
  }

  function HttpRemove(s: State, uri: string, address: string, port: int): State {
    var n := NameOf(uri);
    if !Accepted(uri, address) || n !in s.pools then s
    else
      var ms := Removed(s.pools[n].members, Enabled(address, port));
      var r := s.(pools := Shrunk(s.pools, n, ms));
      if ms != [] then r else Dismantled(r, uri)
  }

  /** The rest of `processRouteRemove`, once the last member is gone. */
  function Dismantled(s: State, uri: string): State {
    var n := NameOf(uri);
    RemoveRule(s.(monitors := s.monitors - {n}, virtuals := s.virtuals - {n},
                  reaped := if n in s.dataGroup then s.reaped + [s.dataGroup[n]] else s.reaped,
                  dataGroup := s.dataGroup - {n}), uri)
  }

  predicate Mapped(s: State, n: Name) { n in s.pools && n in s.virtuals }

  function HttpBind(s: State, uri: string, plan: Option<Plan>): State {
    var n := NameOf(uri);
    if plan.None? then s
    else if Mapped(s, n) then
      var kept := if plan.value.hasMonitors then s.monitors - {n} else s.monitors;
      s.(pools := s.pools[n := PlannedPool(s.pools[n], plan.value)],
         virtuals := s.virtuals[n := PlannedVirtual(s.virtuals[n], plan.value)],
         monitors := WithMonitors(kept, n, plan.value.monitors))
    else s.(unmapped := s.unmapped[n := plan.value])
  }

  function HttpUnbind(cfg: Config, s: State, uri: string): State
    requires NonEmpty(s.pools)
  {
    var n := NameOf(uri);
    if !Mapped(s, n) then s.(unmapped := s.unmapped - {n})
    else
      var p, v := s.pools[n], s.virtuals[n];
      var ms := p.members;
      var r := s.(pools := Shrunk(s.pools, n, SelfRemoved(ms)), virtuals := s.virtuals - {n}, monitors := s.monitors - {n});
      if ms[0].address == "" || p.description == "" then r
      else
        r.(pools := AddPool(r.pools, n, PoolValue(cfg.balance, ms, cfg.monitorNames, p.description)),
           virtuals := r.virtuals[n := VirtualValue(v.destination, cfg.httpProfiles, [])])
  }

  // ---------------------------------------------------------------------------------
  // TCP updates

  function Decimal(n: nat): string {
    (if n < 10 then "" else Decimal(n / 10)) + ["0123456789"[n % 10]]
  }

  function TcpPool(cfg: Config, route: nat, address: string, port: int): PoolValue {
    PoolValue(cfg.balance, [Enabled(address, port)], cfg.monitorNames,
              "route-port: " + Decimal(route) + ", router-group: " + cfg.routerGroup)
  }

  function TcpAdd(cfg: Config, s: State, route: nat, address: string, port: int): State {
    var n := Tcp(route);
    s.(pools := AddPool(s.pools, n, TcpPool(cfg, route, address, port)),
       virtuals := AddVirtual(s.virtuals, n, VirtualValue(External(route), cfg.tcpProfiles, [])))
  }

  function TcpRemove(s: State, route: nat, address: string, port: int): State {
    var n := Tcp(route);
    if n !in s.pools then s
    else
      var ms := Removed(s.pools[n].members, Enabled(address, port));
      var r := s.(pools := Shrunk(s.pools, n, ms));
      if ms != [] then r else r.(virtuals := s.virtuals - {n})
  }

  // ---------------------------------------------------------------------------------
  // The first drain

  /** The records of live virtuals. */
  function LiveRecords(s: State): map<Name, Addr> {
    map n | n in s.dataGroup && n in s.virtuals :: s.dataGroup[n]
  }

  /** A list that enumerates a set once each. */
  ghost predicate Lists(list: seq<Addr>, all: set<Addr>) {
    && (forall a :: a in list <==> a in all)
    && (forall j, k | 0 <= j < k < |list| :: list[j] != list[k])
  }

  /** `truncateInternalDataGroup`; the addresses no live record holds are reaped in some order. */
  ghost predicate Truncated(s: State, s': State) {
    var records := LiveRecords(s);
    && |s.reaped| <= |s'.reaped| && s'.reaped[..|s.reaped|] == s.reaped
    && Lists(s'.reaped[|s.reaped|..], s.used - records.Values)
    && s' == s.(dataGroup := records, used := records.Values, reaped := s'.reaped)
  }

  predicate NonEmpty(pools: Pools) {
    forall n | n in pools :: pools[n].members != [] && AllEnabled(pools[n].members)
  }

  // ---------------------------------------------------------------------------------
  // Steps and runs

  datatype Update =
    | AddRoute(uri: string, address: string, port: int, app: string)
    | RemoveRoute(uri: string, address: string, port: int)
    | BindRoute(uri: string, plan: Option<Plan>)
    | UnbindRoute(uri: string)
    | AddTcp(route: nat, address: string, port: int)
    | RemoveTcp(route: nat, address: string, port: int)
    | FirstDrain

  predicate Ready(cfg: Config, s: State) {
    ValidBlock(cfg.block) && s.cursor < Capacity(cfg.block) && NonEmpty(s.pools)
  }

  /** An update that panics: its URI cannot be named, or the rule of a route that is added cannot be made. */
  predicate Crashes(cfg: Config, s: State, u: Update)
    requires Ready(cfg, s)
  {
    match u
    case AddRoute(uri, address, port, app) =>
      || !Nameable(uri)
      || (Accepted(uri, address) && Assign(cfg.block, s, NameOf(uri)).1.Some? && !Rulable(uri))
    case RemoveRoute(uri, address, port) => !Nameable(uri)
    case BindRoute(uri, plan) => !Nameable(uri)
    case UnbindRoute(uri) => !Nameable(uri)
    case _ => false
  }

  /** One update; a panic has no next state. */
  ghost predicate Next(cfg: Config, s: State, u: Update, s': State)
    requires Ready(cfg, s)
  {
    !Crashes(cfg, s, u) &&
    match u
    case AddRoute(uri, address, port, app) => s' == HttpAdd(cfg, s, uri, address, port, app)
    case RemoveRoute(uri, address, port) => s' == HttpRemove(s, uri, address, port)
    case BindRoute(uri, plan) => s' == HttpBind(s, uri, plan)
    case UnbindRoute(uri) => s' == HttpUnbind(cfg, s, uri)
    case AddTcp(route, address, port) => s' == TcpAdd(cfg, s, route, address, port)
    case RemoveTcp(route, address, port) => s' == TcpRemove(s, route, address, port)
    case FirstDrain => Truncated(s, s')
  }

  // ---------------------------------------------------------------------------------
  // The cached data group

  /** A record read back from the BIG-IP; without data when it does not decode to an address. */
  datatype Record = Record(name: Name, data: Option<Addr>)

  predicate InRange(b: Block, r: Record) {
    ValidBlock(b) && r.data.Some? && Contains(b, r.data.value.ip) && r.data.value.port <= LAST_PORT
  }

  /** `processCachedDataGroup`: the records kept, and the addresses used after them. */
  function Cached(b: Block, used: set<Addr>, records: seq<Record>): (map<Name, Addr>, set<Addr>) {
    if records == [] then (map[], used)
    else CachedOne(b, Cached(b, used, records[..|records| - 1]), records[|records| - 1])
  }

  function CachedOne(b: Block, so: (map<Name, Addr>, set<Addr>), r: Record): (map<Name, Addr>, set<Addr>) {
    if InRange(b, r) && r.data.value !in so.1 then (so.0[r.name := r.data.value], so.1 + {r.data.value}) else so
  }
}
