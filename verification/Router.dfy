/** The router of f5router/f5router.go: resource objects updated in place. */
module Routers {
  import opened Wrappers
  import opened Text
  import opened Uris
  import opened AddressSpace
  import opened Allocators
  import opened Members
  import opened RouterSpec
  import opened RouterRuns
  import Uniqueness
  import P = Policy

  class BigipPool {
    const name: Name
    var balance: string
    var members: seq<Member>
    var monitorNames: seq<string>
    const description: string

    constructor (name: Name, value: PoolValue)
      ensures this.name == name && Value() == value
    {
      this.name, description := name, value.description;
      balance, members, monitorNames := value.balance, value.members, value.monitorNames;
    }

    ghost function Value(): PoolValue
      reads this
    {
      PoolValue(balance, members, monitorNames, description)
    }
  }

  class BigipVirtual {
    const name: Name
    var destination: Destination
    var profiles: seq<string>
    var policies: seq<string>

    constructor (name: Name, value: VirtualValue)
      ensures this.name == name && Value() == value
    {
      this.name := name;
      destination, profiles, policies := value.destination, value.profiles, value.policies;
    }

    ghost function Value(): VirtualValue
      reads this
    {
      VirtualValue(destination, profiles, policies)
    }
  }

  class F5Router {
    const cfg: Config
    const tier2: Tier2
    var poolResources: map<Name, BigipPool>
    var virtualResources: map<Name, BigipVirtual>
    var rules: set<string>
    var wildcards: set<string>
    var internalDataGroup: map<Name, Addr>
    var unmappedResources: map<Name, Plan>
    var monitorResources: map<Name, seq<string>>
    ghost var pools: Pools
    ghost var virtuals: Virtuals

    constructor (cfg: Config, tier2: Tier2)
      requires ValidBlock(cfg.block) && tier2.Valid() && tier2.block == cfg.block
      ensures Valid() && this.cfg == cfg && this.tier2 == tier2
      ensures State() == RouterSpec.State(map[], map[], {}, {}, map[], tier2.used, tier2.reaped, tier2.k, map[], map[])
    {
      this.cfg, this.tier2 := cfg, tier2;
      poolResources, virtualResources, rules, wildcards := map[], map[], {}, {};
      internalDataGroup, unmappedResources, monitorResources := map[], map[], map[];
      pools, virtuals := map[], map[];
    }

    /** The stored pool objects have the values `pools`. */
    ghost predicate Pooled(pools: Pools)
      reads this`poolResources, poolResources.Values
    {
      && poolResources.Keys == pools.Keys
      && forall n | n in pools :: poolResources[n].name == n && poolResources[n].Value() == pools[n]
    }

    ghost predicate Virtualed(virtuals: Virtuals)
      reads this`virtualResources, virtualResources.Values
    {
      && virtualResources.Keys == virtuals.Keys
      && forall n | n in virtuals :: virtualResources[n].name == n && virtualResources[n].Value() == virtuals[n]
    }

    ghost predicate Valid()
      reads this, poolResources.Values, virtualResources.Values, tier2, tier2.holderIP
    {
      && Pooled(pools) && Virtualed(virtuals) && NonEmpty(pools)
      && ValidBlock(cfg.block) && tier2.block == cfg.block && tier2.Valid()
    }

    ghost function State(): State
      reads this, tier2
    {
      RouterSpec.State(pools, virtuals, rules, wildcards, internalDataGroup, tier2.used, tier2.reaped, tier2.k,
                       unmappedResources, monitorResources)
    }

    lemma IsReady()
      requires Valid()
      ensures Ready(cfg, State())
    {
    }

    /** `addPool`. */
    method AddPool(pool: BigipPool)
      requires Pooled(pools) && pool.members != []
      modifies this`poolResources, this`pools, poolResources.Values`members
      ensures Pooled(pools) && pools == RouterSpec.AddPool(old(pools), pool.name, old(pool.Value()))
      ensures poolResources.Values <= old(poolResources.Values) + {pool}
    {
      var key := pool.name;
      if key in poolResources {
        var p := poolResources[key];
        if pool.members[0] in p.members { return; }
        p.members := p.members + pool.members;
      } else {
        poolResources := poolResources[key := pool];
      }
      pools := RouterSpec.AddPool(pools, key, pool.Value());
    }

    /** The members that `removePool`'s loop leaves. */
    ghost function Left(pool: BigipPool): seq<Member>
      requires pool.members != [] && Pooled(pools) && pool.name in pools
      reads this`poolResources, this`pools, poolResources.Values, pool
    {
      if poolResources[pool.name] == pool then SelfRemoved(pool.members)
      else Removed(pools[pool.name].members, pool.members[0])
    }

    /** `removePool`: the pool handed in may be the stored one. */
    method RemovePool(pool: BigipPool) returns (gone: bool)
      requires Pooled(pools) && NonEmpty(pools) && AllEnabled(pool.members) && pool.members != []
      modifies this`poolResources, this`pools, poolResources.Values`members
      ensures Pooled(pools)
      ensures if pool.name !in old(pools) then pools == old(pools) && !gone
              else pools == Shrunk(old(pools), pool.name, old(Left(pool))) && (gone <==> old(Left(pool)) == [])
      ensures poolResources == if gone then old(poolResources) - {pool.name} else old(poolResources)
    {
      hide SelfRemoved, Removed;
      gone := false;
      var key := pool.name;
      if key !in poolResources { return; }
      var p := poolResources[key];
      SweepMembers(p, pool);
      assert p.members == old(Left(pool));
      if p.members == [] {
        pools := pools - {key};
        poolResources := poolResources - {key};
        gone := true;
      } else {
        pools := pools[key := pools[key].(members := p.members)];
      }
    }

    /** The loop over the members, ranging over the slice as it was. */
    static method SweepMembers(p: BigipPool, pool: BigipPool)
      requires p.members != [] && AllEnabled(p.members) && pool.members != [] && AllEnabled(pool.members)
      modifies p`members
      ensures p.members == if p == pool then old(SelfRemoved(p.members)) else old(Removed(p.members, pool.members[0]))
    {
      hide SelfSweep, Sweep;
      var arr, len, i := p.members, |p.members|, 0;
      ghost var x := pool.members[0];
      assert p.members[..len] == p.members;
      while i < |arr|
        invariant 0 <= i <= |arr| && Tail(arr, len) && p.members == arr[..len]
        invariant (i == 0 ==> len == |arr|) && (i < |arr| ==> len > 0)
        invariant p != pool ==> pool.members != [] && pool.members[0] == x
        invariant if p == pool then SelfSweep(arr, len, i) == old(SelfRemoved(p.members))
                  else Sweep(arr, len, i, x) == old(Removed(p.members, pool.members[0]))
      {
        SweepStep(arr, len, i, x);
        var y := pool.members[0];
        assert y.session == ENABLED && BLANK.session != ENABLED;
        if arr[i] == y {
          assert i < len;
          arr := Overwritten(arr, len, i);
          len := len - 1;
          p.members := arr[..len];
        }
        i := i + 1;
      }
      SweepEnd(arr, len, x);
    }

    /** `addVirtual`. */
    method AddVirtual(vs: BigipVirtual)
      requires Virtualed(virtuals)
      modifies this`virtualResources, this`virtuals
      ensures Virtualed(virtuals) && virtuals == RouterSpec.AddVirtual(old(virtuals), vs.name, vs.Value())
      ensures virtualResources.Values <= old(virtualResources.Values) + {vs}
    {
      if vs.name !in virtualResources {
        virtualResources := virtualResources[vs.name := vs];
        virtuals := virtuals[vs.name := vs.Value()];
      }
    }

    /** `removeVirtual`. */
    method RemoveVirtual(key: Name)
      requires Virtualed(virtuals)
      modifies this`virtualResources, this`virtuals
      ensures Virtualed(virtuals) && virtuals == old(virtuals) - {key}
      ensures virtualResources.Values <= old(virtualResources.Values)
      ensures forall v | v in virtualResources.Values :: v.name != key
    {
      virtualResources := virtualResources - {key};
      virtuals := virtuals - {key};
    }

    /** `assignVSPort`. */
    method AssignVSPort(vs: BigipVirtual) returns (ok: bool)
      requires Valid() && vs !in virtualResources.Values
      modifies vs`destination, this`internalDataGroup
      modifies tier2`holderIP, tier2`holderPort, tier2`used, tier2`reaped, tier2`k
      ensures Valid() && State() == Assign(cfg.block, old(State()), vs.name).0
      ensures ok <==> Assign(cfg.block, old(State()), vs.name).1.Some?
      ensures ok ==> vs.destination == Assign(cfg.block, old(State()), vs.name).1.value
    {
      hide FirstFree, Capacity, Nth, NonEmpty, TakeFirst, Pooled;
      ok := true;
      var key := vs.name;
      if key in virtualResources {
        assert virtualResources[key].Value() == virtuals[key];
        vs.destination := virtualResources[key].destination;
      } else if key in internalDataGroup {
        vs.destination := Internal(internalDataGroup[key]);
      } else {
        var va := tier2.GetAvailable();
        if va.None? { return false; }
        internalDataGroup := internalDataGroup[key := va.value];
        vs.destination := Internal(va.value);
      }
    }

    /** `UpdateResources`, written through the objects handed in. */
    static method UpdateResources(pool: BigipPool, vs: BigipVirtual, plan: Plan)
      modifies pool`balance, pool`monitorNames, vs`profiles, vs`policies
      ensures pool.Value() == PlannedPool(old(pool.Value()), plan)
      ensures vs.Value() == PlannedVirtual(old(vs.Value()), plan)
    {
      if plan.profiles != [] { vs.profiles := plan.profiles; }
      if plan.policies != [] { vs.policies := plan.policies; }
      if plan.balance != [] { pool.balance := plan.balance; }
      if plan.monitorNames != [] { pool.monitorNames := plan.monitorNames; }
    }

    /** The resources of a new route: the defaults, under its plan if it was bound before. */
    method CreateResources(n: Name, m: Member, description: string) returns (pool: BigipPool, vs: BigipVirtual)
      ensures fresh(pool) && pool.name == n && pool.Value() == NewPool(cfg, unmappedResources, n, m, description)
      ensures fresh(vs) && vs.name == n && vs.Value() == NewVirtual(cfg, unmappedResources, n, Unset)
    {
      pool := new BigipPool(n, PoolValue(cfg.balance, [m], cfg.monitorNames, description));
      vs := new BigipVirtual(n, VirtualValue(Unset, cfg.httpProfiles, []));
      if n in unmappedResources { UpdateResources(pool, vs, unmappedResources[n]); }
    }

    lemma DestinationSet(n: Name, d: Destination)
      ensures NewVirtual(cfg, unmappedResources, n, Unset).(destination := d) == NewVirtual(cfg, unmappedResources, n, d)
    {
    }

    method PutResources(pool: BigipPool, vs: BigipVirtual)
      requires Pooled(pools) && Virtualed(virtuals) && pool.members != []
      modifies this`poolResources, this`pools, poolResources.Values`members, this`virtualResources, this`virtuals
      ensures Pooled(pools) && pools == RouterSpec.AddPool(old(pools), pool.name, old(pool.Value()))
      ensures Virtualed(virtuals) && virtuals == RouterSpec.AddVirtual(old(virtuals), vs.name, vs.Value())
    {
      hide Pooled, Virtualed, RouterSpec.AddPool, RouterSpec.AddVirtual;
      AddPool(pool);
      AddVirtual(vs);
    }

    /** Takes over the monitors of a plan that was bound before the route was there. */
    method AddPlannedMonitors(n: Name)
      modifies this`monitorResources
      ensures monitorResources == NewMonitors(old(monitorResources), unmappedResources, n)
    {
      if n in unmappedResources && unmappedResources[n].monitors != [] {
        monitorResources := monitorResources[n := unmappedResources[n].monitors];
      }
    }

    /** `addRule`; it panics when the rule cannot be made. */
    method AddRule(uri: string) returns (panicked: bool)
      modifies this`rules, this`wildcards
      ensures panicked <==> !Rulable(uri)
      ensures rules == old(rules) + (if Rulable(uri) && '*' !in UriString(uri) then {uri} else {})
      ensures wildcards == old(wildcards) + (if Rulable(uri) && '*' in UriString(uri) then {uri} else {})
    {
      hide UriString, P.RuleFor;
      var rule := P.MakeRouteRule(uri);
      panicked := rule.None?;
      if panicked { return; }
      if '*' in UriString(uri) { wildcards := wildcards + {uri}; } else { rules := rules + {uri}; }
    }

    /** The rest of `processRouteAdd`, once the destination is known. */
    method Install(uri: string, pool: BigipPool, vs: BigipVirtual, ghost m: Member, ghost description: string)
      returns (panicked: bool)
      requires Pooled(pools) && Virtualed(virtuals) && pool.name == vs.name == NameOf(uri)
      requires pool.Value() == NewPool(cfg, unmappedResources, pool.name, m, description)
      requires vs.Value() == NewVirtual(cfg, unmappedResources, pool.name, vs.destination)
      modifies this`poolResources, this`virtualResources, this`rules, this`wildcards
      modifies this`monitorResources, this`pools, this`virtuals, poolResources.Values`members
      ensures Pooled(pools) && Virtualed(virtuals)
      ensures State() == Installed(cfg, old(State()), uri, m, description, vs.destination)
      ensures panicked <==> !Rulable(uri)
    {
      hide Pooled, Virtualed, NewPool, NewVirtual, NewMonitors, RouterSpec.AddPool, RouterSpec.AddVirtual, UriString,
           Rulable;
      PutResources(pool, vs);
      AddPlannedMonitors(pool.name);
      panicked := AddRule(uri);
    }

    /** `processRouteAdd`; it panics when the rule cannot be made, with the pool and the virtual already there. */
    method ProcessRouteAdd(uri: string, address: string, port: int, app: string) returns (panicked: bool)
      requires Valid()
      modifies this`poolResources, this`virtualResources, this`rules, this`wildcards, this`internalDataGroup
      modifies this`monitorResources, this`pools, this`virtuals, poolResources.Values`members
      modifies tier2`holderIP, tier2`holderPort, tier2`used, tier2`reaped, tier2`k
      ensures Valid() && State() == HttpAdd(cfg, old(State()), uri, address, port, app)
      ensures Nameable(uri) ==> (panicked <==> Crashes(cfg, old(State()), AddRoute(uri, address, port, app)))
    {
      hide Pooled, Virtualed, NewPool, NewVirtual, Installed, Assign, UriString, Count, NonEmpty, Tier2.Valid,
           MakeDescription, Capacity;
      panicked := false;
      IsReady();
      if Count(UriString(uri), '*') > 1 || address == "" { return; }
      ghost var before := State();
      var n, m := NameOf(uri), Enabled(address, port);
      var description := MakeDescription(UriString(uri), app);
      var pool, vs := CreateResources(n, m, description);
      var ok := AssignVSPort(vs);
      if !ok { return; }
      DestinationSet(n, vs.destination);
      panicked := Install(uri, pool, vs, m, description);
      AddReady(cfg, before, uri, address, port, app);
    }

    /** `processRouteRemove`. */
    method ProcessRouteRemove(uri: string, address: string, port: int)
      requires Valid()
      modifies this`poolResources, this`virtualResources, this`rules, this`wildcards, this`internalDataGroup
      modifies this`monitorResources, this`pools, this`virtuals, poolResources.Values`members, tier2`reaped
      ensures Valid() && State() == HttpRemove(old(State()), uri, address, port)
    {
      hide Pooled, Virtualed, Removed, Shrunk, UriString, Count, NonEmpty, Tier2.Valid, MakeDescription, Capacity;
      if Count(UriString(uri), '*') > 1 || address == "" { return; }
      ghost var before := State();
      IsReady();
      var n := NameOf(uri);
      var gone := RemoveMember(n, Enabled(address, port));
      if gone { Dismantle(uri); }
      RemoveRouteReady(cfg, before, uri, address, port);
    }

    /** `removePool` on a new pool object that holds one member. */
    method RemoveMember(n: Name, m: Member) returns (gone: bool)
      requires Pooled(pools) && NonEmpty(pools) && m.session == ENABLED
      modifies this`poolResources, this`pools, poolResources.Values`members
      ensures Pooled(pools)
      ensures if n !in old(pools) then pools == old(pools) && !gone
              else pools == Shrunk(old(pools), n, Removed(old(pools)[n].members, m))
                   && (gone <==> Removed(old(pools)[n].members, m) == [])
    {
      hide Removed, Shrunk, NonEmpty, SelfRemoved;
      var pool := new BigipPool(n, PoolValue(cfg.balance, [m], cfg.monitorNames, ""));
      gone := RemovePool(pool);
    }

    /** The rest of `processRouteRemove`, once the last member is gone. */
    method Dismantle(uri: string)
      requires Virtualed(virtuals)
      modifies this`virtualResources, this`rules, this`wildcards, this`internalDataGroup, this`monitorResources
      modifies this`virtuals, tier2`reaped
      ensures Virtualed(virtuals) && State() == Dismantled(old(State()), uri)
    {
      hide Virtualed, UriString;
      var n := NameOf(uri);
      monitorResources := monitorResources - {n};
      if '*' in UriString(uri) { wildcards := wildcards - {uri}; } else { rules := rules - {uri}; }
      RemoveVirtual(n);
      if n in internalDataGroup {
        tier2.reaped := tier2.reaped + [internalDataGroup[n]];
        internalDataGroup := internalDataGroup - {n};
      }
    }

    /** Take a route's own objects out, change them under the plan, and put them back. */
    method Rebind(p: BigipPool, vs: BigipVirtual, plan: Option<Plan>)
      requires Pooled(pools) && Virtualed(virtuals) && NonEmpty(pools) && p.name == vs.name
      requires p.name in poolResources && poolResources[p.name] == p
      requires vs.name in virtualResources && virtualResources[vs.name] == vs
      modifies this`poolResources, this`pools, poolResources.Values, this`virtualResources, this`virtuals, vs
      ensures Pooled(pools) && Virtualed(virtuals)
      ensures var n := p.name;
              && pools == old(pools)[n := if plan.Some? then PlannedPool(old(pools)[n], plan.value) else old(pools)[n]]
              && virtuals == old(virtuals)[n := if plan.Some? then PlannedVirtual(old(virtuals)[n], plan.value) else old(virtuals)[n]]
    {
      hide SelfRemoved, Removed, PlannedPool, PlannedVirtual, Pooled, Virtualed, NonEmpty, Shrunk,
           RouterSpec.AddPool, RouterSpec.AddVirtual;
      Stored(p, vs);
      var n := p.name;
      ghost var pv := pools[n];
      ghost var before, vbefore, rest := pools, virtuals, SelfRemoved(p.members);
      var members := p.members;
      var _ := RemovePool(p);
      RemoveVirtual(n);
      BackIn(before, vbefore, n, rest);
      Alter(p, vs, plan, members, pv);
      BackAgain(before, vbefore, n, rest, p.Value(), vs.Value());
      PutResources(p, vs);
    }

    static lemma BackIn(pools: Pools, virtuals: Virtuals, n: Name, rest: seq<Member>)
      requires n in pools && n in virtuals
      ensures n in Shrunk(pools, n, rest) <==> rest != []
    {
    }

    /** A pool shrunk and put back, a virtual removed and put back. */
    static lemma BackAgain(pools: Pools, virtuals: Virtuals, n: Name, rest: seq<Member>, p: PoolValue, v: VirtualValue)
      requires n in pools && n in virtuals && p.members != []
      ensures var shrunk := Shrunk(pools, n, rest);
              RouterSpec.AddPool(if n in shrunk then shrunk[n := p] else shrunk, n, p) == pools[n := p]
      ensures RouterSpec.AddVirtual(virtuals - {n}, n, v) == virtuals[n := v]
    {
    }

    lemma Stored(p: BigipPool, vs: BigipVirtual)
      requires Pooled(pools) && Virtualed(virtuals) && NonEmpty(pools) && p.name == vs.name
      requires p.name in poolResources && poolResources[p.name] == p
      requires vs.name in virtualResources && virtualResources[vs.name] == vs
      ensures p.name in pools && p.Value() == pools[p.name] && p.members != [] && AllEnabled(p.members)
      ensures vs.name in virtuals && vs.Value() == virtuals[vs.name]
    {
    }

    /** Change a pool and a virtual under the plan and put the members back; the pool may still be stored. */
    method Alter(p: BigipPool, vs: BigipVirtual, plan: Option<Plan>, members: seq<Member>, ghost pv: PoolValue)
      requires Pooled(pools) && (p.name in pools ==> poolResources[p.name] == p)
      requires p.Value().(members := pv.members) == pv && members == pv.members
      modifies p, vs`profiles, vs`policies, this`pools
      ensures Pooled(pools) && p.members == members
      ensures p.Value() == if plan.Some? then PlannedPool(pv, plan.value) else pv
      ensures vs.Value() == if plan.Some? then PlannedVirtual(old(vs.Value()), plan.value) else old(vs.Value())
      ensures pools == if p.name in old(pools) then old(pools)[p.name := p.Value()] else old(pools)
    {
      hide PlannedVirtual, Pooled;
      Unpool(p.name);
      if plan.Some? { UpdateResources(p, vs, plan.value); }
      p.members := members;
      if p.name in pools { pools := pools[p.name := p.Value()]; }
      Repool(p);
    }

    /** Pooled but for one name. */
    ghost predicate PooledBut(pools: Pools, n: Name)
      reads this`poolResources, (set q | q in poolResources.Values && q.name != n)
    {
      && poolResources.Keys == pools.Keys
      && forall m | m in pools :: poolResources[m].name == m && (m != n ==> poolResources[m].Value() == pools[m])
    }

    lemma Unpool(n: Name)
      requires Pooled(pools)
      ensures PooledBut(pools, n)
    {
    }

    lemma Repool(p: BigipPool)
      requires PooledBut(pools, p.name) && (p.name in pools ==> poolResources[p.name] == p && pools[p.name] == p.Value())
      ensures Pooled(pools)
    {
    }

    /** `processRouteBind`; the plan is none when its id is unknown. */
    method ProcessRouteBind(uri: string, plan: Option<Plan>)
      requires Valid()
      modifies this`poolResources, this`pools, poolResources.Values, this`virtualResources, this`virtuals
      modifies virtualResources.Values, this`monitorResources, this`unmappedResources
      ensures Valid() && State() == HttpBind(old(State()), uri, plan)
    {
      hide Pooled, Virtualed, UriString, NonEmpty, Tier2.Valid, PlannedPool, PlannedVirtual, Capacity, WithMonitors;
      IsReady();
      Names();
      BindReady(cfg, State(), uri, plan);
      var n := NameOf(uri);
      if n in poolResources && n in virtualResources {
        BindMapped(n, plan);
      } else if plan.Some? {
        unmappedResources := unmappedResources[n := plan.value];
      }
    }

    method BindMapped(n: Name, plan: Option<Plan>)
      requires Valid() && n in poolResources && n in virtualResources && n in pools && n in virtuals
      requires poolResources[n].name == n && virtualResources[n].name == n
      modifies this`poolResources, this`pools, poolResources.Values, this`virtualResources, this`virtuals
      modifies virtualResources[n], this`monitorResources
      ensures Pooled(pools) && Virtualed(virtuals)
      ensures pools == if plan.Some? then old(pools)[n := PlannedPool(old(pools)[n], plan.value)] else old(pools)
      ensures virtuals == if plan.Some? then old(virtuals)[n := PlannedVirtual(old(virtuals)[n], plan.value)] else old(virtuals)
      ensures monitorResources == if plan.None? then old(monitorResources)
              else WithMonitors(if plan.value.hasMonitors then old(monitorResources) - {n} else old(monitorResources), n, plan.value.monitors)
    {
      hide Pooled, Virtualed, NonEmpty, Tier2.Valid, PlannedPool, PlannedVirtual, Capacity;
      ghost var before, vbefore := pools, virtuals;
      Rebind(poolResources[n], virtualResources[n], plan);
      if plan.Some? {
        if plan.value.hasMonitors { monitorResources := monitorResources - {n}; }
        if plan.value.monitors != [] { monitorResources := monitorResources[n := plan.value.monitors]; }
      } else {
        assert before[n := before[n]] == before && vbefore[n := vbefore[n]] == vbefore;
      }
    }

    lemma Names()
      requires Valid()
      ensures poolResources.Keys == pools.Keys && virtualResources.Keys == virtuals.Keys
      ensures forall n | n in poolResources :: poolResources[n].name == n
      ensures forall n | n in virtualResources :: virtualResources[n].name == n
    {
    }

    /** `processTCPRouteAdd`. */
    method ProcessTcpRouteAdd(route: nat, address: string, port: int)
      requires Valid()
      modifies this`poolResources, this`pools, poolResources.Values`members, this`virtualResources, this`virtuals
      ensures Valid() && State() == TcpAdd(cfg, old(State()), route, address, port)
    {
      hide Pooled, Virtualed, NonEmpty, Tier2.Valid, RouterSpec.AddPool, RouterSpec.AddVirtual, Capacity;
      ghost var before := State();
      IsReady();
      var n := Tcp(route);
      var pool := new BigipPool(n, TcpPool(cfg, route, address, port));
      var vs := new BigipVirtual(n, VirtualValue(External(route), cfg.tcpProfiles, []));
      PutResources(pool, vs);
      TcpAddReady(cfg, before, route, address, port);
    }

    /** `processTCPRouteRemove`. */
    method ProcessTcpRouteRemove(route: nat, address: string, port: int)
      requires Valid()
      modifies this`poolResources, this`pools, poolResources.Values`members, this`virtualResources, this`virtuals
      ensures Valid() && State() == TcpRemove(old(State()), route, address, port)
    {
      hide Pooled, Virtualed, NonEmpty, Tier2.Valid, Removed, Shrunk, Capacity;
      ghost var before := State();
      IsReady();
      var gone := RemoveMember(Tcp(route), Enabled(address, port));
      if gone { RemoveVirtual(Tcp(route)); }
      TcpRemoveReady(cfg, before, route, address, port);
    }

    /** `processRouteUnbind`. */
    method ProcessRouteUnbind(uri: string)
      requires Valid()
      modifies this`poolResources, this`pools, poolResources.Values`members, this`virtualResources, this`virtuals
      modifies this`monitorResources, this`unmappedResources
      ensures Valid() && State() == HttpUnbind(cfg, old(State()), uri)
    {
      hide Pooled, Virtualed, UriString, NonEmpty, Tier2.Valid, SelfRemoved, Shrunk, RouterSpec.AddPool, Capacity;
      IsReady();
      Names();
      UnbindReady(cfg, State(), uri);
      var n := NameOf(uri);
      if n in poolResources && n in virtualResources {
        UnbindMapped(n);
      } else {
        unmappedResources := unmappedResources - {n};
      }
    }

    method UnbindMapped(n: Name)
      requires Valid() && n in poolResources && n in virtualResources && n in pools && n in virtuals
      requires poolResources[n].name == n && virtualResources[n].name == n
      modifies this`poolResources, this`pools, poolResources.Values`members, this`virtualResources, this`virtuals
      modifies this`monitorResources
      ensures Pooled(pools) && Virtualed(virtuals) && monitorResources == old(monitorResources) - {n}
      ensures old(pools)[n].members != []
      ensures var p := old(pools)[n];
              var rest := Shrunk(old(pools), n, SelfRemoved(p.members));
              if p.members[0].address == "" || p.description == "" then
                pools == rest && virtuals == old(virtuals) - {n}
              else
                && pools == RouterSpec.AddPool(rest, n, PoolValue(cfg.balance, p.members, cfg.monitorNames, p.description))
                && virtuals == (old(virtuals) - {n})[n := VirtualValue(old(virtuals)[n].destination, cfg.httpProfiles, [])]
    {
      hide Pooled, Virtualed, NonEmpty, Tier2.Valid, SelfRemoved, Removed, Shrunk, RouterSpec.AddPool, Capacity;
      var p, v := poolResources[n], virtualResources[n];
      Stored(p, v);
      var members := p.members;
      var _ := RemovePool(p);
      RemoveVirtual(n);
      monitorResources := monitorResources - {n};
      if members[0].address == "" || p.description == "" { return; }
      var q := new BigipPool(n, PoolValue(cfg.balance, members, cfg.monitorNames, p.description));
      var vs := new BigipVirtual(n, VirtualValue(v.destination, cfg.httpProfiles, []));
      PutResources(q, vs);
    }

    /** `truncateInternalDataGroup`, over the virtuals and then over the used addresses in any order. */
    method TruncateInternalDataGroup()
      requires Valid()
      modifies this`internalDataGroup, tier2`used, tier2`reaped
      ensures Valid() && Truncated(old(State()), State())
    {
      hide Pooled, Virtualed, NonEmpty, Tier2.Valid, Capacity, Lists, LiveRecords;
      Names();
      var records, inUse := KeepLive();
      Reap(tier2.used - inUse);
      internalDataGroup, tier2.used := records, inUse;
    }

    /** The records of live virtuals, collected virtual by virtual. */
    method KeepLive() returns (records: map<Name, Addr>, inUse: set<Addr>)
      requires virtualResources.Keys == virtuals.Keys
      ensures records == LiveRecords(State()) && inUse == records.Values
    {
      hide LiveRecords, LiveAmong;
      var dg, all := internalDataGroup, virtualResources.Keys;
      records, inUse := map[], {};
      var todo := all;
      NoneLive(dg);
      assert all - todo == {};
      while todo != {}
        invariant todo <= all && records == LiveAmong(dg, all - todo) && inUse == records.Values
        decreases |todo|
      {
        var n :| n in todo;
        LiveStep(dg, all, todo, n);
        if n in dg {
          records := records[n := dg[n]];
          inUse := inUse + {dg[n]};
        }
        todo := todo - {n};
      }
      assert all - {} == all;
      AllLive(State());
    }

    static ghost function LiveAmong(dataGroup: map<Name, Addr>, names: set<Name>): map<Name, Addr> {
      map n | n in dataGroup && n in names :: dataGroup[n]
    }

    static lemma NoneLive(dataGroup: map<Name, Addr>)
      ensures LiveAmong(dataGroup, {}) == map[]
    {
    }

    static lemma LiveStep(dataGroup: map<Name, Addr>, all: set<Name>, todo: set<Name>, n: Name)
      requires n in todo && todo <= all
      ensures var before, after := LiveAmong(dataGroup, all - todo), LiveAmong(dataGroup, all - (todo - {n}));
              if n !in dataGroup then after == before
              else after == before[n := dataGroup[n]] && after.Values == before.Values + {dataGroup[n]}
    {
      var before, after := LiveAmong(dataGroup, all - todo), LiveAmong(dataGroup, all - (todo - {n}));
      if n in dataGroup {
        Uniqueness.RecordValues(before, n, dataGroup[n]);
        assert after == before[n := dataGroup[n]];
      }
    }

    static lemma AllLive(s: State)
      ensures LiveAmong(s.dataGroup, s.virtuals.Keys) == LiveRecords(s)
    {
    }

    /** Append the addresses to the reaped ones. */
    method Reap(free: set<Addr>)
      modifies tier2`reaped
      ensures |old(tier2.reaped)| <= |tier2.reaped| && tier2.reaped[..|old(tier2.reaped)|] == old(tier2.reaped)
      ensures Lists(tier2.reaped[|old(tier2.reaped)|..], free)
    {
      ghost var was := tier2.reaped;
      var todo := free;
      ghost var added: seq<Addr> := [];
      while todo != {}
        invariant tier2.reaped == was + added && todo <= free && Lists(added, free - todo)
        decreases |todo|
      {
        var a :| a in todo;
        tier2.reaped := tier2.reaped + [a];
        added := added + [a];
        todo := todo - {a};
      }
      assert free - {} == free;
    }

    /** `processCachedDataGroup`. */
    method ProcessCachedDataGroup(dg: seq<Record>)
      requires Valid()
      modifies this`internalDataGroup, tier2`used
      ensures Valid()
      ensures var (records, used) := Cached(cfg.block, old(tier2.used), dg);
              State() == old(State()).(dataGroup := records, used := used)
    {
      hide Pooled, Virtualed, NonEmpty, Tier2.Valid, Capacity;
      var records := map[];
      var i := 0;
      while i < |dg|
        invariant 0 <= i <= |dg| && (records, tier2.used) == Cached(cfg.block, old(tier2.used), dg[..i])
      {
        assert dg[..i + 1][..i] == dg[..i];
        var r := dg[i];
        if InRange(cfg.block, r) && r.data.value !in tier2.used {
          tier2.used := tier2.used + {r.data.value};
          records := records[r.name := r.data.value];
        }
        i := i + 1;
      }
      assert dg[..i] == dg;
      internalDataGroup := records;
    }
  }
}
