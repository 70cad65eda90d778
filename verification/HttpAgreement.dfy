/** The route registry and the router's HTTP pools, end to end. */
module HttpAgreement {
  import opened Wrappers
  import opened Text
  import opened Paths
  import opened Uris
  import opened AddressSpace
  import opened Members
  import opened RouterSpec
  import opened RouterFacts
  import opened Uniqueness
  import opened RouterRuns
  import R = RegistrySpec

  /** A URI that is the text of its own trie position. */
  predicate Canonical(uri: string) { uri != "" && TrieKey(uri) == uri }

  lemma CanonicalText(uri: string)
    requires Canonical(uri)
    ensures UriPath(uri).Child? && PathText(UriPath(uri)) == uri && UriString(uri) == uri && NameOf(uri) == Http(uri)
  {
    PathTextWalk(uri);
  }

  /** How an address text is read: different texts are different members. */
  ghost predicate Decodes(decode: string -> Member) {
    && (forall a :: decode(a).session == ENABLED)
    && (forall a, b :: decode(a) == decode(b) ==> a == b)
  }

  predicate Serves(s: State, uri: string, m: Member) {
    Http(uri) in s.pools && m in s.pools[Http(uri)].members
  }

  /** The HTTP pools hold exactly the given (route, address) pairs. */
  ghost predicate Agrees(decode: string -> Member, pairs: set<(Path, string)>, s: State) {
    && Coherent(s)
    && (forall uri, a | Canonical(uri) :: (UriPath(uri), a) in pairs <==> Serves(s, uri, decode(a)))
    && (forall uri, m | Serves(s, uri, m) :: Canonical(uri) && exists a :: decode(a) == m)
    && (forall r | r in s.rules + s.wildcards :: CleanRule(r))
  }

  /** Spelled canonically, with at most one wildcard. */
  predicate CleanRule(r: string) { Canonical(r) && Count(UriString(r), '*') <= 1 }

  /** The registry's update as the router processes it. */
  function UpdateOf(decode: string -> Member, u: R.Update): Update {
    var m := decode(u.endpoint.addr);
    if u.op.Add? then AddRoute(u.uri, m.address, m.port, u.endpoint.applicationId)
    else RemoveRoute(u.uri, m.address, m.port)
  }

  // ---------------------------------------------------------------------------------
  // One update of the log

  lemma AddServes(cfg: Config, s: State, uri: string, m: Member, app: string, v: string, x: Member)
    requires Ready(cfg, s) && Canonical(uri) && Accepted(uri, m.address) && m.session == ENABLED
    requires Assign(cfg.block, s, NameOf(uri)).1.Some?
    ensures var r := HttpAdd(cfg, s, uri, m.address, m.port, app);
            Serves(r, v, x) <==> Serves(s, v, x) || (v == uri && x == m)
  {
    hide Assign, UriString, Capacity, MakeDescription, NonEmpty, Accepted, NewPool, NewVirtual, NewMonitors,
         AddVirtual, AddPool, UriPath;
    CanonicalText(uri);
    AssignFrame(cfg.block, s, NameOf(uri));
    assert m == Enabled(m.address, m.port);
    var p := NewPool(cfg, s.unmapped, NameOf(uri), m, MakeDescription(UriString(uri), app));
    AddPoolServes(s.pools, Http(uri), p, m, Http(v), x);
  }

  lemma AddPoolServes(pools: Pools, n: Name, p: PoolValue, m: Member, k: Name, x: Member)
    requires p.members == [m]
    ensures var r := AddPool(pools, n, p);
            k in r && x in r[k].members <==> (k in pools && x in pools[k].members) || (k == n && x == m)
  {
  }

  lemma RemoveServes(s: State, uri: string, m: Member, v: string, x: Member)
    requires Coherent(s) && Canonical(uri) && Accepted(uri, m.address) && m.session == ENABLED
    ensures var r := HttpRemove(s, uri, m.address, m.port);
            Serves(r, v, x) <==> Serves(s, v, x) && !(v == uri && x == m)
  {
    hide UriString, Removed, Accepted, Ruled, Destined;
    CanonicalText(uri);
    assert m == Enabled(m.address, m.port);
    var n := Http(uri);
    if n in s.pools {
      assert GoodPool(n, s.pools[n]);
      RemovedMembers(s.pools[n].members, m);
    }
  }

  /** The update is taken in: an Add needs at most one wildcard, an address and room for its route. */
  ghost predicate TakenIn(cfg: Config, decode: string -> Member, s: State, u: R.Update)
    requires ValidBlock(cfg.block)
  {
    u.op.Add? ==> Accepted(u.uri, decode(u.endpoint.addr).address) && HasRoom(cfg.block, s, NameOf(u.uri))
  }

  /** Following one update of the log keeps the agreement exactly when the update is taken in. */
  lemma FollowAgrees(cfg: Config, decode: string -> Member, log: seq<R.Update>, u: R.Update, s: State, s': State)
    requires Decodes(decode) && Canonical(u.uri) && Agrees(decode, R.Replay(log), s)
    requires Ready(cfg, s) && Accounted(cfg.block, s) && Next(cfg, s, UpdateOf(decode, u), s')
    ensures Agrees(decode, R.Replay(log + [u]), s') <==> TakenIn(cfg, decode, s, u)
  {
    hide Agrees, Capacity, NonEmpty, Next, HasRoom, Assign, Partitioned, Filled, Canonical, Decodes, UriString, Accepted;
    AccountedFilled(cfg.block, s);
    AssignExact(cfg.block, s, NameOf(u.uri));
    if !Accepted(u.uri, decode(u.endpoint.addr).address) {
      FollowDropped(cfg, decode, log, u, s, s');
    } else if TakenIn(cfg, decode, s, u) {
      FollowTaken(cfg, decode, log, u, s, s');
    } else {
      FollowRefused(cfg, decode, log, u, s, s');
    }
  }

  /** What is served could be added. */
  lemma ServedAccepted(decode: string -> Member, pairs: set<(Path, string)>, s: State, uri: string, m: Member)
    requires Agrees(decode, pairs, s) && Serves(s, uri, m)
    ensures Accepted(uri, m.address)
  {
    hide Canonical, UriString, Count, UriPath, Destined, Distinct, AllEnabled;
    var n := Http(uri);
    assert GoodPool(n, s.pools[n]);
    assert n in Spelled(s.rules, s.wildcards);
    var r :| r in s.rules + s.wildcards && NameOf(r) == n;
    CanonicalText(r);
  }

  /** The router drops the update; an Add leaves its pair unserved, and a Remove had nothing to remove. */
  lemma FollowDropped(cfg: Config, decode: string -> Member, log: seq<R.Update>, u: R.Update, s: State, s': State)
    requires Canonical(u.uri) && Agrees(decode, R.Replay(log), s) && !Accepted(u.uri, decode(u.endpoint.addr).address)
    requires Ready(cfg, s) && Next(cfg, s, UpdateOf(decode, u), s')
    ensures Agrees(decode, R.Replay(log + [u]), s') <==> !u.op.Add?
  {
    hide Capacity, NonEmpty, Accepted, UriPath, Crashes, Canonical, Assign, Coherent, Installed, Serves, CleanRule,
         Removed, Shrunk;
    var pair := (UriPath(u.uri), u.endpoint.addr);
    R.ReplaySnoc(log, u);
    assert s' == s;
    if Serves(s, u.uri, decode(u.endpoint.addr)) {
      ServedAccepted(decode, R.Replay(log), s, u.uri, decode(u.endpoint.addr));
    }
    assert pair !in R.Replay(log);
    if u.op.Add? { assert pair in R.Replay(log + [u]); } else { assert R.Replay(log + [u]) == R.Replay(log); }
  }

  lemma AccountedFilled(b: Block, s: State)
    requires Accounted(b, s)
    ensures Partitioned(s) && Filled(b, s) && ValidBlock(b) && s.cursor < Capacity(b)
  {
  }

  lemma FollowTaken(cfg: Config, decode: string -> Member, log: seq<R.Update>, u: R.Update, s: State, s': State)
    requires Decodes(decode) && Canonical(u.uri) && Agrees(decode, R.Replay(log), s)
    requires Ready(cfg, s) && Next(cfg, s, UpdateOf(decode, u), s')
    requires Accepted(u.uri, decode(u.endpoint.addr).address)
    requires u.op.Add? ==> Assign(cfg.block, s, NameOf(u.uri)).1.Some?
    ensures Agrees(decode, R.Replay(log + [u]), s')
  {
    hide Coherent, HttpAdd, HttpRemove, Assign, Capacity, NonEmpty, Accepted, Serves, UriPath, Crashes, Empties, Spellings,
         Canonical, CleanRule;
    var m := decode(u.endpoint.addr);
    CanonicalText(u.uri);
    R.ReplaySnoc(log, u);
    CleanOnes(s);
    OneSpelling(s, u.uri);
    StepExact(cfg, s, UpdateOf(decode, u), s');
    RulesClean(cfg, s, UpdateOf(decode, u), s');
    forall v, x
      ensures Serves(s', v, x) <==> if u.op.Add? then Serves(s, v, x) || (v == u.uri && x == m)
                                    else Serves(s, v, x) && !(v == u.uri && x == m)
    {
      if u.op.Add? {
        AddServes(cfg, s, u.uri, m, u.endpoint.applicationId, v, x);
      } else {
        RemoveServes(s, u.uri, m, v, x);
      }
    }
    forall v, a | Canonical(v) ensures (UriPath(v), a) in R.Replay(log + [u]) <==> Serves(s', v, decode(a)) {
      CanonicalText(v);
      assert (UriPath(v), a) in R.Replay(log) <==> Serves(s, v, decode(a));
    }
  }

  /** The registry takes "*.a.*.c" and the router never does. */
  lemma TwoWildcardsDropped(cfg: Config, s: State, address: string, port: int, app: string)
    requires Ready(cfg, s)
    ensures Canonical("*.a.*.c") && Nameable("*.a.*.c") && HttpAdd(cfg, s, "*.a.*.c", address, port, app) == s
  {
    hide Count, Assign, Installed, Capacity, NonEmpty;
    var u := "*.a.*.c";
    assert UriString(u) == u by { assert u[|u| - 1..] == "c"; }
    assert TrieKey(u) == u by { assert u[..1] == "*"; }
    CountSuffix(u, '*', 0);
    assert u[1..] == ".a.*.c";
    CountSuffix(".a.*.c", '*', 3);
  }

  /** Rules spelled canonically have one spelling each. */
  lemma OneSpelling(s: State, uri: string)
    requires Canonical(uri) && forall r | r in s.rules + s.wildcards :: Canonical(r)
    ensures Spellings(s, NameOf(uri)) <= {uri}
  {
    hide Canonical, UriString;
    CanonicalText(uri);
    forall r | r in Spellings(s, NameOf(uri)) ensures r == uri { CanonicalText(r); }
  }

  lemma CleanOnes(s: State)
    requires forall r | r in s.rules + s.wildcards :: CleanRule(r)
    ensures forall r | r in s.rules + s.wildcards :: Canonical(r)
  {
    hide Canonical, Count;
  }

  lemma RulesClean(cfg: Config, s: State, u: Update, s': State)
    requires Ready(cfg, s) && Next(cfg, s, u, s') && (u.AddRoute? || u.RemoveRoute?) && Canonical(u.uri)
    requires forall r | r in s.rules + s.wildcards :: CleanRule(r)
    ensures forall r | r in s'.rules + s'.wildcards :: CleanRule(r)
  {
    hide Canonical, Assign, UriString, Capacity, MakeDescription, NonEmpty, Count, NewPool, NewVirtual, NewMonitors,
         AddVirtual, AddPool, Crashes, Rulable, Removed, Shrunk;
    if u.AddRoute? { AssignFrame(cfg.block, s, NameOf(u.uri)); }
  }

  /** A refused Add leaves its pair unserved. */
  lemma FollowRefused(cfg: Config, decode: string -> Member, log: seq<R.Update>, u: R.Update, s: State, s': State)
    requires Canonical(u.uri) && Agrees(decode, R.Replay(log), s) && u.op.Add?
    requires Accepted(u.uri, decode(u.endpoint.addr).address)
    requires Ready(cfg, s) && Next(cfg, s, UpdateOf(decode, u), s')
    requires Assign(cfg.block, s, NameOf(u.uri)).1.None?
    ensures !Agrees(decode, R.Replay(log + [u]), s')
  {
    hide Capacity, NonEmpty, Accepted, UriPath, Crashes, Canonical, Allocate, Ruled, Destined, GoodPools, Installed,
         CleanRule;
    var n := NameOf(u.uri);
    CanonicalText(u.uri);
    R.ReplaySnoc(log, u);
    AssignFrame(cfg.block, s, n);
    assert n !in s'.pools;
    assert (UriPath(u.uri), u.endpoint.addr) in R.Replay(log + [u]);
    assert !Serves(s', u.uri, decode(u.endpoint.addr));
  }

  // ---------------------------------------------------------------------------------
  // Runs

  /** Plan changes, TCP updates and the first drain. */
  predicate Aside(u: Update) { !u.AddRoute? && !u.RemoveRoute? }

  lemma AsideServes(cfg: Config, s: State, u: Update, s': State, v: string, x: Member)
    requires Ready(cfg, s) && Coherent(s) && Regular(s, u) && Next(cfg, s, u, s') && Aside(u)
    ensures Serves(s', v, x) <==> Serves(s, v, x)
  {
    hide HttpBind, HttpUnbind, TcpAdd, TcpRemove, UriString, Capacity, NonEmpty, Lists, LiveRecords, Coherent, Crashes;
    match u
    case BindRoute(uri, plan) => BindServes(s, uri, plan, v, x);
    case UnbindRoute(uri) => UnbindServes(cfg, s, uri, v, x);
    case AddTcp(route, address, port) => TcpServes(cfg, s, route, address, port, v, x);
    case RemoveTcp(route, address, port) => TcpServes(cfg, s, route, address, port, v, x);
    case FirstDrain =>
  }

  lemma BindServes(s: State, uri: string, plan: Option<Plan>, v: string, x: Member)
    ensures Serves(HttpBind(s, uri, plan), v, x) <==> Serves(s, v, x)
  {
    hide UriString, PlannedPool, PlannedVirtual, WithMonitors;
  }

  lemma TcpServes(cfg: Config, s: State, route: nat, address: string, port: int, v: string, x: Member)
    ensures Serves(TcpAdd(cfg, s, route, address, port), v, x) <==> Serves(s, v, x)
    ensures Serves(TcpRemove(s, route, address, port), v, x) <==> Serves(s, v, x)
  {
    hide Removed, AddPool, Decimal;
    AddPoolServes(s.pools, Tcp(route), TcpPool(cfg, route, address, port), Enabled(address, port), Http(v), x);
  }

  lemma UnbindServes(cfg: Config, s: State, uri: string, v: string, x: Member)
    requires Ready(cfg, s) && Coherent(s)
    requires Mapped(s, NameOf(uri)) ==> |s.pools[NameOf(uri)].members| == 1
    ensures Serves(HttpUnbind(cfg, s, uri), v, x) <==> Serves(s, v, x)
  {
    hide UriString, Capacity, SelfRemoved, Ruled, Destined;
    var n := NameOf(uri);
    if Mapped(s, n) {
      assert GoodPool(n, s.pools[n]);
      SelfRemovedDistinct(s.pools[n].members);
    }
  }

  /** Whatever else happens keeps the agreement exactly when it is regular. */
  lemma AsideAgrees(cfg: Config, decode: string -> Member, pairs: set<(Path, string)>, s: State, u: Update, s': State)
    requires Agrees(decode, pairs, s) && Ready(cfg, s) && Next(cfg, s, u, s') && Aside(u)
    ensures Agrees(decode, pairs, s') <==> Regular(s, u)
  {
    hide Coherent, Ready, Regular, Next, Serves, UriPath, Canonical, CleanRule;
    StepExact(cfg, s, u, s');
    if Regular(s, u) {
      AsideRules(cfg, s, u, s');
      forall v, x ensures Serves(s', v, x) <==> Serves(s, v, x) { AsideServes(cfg, s, u, s', v, x); }
    }
  }

  lemma AsideRules(cfg: Config, s: State, u: Update, s': State)
    requires Ready(cfg, s) && Next(cfg, s, u, s') && Aside(u)
    ensures s'.rules == s.rules && s'.wildcards == s.wildcards
  {
    hide HttpAdd, HttpRemove, UriString, Capacity, NonEmpty, Lists, LiveRecords, AddPool, Removed, SelfRemoved, Shrunk,
         PlannedPool, PlannedVirtual, WithMonitors, Crashes;
  }

  /** The router follows an update of the registry's log, or something else happens in between. */
  datatype Action = Follow(update: R.Update) | Other(u: Update)

  ghost predicate ActionNext(cfg: Config, decode: string -> Member, s: State, a: Action, s': State) {
    Ready(cfg, s) &&
    match a
    case Follow(u) => Canonical(u.uri) && Next(cfg, s, UpdateOf(decode, u), s')
    case Other(u) => Aside(u) && Next(cfg, s, u, s') && (u.FirstDrain? ==> SafeDrain(s))
  }

  /** An update of the log is taken in, and whatever else happens is regular. */
  ghost predicate Admitted(cfg: Config, decode: string -> Member, s: State, a: Action)
    requires ValidBlock(cfg.block)
  {
    match a
    case Follow(u) => TakenIn(cfg, decode, s, u)
    case Other(u) => Regular(s, u)
  }

  /** The updates followed. */
  function Followed(actions: seq<Action>): seq<R.Update> {
    if actions == [] then []
    else
      var before, a := Followed(actions[..|actions| - 1]), actions[|actions| - 1];
      if a.Follow? then before + [a.update] else before
  }

  ghost predicate IsHttpRun(cfg: Config, decode: string -> Member, states: seq<State>, actions: seq<Action>) {
    && Decodes(decode) && ValidBlock(cfg.block) && |states| == |actions| + 1
    && Agrees(decode, {}, states[0]) && Accounted(cfg.block, states[0])
    && forall k | 0 <= k < |actions| :: ActionNext(cfg, decode, states[k], actions[k], states[k + 1])
  }

  lemma {:induction false} HttpRunAccounted(cfg: Config, decode: string -> Member, states: seq<State>, actions: seq<Action>, n: nat)
    requires IsHttpRun(cfg, decode, states, actions) && n <= |actions|
    ensures Accounted(cfg.block, states[n])
  {
    hide Agrees, Ready, Next, Regular, Canonical, Decodes, Accounted;
    if n > 0 {
      HttpRunAccounted(cfg, decode, states, actions, n - 1);
      var a := actions[n - 1];
      assert ActionNext(cfg, decode, states[n - 1], a, states[n]);
      StepAccounted(cfg, states[n - 1], if a.Follow? then UpdateOf(decode, a.update) else a.u, states[n]);
    }
  }

  /**
   Over every run the HTTP pools are what the updates followed so far add up to, as long as every
   Add is taken in and every Unbind regular; and the first that is not breaks it.
   */
  lemma {:induction false} PoolsFollowLog(cfg: Config, decode: string -> Member, states: seq<State>, actions: seq<Action>, n: nat)
    requires IsHttpRun(cfg, decode, states, actions) && n <= |actions|
    ensures (forall k | 0 <= k <= n :: Agrees(decode, R.Replay(Followed(actions[..k])), states[k]))
            <==> forall k | 0 <= k < n :: Admitted(cfg, decode, states[k], actions[k])
  {
    hide Agrees, Ready, Next, Regular, Canonical, Decodes, Accounted, Followed, TakenIn, R.Replay;
    if n > 0 {
      PoolsFollowLog(cfg, decode, states, actions, n - 1);
      HttpRunAccounted(cfg, decode, states, actions, n - 1);
      if Agrees(decode, R.Replay(Followed(actions[..n - 1])), states[n - 1]) {
        assert actions[..n][..n - 1] == actions[..n - 1];
        assert ActionNext(cfg, decode, states[n - 1], actions[n - 1], states[n]);
        FollowOne(cfg, decode, states[n - 1], actions[..n], states[n]);
      }
    } else {
      NothingFollowed(actions);
    }
  }

  lemma NothingFollowed(actions: seq<Action>)
    ensures R.Replay(Followed(actions[..0])) == {}
  {
  }

  lemma FollowOne(cfg: Config, decode: string -> Member, s: State, actions: seq<Action>, s': State)
    requires actions != [] && Decodes(decode) && ValidBlock(cfg.block) && Accounted(cfg.block, s)
    requires Agrees(decode, R.Replay(Followed(actions[..|actions| - 1])), s)
    requires ActionNext(cfg, decode, s, actions[|actions| - 1], s')
    ensures Agrees(decode, R.Replay(Followed(actions)), s') <==> Admitted(cfg, decode, s, actions[|actions| - 1])
  {
    hide Agrees, Ready, Next, Regular, Canonical, Decodes, Accounted, TakenIn, R.Replay;
    var log := Followed(actions[..|actions| - 1]);
    match actions[|actions| - 1]
    case Follow(u) => FollowAgrees(cfg, decode, log, u, s, s');
    case Other(u) => AsideAgrees(cfg, decode, R.Replay(log), s, u, s');
  }

  /**
   End to end: when the router has followed the whole log of a registry and everything was admitted,
   its HTTP pools hold exactly the endpoints that the registry's index holds.
   */
  lemma IndexIsServed(cfg: Config, decode: string -> Member, states: seq<State>, actions: seq<Action>,
                      registries: seq<R.Registry>, events: seq<R.Event>)
    requires IsHttpRun(cfg, decode, states, actions)
    requires forall k | 0 <= k < |actions| :: Admitted(cfg, decode, states[k], actions[k])
    requires R.IsRun(registries, events) && R.ProperRun(events) && Followed(actions) == registries[|events|].log
    ensures Agrees(decode, R.Pairs(registries[|events|].routes), states[|actions|])
  {
    hide Agrees, ActionNext, R.IsRun, R.ProperRun, Decodes, Followed, Admitted, Accounted;
    PoolsFollowLog(cfg, decode, states, actions, |actions|);
    assert actions[..|actions|] == actions;
    assert |registries| == |events| + 1 by { RunLength(registries, events); }
    R.ProperRunMirrored(registries, events, |events|);
  }

  lemma RunLength(registries: seq<R.Registry>, events: seq<R.Event>)
    requires R.IsRun(registries, events)
    ensures |registries| == |events| + 1
  {
  }

  /** What that says of one route: its pool has exactly its addresses, and no other route has a pool. */
  lemma AgreesMeaning(decode: string -> Member, routes: R.Routes, s: State, uri: string)
    requires Agrees(decode, R.Pairs(routes), s) && R.Good(routes) && R.AllProper(routes)
    ensures Http(uri) in s.pools <==> Canonical(uri) && UriPath(uri) in routes
    ensures Http(uri) in s.pools ==>
              forall m :: m in s.pools[Http(uri)].members <==>
                          exists a :: (UriPath(uri), a) in R.Pairs(routes) && decode(a) == m
  {
    hide UriPath, Ruled, Destined, R.Proper;
    var n := Http(uri);
    if n in s.pools {
      assert GoodPool(n, s.pools[n]);
      assert Serves(s, uri, s.pools[n].members[0]);
      forall m | m in s.pools[n].members ensures exists a :: (UriPath(uri), a) in R.Pairs(routes) && decode(a) == m {
        assert Serves(s, uri, m);
        var a :| decode(a) == m;
        assert (UriPath(uri), a) in R.Pairs(routes);
      }
    }
    if Canonical(uri) && UriPath(uri) in routes {
      var p := UriPath(uri);
      var a := routes[p][0].endpoint.addr;
      R.ContentsHas(routes[p]);
      assert (p, a) in R.Pairs(routes);
      assert Serves(s, uri, decode(a));
    }
  }
}
