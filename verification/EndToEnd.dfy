/** From a request to the endpoints of its route: policy, virtual, pool and registry together. */
module EndToEnd {
  import opened Wrappers
  import opened Text
  import opened Paths
  import opened Uris
  import opened Members
  import opened RouterSpec
  import opened RouterFacts
  import opened HttpAgreement
  import Policy
  import W = WildcardLookup
  import R = RegistrySpec

  /** The registered routes without a wildcard. */
  ghost function ExactRoutes(routes: R.Routes): set<Path> {
    set p | p in routes && p.Child? && '*' !in PathText(p)
  }

  /** The members that the addresses of a route stand for. */
  ghost predicate HasAddresses(members: seq<Member>, decode: string -> Member, routes: R.Routes, p: Path) {
    forall m :: m in members <==> exists a :: (p, a) in R.Pairs(routes) && decode(a) == m
  }

  lemma ProperText(p: Path)
    requires R.Proper(p) && SlashFree(p)
    ensures Canonical(PathText(p)) && UriPath(PathText(p)) == p
  {
    PathTextNamesNode(p);
  }

  /** The rules are the routes, by whether they have a wildcard. */
  lemma RulesAreRoutes(decode: string -> Member, routes: R.Routes, s: State, u: string)
    requires Agrees(decode, R.Pairs(routes), s) && R.Good(routes) && R.AllProper(routes)
    ensures u in s.rules <==> Canonical(u) && UriPath(u) in routes && '*' !in u
    ensures u in s.wildcards <==> Canonical(u) && UriPath(u) in routes && '*' in u
  {
    hide Canonical, UriPath, R.Good, R.AllProper, GoodPools, Destined, Serves, Spelled, UriString;
    AgreesMeaning(decode, routes, s, u);
    CleanOnes(s);
    SpelledIs(s, u);
    if Canonical(u) { CanonicalText(u); }
  }

  /** With canonical rules, a name is spelled exactly by its own text. */
  lemma SpelledIs(s: State, u: string)
    requires forall r | r in s.rules + s.wildcards :: Canonical(r)
    ensures Http(u) in Spelled(s.rules, s.wildcards) <==> u in s.rules + s.wildcards
  {
    hide Canonical, UriString;
    forall r | r in s.rules + s.wildcards ensures NameOf(r) == Http(r) { CanonicalText(r); }
    if Http(u) in Spelled(s.rules, s.wildcards) {
      var r :| r in s.rules + s.wildcards && NameOf(r) == Http(u);
    }
  }

  /** The positions of the rules are the registered routes, by whether they have a wildcard. */
  lemma RulePaths(decode: string -> Member, routes: R.Routes, s: State,
                  exact: map<string, Policy.Rule>, wild: map<string, Policy.Rule>)
    requires Agrees(decode, R.Pairs(routes), s) && R.Good(routes) && R.AllProper(routes)
    requires exact.Keys == s.rules && wild.Keys == s.wildcards
    ensures Policy.RoutePaths(exact) == ExactRoutes(routes)
    ensures Policy.RoutePaths(exact) + Policy.RoutePaths(wild) == routes.Keys
  {
    hide Agrees, Canonical, UriPath, R.Proper;
    var all := exact.Keys + wild.Keys;
    forall p | p in routes
      ensures p.Child? && PathText(p) in all && UriPath(PathText(p)) == p
      ensures PathText(p) in exact <==> '*' !in PathText(p)
    {
      ProperText(p);
      RulesAreRoutes(decode, routes, s, PathText(p));
    }
    forall u | u in all ensures UriPath(u) in routes && PathText(UriPath(u)) == u && (u in exact <==> '*' !in u) {
      RulesAreRoutes(decode, routes, s, u);
      CanonicalText(u);
    }
    forall p | p in ExactRoutes(routes) ensures p in Policy.RoutePaths(exact) { assert PathText(p) in exact; }
    forall p | p in routes ensures p in Policy.RoutePaths(exact) + Policy.RoutePaths(wild) {
      assert PathText(p) in exact || PathText(p) in wild;
    }
  }

  /** The virtual behind a rule is live and its pool has exactly the endpoints registered at the rule's route. */
  ghost predicate Serving(decode: string -> Member, routes: R.Routes, s: State, n: Name) {
    && n.Http? && n in s.virtuals && n in s.pools && UriPath(n.uri) in routes
    && HasAddresses(s.pools[n].members, decode, routes, UriPath(n.uri))
  }

  lemma RuleServes(decode: string -> Member, routes: R.Routes, s: State, u: string)
    requires Agrees(decode, R.Pairs(routes), s) && R.Good(routes) && R.AllProper(routes) && u in s.rules + s.wildcards
    ensures Serving(decode, routes, s, Http(u)) && NameOf(u) == Http(u)
  {
    hide Canonical, UriPath, R.Good, R.AllProper, GoodPools, Destined, Ruled, Serves;
    RulesAreRoutes(decode, routes, s, u);
    AgreesMeaning(decode, routes, s, u);
    CanonicalText(u);
  }

  /**
   A request is sent to the live virtual that its rule names, and the pool behind that virtual holds
   exactly the endpoints registered at its route. The route is the longest registered one without a
   wildcard that is a prefix of the request, which is what the trie's `MatchUri` finds; only if there
   is none a wildcard rule takes the request.
   */
  lemma RequestReachesItsRoute(decode: string -> Member, routes: R.Routes, s: State, p: seq<Policy.Rule>,
                               exact: map<string, Policy.Rule>, wild: map<string, Policy.Rule>,
                               exactOrder: seq<string>, wildOrder: seq<string>, q: Policy.Request)
    requires Agrees(decode, R.Pairs(routes), s) && R.Good(routes) && R.AllProper(routes)
    requires Policy.IsPolicy(p, exact, wild, exactOrder, wildOrder) && Policy.ExactRules(exact) && Policy.WildRules(wild)
    requires exact.Keys == s.rules && wild.Keys == s.wildcards && Policy.PlainRequest(q)
    ensures var best := LongestMatch(ExactRoutes(routes), UriPath(Policy.RequestUri(q)));
            var first := Policy.FirstMatch(p, q);
            && (best.Some? <==> first.Some? && first.value < |exact|)
            && (best.Some? ==> first.value < |exactOrder| && UriPath(exactOrder[first.value]) == best.value
                               && p[first.value].target == Http(exactOrder[first.value]))
            && (best.None? && first.Some? ==>
                  var i := first.value - |exact|;
                  0 <= i < |wildOrder| && p[first.value].target == Http(wildOrder[i]))
            && (first.Some? ==> first.value < |p| && Serving(decode, routes, s, p[first.value].target))
            && ('*' !in q.host ==> LongestMatch(routes.Keys, UriPath(Policy.RequestUri(q))) == best)
  {
    hide Policy.ExactRules, Policy.WildRules, Policy.PlainRequest, Policy.FirstMatch, LongestMatch, UriPath, R.Good,
         R.AllProper, Agrees, Policy.IsPolicy, Serving, Policy.RequestPath, Policy.RoutePaths, ExactRoutes;
    RulePaths(decode, routes, s, exact, wild);
    Policy.RequestPosition(q);
    Policy.FirstMatchIsLongestPrefix(p, exact, wild, exactOrder, wildOrder, q);
    Policy.OrderLength(p, exact, wild, exactOrder, wildOrder);
    if '*' !in q.host { Policy.TrieSeesExact(exact, wild, q); }
    var first := Policy.FirstMatch(p, q);
    if first.Some? { TargetServes(decode, routes, s, p, exact, wild, exactOrder, wildOrder, first.value); }
  }

  /** Every rule of the policy targets the virtual of its own route, which serves that route. */
  lemma TargetServes(decode: string -> Member, routes: R.Routes, s: State, p: seq<Policy.Rule>,
                     exact: map<string, Policy.Rule>, wild: map<string, Policy.Rule>,
                     exactOrder: seq<string>, wildOrder: seq<string>, k: nat)
    requires Agrees(decode, R.Pairs(routes), s) && R.Good(routes) && R.AllProper(routes)
    requires Policy.IsPolicy(p, exact, wild, exactOrder, wildOrder) && Policy.ExactRules(exact) && Policy.WildRules(wild)
    requires exact.Keys == s.rules && wild.Keys == s.wildcards && k < |p| && |p| == |exactOrder| + |wildOrder|
    requires |exact| == |exactOrder|
    ensures p[k].target == Http(if k < |exact| then exactOrder[k] else wildOrder[k - |exact|])
    ensures Serving(decode, routes, s, p[k].target)
  {
    hide Policy.ExactRules, Policy.WildRules, R.Good, R.AllProper, Agrees, Policy.IsPolicy, Serving;
    Targets(p, exact, wild, exactOrder, wildOrder, k);
    RuleServes(decode, routes, s, if k < |exact| then exactOrder[k] else wildOrder[k - |exact|]);
  }

  lemma Targets(p: seq<Policy.Rule>, exact: map<string, Policy.Rule>, wild: map<string, Policy.Rule>,
                exactOrder: seq<string>, wildOrder: seq<string>, k: nat)
    requires Policy.IsPolicy(p, exact, wild, exactOrder, wildOrder) && Policy.ExactRules(exact) && Policy.WildRules(wild)
    requires k < |p| && |p| == |exactOrder| + |wildOrder| && |exact| == |exactOrder|
    ensures var u := if k < |exact| then exactOrder[k] else wildOrder[k - |exact|];
            u in exact.Keys + wild.Keys && p[k].target == NameOf(u)
  {
    hide UriString, Policy.PlainUri, Policy.RuleFor, Policy.Orders;
    if k < |exact| {
      Named(exact, exactOrder, k);
      RuleTarget(exactOrder[k]);
      assert p[..|exact|][k] == p[k];
    } else {
      Named(wild, wildOrder, k - |exact|);
      RuleTarget(wildOrder[k - |exact|]);
      assert p[|exact|..][k - |exact|] == p[k];
    }
  }

  lemma RuleTarget(u: string)
    ensures Policy.RuleFor(u).Some? ==> Policy.RuleFor(u).value.target == NameOf(u)
  {
    hide UriString;
  }

  lemma Named(m: map<string, Policy.Rule>, order: seq<string>, i: nat)
    requires Policy.Orders(m, order) && i < |order|
    ensures order[i] in m
  {
    assert order[i] in order;
  }

  /** The same for the registry's own lookup, wildcards included: where the two part is exactly known. */
  lemma RequestMeetsLookup(decode: string -> Member, routes: R.Routes, s: State, p: seq<Policy.Rule>,
                           exact: map<string, Policy.Rule>, wild: map<string, Policy.Rule>,
                           exactOrder: seq<string>, wildOrder: seq<string>, q: Policy.Request)
    requires Agrees(decode, R.Pairs(routes), s) && R.Good(routes) && R.AllProper(routes)
    requires Policy.IsPolicy(p, exact, wild, exactOrder, wildOrder) && Policy.ExactRules(exact) && W.StarRules(wild)
    requires exact.Keys == s.rules && wild.Keys == s.wildcards && W.Ordinary(q)
    ensures |p| == |exactOrder| + |wildOrder|
    ensures W.Applied(p, exactOrder, wildOrder, q) == R.Lookup(routes.Keys, Policy.RequestUri(q)) <==>
            LongestMatch(ExactRoutes(routes), UriPath(Policy.RequestUri(q))).Some? || W.Specific(wild, q)
  {
    hide Policy.ExactRules, W.StarRules, Policy.PlainRequest, Policy.FirstMatch, LongestMatch, UriPath, R.Good, R.AllProper,
         Agrees, Policy.IsPolicy, Policy.RequestPath, Policy.RoutePaths, ExactRoutes, W.Applied, W.Specific, R.Lookup;
    RulePaths(decode, routes, s, exact, wild);
    Policy.RequestPosition(q);
    W.PolicyAgreesWithLookup(p, exact, wild, exactOrder, wildOrder, q);
  }
}
