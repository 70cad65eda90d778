# A verified model of the cf-bigip-ctlr core

The controller turns a stream of Cloud Foundry route events into BIG-IP configuration. This
project models its stateful core in Dafny 4.11 and proves what that core keeps over every
input, every step and every run. `dafny verify dfyconfig.toml` checks all of it.

Code that changes things step by step is modelled by classes and loops; beside each class
stands a module of values and functions that says what an operation does, and the lemmas
about runs are stated there. A class method always promises that its new abstract state is
that function of the old one.

| files | what they model |
|---|---|
| `Text`, `Paths`, `Uris` | string splitting, trie paths, route keys and the wildcard sequence of a lookup |
| `Policy`, `WildcardLookup` | route URIs compiled into a first-match policy, what the policy means, and when it agrees with the registry's lookup |
| `Pool`, `RoundRobin` | endpoint pools (swap-delete slice, index, back-indices) and the round-robin iterator |
| `Trie`, `RegistrySpec`, `RegistryLives`, `Registry` | the trie of routes with parent links, the registry on it, the update log it emits, and the life of every pair |
| `Heap`, `ActiveApps`, `TopApps` | a map and two indexed heaps over the same entries |
| `Allocator` | the tier-2 CIDR block, the byte-carry increment, the (IP, port) cursor |
| `Members`, `RouterSpec`, `RouterFacts`, `Uniqueness`, `RouterRuns`, `RouterPlans`, `Router` | the router's pools, virtuals, rules, data-group records, used and reaped addresses, and the service plans in force |
| `RoutingTable`, `TableLives`, `TcpAgreement`, `Reconcile` | the TCP routing table, the life of every backend, its agreement with the router, snapshot reconciliation |
| `HttpAgreement`, `EndToEnd` | the registry's log delivered to the router, and a request followed through policy, virtual and pool |

## What is proved

* **Policy.** For any set of plain route URIs and any request, the first matching rule in
  ordinal order is the rule of the longest registered segment prefix, which is the route that
  the trie's `MatchUri` picks, and its action names that route's virtual. With wildcard routes
  beside them, the policy applies the route that the registry's `Lookup` finds if and only if an
  exact route covers the request, or the wildcard route found first is the one for the host that
  sorts last, or no wildcard route touches the request.
* **Trie.** Insert, Delete and Snip act on the map from positions to pools exactly as on a
  plain map; the nodes are exactly the prefixes of registered positions.
* **Registry.** Over every run, folding the emitted log gives exactly the (route, address) pairs in
  the index if and only if every change could be reported under its route's name. The index is
  exactly the lives of its pairs, each a small history of its own: registered, renewed, unregistered,
  pruned when not heard of for too long, refreshed by the first tick after a suspension and by no
  other. Texts that differ in case only are one route, and what is registered under one spelling is
  unregistered under another.
* **Pools.** Of any timed Puts to any addresses, those to one address under one guid leave the
  newest, whatever the order and whatever else the pool holds; one without a version is always taken
  and renews. From whatever index is stored, successive calls of the round robin serve the endpoints
  in turn, each exactly k times in k rounds.
* **Heaps.** Both heaps always hold exactly the map's entries at the positions the entries
  record, and every entry compared has a slot, so none of the source's panics can be reached.
  `TopSince` reports the busiest applications; its counts are the requests marked since plus the
  late ones, and exact if and only if no request of the application was marked late.
* **Addresses.** The cursor hands out exactly 55536 + (N - 1) * 55535 different addresses.
  Used addresses are the disjoint union of recorded and reaped ones over every run whose first
  drain is harmless, and the first drain keeps that exactly when nothing is reaped and every
  record is live. On such a run no address is lost: an assignment fails only when the records
  themselves fill the whole block. Nothing else is asked of the updates.
* **Router.** Over every run pool names, rule names and virtual names stay the same set if and only
  if every update is regular, which the state before it decides; a live route never changes its
  destination; Bind changes only what the plan sets although it takes the objects apart; Unbind is
  right exactly for one member. Over every run, regular or not, a live route has the settings that
  the last plans to set them gave it, from the plan kept for it before it appeared to the last Bind.
* **HTTP end to end.** Following the registry's log, with plan changes, TCP updates and the first
  drain in between, the router's HTTP pools hold exactly the endpoints the log adds up to, if and
  only if every Add had at most one wildcard, an address and room, and no route with more members
  than one was unbound. A request goes to the virtual of the longest registered route that is a
  prefix of it, else to that of a wildcard route, and the pool behind it holds exactly the endpoints
  registered there.
* **TCP.** Table and router agree after every operation, with any HTTP updates in between. The table
  is exactly the lives of its backends, with the tag, lifetime and time of the upsert that won.
  Refreshing from snapshots leaves exactly the last snapshot's pairs if and only if every stored
  pair that vanishes is released by a tag it gives way to.

## What the code does not do

The model follows the code. Where a natural claim is false of the code, there is a lemma with a
concrete case beside the exact condition under which it holds:

* After the IP advances, port 10000 is never looked at again, which is why `Capacity` is not
  N * 55536 (`AddressSpace.NthNext`).
* The deletion from the used addresses when a route goes uses the virtual's name as the key and
  removes nothing; the model leaves `used` unchanged there (`RouterSpec.HttpRemove`).
* A first drain that finds a reaped address or a record without a live virtual breaks the
  division of addresses, and two routes can then get one address
  (`Uniqueness.DrainExact`, `Uniqueness.DrainedAddressShared`).
* Unbinding a route with n > 1 members leaves 2n - 1 members (`RouterFacts.UnbindExact`,
  `RouterFacts.UnbindDoubles`).
* An Unbind of a route with more members than one leaves the plan's balance and monitor names
  (`RouterPlans.UnbindResets`), and every further endpoint of a route puts the monitors of the plan
  kept from before it appeared back in place (`RouterPlans.AddRevertsMonitors`).
* Wildcard rules are ordered by text only, so a less specific one can be applied where the lookup
  would find a more specific one (`Policy.WildcardPrecedenceFails`). The lookup takes a dot in the
  path for one in the host: for a.b/x.y it tries "*.y" in the end (`WildcardLookup.PathDotStrays`).
  Exactly when the two agree: `WildcardLookup.PolicyAgreesWithLookup`.
* A URI with a '*' in its path and none in its host makes the rule builder index past the end
  (`Policy.PathWildcardPanics`), with the pool and the virtual already stored
  (`Routers.F5Router.ProcessRouteAdd`). A URI with neither '.' nor '*' makes the name builder slice
  up to -1, so that reporting it panics (`RegistrySpec.PanicsExactly`). A run takes no such step.
  A URI that `url.Parse` refuses gets a nil rule, which the next policy that is made follows; the
  model has no such URIs.
* A route with two wildcards is registered and logged, and the router drops it
  (`HttpAgreement.TwoWildcardsDropped`; exactly when: `HttpAgreement.FollowAgrees`).
* A route added under two spellings, with and without a trailing slash, has two rules, and removing
  its last endpoint takes away only one of them (`RouterRuns.SlashRuleLingers`; exactly when:
  `RouterFacts.RemoveCoherent`).
* `-ttl * time.Second` overflows for lifetimes above 9223372036 seconds (`TableSpec.ExpiredExact`).
  The pruning interval is a number of nanoseconds that is multiplied by a second again: an entry
  without a lifetime lives for the interval exactly when the interval is zero
  (`TableSpec.DefaultExact`). With 30 seconds it expires at once, with 60 it stays for 147 years
  (`TableSpec.ThirtySecondsExpireAtOnce`, `TableSpec.SixtySecondsLinger`).
* A route key that ends in a slash is not a fixed point (`Uris.RouteKeyIdempotent`), and a route
  whose path text has outer slashes is pruned under another name, or silently
  (`RegistrySpec.SlashRouteLeaks`; exactly when: `RegistrySpec.PrunedInStep`).
* A request marked late is counted under the entry's last second (`TopSpec.OutOfOrderOvercounts`;
  exactly when: `TopSpec.RequestsCounted`).
* A snapshot whose tag goes backwards leaves the backend behind later
  (`ReconcileSpec.BackwardsTagLingers`; exactly when: `ReconcileSpec.RefreshExact`).

## Modelling decisions

* Every method that the source runs under a lock is one step. Time is a parameter: instants and
  durations are integers.
* BIG-IP object names are a datatype, different for different routes; SHA-256, JSON and base64
  are taken to be injective, so a data-group record is its name and the address it decodes to,
  and a cached record that does not decode has none.
* An IP address text stands for its 128-bit value; IPv4 addresses are the values that Go's
  16-byte form gives them.
* N, the number of addresses the cursor can reach, is the size of the block, except that an IPv6
  block that runs into the IPv4-mapped range ends there, because `Contains` refuses those.
* The pool's one index map is two maps here, because instance ids never equal an "address:port".
* Go's `container/heap`, `sort` and `net.IPNet.Contains` are modelled by what they do: the first
  by its own loops, the last as "same family and same prefix".
* `SucceededBy` is true when either guid is empty or they differ, and otherwise compares indices.
* Iteration over a Go map is iteration over a set in any order.
* Object identity that the source compares is a number in the endpoint (`ref`).
* A rule is determined by its URI, so the rule tables are sets of URIs; a URI that ends in a slash
  names the same object as the one without it and has a rule of its own.
* A panic has no next state: a run is a run of steps that do not panic, and which steps do is stated.

## Model

| member | source | states |
|---|---|---|
| `Paths.LongestMatchMeaning` | registry/container/trie.go:52-88 | the nearest registered ancestor is the longest registered prefix, and there is none exactly when no prefix is registered |
| `Paths.WalkPathText` | registry/container/trie.go:249-254 | walking a node's path text from the root leads back to the node |
| `Uris.RouteKeyIdempotent` | route/uris.go:33-39 | a route key is a fixed point exactly when it does not end in a slash, and never holds a query |
| `Uris.RouteKeyMeaning` | route/uris.go:14-39 | a key is the URI up to its query, without one slash at its very end, letter by letter but with no capital |
| `Uris.RouteKeyCase` | route/uris.go:14-39 | two URIs have one key exactly when those parts agree up to the case of letters |
| `Uris.PathTextNamesNode` | registry/container/trie.go:249-254 | the text of a node names that node again exactly when it has no outer slash |
| `Uris.NextWildcard` | route/uris.go:18-27 | the dots left after the "*." prefix strictly decrease |
| `Uris.CandidatesMeaning` | registry/registry.go:190-196 | for every key, the keys a lookup tries are the key and then "*." with 1, 2, ... labels dropped, a slash less at the end each time |
| `Policy.MakeRouteRule` | f5router/f5router.go:1114-1213 | the conditions built step by step are those of the rule, and the wildcard in the path alone is the panic |
| `Policy.ExactRuleMeaning` | f5router/f5router.go:1114-1203 | the rule of a plain URI matches exactly the requests whose host and leading segments are those of the URI, and its action names the route's virtual |
| `Policy.SortRules` | f5router/f5router.go:1227-1239 | the rules come out in descending order of URI, each once, numbered from the given ordinal |
| `Policy.MakeRoutePolicy` | f5router/f5router.go:1215-1255 | exact rules and then wildcard rules, each group descending, ordinals exactly 0 to n - 1 |
| `Policy.LongerFirst` | f5router/bigipResources/bigipResources.go:184-186 | reverse order puts a longer segment path before every prefix of it |
| `Policy.FirstMatchIsLongestPrefix` | f5router/f5router.go:1114-1255 | the first matching rule is that of the longest registered prefix, the route `MatchUri` picks, and targets its virtual; a wildcard rule is reached only when no exact rule matches |
| `Policy.RequestPosition` | registry/container/trie.go:52-88 | a plain request stands at the trie position that its URI text names |
| `Policy.TrieSeesExact` | registry/container/trie.go:52-88 | in the trie of exact and wildcard routes together, `MatchUri` finds for a host without '*' what it would find among the exact ones |
| `Policy.PolicyAgreesWithTrie` | f5router/f5router.go:1114-1255 | the rule applied to a request targets the virtual of the position that `MatchUri` picks for its URI in the whole trie, and an exact rule is applied exactly when `MatchUri` finds a route |
| `Policy.WildcardRuleTests` | f5router/f5router.go:1138-1178 | the rule of a wildcard host with any path matches exactly the hosts with its prefix and its suffix, whatever the request's path |
| `Policy.PathWildcardPanics` | f5router/f5router.go:1138-1178 | the rule cannot be made exactly when the URI has a '*' and its host has none |
| `Policy.WildcardRuleMeaning` | f5router/f5router.go:1138-1178 | a host is what the wildcard stands for exactly when the rule matches it and it is as long as prefix and suffix together, whatever the path |
| `Policy.WildcardOverlap` | f5router/f5router.go:1138-1178 | a shorter host can match where prefix and suffix overlap |
| `Policy.WildcardPrecedence` | f5router/f5router.go:1227-1250 | of two wildcards, one with a label more, the longer comes first exactly when its text is the greater |
| `Policy.WildcardPrecedenceFails` | f5router/f5router.go:1227-1250 | a less specific wildcard can come before a more specific one |
| `WildcardLookup.SuffixIsTail` | f5router/f5router.go:1158-1177 | a host ends in "." and a text exactly when the text follows one of its dots |
| `WildcardLookup.CandidatePositions` | registry/registry.go:190-196 | the keys a lookup tries stand at the request's position and then at those with "*." for what is before each dot, of the host first and then of each path segment |
| `WildcardLookup.StarMatches` | f5router/f5router.go:1138-1178 | the rule of a route with one wildcard in its host, with or without a path, matches exactly the hosts that start and end as it does |
| `WildcardLookup.CoversIsTail` | f5router/f5router.go:1138-1178 | the rule of a "*." route matches exactly the hosts for which the lookup tries the route's host |
| `WildcardLookup.LookupPicks` | registry/registry.go:185-202 | among exact and wildcard routes the lookup finds the longest exact prefix, else the longest wildcard route above the first candidate that has one above it, and nothing exactly when none has |
| `WildcardLookup.PolicyPicks` | f5router/f5router.go:1215-1255 | past the exact rules the policy applies the wildcard route for the host that sorts last, and none exactly when there is none for the host |
| `WildcardLookup.PolicyAgreesWithLookup` | f5router/f5router.go:1114-1255 | policy and lookup pick the same route exactly when an exact route covers the request, or the wildcard route found first is the one for the host that sorts last, or no wildcard route covers the host or lies above a candidate |
| `WildcardLookup.PathDotStrays` | registry/registry.go:185-202 | for a.b/x.y the lookup finds the route *.y, and the policy applies none |
| `PoolSpec.PutContents` | route/pool.go:128-162 | as a map from address to slot, Put inserts or replaces exactly the endpoint's address, if accepted, with the time of the Put and any failure kept |
| `PoolSpec.RemoveContents` | route/pool.go:206-221 | Remove takes exactly that address out, if accepted |
| `PoolSpec.NewestTagWins` | route/pool.go:128-162 | in any pool, after any timed Puts to any addresses, an address whose Puts carry one guid holds an endpoint put there with the greatest tag, and one with no Put is untouched |
| `PoolSpec.StoredIsWinner` | route/pool.go:128-162 | what an address holds after any Puts depends only on those to it, in order |
| `PoolSpec.UnversionedRenews` | route/pool.go:128-162 | whatever came before, a last Put without a version is accepted, and its address holds that endpoint with the time of that Put |
| `PoolSpec.UnversionedGivesWay` | route/pool.go:133-138 | an endpoint without a version gives way to every Put and every Remove |
| `PoolSpec.PruneContents` | route/pool.go:176-203 | the scan keeps exactly the fresh entries and reports every stale one once |
| `Pools.Pool.Put` | route/pool.go:128-162 | the slots become those of the specification, indices and both index maps stay right, and while ids are unique every endpoint stays findable by its own |
| `Pools.Pool.Remove` | route/pool.go:206-221 | swap-delete of the stored endpoint when its tag gives way |
| `Pools.Pool.RemoveEndpoint` | route/pool.go:223-236 | the last slot fills the hole with its back-index corrected and both keys gone |
| `Pools.Pool.PruneEndpoints` | route/pool.go:176-203 | the in-place scan is the specified one, position by position |
| `Pools.Pool.MarkUpdated` | route/pool.go:267-273 | every slot gets the time and nothing else changes |
| `Pools.Pool.EndpointFailed` | route/pool.go:275-282 | exactly the slot of the address is marked |
| `Pools.Pool.FindById` | route/pool.go:247-257 | the endpoint of that address, or else the one indexed under that id, or none; with full ids every endpoint is found by its own |
| `Pools.Pool.Indexed` | route/pool.go:73-86 | addresses are one to one with the slots and the index leads to each |
| `RoundRobinSpec.ChooseMeaning` | route/roundrobin.go:44-89 | the choice is the first available endpoint in cyclic order with its failure forgotten, or the start with all failures cleared, and the next index is the place after it |
| `RoundRobinSpec.FailureWindow` | route/roundrobin.go:60-77 | a failed endpoint is passed over for the retry time while somebody has not failed, and served again after it |
| `RoundRobinSpec.ServedInTurn` | route/roundrobin.go:44-89 | without failures successive calls serve the endpoints in turn, from the stored index, from the front if it is past the end, or from a random one if there is none |
| `RoundRobinSpec.Fair` | route/roundrobin.go:44-89 | without failures, from any stored index and with any random numbers and times, k * len successive calls serve each endpoint exactly k times |
| `RoundRobins.RoundRobin.Scan` | route/roundrobin.go:60-88 | the loop ends for every pool and failure pattern with the specified choice |
| `RoundRobins.RoundRobin.NextInRound` | route/roundrobin.go:44-89 | the endpoint, the failures and the next index are those of the specification |
| `RoundRobins.RoundRobin.Next` | route/roundrobin.go:28-42 | the initial endpoint, named by address or id, is served once if it is there; otherwise the round's choice |
| `Tries.Trie.Find` | registry/container/trie.go:22-49 | exact lookup in the map from positions to pools |
| `Tries.Trie.MatchUri` | registry/container/trie.go:52-88 | the pool of the longest registered prefix |
| `Tries.Trie.Insert` | registry/container/trie.go:90-118 | the map gets exactly that entry, links stay consistent, no branch leads nowhere |
| `Tries.Trie.Delete` | registry/container/trie.go:120-145 | exactly the one registered position goes |
| `Tries.Trie.DeleteEmptyNodes` | registry/container/trie.go:147-178 | the branch that only led to the deleted node is cut off and nothing registered is lost |
| `Tries.Trie.Snip` | registry/container/trie.go:238-247 | the empty pools on the way up go with the leaves that become bare, and no other |
| `Tries.Trie.ToPath` | registry/container/trie.go:249-254 | following parent links gives the slash-joined segments of the node's position |
| `Tries.Trie.PoolCount` | registry/container/trie.go:180-200 | the recursive count is the number of registered positions |
| `Tries.Trie.NodesArePrefixes` | registry/container/trie.go:147-178 | in a valid trie the nodes are exactly the root and the prefixes of registered positions |
| `RegistrySpec.LogMirrorsIndex` | registry/registry.go:95-183 | over every run the folded log is at every point exactly the set of pairs in the index, with Adds and Removes of a pair alternating and no stored pool empty, if and only if every step was reportable |
| `RegistrySpec.StepInStep` | registry/registry.go:95-348 | one step keeps log and index in step exactly when it is reportable |
| `RegistrySpec.ProperRunMirrored` | registry/registry.go:95-348 | a run that registers only routes whose text names them keeps log and index in step throughout |
| `RegistrySpec.PanicsExactly` | f5router/httpUpdate.go:121-156 | at any point of a run a step panics exactly when it would report a key with neither '.' nor '*'; pruning never does |
| `RegistrySpec.RegisterInStep` | registry/registry.go:95-143 | registering keeps log and index in step exactly when the key is not empty or the pair was there |
| `RegistrySpec.UnregisterInStep` | registry/registry.go:145-183 | unregistering does exactly when the key is not empty or nothing is removed |
| `RegistrySpec.PrunedInStep` | registry/registry.go:306-348 | pruning does exactly when every stale route's text names it |
| `RegistrySpec.PrunedPairs` | registry/registry.go:306-348 | the pairs after pruning are the old pairs without the stale ones |
| `RegistrySpec.CycleKeeps` | registry/registry.go:306-348 | a prune cycle keeps every pair exactly when it is suspended, or the first after a suspension with a threshold that is not negative, or nothing is stale; then the log is unchanged too |
| `RegistryLives.IndexIsItsLives` | registry/registry.go:95-348 | at every point of every run the index holds a pair, its endpoint and its time exactly as the events so far alone say, and the registry counts as disconnected exactly when the last tick was suspended |
| `RegistryLives.StaleIsOverdue` | route/pool.go:186-193 | an endpoint is dropped exactly when not heard of for longer than the threshold or than its own positive one |
| `RegistryLives.SecondTickPrunes` | registry/registry.go:306-348 | of two ticks in a row that are not suspended the second drops exactly the pairs not heard of for too long and refreshes none |
| `RegistryLives.FirstTickRefreshes` | registry/registry.go:316-323 | the first tick after a suspension, with a threshold that is not negative, gives every pair its time and drops none |
| `RegistryLives.CaseDoesNotMatter` | registry/registry.go:95-202 | URIs with one key are one route to Register, Unregister and Lookup |
| `RegistryLives.UnregisterUndoes` | registry/registry.go:95-183 | what was registered under one spelling is unregistered under another, and no other pair is touched |
| `RegistrySpec.SlashRouteLeaks` | registry/registry.go:332-346 | a route with outer slashes is registered and logged, and pruning it leaves the log behind |
| `RegistrySpec.FirstHitMeaning` | registry/registry.go:185-202 | the answer is the longest match of the first candidate that has any |
| `RegistrySpec.LookupPrefersExact` | registry/registry.go:185-202 | for every key, the key itself beats every wildcard and a longer wildcard a shorter one |
| `Registries.RouteRegistry.Register` | registry/registry.go:95-143 | the trie, the pools and the log become those of the specification |
| `Registries.RouteRegistry.Unregister` | registry/registry.go:145-183 | likewise, with the route deleted when its pool becomes empty |
| `Registries.RouteRegistry.Lookup` | registry/registry.go:185-202 | ends, and returns the pool of the specified route |
| `Registries.RouteRegistry.PruneBelow` | registry/registry.go:332-347 | the recursive scan below a node prunes exactly the routes below it, though nodes go while it runs |
| `Registries.RouteRegistry.FreshenRoutes` | registry/registry.go:357-362 | every endpoint of every route gets the time |
| `Registries.RouteRegistry.PruneStaleDroplets` | registry/registry.go:306-348 | one cycle is the specified one: suspended, refreshed first, or pruned |
| `HeapOrder.RiseStep` | stats/container/heap.go:20-24 | one exchange with the parent moves the only misplaced key up |
| `HeapOrder.SinkStep` | stats/container/heap.go:20-24 | one exchange with the smaller child moves the only misplaced key down |
| `HeapOrder.FirstIsLeast` | stats/container/heap.go:32-38 | the first key of an ordered heap is the smallest |
| `Heaps.Heap.Swap` | stats/container/heap.go:20-24 | two entries change places with their stored indices, entries and keys otherwise unchanged |
| `Heaps.Heap.Push` | stats/container/heap.go:26-30 | the heap has the entry in addition, ordered and indexed |
| `Heaps.Heap.Pop` | stats/container/heap.go:32-38 | an entry of least rank goes and no other |
| `Heaps.Heap.Remove` | stats/container/heap.go:20-38 | exactly the entry at the index goes |
| `Heaps.Heap.SnapshotOf` | stats/container/heap.go:44-49 | a copy with the same entries that keeps no indices |
| `Heaps.Placed` | stats/top_apps.go:160-168 | every entry is in each heap where its index field says |
| `Heaps.Detach` | stats/top_apps.go:160-168 | removal by the stored indices takes that very entry out of both heaps |
| `ActiveSpec.TimeIsLatestMark` | stats/active_apps.go:119-162 | over every run an entry's time is the latest mark since it was last inserted, zero at least |
| `ActiveSpec.PresentExactly` | stats/active_apps.go:119-162 | over every run an application is listed exactly when one of its marks is after every later cutoff, at the time of the latest such mark |
| `ActiveApps.ActiveApps.Mark` | stats/active_apps.go:119-139 | exactly that application's time is raised, both heaps and the map stay in step |
| `ActiveApps.ActiveApps.Trim` | stats/active_apps.go:141-162 | exactly the entries at or before the cutoff go |
| `ActiveApps.ActiveApps.ActiveSince` | stats/active_apps.go:164-188 | exactly the applications at or after the cutoff, latest first, nothing changed |
| `TopSpec.MarkGood` | stats/top_apps.go:35-45 | slots stay non-empty and strictly rising, and the count stays their sum |
| `TopSpec.LaterMeaning` | stats/top_apps.go:48-65 | what is left after a trim is exactly the slots after the cutoff, in order |
| `TopSpec.RunGood` | stats/top_apps.go:154-217 | every entry of every run has rising slots whose sum is its count |
| `TopSpec.RequestsCounted` | stats/top_apps.go:35-65 | over every run the table counts the requests marked after the cutoff and the late ones that followed them, and no other; it is exact if and only if no mark at or before the cutoff follows one after it |
| `TopSpec.ReportedRequests` | stats/top_apps.go:231-254 | an application is reported exactly when it has a request at or after the time, with those and the late ones, and exactly if and only if none was late |
| `TopSpec.OutOfOrderOvercounts` | stats/top_apps.go:35-45 | a late mark is counted under the entry's last second |
| `TopApps.TrimSlots` | stats/top_apps.go:48-65 | the loop removes exactly the slots up to the cutoff and their requests |
| `TopApps.TopApps.Mark` | stats/top_apps.go:154-180 | exactly that application's usage is marked, and the entries removed are the entry itself |
| `TopApps.TopApps.TrimRound` | stats/top_apps.go:185-216 | one round settles the earliest entry, and fewer entries are left to touch |
| `TopApps.TopApps.Trim` | stats/top_apps.go:182-224 | ends, with every usage trimmed and the empty ones gone |
| `TopApps.TopApps.TopSince` | stats/top_apps.go:231-254 | trims to the second before and returns the n largest counts in descending order |
| `TopApps.TopApps.Top` | stats/top_apps.go:238-253 | the report comes from a copy and leaves the live heaps alone |
| `Addresses.IncrementedValue` | f5router/f5router.go:989-994 | the byte-carry increment is plus one, wrapping at the top |
| `Addresses.Increment` | f5router/f5router.go:985-994 | the loop over the bytes of a copy is that increment |
| `AddressSpace.SamePrefix` | f5router/f5router.go:343-383 | equal prefixes mean the aligned range of the block |
| `AddressSpace.ReachMeaning` | f5router/f5router.go:996-1001 | the increment leaves the block exactly after its reachable addresses |
| `AddressSpace.NthNext` | f5router/f5router.go:964-979 | the next address is the next port, or port 10001 of the next IP |
| `AddressSpace.NthInjective` | f5router/f5router.go:964-979 | the cursor never comes to an address twice |
| `AddressSpace.NthInside` | f5router/f5router.go:945-983 | every address of the cursor lies in the block and the port range, and the last is port 65535 of the last IP |
| `AddressSpace.FirstFreeMeaning` | f5router/f5router.go:958-979 | the scan finds the first free address at or after the cursor, and fails exactly when all are used |
| `AddressSpace.CapacityExact` | f5router/f5router.go:945-983 | from a fresh start exactly 55536 + (N - 1) * 55535 allocations succeed, the i-th with the i-th address, and no later one |
| `AddressSpace.DistinctAddresses` | f5router/f5router.go:945-983 | the addresses handed out up to the capacity are that many different ones |
| `Allocators.Tier2.IncrementHolderIP` | f5router/f5router.go:985-1002 | the next IP of the block, or an error exactly at its end with the IP kept |
| `Allocators.Tier2.ScanFree` | f5router/f5router.go:958-983 | the loop ends at the first free address of the cursor's order and marks it used |
| `Allocators.Tier2.GetAvailable` | f5router/f5router.go:945-983 | a reaped address first, the last one moved into its place; else the scan |
| `Members.RemovedDistinct` | f5router/f5router.go:1484-1506 | without duplicates the loop swap-deletes exactly the member looked for |
| `Members.SelfRemovedDistinct` | f5router/f5router.go:1484-1506 | handed the stored pool itself, it swap-deletes exactly the first member |
| `Members.RemovedMembers` | f5router/f5router.go:1484-1506 | the members left are the others, none twice |
| `Members.RemovedAmong` | f5router/f5router.go:1484-1506 | with duplicates too, whatever is left was a member before |
| `Members.SelfRemovedEmpty` | f5router/f5router.go:1484-1506 | handed the stored pool itself, the loop empties it exactly when it has one member |
| `RouterFacts.StepExact` | f5router/f5router.go:1257-1453 | an update keeps pool, rule and virtual names the same set, every virtual's record its destination and every pool non-empty without duplicates, exactly when it is regular: it does not unbind a route with more members than one or take the last member of a route that has a rule under another spelling |
| `RouterFacts.RemoveCoherent` | f5router/f5router.go:1389-1427 | a removal does exactly when it leaves a member or the route's only spelling is the one removed |
| `RouterFacts.TruncateCoherent` | f5router/f5router.go:1083-1112 | the first drain keeps all that and leaves no HTTP record without a live virtual |
| `RouterFacts.UnbindExact` | f5router/f5router.go:1349-1387 | unbinding a mapped route keeps it exactly when the route has one member |
| `RouterFacts.UnbindDoubles` | f5router/f5router.go:1349-1387 | with more, the members become the swap-deleted list followed by all of them |
| `RouterFacts.BindChangesPlanOnly` | f5router/f5router.go:1293-1347 | members in order, description and destination stay, other routes are untouched, and binding twice is binding once |
| `RouterFacts.BindBeforeOrAfterAdd` | f5router/f5router.go:1267-1275 | binding before the first endpoint and binding after it give the same resources, whether the endpoint was taken in or not |
| `RouterFacts.DestinationKept` | f5router/f5router.go:899-943 | no update changes the destination of a route that stays live |
| `RouterFacts.StepSound` | f5router/f5router.go:1257-1453 | every update, regular or not, keeps every virtual's record its destination and every HTTP pool described with members that have addresses |
| `RouterFacts.DescriptionTells` | f5router/f5router.go:155-162 | a description begins with the route and tells applications apart |
| `Uniqueness.DestinationsDiffer` | f5router/f5router.go:899-943 | while used addresses are divided, different live routes have different destinations |
| `Uniqueness.AssignPartitioned` | f5router/f5router.go:899-983 | assigning an address keeps used the disjoint union of recorded and reaped |
| `Uniqueness.RemovePartitioned` | f5router/f5router.go:1403-1426 | removing a route moves its address from the records to the reaped list |
| `Uniqueness.DrainExact` | f5router/f5router.go:1083-1112 | the first drain keeps the division exactly when nothing is reaped and every record is live |
| `Uniqueness.DrainRepeats` | f5router/f5router.go:1104-1110 | an address reaped before the drain is listed twice after it |
| `Uniqueness.DrainedAddressShared` | f5router/f5router.go:948-954 | after a drain that lost a record two routes get one address |
| `Uniqueness.CachedUses` | f5router/f5router.go:1055-1077 | exactly the addresses of cached records that lie in the block with a port up to 65535 become used |
| `Uniqueness.CachedDivided` | f5router/f5router.go:1055-1077 | with unique names a start from the cache divides the used addresses |
| `Uniqueness.CachedKeeps` | f5router/f5router.go:1055-1077 | a record in range that no earlier one collides with is kept with its address |
| `Uniqueness.AssignExact` | f5router/f5router.go:899-983 | an assignment succeeds exactly when the route is live or recorded, an address is reaped, or some address of the block is in no record |
| `Uniqueness.RoomByCount` | f5router/f5router.go:945-983 | with fewer records than the capacity there is room |
| `RouterRuns.StepReady` | f5router/f5router.go:689-715 | every update can follow every update |
| `RouterRuns.RunExact` | f5router/f5router.go:1257-1453 | over every run the names agree at every point if and only if every update so far was regular |
| `RouterRuns.RunCoherent` | f5router/f5router.go:1257-1453 | over every regular run the names agree and every virtual has its record |
| `RouterRuns.SlashRuleLingers` | f5router/f5router.go:1389-1427 | after a route was added again with a slash, removing its last endpoint leaves a rule without a virtual |
| `RouterRuns.DestinationStable` | f5router/f5router.go:899-943 | a route that stays live keeps its destination over the run |
| `RouterRuns.RunSound` | f5router/f5router.go:1257-1453 | so does every run |
| `RouterRuns.RecordsAreLive` | f5router/f5router.go:1083-1112 | on every run, from the first drain on, the HTTP records are exactly those of live virtuals |
| `RouterRuns.RunPartitioned` | f5router/f5router.go:899-983 | without a removal before the first drain, and with the cached routes live at it, used is always the disjoint union of recorded and reaped |
| `RouterRuns.NoSharedAddress` | f5router/f5router.go:899-983 | so no two live virtuals ever share a destination |
| `RouterRuns.RunAccounted` | f5router/f5router.go:899-983 | over every run with a harmless first drain every address that the cursor has passed is recorded or reaped |
| `RouterRuns.NoAddressLost` | f5router/f5router.go:945-983 | so an assignment fails only when the records themselves hold the whole block; while they are fewer than the capacity it succeeds |
| `RouterRuns.RestartStable` | f5router/f5router.go:1055-1077 | until a removal or the first drain a kept record's route gets precisely its address and no other route does |
| `RouterPlans.PlansInForce` | f5router/f5router.go:1257-1427 | over every run a live route's balance, monitor names, profiles, policies, monitors and description are those its history of Adds, Binds and Unbinds gives the configuration, and a plan is kept for it exactly as that history says |
| `RouterPlans.SettingsInForce` | f5router/httpUpdate.go:248-278 | each setting is that of the last plan in force that sets it, else the configured one |
| `RouterPlans.BindApplies` | f5router/f5router.go:1293-1347 | a Bind of a live route sets balance, monitor names, profiles and policies where the plan does, and the monitors to the plan's, to none or not at all, by case |
| `RouterPlans.NewUnder` | f5router/f5router.go:1267-1275 | a new route has the configured settings, under the plan kept for it |
| `RouterPlans.AddRevertsMonitors` | f5router/f5router.go:1273-1287 | another endpoint leaves a live route's monitors alone exactly when no plan is kept for it, or that plan defines none, or the same |
| `RouterPlans.UnbindResets` | f5router/f5router.go:1349-1387 | an Unbind resets virtual and monitors, and the pool exactly when it has one member or the defaults anyway |
| `RouterPlans.RunTcpPlain` | f5router/f5router.go:1429-1453 | over every run TCP pools and virtuals have the configured settings |
| `Routers.F5Router.AddPool` | f5router/f5router.go:1463-1481 | the member is appended once to the stored pool, or the pool stored |
| `Routers.F5Router.RemovePool` | f5router/f5router.go:1484-1506 | the specified removal, also when the pool handed in is the stored object |
| `Routers.F5Router.SweepMembers` | f5router/f5router.go:1490-1498 | the loop over a slice that shrinks under it leaves the specified members |
| `Routers.F5Router.AddVirtual` | f5router/f5router.go:1508-1515 | an existing virtual stays |
| `Routers.F5Router.AssignVSPort` | f5router/f5router.go:899-943 | the destination of the live virtual, of the record, or a new address with a record; an error changes only the cursor |
| `Routers.F5Router.UpdateResources` | f5router/httpUpdate.go:248-278 | the objects handed in get exactly the fields the plan sets |
| `Routers.F5Router.ProcessRouteAdd` | f5router/f5router.go:1257-1291 | the new state is that of the specification, error paths included, and it panics exactly when the rule cannot be made |
| `Routers.F5Router.ProcessRouteRemove` | f5router/f5router.go:1389-1427 | likewise |
| `Routers.F5Router.Rebind` | f5router/f5router.go:1302-1336 | taking the stored objects out, changing and re-adding them only applies the plan, for any number of members |
| `Routers.F5Router.ProcessRouteBind` | f5router/f5router.go:1293-1347 | the new state is that of the specification, mapped or not, plan found or not |
| `Routers.F5Router.ProcessRouteUnbind` | f5router/f5router.go:1349-1387 | likewise, whatever the number of members |
| `Routers.F5Router.ProcessTcpRouteAdd` | f5router/f5router.go:1429-1439 | the member and the virtual are there |
| `Routers.F5Router.ProcessTcpRouteRemove` | f5router/f5router.go:1441-1453 | the member goes, and pool and virtual with the last one |
| `Routers.F5Router.TruncateInternalDataGroup` | f5router/f5router.go:1083-1112 | records of live virtuals stay, their addresses are the used ones, the other used ones are appended to the reaped |
| `Routers.F5Router.ProcessCachedDataGroup` | f5router/f5router.go:1055-1077 | the records kept and the addresses used are those of the specification |
| `TableSpec.ExpiredExact` | routingtable/routingtable.go:121-128 | the test agrees at every instant with the entry's own lifetime, or the default if it has none, exactly for lifetimes up to 9223372036 seconds either way |
| `TableSpec.DefaultExact` | routingtable/routingtable.go:121-128 | an entry without a lifetime expires after the pruning interval, at all instants, exactly when the interval is zero |
| `TableSpec.ThirtySecondsExpireAtOnce` | routingtable/routingtable.go:237-254 | with 30 seconds it has expired as soon as it is there |
| `TableSpec.SixtySecondsLinger` | routingtable/routingtable.go:121-128 | with 60 seconds it stays for 4659767778871345152 nanoseconds |
| `TableSpec.PrunedMeaning` | routingtable/routingtable.go:131-157 | exactly the backends that have not expired stay, unchanged, and no empty route |
| `TableSpec.StepAnnounces` | routingtable/routingtable.go:131-234 | every operation announces exactly the backends it adds and removes and leaves no empty route |
| `TableLives.TableIsItsLives` | routingtable/routingtable.go:131-234 | at every point of every run the table holds a backend with its tag, lifetime and time exactly as the events so far alone say |
| `TableLives.UnversionedRenews` | routingtable/routingtable.go:171-204 | whatever came before, an upsert without a version is taken, with its lifetime and its time |
| `TableLives.NewestUpsertHeld` | routingtable/routingtable.go:171-204 | of upserts under one guid in any order the one with the greatest index is held, with the details it came with |
| `RoutingTables.RoutingTable.UpsertBackendServerKey` | routingtable/routingtable.go:171-204 | a new backend is stored and announced, a newer tag stored silently, a stale one ignored |
| `RoutingTables.RoutingTable.DeleteBackendServerKey` | routingtable/routingtable.go:207-234 | the backend goes and is announced when its tag gives way, with the route if it was the last |
| `RoutingTables.RoutingTable.PruneBackends` | routingtable/routingtable.go:131-140 | exactly the expired backends are removed and listed once |
| `RoutingTables.RoutingTable.PruneEntries` | routingtable/routingtable.go:143-157 | the table is the pruned one and every removal is sent once |
| `TcpAgreement.AgreeMeaning` | f5router/f5router.go:1429-1453 | agreement means the pool and the virtual of a port exist exactly when the table has the port, with exactly its backends as members, none twice |
| `TcpAgreement.StepAgrees` | routingtable/routingtable.go:131-234 | after any table operation, its updates delivered in order, table and router agree |
| `TcpAgreement.HttpLeavesTcp` | f5router/f5router.go:1257-1427 | HTTP updates and the first drain leave the TCP pools and virtuals alone |
| `TcpAgreement.SystemAgrees` | routingtable/routingtable.go:301-322 | over every run of table operations and any other updates table and router agree |
| `HttpAgreement.FollowAgrees` | f5router/f5router.go:1257-1427 | processing one update of the log changes the HTTP pools by exactly its (route, address) pair if and only if it is a Remove, or an Add with at most one wildcard, an address and room for its route |
| `HttpAgreement.TwoWildcardsDropped` | f5router/f5router.go:118-125 | adding "*.a.*.c", which the registry takes, changes nothing |
| `HttpAgreement.AsideAgrees` | f5router/f5router.go:689-715 | plan changes, TCP updates and the first drain keep the HTTP pools right if and only if they unbind no route with more members than one |
| `HttpAgreement.PoolsFollowLog` | registry/registry.go:364-378 | over every run the HTTP pools hold at every point exactly what the log followed so far adds up to, if and only if every Add was taken in and every Unbind was of one member |
| `HttpAgreement.IndexIsServed` | registry/registry.go:95-183 | when the router has followed a registry's whole log, every Add taken in and every Unbind of one member, its HTTP pools hold exactly the endpoints of the index |
| `HttpAgreement.AgreesMeaning` | f5router/f5router.go:1463-1506 | then a route has a pool exactly when it is registered, with exactly its addresses as members |
| `EndToEnd.RulePaths` | f5router/f5router.go:1521-1556 | the positions of the exact rules are the registered routes without a wildcard, and those of all rules the registered routes |
| `EndToEnd.TargetServes` | f5router/f5router.go:1128-1135 | every rule, wildcard or not, targets a live virtual whose pool holds exactly the endpoints registered at the rule's route |
| `EndToEnd.RequestReachesItsRoute` | f5router/f5router.go:1114-1255 | the rule applied to a request targets the live virtual of the longest registered route without a wildcard that is a prefix of it, the one `MatchUri` finds, else that of a wildcard route; either way the pool behind it holds exactly the endpoints registered at that route |
| `EndToEnd.RequestMeetsLookup` | registry/registry.go:185-202 | that route is the one the registry's lookup finds exactly under the condition of `WildcardLookup.PolicyAgreesWithLookup` |
| `ReconcileSpec.RefreshedAt` | routefetcher/tcp_fetcher.go:119-152 | after a refresh a pair is stored exactly when the new snapshot lists it, or it was stored and no mapping of the last snapshot releases its tag |
| `ReconcileSpec.RefreshRenews` | routefetcher/tcp_fetcher.go:119-128 | what a pair holds after a refresh was there before or came with one of its mappings, with its lifetime and the refresh's time; a last mapping without a version is always taken |
| `ReconcileSpec.RefreshExact` | routefetcher/tcp_fetcher.go:119-152 | a refresh of any table leaves exactly the new snapshot's pairs if and only if every stored pair that vanishes is released |
| `ReconcileSpec.RefreshesExact` | routefetcher/tcp_fetcher.go:119-152 | over any number of refreshes the table holds each snapshot's pairs in turn if and only if that was so at each of them |
| `ReconcileSpec.RefreshSyncs` | routefetcher/tcp_fetcher.go:119-152 | a refresh whose tags do not go backwards leaves exactly the new snapshot's pairs under their last tags |
| `ReconcileSpec.RefreshesSync` | routefetcher/tcp_fetcher.go:119-152 | so does any number of refreshes from an empty table |
| `ReconcileSpec.RefreshedPairs` | routefetcher/tcp_fetcher.go:119-152 | while no tag goes backwards, a pair is in the table exactly when the last snapshot has it |
| `ReconcileSpec.DiffTags` | routefetcher/tcp_fetcher.go:130-147 | the difference holds exactly the pairs that are gone, under their last tags |
| `ReconcileSpec.BackwardsTagLingers` | routefetcher/tcp_fetcher.go:119-152 | a tag that went backwards keeps a vanished pair in the table |
| `TcpFetchers.TcpFetcher.RefreshTcpEndpoints` | routefetcher/tcp_fetcher.go:119-128 | the table becomes the refreshed one and the snapshot is remembered |
| `TcpFetchers.TcpFetcher.DeleteTcpEndpoints` | routefetcher/tcp_fetcher.go:130-152 | every route that is gone is deleted, in order |
| `TcpFetchers.TcpFetcher.FindGone` | routefetcher/tcp_fetcher.go:131-147 | the nested loops find the difference of the snapshots |

## Left out

- NATS, UAA, the routing API, the BIG-IP client, the Python driver, the configuration writer, retries: I/O.
- The work queue: updates are delivered in order, without de-duplication or rate limits.
- Goroutines, mutexes and tickers: a locked method is one step, and a snapshot is read in the step that takes it.
- `url.Parse`, regular expressions, JSON, YAML, base64, SHA-256: taken as given; URIs that `url.Parse` refuses or rewrites are not part of the policy model.
- Case folding beyond ASCII in route keys.
- The two front virtuals (HTTP and HTTPS): they hold no address of the block; a cached record under one of their names is not considered.
- `CreatePlanResources` and the text of iRules, profiles and monitors: a plan is the value of the fields it sets.
- The broker data group and the service broker.
- `LeastConnection`, `LookupWithInstance`, `ToMap`, `EndpointCount`, `PruneDeadLeaves`, the HTTP fetcher, metrics, varz, health check: they would only add easy members.
- 64-bit overflow of counters and of times other than the lifetime product.
- Policy.FirstMatchIsLongestPrefix: speaks of exact routes with non-empty segments and characters that `url.Parse` gives back unchanged.
- WildcardLookup.PolicyAgreesWithLookup: speaks of wildcard routes with one wildcard, in the host, and no empty segment, and of requests without empty segments, with no '*' in the host and no character that a route key would change.
- Policy.PolicyAgreesWithTrie: speaks of requests with no '*' in the host and no empty segment.
- HttpAgreement.PoolsFollowLog: asks that URIs are the text of their position and that the first drain is harmless; a harmful one divides the addresses no longer (`Uniqueness.DrainExact`).
- HttpAgreement.IndexIsServed: asks that everything was taken in; `HttpAgreement.PoolsFollowLog` says that it must be.
- EndToEnd.RequestReachesItsRoute: speaks of plain exact routes and of requests without empty segments.
- RouterRuns.RunCoherent: asks for a regular run; `RouterRuns.RunExact` gives both directions.
- RouterRuns.RunPartitioned: asks for a harmless first drain; `Uniqueness.DrainExact` says exactly which drains are.
- ReconcileSpec.RefreshesSync: asks that from one snapshot to the next no tag of a pair goes backwards under one guid, because it speaks of tags too; `ReconcileSpec.RefreshesExact` gives the pairs without that.
- Pools.Pool.FindById: with instance ids that collide, which address an id leads to depends on the order of events and is not promised; the source then deletes the key with either endpoint.
- Names of wildcard objects: the source gives "*.a_b" and "a*b" one name; in the model different routes have different names.
