/**
 The routing policy: route URIs become rules whose conditions test the request, the rules
 are sorted in reverse and numbered, and BIG-IP applies the first one that matches
 (f5router/f5router.go, makeRouteRule and makeRoutePolicy).
 */
module Policy {
  import opened Wrappers
  import opened Text
  import opened Paths
  import opened Uris

  /** A policy condition on the Host header or on one (1-based) path segment. */
  datatype Condition =
    | HostEquals(value: string)
    | HostStartsWith(value: string)
    | HostEndsWith(value: string)
    | SegmentEquals(index: nat, value: string)

  datatype Rule = Rule(fullUri: string, target: Name, conditions: seq<Condition>, ordinal: int)

  datatype Request = Request(host: string, segments: seq<string>)

  predicate Holds(c: Condition, q: Request) {
    match c
    case HostEquals(v) => q.host == v
    case HostStartsWith(v) => HasPrefix(q.host, v)
    case HostEndsWith(v) => HasSuffix(q.host, v)
    case SegmentEquals(i, v) => 1 <= i <= |q.segments| && q.segments[i - 1] == v
  }

  predicate Matches(r: Rule, q: Request) {
    forall c :: c in r.conditions ==> Holds(c, q)
  }

  /** "/Common/first-match": the first rule in ordinal order whose conditions all hold. */
  function FirstMatch(rules: seq<Rule>, q: Request): (r: Option<nat>)
    ensures r.Some? ==> r.value < |rules| && Matches(rules[r.value], q)
    ensures r.Some? ==> forall k :: 0 <= k < r.value ==> !Matches(rules[k], q)
    ensures r.None? ==> forall k :: 0 <= k < |rules| ==> !Matches(rules[k], q)
  {
    if rules == [] then None
    else if Matches(rules[0], q) then Some(0)
    else match FirstMatch(rules[1..], q)
      case None =>
        assert forall k :: 1 <= k < |rules| ==> rules[k] == rules[1..][k - 1];
        None
      case Some(i) =>
        assert forall k :: 1 <= k < |rules| ==> rules[k] == rules[1..][k - 1];
        Some(i + 1)
  }

  /** What `url.Parse` yields for a URI without escapes, ports, users or queries. */
  function HostPart(u: string): string {
    var i := IndexOf(u, '/');
    if i < 0 then u else u[..i]
  }

  function PathPart(u: string): string { u[|HostPart(u)|..] }

  function SegmentConditions(segments: seq<string>): seq<Condition> {
    seq(|segments|, i requires 0 <= i < |segments| => SegmentEquals(i + 1, segments[i]))
  }

  function ExactConditions(u: string): seq<Condition> {
    [HostEquals(HostPart(u))] +
    if PathPart(u) == [] then [] else SegmentConditions(Split(TrimPrefix(PathPart(u), "/"), '/'))
  }

  function WildcardConditions(splits: seq<string>): seq<Condition>
    requires |splits| >= 2
  {
    (if splits[0] != "" then [HostStartsWith(splits[0])] else []) +
    (if splits[|splits| - 1] != "" then [HostEndsWith(splits[|splits| - 1])] else [])
  }

  /**
   The rule of a URI. None stands for the run-time panic of the source: a '*' that is only
   in the path leaves no second host part to index.
   */
  function RuleFor(uri: string): (r: Option<Rule>) {
    var target := NameOf(uri);
    var full := UriString(uri);
    var u := TrimSuffix(full, "/");
    if '*' in full then
      var splits := Split(HostPart(u), '*');
      if |splits| < 2 then None else Some(Rule(full, target, WildcardConditions(splits), 0))
    else
      Some(Rule(full, target, ExactConditions(u), 0))
  }

  method MakeRouteRule(uri: string) returns (r: Option<Rule>)
    ensures r == RuleFor(uri)
  {
    var full := UriString(uri);
    var u := TrimSuffix(full, "/");
    var c: seq<Condition>;
    if '*' in full {
      var splits := Split(HostPart(u), '*');
      c := [];
      if splits[0] != "" { c := c + [HostStartsWith(splits[0])]; }
      if |splits| < 2 { return None; }
      var last := splits[|splits| - 1];
      if last != "" { c := c + [HostEndsWith(last)]; }
      assert c == WildcardConditions(splits);
    } else {
      c := [HostEquals(HostPart(u))];
      if |PathPart(u)| != 0 {
        var segments := Split(TrimPrefix(PathPart(u), "/"), '/');
        for i := 0 to |segments|
          invariant c == [HostEquals(HostPart(u))] + SegmentConditions(segments[..i])
        {
          assert SegmentConditions(segments[..i + 1]) ==
                 SegmentConditions(segments[..i]) + [SegmentEquals(i + 1, segments[i])];
          c := c + [SegmentEquals(i + 1, segments[i])];
        }
        assert segments[..|segments|] == segments;
      }
      assert c == ExactConditions(u);
    }
    r := Some(Rule(full, NameOf(uri), c, 0));
  }

  // ---------------------------------------------------------------------------------
  // Meaning of one rule

  /**
   A character that `url.Parse` takes in a host and in a path and that `EscapedPath` gives back as
   it is; '%', '@', ':', '?', '#', spaces, quotes, braces and anything outside ASCII are not.
   */
  predicate PlainChar(c: char) {
    'a' <= c <= 'z' || 'A' <= c <= 'Z' || '0' <= c <= '9' || c in "-_.~!$&'()+,;=/"
  }

  /** A route URI with non-empty segments, no wildcard and nothing that `url.Parse` would rewrite or refuse. */
  predicate PlainUri(u: string) {
    && (forall k :: 0 <= k < |Split(u, '/')| ==> Split(u, '/')[k] != "")
    && (forall c :: c in u ==> PlainChar(c))
  }

  function RequestPath(q: Request): Path { Extend(Root, [q.host] + q.segments) }

  lemma PlainEnds(u: string)
    requires PlainUri(u)
    ensures UriString(u) == u && TrimSuffix(u, "/") == u && TrieKey(u) == u
  {
    if u != "" && u[0] == '/' {
      assert IndexOf(u, '/') == 0;
      assert Split(u, '/')[0] == "";
    }
    if u != "" && u[|u| - 1] == '/' { LastSegmentEmpty(u); }
  }

  lemma {:induction false} LastSegmentEmpty(u: string)
    requires u != "" && u[|u| - 1] == '/'
    ensures Split(u, '/')[|Split(u, '/')| - 1] == ""
    decreases |u|
  {
    hide IndexOf, Split;
    var i := IndexOf(u, '/');
    SplitUnfold(u, '/');
    assert i >= 0;
    var rest := u[i + 1..];
    if i < |u| - 1 {
      assert rest[|rest| - 1] == u[|u| - 1];
      LastSegmentEmpty(rest);
    } else {
      assert rest == "";
      SplitUnfold(rest, '/');
    }
  }

  lemma SplitHead(u: string)
    ensures HostPart(u) == Split(u, '/')[0]
    ensures PathPart(u) == [] <==> |Split(u, '/')| == 1
    ensures PathPart(u) != [] ==> Split(TrimPrefix(PathPart(u), "/"), '/') == Split(u, '/')[1..]
  {
    var i := IndexOf(u, '/');
    if i >= 0 {
      assert PathPart(u)[0] == '/';
      assert TrimPrefix(PathPart(u), "/") == u[i + 1..];
    }
  }

  /** An exact rule holds for a request exactly when its route is a segment prefix of it. */
  lemma ExactRuleMeaning(u: string, q: Request)
    requires PlainUri(u)
    ensures RuleFor(u).Some? && RuleFor(u).value.fullUri == u && RuleFor(u).value.target == Http(u)
    ensures Matches(RuleFor(u).value, q) <==> IsPrefix(UriPath(u), RequestPath(q))
  {
    hide Split, Walk, Extend, Matches, PlainUri, ExactConditions, TrieKey, UriString;
    PlainEnds(u);
    PlainRule(u);
    ExactShape(u);
    WalkIsExtend(Root, u);
    ExtendPrefix(Split(u, '/'), [q.host] + q.segments);
    MatchesPrefix(RuleFor(u).value, Split(u, '/'), q);
  }

  lemma PlainRule(u: string)
    requires PlainUri(u) && UriString(u) == u && TrimSuffix(u, "/") == u
    ensures RuleFor(u) == Some(Rule(u, Http(u), ExactConditions(u), 0))
  {
    hide Split, ExactConditions;
    assert !PlainChar('*');
  }

  /** Condition 0 tests the host; condition i tests path segment i. */
  lemma ExactShape(u: string)
    ensures var c, s := ExactConditions(u), Split(u, '/');
            |c| == |s| && c[0] == HostEquals(s[0]) &&
            forall i :: 1 <= i < |s| ==> c[i] == SegmentEquals(i, s[i])
  {
    SplitHead(u);
    hide Split, HostPart, PathPart;
    var c, s := ExactConditions(u), Split(u, '/');
    if |s| > 1 {
      var rest := SegmentConditions(s[1..]);
      assert c == [HostEquals(s[0])] + rest;
      forall i | 1 <= i < |s| ensures c[i] == SegmentEquals(i, s[i]) {
        assert c[i] == rest[i - 1];
      }
    }
  }

  lemma MatchesPrefix(r: Rule, s: seq<string>, q: Request)
    requires |r.conditions| == |s| >= 1
    requires r.conditions[0] == HostEquals(s[0])
    requires forall i :: 1 <= i < |s| ==> r.conditions[i] == SegmentEquals(i, s[i])
    ensures Matches(r, q) <==> s <= [q.host] + q.segments
  {
    hide Holds;
    var t := [q.host] + q.segments;
    forall i | 0 <= i < |s| ensures Holds(r.conditions[i], q) <==> i < |t| && s[i] == t[i] {
      ConditionAt(r, s, q, i);
    }
    if Matches(r, q) {
      forall i | 0 <= i < |s| ensures i < |t| && s[i] == t[i] { assert r.conditions[i] in r.conditions; }
      ConditionAt(r, s, q, |s| - 1);
      assert r.conditions[|s| - 1] in r.conditions;
      assert s == t[..|s|];
    }
    if s <= t {
      forall c | c in r.conditions ensures Holds(c, q) {
        var i :| 0 <= i < |s| && r.conditions[i] == c;
        assert s[i] == t[i];
      }
    }
  }

  /** Condition i holds exactly when part i of the request is part i of the route. */
  lemma ConditionAt(r: Rule, s: seq<string>, q: Request, i: nat)
    requires i < |s| == |r.conditions|
    requires r.conditions[i] == if i == 0 then HostEquals(s[0]) else SegmentEquals(i, s[i])
    ensures var t := [q.host] + q.segments;
            Holds(r.conditions[i], q) <==> i < |t| && s[i] == t[i]
  {
    var t := [q.host] + q.segments;
    assert 0 < i < |t| ==> t[i] == q.segments[i - 1];
  }

  // ---------------------------------------------------------------------------------
  // The compiled policy

  ghost predicate Descending(rules: seq<Rule>) {
    forall i, j :: 0 <= i < j < |rules| ==> !Less(rules[i].fullUri, rules[j].fullUri)
  }

  /** `order` lists every key of `m` once, largest URI first. */
  ghost predicate Orders(m: map<string, Rule>, order: seq<string>) {
    && |order| == |m|
    && (forall u :: u in order <==> u in m)
    && (forall i, j :: 0 <= i < j < |order| ==> order[i] != order[j])
    && (forall i, j :: 0 <= i < j < |order| ==> !Less(m[order[i]].fullUri, m[order[j]].fullUri))
  }

  /** The rules of `m` in the given order, numbered from `first`. */
  ghost predicate Numbered(rules: seq<Rule>, m: map<string, Rule>, order: seq<string>, first: int)
    requires forall u :: u in order ==> u in m
  {
    && |rules| == |order|
    && forall i :: 0 <= i < |rules| ==> rules[i] == m[order[i]].(ordinal := first + i)
  }

  /** First index whose rule sorts below `key`; everything before does not. */
  function Position(rules: seq<Rule>, key: string): (i: nat)
    ensures i <= |rules|
    ensures forall j :: 0 <= j < i ==> !Less(rules[j].fullUri, key)
    ensures i < |rules| ==> Less(rules[i].fullUri, key)
  {
    if rules == [] || Less(rules[0].fullUri, key) then 0
    else
      var k := Position(rules[1..], key);
      assert forall j :: 1 <= j < |rules| ==> rules[j] == rules[1..][j - 1];
      1 + k
  }

  lemma InsertKeepsDescending(rules: seq<Rule>, r: Rule)
    requires Descending(rules)
    ensures var i := Position(rules, r.fullUri);
            Descending(rules[..i] + [r] + rules[i..])
  {
    var i := Position(rules, r.fullUri);
    forall j | i <= j < |rules| ensures !Less(r.fullUri, rules[j].fullUri) {
      var low, here := rules[i].fullUri, rules[j].fullUri;
      if Less(r.fullUri, here) {
        LessTransitive(low, r.fullUri, here);
        LessIrreflexive(low);
      }
    }
  }

  /** What holds while the rules of `m` are being collected in order. */
  ghost predicate Collected(rules: seq<Rule>, m: map<string, Rule>, order: seq<string>, todo: set<string>) {
    && todo <= m.Keys
    && |rules| == |order|
    && |order| + |todo| == |m|
    && (forall u :: u in order <==> u in m.Keys - todo)
    && (forall i, j :: 0 <= i < j < |order| ==> order[i] != order[j])
    && (forall i :: 0 <= i < |rules| ==> order[i] in m && rules[i] == m[order[i]])
  }

  lemma CollectOne(rules: seq<Rule>, m: map<string, Rule>, order: seq<string>, todo: set<string>, u: string, i: nat)
    requires Collected(rules, m, order, todo) && u in todo && i <= |rules|
    ensures Collected(rules[..i] + [m[u]] + rules[i..], m, order[..i] + [u] + order[i..], todo - {u})
  {
    Inserted(order, i, u);
    DistinctInsert(order, i, u);
    Inserted(rules, i, m[u]);
  }

  /** What a list with one more element holds, and where. */
  lemma Inserted<T>(s: seq<T>, i: nat, x: T)
    requires i <= |s|
    ensures var r := s[..i] + [x] + s[i..];
            && |r| == |s| + 1
            && (forall k :: 0 <= k < |r| ==> r[k] == if k < i then s[k] else if k == i then x else s[k - 1])
            && (forall v :: v in r <==> v in s || v == x)
  {
    var r := s[..i] + [x] + s[i..];
    forall v | v in s ensures v in r {
      var k :| 0 <= k < |s| && s[k] == v;
      assert r[if k < i then k else k + 1] == v;
    }
  }

  lemma DistinctInsert(order: seq<string>, i: nat, u: string)
    requires i <= |order| && u !in order
    requires forall j, k :: 0 <= j < k < |order| ==> order[j] != order[k]
    ensures var o := order[..i] + [u] + order[i..];
            forall j, k :: 0 <= j < k < |o| ==> o[j] != o[k]
  {
  }

  /** `sortRules`: the rules of one map in descending URI order, numbered from `first`. */
  method SortRules(m: map<string, Rule>, first: int) returns (rules: seq<Rule>, ghost order: seq<string>)
    ensures Orders(m, order) && Numbered(rules, m, order, first)
    ensures |rules| == |m| && Descending(rules)
    ensures forall i :: 0 <= i < |rules| ==> rules[i].ordinal == first + i
  {
    rules, order := [], [];
    var todo := m.Keys;
    while todo != {}
      invariant Collected(rules, m, order, todo) && Descending(rules)
      decreases |todo|
    {
      var u :| u in todo;
      var i := Position(rules, m[u].fullUri);
      InsertKeepsDescending(rules, m[u]);
      CollectOne(rules, m, order, todo, u, i);
      rules := rules[..i] + [m[u]] + rules[i..];
      order := order[..i] + [u] + order[i..];
      todo := todo - {u};
    }
    ghost var sorted := rules;
    for i := 0 to |rules|
      invariant |rules| == |sorted|
      invariant forall k :: 0 <= k < i ==> rules[k] == sorted[k].(ordinal := first + k)
      invariant forall k :: i <= k < |rules| ==> rules[k] == sorted[k]
    {
      rules := rules[i := rules[i].(ordinal := first + i)];
    }
  }

  /** `p` is a policy for the two rule maps: exact rules first, each part sorted in reverse. */
  ghost predicate IsPolicy(p: seq<Rule>, exact: map<string, Rule>, wild: map<string, Rule>,
                           exactOrder: seq<string>, wildOrder: seq<string>) {
    && Orders(exact, exactOrder) && Orders(wild, wildOrder)
    && |p| == |exact| + |wild|
    && Numbered(p[..|exact|], exact, exactOrder, 0)
    && Numbered(p[|exact|..], wild, wildOrder, |exact|)
  }

  method MakeRoutePolicy(exact: map<string, Rule>, wild: map<string, Rule>)
    returns (p: seq<Rule>, ghost exactOrder: seq<string>, ghost wildOrder: seq<string>)
    ensures IsPolicy(p, exact, wild, exactOrder, wildOrder)
    ensures forall i :: 0 <= i < |p| ==> p[i].ordinal == i
  {
    var rls, w;
    rls, exactOrder := SortRules(exact, 0);
    w, wildOrder := SortRules(wild, |exact|);
    p := rls + w;
    assert p[..|exact|] == rls && p[|exact|..] == w;
  }

  // ---------------------------------------------------------------------------------
  // Meaning of the policy

  /** Every entry is the rule of its own URI, and exact URIs are plain. */
  ghost predicate ExactRules(m: map<string, Rule>) {
    forall u :: u in m ==> PlainUri(u) && RuleFor(u) == Some(m[u])
  }

  ghost function RoutePaths(m: map<string, Rule>): set<Path> {
    set u | u in m :: UriPath(u)
  }

  lemma ExactEntry(m: map<string, Rule>, u: string, n: int, q: Request)
    requires ExactRules(m) && u in m
    ensures m[u].fullUri == u && m[u].target == Http(u)
    ensures Matches(m[u].(ordinal := n), q) <==> IsPrefix(UriPath(u), RequestPath(q))
    ensures UriPath(u).Child? && PathText(UriPath(u)) == u
  {
    ExactRuleMeaning(u, q);
    assert m[u].(ordinal := n).conditions == m[u].conditions;
    PlainEnds(u);
    PathTextWalk(u);
  }

  /** Of two matching exact rules, the one with the longer route comes first. */
  lemma LongerFirst(m: map<string, Rule>, order: seq<string>, i: nat, j: nat)
    requires ExactRules(m) && Orders(m, order) && i < |order| && j < |order|
    requires IsPrefix(UriPath(order[i]), UriPath(order[j])) && i != j
    ensures j < i
  {
    var q := Request("", []);
    ExactEntry(m, order[i], 0, q);
    ExactEntry(m, order[j], 0, q);
    var a, b := UriPath(order[i]), UriPath(order[j]);
    if a == b {
      assert order[i] == order[j];
    } else {
      PrefixTextLess(a, b);
    }
  }

  /**
   Main result: for every request, the first rule that matches is the exact rule of the
   longest registered segment prefix -- the route that the trie's `MatchUri` picks -- and a
   wildcard rule is reached only when no exact route is a prefix of the request.
   */
  lemma FirstMatchIsLongestPrefix(p: seq<Rule>, exact: map<string, Rule>, wild: map<string, Rule>,
                                  exactOrder: seq<string>, wildOrder: seq<string>, q: Request)
    requires IsPolicy(p, exact, wild, exactOrder, wildOrder) && ExactRules(exact)
    ensures var best := LongestMatch(RoutePaths(exact), RequestPath(q));
            var first := FirstMatch(p, q);
            && (best.Some? ==> first.Some? && first.value < |exact|
                               && UriPath(exactOrder[first.value]) == best.value
                               && p[first.value].target == Http(exactOrder[first.value]))
            && (best.None? && first.Some? ==> first.value >= |exact|)
  {
    var first := FirstMatch(p, q);
    var keys, path := RoutePaths(exact), RequestPath(q);
    LongestMatchMeaning(keys, path);
    forall k | 0 <= k < |exact|
      ensures Matches(p[k], q) <==> IsPrefix(UriPath(exactOrder[k]), path)
      ensures p[k].target == Http(exactOrder[k])
    {
      assert p[k] == p[..|exact|][k];
      ExactEntry(exact, exactOrder[k], k, q);
    }
    if first.Some? && first.value < |exact| {
      FirstExactIsLongest(p, exact, wild, exactOrder, wildOrder, q, first.value);
    } else {
      forall k | k in keys ensures !IsPrefix(k, path) {
        var u :| u in exact && UriPath(u) == k;
        assert u in exactOrder;
        var i :| 0 <= i < |exactOrder| && exactOrder[i] == u;
        assert !Matches(p[i], q);
      }
    }
  }

  /** The URI of a request: host and segments, joined by slashes. */
  function RequestUri(q: Request): string { Join([q.host] + q.segments, '/') }

  /** A request whose URI text is the request again. */
  predicate PlainRequest(q: Request) {
    forall x :: x in [q.host] + q.segments ==> x != "" && '/' !in x
  }

  lemma {:induction false} PlainJoin(parts: seq<string>)
    requires parts != [] && forall x :: x in parts ==> x != "" && '/' !in x
    ensures var t := Join(parts, '/'); t != "" && t[0] != '/' && t[|t| - 1] != '/'
  {
    if |parts| > 1 {
      forall x | x in parts[1..] ensures x in parts { }
      PlainJoin(parts[1..]);
      assert parts[0] in parts && parts[0][0] in parts[0];
      var rest := Join(parts[1..], '/');
      assert Join(parts, '/') == parts[0] + ['/'] + rest;
    } else {
      assert parts[0] in parts && parts[0][0] in parts[0] && parts[0][|parts[0]| - 1] in parts[0];
    }
  }

  /** A plain request stands at the trie position that its URI names. */
  lemma RequestPosition(q: Request)
    requires PlainRequest(q)
    ensures UriPath(RequestUri(q)) == RequestPath(q)
  {
    hide Join, Walk, Extend;
    var parts := [q.host] + q.segments;
    assert forall x :: x in parts ==> x != "" && '/' !in x;
    PlainJoin(parts);
    forall k | 0 <= k < |parts| ensures '/' !in parts[k] { assert parts[k] in parts; }
    SplitJoin(parts, '/');
    WalkIsExtend(Root, RequestUri(q));
  }

  /** The rules of wildcard routes. */
  ghost predicate WildRules(m: map<string, Rule>) {
    forall u | u in m :: '*' in u && RuleFor(u) == Some(m[u])
  }

  /**
   The rule applied to a request is the rule of the route that `MatchUri` finds for its URI, in the
   trie that holds the wildcard routes too.
   */
  lemma PolicyAgreesWithTrie(p: seq<Rule>, exact: map<string, Rule>, wild: map<string, Rule>,
                             exactOrder: seq<string>, wildOrder: seq<string>, q: Request)
    requires IsPolicy(p, exact, wild, exactOrder, wildOrder) && ExactRules(exact) && WildRules(wild)
    requires PlainRequest(q) && '*' !in q.host
    ensures var best := LongestMatch(RoutePaths(exact) + RoutePaths(wild), UriPath(RequestUri(q)));
            var first := FirstMatch(p, q);
            && (best.Some? <==> first.Some? && first.value < |exact|)
            && (best.Some? ==>
                  UriPath(exactOrder[first.value]) == best.value && p[first.value].target == Http(exactOrder[first.value]))
  {
    hide IsPolicy, ExactRules, WildRules, RequestPath, RoutePaths, UriPath, LongestMatch, FirstMatch, PlainRequest;
    RequestPosition(q);
    TrieSeesExact(exact, wild, q);
    FirstMatchIsLongestPrefix(p, exact, wild, exactOrder, wildOrder, q);
    OrderLength(p, exact, wild, exactOrder, wildOrder);
  }

  /** No wildcard route lies above a request whose host has no wildcard. */
  lemma WildRouteApart(u: string, q: Request)
    requires '*' in u && RuleFor(u).Some? && '*' !in q.host
    ensures !IsPrefix(UriPath(u), RequestPath(q))
  {
    hide RuleFor, IsPrefix, Extend, Walk, Split, HostPart, IndexOf;
    var t := TrieKey(u);
    PathWildcardPanics(u);
    HostKept(u);
    FirstPart(t);
    WalkIsExtend(Root, t);
    ExtendPrefix(Split(t, '/'), [q.host] + q.segments);
  }

  lemma FirstPart(t: string)
    ensures |Split(t, '/')| >= 1 && Split(t, '/')[0] == HostPart(t)
  {
    hide IndexOf, Split;
    SplitUnfold(t, '/');
  }

  /** Trimming the slashes off a URI that starts with its host leaves the host. */
  lemma HostKept(u: string)
    requires HostPart(u) != ""
    ensures HostPart(TrieKey(u)) == HostPart(u)
  {
    hide IndexOf, HostPart;
    HostTrimmed(u);
    var full := UriString(u);
    assert "" + full == full;
    if full != "" && full[0] == '/' { HostOf("", full); }
  }

  /** So the trie gives such a request what the exact routes alone would give it. */
  lemma TrieSeesExact(exact: map<string, Rule>, wild: map<string, Rule>, q: Request)
    requires WildRules(wild) && '*' !in q.host
    ensures LongestMatch(RoutePaths(exact) + RoutePaths(wild), RequestPath(q)) ==
            LongestMatch(RoutePaths(exact), RequestPath(q))
  {
    hide RequestPath, RuleFor, IsPrefix, UriPath, LongestMatch;
    var keys, some := RoutePaths(exact) + RoutePaths(wild), RoutePaths(exact);
    LongestMatchMeaning(keys, RequestPath(q));
    LongestMatchMeaning(some, RequestPath(q));
    forall key | key in keys && key !in some ensures !IsPrefix(key, RequestPath(q)) {
      var u :| u in wild && key == UriPath(u);
      WildRouteApart(u, q);
    }
    var best := LongestMatch(some, RequestPath(q));
    if best.Some? { assert LongestMatch(keys, RequestPath(q)) == Some(best.value); }
  }

  lemma OrderLength(p: seq<Rule>, exact: map<string, Rule>, wild: map<string, Rule>,
                    exactOrder: seq<string>, wildOrder: seq<string>)
    requires IsPolicy(p, exact, wild, exactOrder, wildOrder)
    ensures |exactOrder| == |exact| && |p| == |exactOrder| + |wildOrder|
  {
  }

  lemma FirstExactIsLongest(p: seq<Rule>, exact: map<string, Rule>, wild: map<string, Rule>,
                            exactOrder: seq<string>, wildOrder: seq<string>, q: Request, i: nat)
    requires IsPolicy(p, exact, wild, exactOrder, wildOrder) && ExactRules(exact)
    requires i < |exact| && FirstMatch(p, q) == Some(i)
    requires forall k :: 0 <= k < |exact| ==> (Matches(p[k], q) <==> IsPrefix(UriPath(exactOrder[k]), RequestPath(q)))
    ensures LongestMatch(RoutePaths(exact), RequestPath(q)) == Some(UriPath(exactOrder[i]))
  {
    var keys, path, m := RoutePaths(exact), RequestPath(q), UriPath(exactOrder[i]);
    LongestMatchMeaning(keys, path);
    assert exactOrder[i] in exactOrder;
    assert m in keys;
    forall k | k in keys && IsPrefix(k, path) ensures IsPrefix(k, m) {
      var u :| u in exact && UriPath(u) == k;
      assert u in exactOrder;
      var j :| 0 <= j < |exactOrder| && exactOrder[j] == u;
      PrefixesChain(k, m, path);
      if IsPrefix(m, k) && j != i {
        LongerFirst(exact, exactOrder, i, j);
        assert false;
      }
    }
  }

  // ---------------------------------------------------------------------------------
  // Wildcard rules

  /** The host has the shape prefix-anything-suffix. */
  predicate Glob(prefix: string, suffix: string, host: string) {
    |host| >= |prefix| + |suffix| && HasPrefix(host, prefix) && HasSuffix(host, suffix)
  }

  /** A wildcard rule tests the two ends of the host, and nothing of the path. */
  lemma WildcardRuleTests(prefix: string, suffix: string, path: string, q: Request)
    requires '*' !in prefix && '*' !in suffix && '/' !in prefix && '/' !in suffix && (path == "" || path[0] == '/')
    ensures var r := RuleFor(prefix + "*" + suffix + path);
            r.Some? && (Matches(r.value, q) <==> HasPrefix(q.host, prefix) && HasSuffix(q.host, suffix))
  {
    hide RuleFor, UriString;
    WildcardShape(prefix, suffix, path);
    var r, c := RuleFor(prefix + "*" + suffix + path).value, WildcardConditions([prefix, suffix]);
    assert q.host[|q.host|..] == "";
    if Matches(r, q) {
      if prefix != "" { assert Holds(c[0], q); }
      if suffix != "" { assert Holds(c[|c| - 1], q); }
    } else {
      var x :| x in c && !Holds(x, q);
      assert x == HostStartsWith(prefix) || x == HostEndsWith(suffix);
    }
  }

  /**
   So it accepts exactly the hosts of shape prefix-anything-suffix, except that for hosts
   shorter than prefix and suffix together it can accept one where the two overlap.
   */
  lemma WildcardRuleMeaning(prefix: string, suffix: string, path: string, q: Request)
    requires '*' !in prefix && '*' !in suffix && '/' !in prefix && '/' !in suffix && (path == "" || path[0] == '/')
    ensures var r := RuleFor(prefix + "*" + suffix + path);
            r.Some? &&
            (Matches(r.value, q) && |q.host| >= |prefix| + |suffix| <==> Glob(prefix, suffix, q.host))
  {
    WildcardRuleTests(prefix, suffix, path, q);
  }

  lemma WildcardShape(prefix: string, suffix: string, path: string)
    requires '*' !in prefix && '*' !in suffix && '/' !in prefix && '/' !in suffix && (path == "" || path[0] == '/')
    ensures var uri := prefix + "*" + suffix + path;
            RuleFor(uri) == Some(Rule(UriString(uri), NameOf(uri), WildcardConditions([prefix, suffix]), 0))
  {
    hide IndexOf, Split, UriString, HostPart, WildcardConditions;
    var host := prefix + "*" + suffix;
    var uri := host + path;
    WildcardHost(prefix, suffix, path);
    IndexOfFirst(prefix, '*', suffix);
    assert host[..|prefix|] == prefix && host[|prefix| + 1..] == suffix;
    SplitUnfold(host, '*');
    SplitUnfold(suffix, '*');
    assert IndexOf(suffix, '*') == -1;
    assert Split(host, '*') == [prefix, suffix];
  }

  /** The host of a wildcard URI, whatever slashes its path ends in. */
  lemma WildcardHost(prefix: string, suffix: string, path: string)
    requires '/' !in prefix && '/' !in suffix && (path == "" || path[0] == '/')
    ensures var full := UriString(prefix + "*" + suffix + path);
            '*' in full && HostPart(TrimSuffix(full, "/")) == prefix + "*" + suffix
  {
    hide IndexOf, HostPart;
    var host := prefix + "*" + suffix;
    var full := UriString(host + path);
    assert host[|prefix|] == '*';
    Trimmed(host, path);
    assert full[|prefix|] == '*';
    Trimmed(host, full[|host|..]);
    var u := TrimSuffix(full, "/");
    HostOf(host, u[|host|..]);
  }

  /** A trailing slash is cut off the path and never off the host. */
  lemma Trimmed(host: string, path: string)
    requires host != "" && '/' !in host && (path == "" || path[0] == '/')
    ensures var t := TrimSuffix(host + path, "/");
            |t| >= |host| && t[..|host|] == host && t == host + t[|host|..]
            && (t[|host|..] == "" || t[|host|..][0] == '/')
  {
    var uri := host + path;
    if path == "" { assert uri == host && host[|host| - 1] in host; }
    if HasSuffix(uri, "/") { assert uri[|uri| - 1] == '/'; }
  }

  lemma HostOf(host: string, path: string)
    requires '/' !in host && (path == "" || path[0] == '/')
    ensures HostPart(host + path) == host
  {
    hide IndexOf;
    if path == "" {
      assert host + path == host;
    } else {
      assert host + path == host + ['/'] + path[1..];
      IndexOfFirst(host, '/', path[1..]);
    }
  }

  /** The source indexes past the end exactly when the wildcard is only in the path. */
  lemma PathWildcardPanics(uri: string)
    ensures RuleFor(uri).None? <==> '*' in uri && '*' !in HostPart(uri)
  {
    hide IndexOf, Split, HostPart;
    var full := UriString(uri);
    var u := TrimSuffix(full, "/");
    HostTrimmed(uri);
    HostTrimmed(full);
    StarTrimmed(uri);
    SplitsInTwo(HostPart(u));
  }

  lemma HostTrimmed(u: string)
    ensures HostPart(TrimSuffix(u, "/")) == HostPart(u)
  {
    hide HostPart;
    var t := TrimSuffix(u, "/");
    if t != u {
      assert u == t + "/";
      HostSlash(t);
    }
  }

  lemma HostSlash(t: string)
    ensures HostPart(t + "/") == HostPart(t)
  {
    hide IndexOf;
    var i := IndexOf(t, '/');
    if i < 0 {
      HostOf(t, "/");
    } else {
      HostOf(t[..i], t[i..] + "/");
      assert t + "/" == t[..i] + (t[i..] + "/");
    }
  }

  lemma StarTrimmed(u: string)
    ensures '*' in TrimSuffix(u, "/") <==> '*' in u
  {
    var t := TrimSuffix(u, "/");
    if t != u { assert u == t + "/"; }
  }

  lemma SplitsInTwo(h: string)
    ensures |Split(h, '*')| >= 2 <==> '*' in h
  {
    hide IndexOf, Split;
    var i := IndexOf(h, '*');
    SplitUnfold(h, '*');
    if i >= 0 { SplitUnfold(h[i + 1..], '*'); }
  }

  /** Shorter hosts can match with prefix and suffix overlapping: "ab*ba" accepts "aba". */
  lemma WildcardOverlap()
    ensures var r := RuleFor("ab*ba");
            var q := Request("aba", []);
            r.Some? && Matches(r.value, q) && !Glob("ab", "ba", q.host)
  {
    var q := Request("aba", []);
    assert "ab" + "*" + "ba" + "" == "ab*ba";
    WildcardRuleTests("ab", "ba", "", q);
    hide RuleFor, Matches;
    assert "aba"[1..] == "ba" && "aba"[..2] == "ab";
  }

  /**
   Wildcard rules are ordered by text only: the more specific "*.x.s" precedes "*.s" exactly
   when "x.s" sorts above "s".
   */
  lemma WildcardPrecedence(wild: map<string, Rule>, order: seq<string>, s: string, x: string, i: nat, j: nat)
    requires Orders(wild, order) && i < |order| && j < |order|
    requires order[i] == "*." + s && order[j] == "*." + (x + "." + s)
    requires forall u :: u in wild ==> wild[u].fullUri == u
    ensures j < i <==> Less(s, x + "." + s)
  {
    var t := x + "." + s;
    LessCommonPrefix("*.", s, t);
    LessCommonPrefix("*.", t, s);
    LessTotal(s, t);
    assert |order[j]| > |order[i]|;
    assert order[i] in order && order[j] in order;
    if Less(s, t) {
    } else {
      assert Less(t, s);
    }
  }

  /** So "most specific wildcard first" fails: "*.b.com" always precedes "*.a.b.com". */
  lemma WildcardPrecedenceFails(wild: map<string, Rule>, order: seq<string>, i: nat, j: nat)
    requires Orders(wild, order) && i < |order| && j < |order|
    requires order[i] == "*.b.com" && order[j] == "*.a.b.com"
    requires forall u :: u in wild ==> wild[u].fullUri == u
    ensures i < j
  {
    assert "*." + ("a" + "." + "b.com") == "*.a.b.com" && "*." + "b.com" == "*.b.com";
    WildcardPrecedence(wild, order, "b.com", "a", i, j);
    assert ("a" + "." + "b.com")[0] == 'a';
    assert order[i] != order[j];
  }
}
