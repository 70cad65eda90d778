/** Wildcard routes: what the registry's lookup picks and what the policy picks. */
module WildcardLookup {
  import opened Wrappers
  import opened Text
  import opened Paths
  import opened Uris
  import opened Policy
  import R = RegistrySpec

  // ---------------------------------------------------------------------------------
  // What follows a dot

  /** What follows each dot of a text, in order. */
  function DotTails(s: string): seq<string> {
    if s == "" then []
    else if s[0] == '.' then [s[1..]] + DotTails(s[1..])
    else DotTails(s[1..])
  }

  lemma {:induction false} NoDots(s: string)
    requires '.' !in s
    ensures DotTails(s) == []
  {
    if s != "" { NoDots(s[1..]); }
  }

  lemma {:induction false} FirstDot(a: string, rest: string)
    requires '.' !in a
    ensures DotTails(a + ['.'] + rest) == [rest] + DotTails(rest)
  {
    var s := a + ['.'] + rest;
    if a == "" {
      assert s[1..] == rest;
    } else {
      FirstDot(a[1..], rest);
      assert s[1..] == a[1..] + ['.'] + rest;
    }
  }

  /** They are the proper tails of the labels. */
  lemma {:induction false} TailsAreLabels(s: string)
    ensures |Split(s, '.')| == |DotTails(s)| + 1
    ensures forall k | 0 <= k < |DotTails(s)| :: Join(Split(s, '.')[k + 1..], '.') == DotTails(s)[k]
    decreases |s|
  {
    hide Split, IndexOf, DotTails, Join;
    var i := IndexOf(s, '.');
    SplitUnfold(s, '.');
    if i < 0 {
      NoDots(s);
    } else {
      var a, rest := s[..i], s[i + 1..];
      assert s == a + ['.'] + rest;
      FirstDot(a, rest);
      TailsAreLabels(rest);
      JoinSplit(rest, '.');
      var labels, more := Split(s, '.'), Split(rest, '.');
      assert labels[1..] == more;
      forall k | 0 <= k < |DotTails(s)| ensures Join(labels[k + 1..], '.') == DotTails(s)[k] {
        assert labels[k + 1..] == more[k..];
        if k == 0 { assert more[0..] == more; }
      }
    }
  }

  function Each(ts: seq<string>, tail: string): seq<string> {
    seq(|ts|, k requires 0 <= k < |ts| => ts[k] + tail)
  }

  lemma {:induction false} TailsOfBoth(a: string, b: string)
    ensures DotTails(a + b) == Each(DotTails(a), b) + DotTails(b)
  {
    if a == "" {
      assert a + b == b;
    } else {
      TailsOfBoth(a[1..], b);
      assert (a + b)[1..] == a[1..] + b;
    }
  }

  lemma {:induction false} TailsShrink(s: string)
    ensures forall k | 0 <= k < |DotTails(s)| :: |DotTails(s)[k]| < |s|
    ensures forall j, k | 0 <= j < k < |DotTails(s)| :: |DotTails(s)[k]| < |DotTails(s)[j]|
  {
    if s != "" { TailsShrink(s[1..]); }
  }

  lemma {:induction false} TailChars(s: string, c: char)
    requires c !in s
    ensures forall k | 0 <= k < |DotTails(s)| :: c !in DotTails(s)[k]
  {
    if s != "" { TailChars(s[1..], c); }
  }

  /** A host ends in "." + s exactly when s follows one of its dots. */
  lemma {:induction false} SuffixIsTail(host: string, s: string)
    ensures HasSuffix(host, "." + s) <==> s in DotTails(host)
  {
    if host != "" {
      SuffixIsTail(host[1..], s);
      var t, n := "." + s, |host| - |s| - 1;
      if 0 < n { assert host[n..] == host[1..][n - 1..]; }
      if n == 0 { assert host[0..] == host && t[1..] == s && t[0] == '.'; }
      assert host[0] == '.' ==> host == ['.'] + host[1..];
    }
  }

  // ---------------------------------------------------------------------------------
  // The candidates of a lookup as requests

  /** The candidates past the key: a wildcard in place of what is before a dot, in the host and in the path. */
  function Stars(parts: seq<string>): seq<Request> {
    if parts == [] then [] else StarsOf(parts[0], parts[1..]) + Stars(parts[1..])
  }

  function StarsOf(part: string, rest: seq<string>): seq<Request> {
    seq(|DotTails(part)|, k requires 0 <= k < |DotTails(part)| => Request("*." + DotTails(part)[k], rest))
  }

  function Parts(q: Request): seq<string> { [q.host] + q.segments }

  lemma {:induction false} StarTexts(parts: seq<string>)
    requires parts != []
    ensures |Stars(parts)| == |DotTails(Join(parts, '/'))|
    ensures forall k | 0 <= k < |Stars(parts)| :: RequestUri(Stars(parts)[k]) == "*." + DotTails(Join(parts, '/'))[k]
  {
    hide DotTails;
    var part, rest := parts[0], parts[1..];
    if rest == [] {
      assert Stars(parts) == StarsOf(part, []);
    } else {
      var tail := ['/'] + Join(rest, '/');
      StarTexts(rest);
      TailsOfBoth(part, tail);
      assert part + tail == Join(parts, '/');
      SlashTails(Join(rest, '/'));
      forall k | 0 <= k < |DotTails(part)|
        ensures RequestUri(StarsOf(part, rest)[k]) == "*." + Each(DotTails(part), tail)[k]
      {
        StarUri(DotTails(part)[k], rest);
      }
    }
  }

  lemma SlashTails(s: string)
    ensures DotTails(['/'] + s) == DotTails(s)
  {
    assert (['/'] + s)[1..] == s;
  }

  lemma StarUri(t: string, rest: seq<string>)
    requires rest != []
    ensures RequestUri(Request("*." + t, rest)) == "*." + (t + (['/'] + Join(rest, '/')))
  {
    assert (["*." + t] + rest)[1..] == rest;
  }

  lemma {:induction false} PlainStars(parts: seq<string>)
    requires forall x :: x in parts ==> x != "" && '/' !in x
    ensures forall k | 0 <= k < |Stars(parts)| :: PlainRequest(Stars(parts)[k]) && HasPrefix(Stars(parts)[k].host, "*.")
  {
    if parts != [] {
      forall x | x in parts[1..] ensures x in parts { }
      PlainStars(parts[1..]);
      assert parts[0] in parts;
      TailChars(parts[0], '/');
      forall k | 0 <= k < |DotTails(parts[0])|
        ensures PlainRequest(StarsOf(parts[0], parts[1..])[k]) && HasPrefix(StarsOf(parts[0], parts[1..])[k].host, "*.")
      {
        PlainStar(DotTails(parts[0])[k], parts[1..]);
      }
    }
  }

  lemma PlainStar(t: string, rest: seq<string>)
    requires '/' !in t && forall x :: x in rest ==> x != "" && '/' !in x
    ensures PlainRequest(Request("*." + t, rest)) && HasPrefix("*." + t, "*.")
  {
    assert ("*." + t)[..2] == "*.";
  }

  /** A plain request with no '*' in its host and nothing that a route key would change. */
  ghost predicate Ordinary(q: Request) {
    PlainRequest(q) && '*' !in q.host && RouteKey(RequestUri(q)) == RequestUri(q)
  }

  /** The keys that a lookup tries, as trie positions. */
  lemma CandidatePositions(q: Request)
    requires Ordinary(q)
    ensures var cs, ws := Candidates(RouteKey(RequestUri(q))), Stars(Parts(q));
            && |cs| == |ws| + 1 && UriPath(cs[0]) == RequestPath(q)
            && forall k | 0 <= k < |ws| :: '*' in ws[k].host && UriPath(cs[k + 1]) == RequestPath(ws[k])
  {
    hide RouteKey, Candidates, UriPath, RequestPath, Stars, DotTails, Split, Join, KeyLabels, NthCandidate, HasPrefix;
    var u, cs, ws := RequestUri(q), Candidates(RouteKey(RequestUri(q))), Stars(Parts(q));
    RequestPosition(q);
    StarTexts(Parts(q));
    PlainStars(Parts(q));
    UriCandidates(q);
    forall k | 0 <= k < |ws| ensures '*' in ws[k].host && UriPath(cs[k + 1]) == RequestPath(ws[k]) {
      RequestPosition(ws[k]);
      StarFirst(ws[k].host);
    }
  }

  lemma StarFirst(host: string)
    ensures HasPrefix(host, "*.") ==> '*' in host
  {
    if HasPrefix(host, "*.") { assert host[..2][0] == '*' && host[0] in host; }
  }

  lemma UriCandidates(q: Request)
    requires Ordinary(q)
    ensures var u := RequestUri(q);
            var cs, ts := Candidates(RouteKey(u)), DotTails(u);
            |cs| == |ts| + 1 && cs[0] == u && forall k | 0 <= k < |ts| :: cs[k + 1] == "*." + ts[k]
  {
    hide RouteKey, Candidates, DotTails, Split, Join, KeyLabels, NthCandidate, HasSuffix, RequestUri;
    var u := RequestUri(q);
    var labels := Split(u, '.');
    JoinSplit(u, '.');
    TailsAreLabels(u);
    NotSlashed(q);
    FirstLabel(q);
    CandidatesMeaning(u);
    forall k | 0 <= k < |labels|
      ensures KeyLabels(u) == labels
      ensures k > 0 ==> NthCandidate(u, k) == "*." + Join(labels[k..], '.')
    {
      PlainCandidate(u, labels, k);
    }
  }

  lemma FirstLabel(q: Request)
    requires PlainRequest(q) && '*' !in q.host
    ensures |Split(RequestUri(q), '.')| >= 1 && Split(RequestUri(q), '.')[0] != "*"
  {
    hide Split, IndexOf;
    var u := RequestUri(q);
    SplitUnfold(u, '.');
    assert q.host in [q.host] + q.segments;
    assert u[0] == q.host[0];
    assert q.host[0] in q.host;
    var l := Split(u, '.')[0];
    if l != "" { assert l[0] == u[0]; }
  }

  lemma NotSlashed(q: Request)
    requires PlainRequest(q)
    ensures !HasSuffix(RequestUri(q), "/")
  {
    hide Join;
    var parts := [q.host] + q.segments;
    assert forall x :: x in parts ==> x != "" && '/' !in x;
    PlainJoin(parts);
  }

  // ---------------------------------------------------------------------------------
  // Wildcard routes

  /** What stands before and after the wildcard of a route's host. */
  function Ends(u: string): seq<string> { Split(HostPart(u), '*') }

  /** A route with one wildcard in its host and without empty segments. */
  predicate StarRoute(u: string) {
    |Ends(u)| == 2 && forall k | 0 <= k < |Split(u, '/')| :: Split(u, '/')[k] != ""
  }

  ghost predicate StarRules(m: map<string, Rule>) {
    forall u | u in m :: StarRoute(u) && RuleFor(u) == Some(m[u])
  }

  /** The wildcard stands for the host. */
  predicate Covers(u: string, host: string) {
    |Ends(u)| == 2 && HasPrefix(host, Ends(u)[0]) && HasSuffix(host, Ends(u)[1])
  }

  /** The route lies above the request in the trie. */
  predicate Above(u: string, w: Request) { Split(u, '/') <= Parts(w) }

  lemma StarPath(u: string)
    requires StarRoute(u)
    ensures UriPath(u) == Extend(Root, Split(u, '/')) && UriString(u) == u && PathText(UriPath(u)) == u && UriPath(u).Child?
  {
    hide Split, IndexOf, Walk, PathText;
    FirstPart(u);
    if u != "" && u[|u| - 1] == '/' { LastSegmentEmpty(u); }
    SplitsInTwo(HostPart(u));
    assert TrieKey(u) == u by { StarStart(u); }
    WalkIsExtend(Root, u);
    PathTextWalk(u);
    UriPathProper(u);
  }

  lemma StarStart(u: string)
    requires '*' in HostPart(u) && u[|u| - 1] != '/'
    ensures TrieKey(u) == u && UriString(u) == u
  {
    assert "" + u == u;
    if u[0] == '/' { HostOf("", u); }
  }

  lemma SamePath(u: string, v: string)
    requires StarRoute(u) && StarRoute(v)
    ensures UriPath(u) == UriPath(v) <==> u == v
  {
    hide UriPath, StarRoute;
    StarPath(u);
    StarPath(v);
  }

  lemma AboveMeaning(u: string, w: Request)
    requires StarRoute(u)
    ensures Above(u, w) <==> IsPrefix(UriPath(u), RequestPath(w))
  {
    hide UriPath, StarRoute, Extend, Split, IsPrefix;
    StarPath(u);
    ExtendPrefix(Split(u, '/'), Parts(w));
  }

  lemma ExactApart(u: string, w: Request)
    requires PlainUri(u) && '*' in w.host
    ensures !IsPrefix(UriPath(u), RequestPath(w))
  {
    hide UriPath, Extend, IsPrefix, PlainUri, Split, Walk, IndexOf;
    PlainEnds(u);
    WalkIsExtend(Root, u);
    assert UriPath(u) == Extend(Root, Split(u, '/')) by { UriPathIs(u); }
    SplitUnfold(u, '/');
    NoStar(u);
    assert Split(u, '/')[0] != w.host;
    ExtendPrefix(Split(u, '/'), [w.host] + w.segments);
  }

  lemma UriPathIs(u: string)
    ensures UriPath(u) == Walk(Root, TrieKey(u))
  {
  }

  lemma NoStar(u: string)
    requires PlainUri(u)
    ensures '*' !in u
  {
  }

  lemma StarsAreWild(wild: map<string, Rule>)
    requires StarRules(wild)
    ensures WildRules(wild)
  {
    hide RuleFor, HostPart, Split;
    forall u | u in wild ensures '*' in u {
      SplitsInTwo(HostPart(u));
      HostPlain(u);
    }
  }

  /** A wildcard rule matches exactly the requests whose host it covers. */
  lemma StarMatches(wild: map<string, Rule>, u: string, n: int, q: Request)
    requires StarRules(wild) && u in wild
    ensures wild[u].fullUri == u
    ensures Matches(wild[u].(ordinal := n), q) <==> Covers(u, q.host)
  {
    hide RuleFor, Split, HasSuffix, HasPrefix, Matches, UriString, UriPath, HostPart, Ends;
    StarText(u);
    var ends, path := Ends(u), u[|HostPart(u)|..];
    WildcardRuleTests(ends[0], ends[1], path, q);
    WildcardShape(ends[0], ends[1], path);
    StarPath(u);
    StarOrdinal(wild[u], n, q);
  }

  lemma StarText(u: string)
    requires StarRoute(u)
    ensures var ends := Ends(u);
            && |HostPart(u)| <= |u| &&
            var path := u[|HostPart(u)|..];
            && u == ends[0] + "*" + ends[1] + path && '*' !in ends[0] && '*' !in ends[1] && '/' !in ends[0]
            && '/' !in ends[1] && (path == "" || path[0] == '/')
  {
    hide IndexOf, Split, HostPart;
    var host, ends := HostPart(u), Ends(u);
    HostPlain(u);
    JoinSplit(host, '*');
    assert Join(ends, '*') == ends[0] + ['*'] + ends[1] by { assert ends[1..] == [ends[1]]; }
    assert host == ends[0] + "*" + ends[1];
    assert u == host + u[|host|..];
    forall c | c in ends[0] || c in ends[1] ensures c in host { }
  }

  lemma HostPlain(u: string)
    ensures '/' !in HostPart(u) && HostPart(u) <= u && (|HostPart(u)| < |u| ==> u[|HostPart(u)|] == '/')
  {
  }

  lemma StarOrdinal(r: Rule, n: int, q: Request)
    ensures Matches(r.(ordinal := n), q) == Matches(r, q)
  {
  }

  /** A route "*.host" covers exactly the hosts for which the lookup tries that host. */
  lemma CoversIsTail(u: string, s: string, q: Request)
    requires StarRoute(u) && HostPart(u) == "*." + s
    ensures Covers(u, q.host) <==> exists k | 0 <= k < |DotTails(q.host)| :: HostPart(u) == "*." + DotTails(q.host)[k]
  {
    hide HasSuffix, DotTails, Ends, HostPart, StarRoute;
    EndsAre(u, s);
    SuffixIsTail(q.host, s);
    if k :| 0 <= k < |DotTails(q.host)| && HostPart(u) == "*." + DotTails(q.host)[k] {
      assert HostPart(u)[2..] == s == DotTails(q.host)[k];
    }
  }

  lemma EndsAre(u: string, s: string)
    requires StarRoute(u) && HostPart(u) == "*." + s
    ensures Ends(u) == ["", "." + s]
  {
    hide Split, HostPart, IndexOf;
    assert "*." + s == "" + ['*'] + ("." + s);
    SplitCons("", '*', "." + s);
    SplitUnfold("." + s, '*');
  }

  // ---------------------------------------------------------------------------------
  // What the lookup picks

  ghost function Routes(exact: map<string, Rule>, wild: map<string, Rule>): set<Path> {
    RoutePaths(exact) + RoutePaths(wild)
  }

  /** No wildcard route lies above the candidate. */
  ghost predicate Misses(wild: map<string, Rule>, w: Request) { forall v | v in wild :: !Above(v, w) }

  /** The longest wildcard route above the k-th candidate, with none above an earlier one. */
  ghost predicate FoundAt(wild: map<string, Rule>, ws: seq<Request>, u: string, k: int) {
    && 0 <= k < |ws| && u in wild && Above(u, ws[k]) && (forall j | 0 <= j < k :: Misses(wild, ws[j]))
    && forall v | v in wild && Above(v, ws[k]) :: Split(v, '/') <= Split(u, '/')
  }

  ghost predicate AllMiss(wild: map<string, Rule>, ws: seq<Request>) {
    forall k | 0 <= k < |ws| :: Misses(wild, ws[k])
  }

  ghost predicate Found(wild: map<string, Rule>, q: Request, u: string) {
    exists k :: FoundAt(wild, Stars(Parts(q)), u, k)
  }

  /** Above a candidate with a wildcard lie exactly the wildcard routes that fit it. */
  lemma KeysAbove(exact: map<string, Rule>, wild: map<string, Rule>, w: Request, key: Path)
    requires ExactRules(exact) && StarRules(wild) && '*' in w.host && key in Routes(exact, wild)
    ensures IsPrefix(key, RequestPath(w)) <==> exists u :: u in wild && UriPath(u) == key && Above(u, w)
  {
    hide UriPath, RequestPath, RuleFor, PlainUri, IsPrefix, StarRoute, Above;
    if key in RoutePaths(wild) {
      var u :| u in wild && key == UriPath(u);
      AboveMeaning(u, w);
      forall v | v in wild && UriPath(v) == key ensures v == u { SamePath(u, v); }
    } else {
      var u :| u in exact && key == UriPath(u);
      ExactApart(u, w);
      forall v | v in wild ensures UriPath(v) != key { assert UriPath(v) in RoutePaths(wild); }
    }
  }

  lemma CandidateMisses(exact: map<string, Rule>, wild: map<string, Rule>, w: Request)
    requires ExactRules(exact) && StarRules(wild) && '*' in w.host
    ensures LongestMatch(Routes(exact, wild), RequestPath(w)).None? <==> Misses(wild, w)
  {
    hide UriPath, RequestPath, RuleFor, PlainUri, IsPrefix, StarRoute, Above, LongestMatch, ExactRules, StarRules;
    var keys := Routes(exact, wild);
    LongestMatchMeaning(keys, RequestPath(w));
    forall key | key in keys
      ensures IsPrefix(key, RequestPath(w)) <==> exists u :: u in wild && UriPath(u) == key && Above(u, w)
    {
      KeysAbove(exact, wild, w, key);
    }
    forall v | v in wild ensures UriPath(v) in keys { }
  }

  /** The longest route above a candidate is the one whose segments begin with those of all others. */
  lemma CandidateFinds(exact: map<string, Rule>, wild: map<string, Rule>, w: Request, u: string)
    requires ExactRules(exact) && StarRules(wild) && '*' in w.host && u in wild
    ensures LongestMatch(Routes(exact, wild), RequestPath(w)) == Some(UriPath(u)) <==>
            Above(u, w) && forall v | v in wild && Above(v, w) :: Split(v, '/') <= Split(u, '/')
  {
    hide UriPath, RequestPath, RuleFor, PlainUri, IsPrefix, StarRoute, Above, LongestMatch, ExactRules, Split;
    var keys, path := Routes(exact, wild), RequestPath(w);
    LongestMatchMeaning(keys, path);
    forall v | v in wild
      ensures UriPath(v) in keys && (IsPrefix(UriPath(v), path) <==> Above(v, w))
      ensures IsPrefix(UriPath(v), UriPath(u)) <==> Split(v, '/') <= Split(u, '/')
    {
      AboveMeaning(v, w);
      SplitPrefix(v, u);
    }
    forall key | key in keys && IsPrefix(key, path) ensures exists v :: v in wild && UriPath(v) == key && Above(v, w) {
      KeysAbove(exact, wild, w, key);
    }
  }

  lemma SplitPrefix(v: string, u: string)
    requires StarRoute(v) && StarRoute(u)
    ensures IsPrefix(UriPath(v), UriPath(u)) <==> Split(v, '/') <= Split(u, '/')
  {
    hide UriPath, Extend, IsPrefix, StarRoute, Split;
    StarPath(v);
    StarPath(u);
    ExtendPrefix(Split(v, '/'), Split(u, '/'));
  }

  lemma KeyUnmatched(keys: set<Path>, u: string)
    ensures R.Unmatched(keys, u) <==> LongestMatch(keys, UriPath(u)).None?
  {
    LongestMatchMeaning(keys, UriPath(u));
  }

  /**
   The lookup: the longest exact prefix, or else the longest wildcard route above the first
   candidate that has any, or nothing when none has.
   */
  lemma LookupPicks(exact: map<string, Rule>, wild: map<string, Rule>, q: Request)
    requires ExactRules(exact) && StarRules(wild) && Ordinary(q)
    ensures var best := LongestMatch(RoutePaths(exact), RequestPath(q));
            var looked := R.Lookup(Routes(exact, wild), RequestUri(q));
            && (best.Some? ==> looked == best)
            && (best.None? ==> forall u :: Found(wild, q, u) ==> looked == Some(UriPath(u)))
            && (best.None? && looked.Some? ==> exists u :: Found(wild, q, u) && looked.value == UriPath(u))
            && (best.None? ==> (looked.None? <==> AllMiss(wild, Stars(Parts(q)))))
  {
    hide RequestPath, RuleFor, PlainUri, IsPrefix, UriPath, LongestMatch, ExactRules, StarRules, Candidates, RequestUri,
         RouteKey, PlainRequest, RoutePaths, Above, Stars, Parts, FoundAt, R.FirstHit;
    var keys, cs := Routes(exact, wild), Candidates(RouteKey(RequestUri(q)));
    CandidatePositions(q);
    StarsAreWild(wild);
    TrieSeesExact(exact, wild, q);
    KeyUnmatched(keys, cs[0]);
    R.FirstHitAt(keys, cs, 0);
    if LongestMatch(RoutePaths(exact), RequestPath(q)).None? {
      LinedUp(exact, wild, Stars(Parts(q)), cs);
      WildPicks(exact, wild, q, cs);
    }
  }

  /** The texts are the key, which has no route, and the candidates. */
  ghost predicate Lined(keys: set<Path>, wild: map<string, Rule>, ws: seq<Request>, cs: seq<string>) {
    && |cs| == |ws| + 1 && R.Unmatched(keys, cs[0])
    && forall k | 0 <= k < |ws| ::
         && '*' in ws[k].host && UriPath(cs[k + 1]) == RequestPath(ws[k])
         && (R.Unmatched(keys, cs[k + 1]) <==> Misses(wild, ws[k]))
  }

  lemma LinedUp(exact: map<string, Rule>, wild: map<string, Rule>, ws: seq<Request>, cs: seq<string>)
    requires ExactRules(exact) && StarRules(wild) && |cs| == |ws| + 1 && R.Unmatched(Routes(exact, wild), cs[0])
    requires forall k | 0 <= k < |ws| :: '*' in ws[k].host && UriPath(cs[k + 1]) == RequestPath(ws[k])
    ensures Lined(Routes(exact, wild), wild, ws, cs)
  {
    hide RequestPath, UriPath, LongestMatch, ExactRules, StarRules, R.Unmatched, Misses, Routes;
    var keys := Routes(exact, wild);
    forall k | 0 <= k < |ws| ensures R.Unmatched(keys, cs[k + 1]) <==> Misses(wild, ws[k]) {
      KeyUnmatched(keys, cs[k + 1]);
      CandidateMisses(exact, wild, ws[k]);
    }
  }

  lemma WildPicks(exact: map<string, Rule>, wild: map<string, Rule>, q: Request, cs: seq<string>)
    requires ExactRules(exact) && StarRules(wild) && Lined(Routes(exact, wild), wild, Stars(Parts(q)), cs)
    ensures var looked := R.FirstHit(Routes(exact, wild), cs);
            && (forall u :: Found(wild, q, u) ==> looked == Some(UriPath(u)))
            && (looked.Some? ==> exists u :: Found(wild, q, u) && looked.value == UriPath(u))
            && (looked.None? <==> AllMiss(wild, Stars(Parts(q))))
  {
    hide UriPath, ExactRules, StarRules, Stars, Parts, R.FirstHit, Lined, AllMiss, Routes, FoundAt;
    var keys, ws := Routes(exact, wild), Stars(Parts(q));
    forall u | Found(wild, q, u) ensures R.FirstHit(keys, cs) == Some(UriPath(u)) {
      var k :| FoundAt(wild, ws, u, k);
      FoundPicked(exact, wild, ws, cs, u, k);
    }
    PickedFound(exact, wild, ws, cs);
  }

  lemma FoundPicked(exact: map<string, Rule>, wild: map<string, Rule>, ws: seq<Request>, cs: seq<string>, u: string, k: int)
    requires ExactRules(exact) && StarRules(wild) && Lined(Routes(exact, wild), wild, ws, cs) && FoundAt(wild, ws, u, k)
    ensures R.FirstHit(Routes(exact, wild), cs) == Some(UriPath(u))
  {
    hide RequestPath, UriPath, LongestMatch, ExactRules, StarRules, Above, R.FirstHit, Split, R.Unmatched, Misses, Routes;
    var keys := Routes(exact, wild);
    CandidateFinds(exact, wild, ws[k], u);
    forall j | 0 <= j < k + 1 ensures R.Unmatched(keys, cs[j]) {
      if j > 0 { assert Misses(wild, ws[j - 1]) && cs[j] == cs[(j - 1) + 1]; }
    }
    R.FirstHitAt(keys, cs, k + 1);
  }

  lemma PickedFound(exact: map<string, Rule>, wild: map<string, Rule>, ws: seq<Request>, cs: seq<string>)
    requires ExactRules(exact) && StarRules(wild) && Lined(Routes(exact, wild), wild, ws, cs)
    ensures var looked := R.FirstHit(Routes(exact, wild), cs);
            && (looked.None? <==> AllMiss(wild, ws))
            && (looked.Some? ==> exists u, k :: FoundAt(wild, ws, u, k) && looked.value == UriPath(u))
  {
    hide RequestPath, UriPath, LongestMatch, ExactRules, StarRules, Above, R.FirstHit, Split, R.Unmatched, Misses, Routes,
         FoundAt;
    var keys := Routes(exact, wild);
    R.FirstHitMeaning(keys, cs);
    forall j | 0 < j < |cs| ensures R.Unmatched(keys, cs[j]) <==> Misses(wild, ws[j - 1]) { assert cs[j] == cs[(j - 1) + 1]; }
    if R.FirstHit(keys, cs).Some? {
      var p := R.FirstHit(keys, cs).value;
      var c :| 0 <= c < |cs| && Some(p) == LongestMatch(keys, UriPath(cs[c])) && forall j | 0 <= j < c :: R.Unmatched(keys, cs[j]);
      KeyUnmatched(keys, cs[0]);
      forall j | 0 <= j < c - 1 ensures Misses(wild, ws[j]) { assert R.Unmatched(keys, cs[j + 1]); }
      FoundFrom(exact, wild, ws, cs, c, p);
    } else {
      forall k | 0 <= k < |ws| ensures Misses(wild, ws[k]) { assert R.Unmatched(keys, cs[k + 1]); }
    }
  }

  lemma FoundFrom(exact: map<string, Rule>, wild: map<string, Rule>, ws: seq<Request>, cs: seq<string>, c: int, p: Path)
    requires ExactRules(exact) && StarRules(wild) && 0 < c < |cs| == |ws| + 1 && '*' in ws[c - 1].host
    requires LongestMatch(Routes(exact, wild), RequestPath(ws[c - 1])) == Some(p)
    requires forall j | 0 <= j < c - 1 :: Misses(wild, ws[j])
    ensures exists u :: FoundAt(wild, ws, u, c - 1) && p == UriPath(u)
  {
    hide RequestPath, IsPrefix, UriPath, LongestMatch, ExactRules, StarRules, Above, Split;
    var w := ws[c - 1];
    KeysAbove(exact, wild, w, p);
    var u :| u in wild && UriPath(u) == p && Above(u, w);
    CandidateFinds(exact, wild, w, u);
    assert FoundAt(wild, ws, u, c - 1);
  }

  // ---------------------------------------------------------------------------------
  // What the policy picks

  /** The rule at place i after the exact ones. */
  lemma WildAt(p: seq<Rule>, exact: map<string, Rule>, wild: map<string, Rule>,
               exactOrder: seq<string>, wildOrder: seq<string>, q: Request, i: nat)
    requires IsPolicy(p, exact, wild, exactOrder, wildOrder) && StarRules(wild) && i < |wildOrder|
    ensures |p| == |exact| + |wildOrder| && wildOrder[i] in wild && wild[wildOrder[i]].fullUri == wildOrder[i]
    ensures Matches(p[|exact| + i], q) <==> Covers(wildOrder[i], q.host)
  {
    hide RuleFor, Matches, Covers, StarRoute;
    var u := wildOrder[i];
    assert u in wildOrder;
    assert p[|exact|..][i] == p[|exact| + i];
    StarMatches(wild, u, |exact| + i, q);
  }

  lemma Listed(p: seq<Rule>, exact: map<string, Rule>, wild: map<string, Rule>,
               exactOrder: seq<string>, wildOrder: seq<string>, u: string) returns (i: nat)
    requires IsPolicy(p, exact, wild, exactOrder, wildOrder) && u in wild
    ensures i < |wildOrder| && wildOrder[i] == u
  {
    assert u in wildOrder;
    i :| 0 <= i < |wildOrder| && wildOrder[i] == u;
  }

  /** Of two wildcard rules the later does not sort after the earlier. */
  lemma InOrder(p: seq<Rule>, exact: map<string, Rule>, wild: map<string, Rule>,
                exactOrder: seq<string>, wildOrder: seq<string>, i: nat, j: nat)
    requires IsPolicy(p, exact, wild, exactOrder, wildOrder) && i < j < |wildOrder|
    ensures wildOrder[i] in wild && wildOrder[j] in wild
    ensures !Less(wild[wildOrder[i]].fullUri, wild[wildOrder[j]].fullUri)
  {
    hide Less;
    assert wildOrder[i] in wildOrder && wildOrder[j] in wildOrder;
  }

  /** The covering route that sorts last. */
  ghost predicate Last(wild: map<string, Rule>, host: string, u: string) {
    u in wild && Covers(u, host) && forall v | v in wild && Covers(v, host) && v != u :: Less(v, u)
  }

  /** Past the exact rules, the policy applies the covering route that sorts last. */
  lemma PolicyPicks(p: seq<Rule>, exact: map<string, Rule>, wild: map<string, Rule>,
                    exactOrder: seq<string>, wildOrder: seq<string>, q: Request)
    requires IsPolicy(p, exact, wild, exactOrder, wildOrder) && StarRules(wild)
    requires FirstMatch(p, q).Some? ==> FirstMatch(p, q).value >= |exact|
    ensures FirstMatch(p, q).None? <==> forall u | u in wild :: !Covers(u, q.host)
    ensures FirstMatch(p, q).Some? ==> var i := FirstMatch(p, q).value - |exact|;
                                       i < |wildOrder| && Last(wild, q.host, wildOrder[i])
  {
    hide Matches, Covers, Less, StarRules, IsPolicy, FirstMatch;
    OrderLength(p, exact, wild, exactOrder, wildOrder);
    var first := FirstMatch(p, q);
    if first.Some? {
      LastMatch(p, exact, wild, exactOrder, wildOrder, q, first.value - |exact|);
    } else {
      forall u | u in wild ensures !Covers(u, q.host) {
        var at := Listed(p, exact, wild, exactOrder, wildOrder, u);
        WildAt(p, exact, wild, exactOrder, wildOrder, q, at);
      }
    }
  }

  lemma LastMatch(p: seq<Rule>, exact: map<string, Rule>, wild: map<string, Rule>,
                  exactOrder: seq<string>, wildOrder: seq<string>, q: Request, i: nat)
    requires IsPolicy(p, exact, wild, exactOrder, wildOrder) && StarRules(wild) && i < |wildOrder|
    requires FirstMatch(p, q) == Some(|exact| + i)
    ensures Last(wild, q.host, wildOrder[i])
  {
    hide Matches, Covers, Less, StarRules, IsPolicy, FirstMatch;
    WildAt(p, exact, wild, exactOrder, wildOrder, q, i);
    forall v | v in wild && Covers(v, q.host) && v != wildOrder[i] ensures Less(v, wildOrder[i]) {
      var at := Listed(p, exact, wild, exactOrder, wildOrder, v);
      WildAt(p, exact, wild, exactOrder, wildOrder, q, at);
      assert at > i;
      InOrder(p, exact, wild, exactOrder, wildOrder, i, at);
      LessTotal(v, wildOrder[i]);
    }
  }

  // ---------------------------------------------------------------------------------
  // When they agree

  /** No wildcard route covers the host and none lies above a candidate. */
  ghost predicate Untouched(wild: map<string, Rule>, q: Request) {
    (forall u | u in wild :: !Covers(u, q.host)) && AllMiss(wild, Stars(Parts(q)))
  }

  /** The wildcard route found first is the covering one that sorts last, or there is neither. */
  ghost predicate Specific(wild: map<string, Rule>, q: Request) {
    Untouched(wild, q) || exists u :: Found(wild, q, u) && Last(wild, q.host, u)
  }

  /** The route whose rule the policy applies to the request. */
  ghost function Applied(p: seq<Rule>, exactOrder: seq<string>, wildOrder: seq<string>, q: Request): Option<Path>
    requires |p| == |exactOrder| + |wildOrder|
  {
    match FirstMatch(p, q)
    case None => None
    case Some(i) => Some(UriPath(if i < |exactOrder| then exactOrder[i] else wildOrder[i - |exactOrder|]))
  }

  /**
   The policy applies the route that the lookup finds exactly when an exact route covers the
   request, or the wildcard route found first is the covering one that sorts last, or there is
   no wildcard for it at all.
   */
  lemma PolicyAgreesWithLookup(p: seq<Rule>, exact: map<string, Rule>, wild: map<string, Rule>,
                               exactOrder: seq<string>, wildOrder: seq<string>, q: Request)
    requires IsPolicy(p, exact, wild, exactOrder, wildOrder) && ExactRules(exact) && StarRules(wild) && Ordinary(q)
    ensures |p| == |exactOrder| + |wildOrder|
    ensures Applied(p, exactOrder, wildOrder, q) == R.Lookup(Routes(exact, wild), RequestUri(q)) <==>
            LongestMatch(RoutePaths(exact), RequestPath(q)).Some? || Specific(wild, q)
  {
    hide IsPolicy, ExactRules, StarRules, Ordinary, LongestMatch, RoutePaths, RequestPath, RequestUri, UriPath,
         FirstMatch, R.Lookup, Specific, Covers, Found, Last, Untouched;
    OrderLength(p, exact, wild, exactOrder, wildOrder);
    LookupPicks(exact, wild, q);
    FirstMatchIsLongestPrefix(p, exact, wild, exactOrder, wildOrder, q);
    if LongestMatch(RoutePaths(exact), RequestPath(q)).None? {
      PolicyPicks(p, exact, wild, exactOrder, wildOrder, q);
      var looked := R.Lookup(Routes(exact, wild), RequestUri(q));
      var first := FirstMatch(p, q);
      BothPick(wild, q, looked, if first.None? then None else Some(wildOrder[first.value - |exact|]));
    }
  }

  lemma BothPick(wild: map<string, Rule>, q: Request, looked: Option<Path>, applied: Option<string>)
    requires StarRules(wild)
    requires forall u :: Found(wild, q, u) ==> looked == Some(UriPath(u))
    requires looked.Some? ==> exists u :: Found(wild, q, u) && looked.value == UriPath(u)
    requires looked.None? <==> AllMiss(wild, Stars(Parts(q)))
    requires applied.None? <==> forall u | u in wild :: !Covers(u, q.host)
    requires applied.Some? ==> Last(wild, q.host, applied.value)
    ensures (match applied case None => looked.None? case Some(u) => looked == Some(UriPath(u))) <==> Specific(wild, q)
  {
    hide UriPath, Covers, RuleFor, StarRoute, Stars, Parts, Less, Above, Split;
    if looked.Some? {
      var u :| Found(wild, q, u) && looked.value == UriPath(u);
      assert u in wild && !Untouched(wild, q) by { FoundTouches(wild, q, u); }
      if applied.Some? { SamePath(u, applied.value); }
      forall v | Found(wild, q, v) ensures v == u { FoundTouches(wild, q, v); SamePath(u, v); }
    }
    if applied.Some? { forall v | Last(wild, q.host, v) ensures v == applied.value { LastOne(wild, q.host, v, applied.value); } }
  }

  lemma LastOne(wild: map<string, Rule>, host: string, u: string, v: string)
    requires Last(wild, host, u) && Last(wild, host, v)
    ensures u == v
  {
    hide Covers, Less;
    if u != v { LessAsymmetric(u, v); }
  }

  lemma LessAsymmetric(a: string, b: string)
    ensures !(Less(a, b) && Less(b, a))
  {
    if Less(a, b) && Less(b, a) {
      LessTransitive(a, b, a);
      LessIrreflexive(a);
    }
  }

  lemma FoundTouches(wild: map<string, Rule>, q: Request, u: string)
    requires Found(wild, q, u)
    ensures u in wild && !Untouched(wild, q)
  {
    hide Covers, Above, Stars, Parts, Split;
  }

  /**
   A dot in the path leads the lookup astray: for a.b/x.y it ends with "*.y", which has nothing to do
   with the host, where the policy applies no rule.
   */
  lemma PathDotStrays(p: seq<Rule>, wild: map<string, Rule>)
    requires wild.Keys == {"*.y"} && StarRules(wild) && IsPolicy(p, map[], wild, [], ["*.y"])
    ensures RequestUri(Request("a.b", ["x.y"])) == "a.b/x.y"
    ensures R.Lookup(Routes(map[], wild), "a.b/x.y") == Some(UriPath("*.y"))
    ensures FirstMatch(p, Request("a.b", ["x.y"])).None?
  {
    hide IsPolicy, StarRules, LongestMatch, R.Lookup, UriPath, FirstMatch;
    var q := Request("a.b", ["x.y"]);
    StrayOrdinary();
    StrayFound(wild);
    LookupPicks(map[], wild, q);
    OrderLength(p, map[], wild, [], ["*.y"]);
    PolicyPicks(p, map[], wild, [], ["*.y"], q);
    assert LongestMatch(RoutePaths(map[]), RequestPath(q)).None? by {
      assert RoutePaths(map[]) == {};
      LongestMatchMeaning({}, RequestPath(q));
    }
  }

  lemma StrayOrdinary()
    ensures Ordinary(Request("a.b", ["x.y"])) && RequestUri(Request("a.b", ["x.y"])) == "a.b/x.y"
  {
    hide RouteKey;
    var q := Request("a.b", ["x.y"]);
    assert (["a.b"] + ["x.y"])[1..] == ["x.y"];
    assert Join(["x.y"], '/') == "x.y" && "a.b" + ['/'] + "x.y" == "a.b/x.y";
    assert RequestUri(q) == "a.b" + ['/'] + Join(["x.y"], '/');
    assert forall x :: x in [q.host] + q.segments ==> x == "a.b" || x == "x.y";
    StrayKey();
  }

  lemma StrayKey()
    ensures RouteKey("a.b/x.y") == "a.b/x.y"
  {
    hide IndexOf;
    var u := "a.b/x.y";
    assert UriString(u) == u by { assert u[|u| - 1..] == "y"; }
    assert ToLower(u) == u;
    assert '?' !in u;
  }

  lemma StrayFound(wild: map<string, Rule>)
    requires wild.Keys == {"*.y"}
    ensures Found(wild, Request("a.b", ["x.y"]), "*.y") && !Covers("*.y", "a.b")
  {
    hide Split, IndexOf, Stars, Parts, HostPart, Ends;
    var ws := Stars(Parts(Request("a.b", ["x.y"])));
    StrayStars();
    StrayParts();
    assert Parts(ws[0]) == ["*.b", "x.y"] && Parts(ws[1]) == ["*.y"] by { PartsAre("*.b", ["x.y"]); PartsAre("*.y", []); }
    assert !(["*.y"] <= ["*.b", "x.y"]) by { assert ["*.y"][0][2] != ["*.b", "x.y"][0][2]; }
    assert Misses(wild, ws[0]) && Above("*.y", ws[1]);
    assert FoundAt(wild, ws, "*.y", 1);
    assert "a.b"[1..] == ".b" && ".y"[1] != ".b"[1];
  }

  lemma PartsAre(host: string, segments: seq<string>)
    ensures Parts(Request(host, segments)) == [host] + segments
  {
  }

  lemma StrayParts()
    ensures Split("*.y", '/') == ["*.y"] && HostPart("*.y") == "*.y" && Ends("*.y") == ["", ".y"]
  {
    hide Split, IndexOf;
    SplitUnfold("*.y", '/');
    HostOf("*.y", "");
    assert "*.y" + "" == "*.y";
    assert "*.y" == "" + ['*'] + ".y";
    SplitCons("", '*', ".y");
    SplitUnfold(".y", '*');
  }

  lemma StrayStars()
    ensures Stars(Parts(Request("a.b", ["x.y"]))) == [Request("*.b", ["x.y"]), Request("*.y", [])]
  {
    hide DotTails;
    OneDot("a", "b", ["x.y"]);
    OneDot("x", "y", []);
    assert "a" + ['.'] + "b" == "a.b" && "x" + ['.'] + "y" == "x.y" && "*." + "b" == "*.b" && "*." + "y" == "*.y";
    assert Parts(Request("a.b", ["x.y"]))[1..] == ["x.y"] && ["x.y"][1..] == [];
    assert Stars(["x.y"]) == StarsOf("x.y", []);
  }

  lemma OneDot(a: string, b: string, rest: seq<string>)
    requires '.' !in a && '.' !in b
    ensures StarsOf(a + ['.'] + b, rest) == [Request("*." + b, rest)]
  {
    hide DotTails;
    FirstDot(a, b);
    NoDots(b);
  }
}
