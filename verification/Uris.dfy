/** Route URIs (route/uris.go) and the trie path each one names. */
module Uris {
  import opened Wrappers
  import opened Text
  import opened Paths

  /** `Uri.String`: one trailing slash is dropped. */
  function UriString(u: string): string { TrimSuffix(u, "/") }

  /** BIG-IP object names, different for different routes. */
  datatype Name = Http(uri: string) | Tcp(port: nat)

  /** `makeObjectName`, on the URI without its trailing slash. */
  function NameOf(uri: string): Name { Http(UriString(uri)) }

  function LowerChar(c: char): char {
    if 'A' <= c <= 'Z' then c - 'A' + 'a' else c
  }

  /** `strings.ToLower`, on the ASCII letters. */
  function ToLower(u: string): (r: string)
    ensures |r| == |u|
  {
    seq(|u|, i requires 0 <= i < |u| => LowerChar(u[i]))
  }

  /** `Uri.RouteKey`: one trailing slash dropped, lower case, query string cut off. */
  function RouteKey(u: string): string {
    var key := ToLower(UriString(u));
    var i := IndexOf(key, '?');
    if i >= 0 then key[..i] else key
  }

  /** A route key is a fixed point exactly when it does not end in a slash ("a//", "a/?q" do). */
  lemma RouteKeyIdempotent(u: string)
    ensures RouteKey(RouteKey(u)) == RouteKey(u) <==> !HasSuffix(RouteKey(u), "/")
    ensures '?' !in RouteKey(u)
  {
    var k := RouteKey(u);
    var k' := UriString(k);
    assert ToLower(k') == k';
    assert IndexOf(k', '?') == -1;
  }

  /** The same character, but for the case of an ASCII letter. */
  predicate SameLetter(c: char, d: char) {
    || c == d
    || ('A' <= c <= 'Z' && 'a' <= d <= 'z' && d - c == 'a' - 'A')
    || ('a' <= c <= 'z' && 'A' <= d <= 'Z' && c - d == 'a' - 'A')
  }

  predicate SameText(u: string, v: string) {
    |u| == |v| && forall k | 0 <= k < |u| :: SameLetter(u[k], v[k])
  }

  predicate Upper(c: char) { 'A' <= c <= 'Z' }

  /** How much of a URI its key spells: up to the query, without one slash at the very end. */
  function KeyLength(u: string): (n: nat)
    ensures n <= |u|
  {
    var q := IndexOf(u, '?');
    if q >= 0 then q else if u != "" && u[|u| - 1] == '/' then |u| - 1 else |u|
  }

  /** What a key is: the URI up to its query, without one slash at its very end, with no capital letter. */
  lemma RouteKeyMeaning(u: string)
    ensures SameText(RouteKey(u), u[..KeyLength(u)])
    ensures forall c | c in RouteKey(u) :: !Upper(c)
  {
    hide IndexOf;
    var s := UriString(u);
    var key := ToLower(s);
    forall k | 0 <= k < |s| ensures s[k] == u[k] && SameLetter(key[k], u[k]) && !Upper(key[k]) {}
    forall k | 0 <= k < |s| ensures key[k] == '?' <==> u[k] == '?' {}
    SameIndex(key, u);
  }

  /** The query begins at the same place in a text and in its key. */
  lemma SameIndex(key: string, u: string)
    requires |key| <= |u| <= |key| + 1 && (|u| > |key| ==> u[|u| - 1] == '/')
    requires forall k | 0 <= k < |key| :: key[k] == '?' <==> u[k] == '?'
    ensures IndexOf(key, '?') == IndexOf(u, '?')
  {
    hide IndexOf;
    var i, q := IndexOf(key, '?'), IndexOf(u, '?');
    FirstQuery(key, if q < 0 then |key| else q);
    FirstQuery(u, if i < 0 then |u| else i);
  }

  /** No query before its index. */
  lemma FirstQuery(s: string, n: nat)
    ensures var i := IndexOf(s, '?'); (i < 0 || n <= i) ==> forall k | 0 <= k < n && k < |s| :: s[k] != '?'
  {
    hide IndexOf;
    var i := IndexOf(s, '?');
    forall k | 0 <= k < n && k < |s| && (i < 0 || n <= i) ensures s[k] != '?' {
      if i < 0 { assert s[k] in s; } else { assert s[..i][k] == s[k]; }
    }
  }

  /** Texts that differ in case only have one key, and a key has only one spelling. */
  lemma RouteKeyCase(u: string, v: string)
    ensures SameText(u, v) ==> RouteKey(u) == RouteKey(v)
    ensures SameText(u[..KeyLength(u)], v[..KeyLength(v)]) <==> RouteKey(u) == RouteKey(v)
  {
    hide RouteKey, IndexOf;
    RouteKeyMeaning(u);
    RouteKeyMeaning(v);
    var a, b := u[..KeyLength(u)], v[..KeyLength(v)];
    if SameText(u, v) {
      SameEnds(u, v);
    }
    if SameText(a, b) { OneSpelling(RouteKey(u), a, b, RouteKey(v)); }
    if RouteKey(u) == RouteKey(v) { SameBoth(RouteKey(u), a, b); }
  }

  lemma SameEnds(u: string, v: string)
    requires SameText(u, v)
    ensures KeyLength(u) == KeyLength(v) && SameText(u[..KeyLength(u)], v[..KeyLength(v)])
  {
    hide IndexOf;
    SameIndex(u, v);
  }

  /** Without capitals, one text. */
  lemma OneSpelling(key: string, a: string, b: string, other: string)
    requires SameText(key, a) && SameText(a, b) && SameText(other, b)
    requires (forall c | c in key :: !Upper(c)) && forall c | c in other :: !Upper(c)
    ensures key == other
  {
    forall k | 0 <= k < |key| ensures key[k] == other[k] {
      assert SameLetter(key[k], a[k]) && SameLetter(a[k], b[k]) && SameLetter(other[k], b[k]);
      assert key[k] in key && other[k] in other;
    }
  }

  lemma SameBoth(key: string, a: string, b: string)
    requires SameText(key, a) && SameText(key, b)
    ensures SameText(a, b)
  {
    forall k | 0 <= k < |key| ensures SameLetter(a[k], b[k]) {
      assert SameLetter(key[k], a[k]) && SameLetter(key[k], b[k]);
    }
  }

  /** The key the trie descends: no leading and no trailing slash. */
  function TrieKey(u: string): string { TrimPrefix(UriString(u), "/") }

  /** The trie node a URI names. */
  function UriPath(u: string): Path { Walk(Root, TrieKey(u)) }

  lemma UriPathProper(u: string)
    ensures UriPath(u).Child? && SlashFree(UriPath(u))
  {
    WalkSlashFree(Root, TrieKey(u));
  }

  /** The text of `p` neither starts nor ends with a slash. */
  predicate CleanText(p: Path)
    requires p.Child?
  {
    var t := PathText(p);
    t == [] || (t[0] != '/' && t[|t| - 1] != '/')
  }

  /** A node's path text names that node again exactly when the text has no outer slash. */
  lemma PathTextNamesNode(p: Path)
    requires p.Child? && SlashFree(p)
    ensures UriPath(PathText(p)) == p <==> CleanText(p)
  {
    hide Walk, PathText, TrieKey;
    var t := PathText(p);
    WalkPathText(p);
    PathTextWalk(TrieKey(t));
    KeyIsText(t);
  }

  lemma KeyIsText(t: string)
    ensures TrieKey(t) == t <==> t == "" || (t[0] != '/' && t[|t| - 1] != '/')
  {
    if t != "" && (t[0] == '/' || t[|t| - 1] == '/') { assert |TrieKey(t)| < |t|; }
  }

  /** `makeObjectName` cuts the text at its first dot unless it has a wildcard; without either it panics. */
  predicate Nameable(u: string) { '.' in UriString(u) || '*' in UriString(u) }

  /** Outer slashes do not matter for that. */
  lemma NameableKey(u: string)
    ensures Nameable(u) <==> Nameable(TrieKey(u))
    ensures Nameable(u) <==> '.' in u || '*' in u
  {
    KeepsChars(u);
    KeepsChars(UriString(u));
    KeepsChars(TrieKey(u));
  }

  lemma KeepsChars(u: string)
    ensures forall c :: c != '/' ==> (c in u <==> c in UriString(u)) && (c in u <==> c in TrimPrefix(u, "/"))
  {
    forall c | c != '/' && c in u ensures c in UriString(u) && c in TrimPrefix(u, "/") {
      var k :| 0 <= k < |u| && u[k] == c;
      if HasSuffix(u, "/") { assert u[|u| - 1] == '/' && UriString(u)[k] == c; }
      if HasPrefix(u, "/") { assert u[0] == '/' && TrimPrefix(u, "/")[k - 1] == c; }
    }
  }

  /** `Uri.NextWildcard`: drop the first label (after any "*.") and put "*." in front. */
  function NextWildcard(u: string): (r: Option<string>)
    ensures r.Some? ==> DotsLeft(r.value) < DotsLeft(u)
  {
    var uri := TrimPrefix(UriString(u), "*.");
    var i := IndexOf(uri, '.');
    if i == -1 then None
    else
      CountSuffix(uri, '.', i);
      WildcardDots(uri[i + 1..]);
      Some("*." + uri[i + 1..])
  }

  function Count(s: string, c: char): nat {
    if s == [] then 0 else (if s[0] == c then 1 else 0) + Count(s[1..], c)
  }

  /** Termination measure of the wildcard search: dots after the "*." prefix. */
  function DotsLeft(u: string): nat { Count(TrimPrefix(UriString(u), "*."), '.') }

  lemma WildcardDots(rest: string)
    ensures TrimPrefix(UriString("*." + rest), "*.") == UriString(rest)
    ensures DotsLeft("*." + rest) <= Count(rest, '.')
  {
    var w := "*." + rest;
    assert w[|w| - 1] == if rest == [] then '.' else rest[|rest| - 1];
    assert TrimPrefix(UriString(w), "*.") == UriString(rest);
    CountTake(rest, '.', |UriString(rest)|);
    assert rest[..|UriString(rest)|] == UriString(rest);
  }

  lemma {:induction false} CountTake(s: string, c: char, n: nat)
    requires n <= |s|
    ensures Count(s[..n], c) <= Count(s, c)
  {
    if n > 0 {
      CountTake(s[1..], c, n - 1);
      assert s[..n][1..] == s[1..][..n - 1];
    }
  }

  lemma {:induction false} CountSuffix(s: string, c: char, i: nat)
    requires i < |s| && s[i] == c
    ensures Count(s[i + 1..], c) < Count(s, c)
  {
    if i == 0 {
    } else {
      CountSuffix(s[1..], c, i - 1);
      assert s[1..][i..] == s[i + 1..];
    }
  }

  /** The keys `Lookup` tries, in order: the key itself, then each successive wildcard. */
  function Candidates(u: string): (r: seq<string>)
    ensures |r| >= 1 && r[0] == u
    decreases DotsLeft(u)
  {
    match NextWildcard(u)
    case None => [u]
    case Some(w) => [u] + Candidates(w)
  }

  /** The labels of a key, after its own "*." if it has one. */
  function KeyLabels(u: string): seq<string> { Split(TrimPrefix(UriString(u), "*."), '.') }

  /** Up to n slashes off the end. */
  function TrimSlashes(s: string, n: nat): string
    decreases n
  {
    if n == 0 then s else TrimSlashes(UriString(s), n - 1)
  }

  /** "*.lk...ln"; every step of the search takes one more slash off the end. */
  function WildcardOf(labels: seq<string>, k: nat, trimmed: nat): string
    requires k < |labels|
  {
    "*." + TrimSlashes(Join(labels[k..], '.'), trimmed)
  }

  function NthCandidate(u: string, k: nat): string
    requires k < |KeyLabels(u)|
  {
    if k == 0 then u else WildcardOf(KeyLabels(u), k, k - 1)
  }

  /**
   The candidate list in closed form, for every key: with labels l0.l1...ln it is the key and then
   "*.l1...ln", "*.l2...ln", ..., "*.ln", the k-th without its last k slashes, if it had so many.
   */
  lemma CandidatesMeaning(u: string)
    ensures |Candidates(u)| == |KeyLabels(u)|
    ensures forall k :: 0 <= k < |Candidates(u)| ==> Candidates(u)[k] == NthCandidate(u, k)
  {
    hide KeyLabels, WildcardOf, NextWildcard, DotsLeft;
    var labels := KeyLabels(u);
    FirstStep(u);
    if |labels| > 1 { WildcardCandidates(labels, 1, 0); }
  }

  lemma FirstStep(u: string)
    ensures var labels := KeyLabels(u);
            && |labels| >= 1 && (forall j :: 0 <= j < |labels| ==> '.' !in labels[j])
            && NextWildcard(u) == if |labels| == 1 then None else Some(WildcardOf(labels, 1, 0))
  {
    hide Split, Join, UriString, TrimSlashes, IndexOf, TrimPrefix;
    var t, labels := TrimPrefix(UriString(u), "*."), KeyLabels(u);
    JoinSplit(t, '.');
    NextLabel(labels, 0, 0);
    assert labels[0..] == labels;
    NoTrim(t);
    if |labels| > 1 { NoTrim(Join(labels[1..], '.')); }
  }

  lemma NoTrim(s: string)
    ensures TrimSlashes(s, 0) == s
  {
  }

  lemma {:induction false} TrimSlashesStep(s: string, n: nat)
    ensures UriString(TrimSlashes(s, n)) == TrimSlashes(s, n + 1)
    decreases n
  {
    if n > 0 { TrimSlashesStep(UriString(s), n - 1); }
  }

  /** Slashes go off the end only. */
  lemma {:induction false} TrimSlashesAfter(a: string, c: char, b: string, n: nat)
    requires c != '/'
    ensures TrimSlashes(a + [c] + b, n) == a + [c] + TrimSlashes(b, n)
    decreases n
  {
    if n > 0 {
      var s := a + [c] + b;
      assert s[|s| - 1] == if b == [] then c else b[|b| - 1];
      assert UriString(s) == a + [c] + UriString(b);
      TrimSlashesAfter(a, c, UriString(b), n - 1);
    }
  }

  lemma {:induction false} TrimSlashesPrefix(s: string, n: nat)
    ensures TrimSlashes(s, n) <= s
    decreases n
  {
    if n > 0 { TrimSlashesPrefix(UriString(s), n - 1); }
  }

  /** The first dot of the labels from k on ends the k-th, whatever is trimmed. */
  lemma NextLabel(labels: seq<string>, k: nat, trimmed: nat)
    requires k < |labels| && '.' !in labels[k]
    ensures var t := TrimSlashes(Join(labels[k..], '.'), trimmed);
            if k + 1 < |labels|
            then IndexOf(t, '.') == |labels[k]|
                 && t[|labels[k]| + 1..] == TrimSlashes(Join(labels[k + 1..], '.'), trimmed)
            else IndexOf(t, '.') == -1
  {
    hide IndexOf, TrimSlashes;
    if k + 1 < |labels| {
      var rest := Join(labels[k + 1..], '.');
      assert labels[k..][1..] == labels[k + 1..];
      TrimSlashesAfter(labels[k], '.', rest, trimmed);
      IndexOfFirst(labels[k], '.', TrimSlashes(rest, trimmed));
    } else {
      assert labels[k..] == [labels[k]];
      TrimSlashesPrefix(labels[k], trimmed);
    }
  }

  /** One step of the wildcard search drops one label and one slash. */
  lemma WildcardStep(labels: seq<string>, k: nat, trimmed: nat)
    requires k < |labels| && '.' !in labels[k]
    ensures NextWildcard(WildcardOf(labels, k, trimmed)) ==
            if k + 1 < |labels| then Some(WildcardOf(labels, k + 1, trimmed + 1)) else None
  {
    hide Join, IndexOf, UriString, TrimSlashes;
    var t := TrimSlashes(Join(labels[k..], '.'), trimmed);
    WildcardDots(t);
    TrimSlashesStep(Join(labels[k..], '.'), trimmed);
    NextLabel(labels, k, trimmed + 1);
  }

  lemma {:induction false} WildcardCandidates(labels: seq<string>, k: nat, trimmed: nat)
    requires k < |labels| && forall j :: 0 <= j < |labels| ==> '.' !in labels[j]
    ensures var r := Candidates(WildcardOf(labels, k, trimmed));
            |r| == |labels| - k && forall j :: 0 <= j < |r| ==> r[j] == WildcardOf(labels, k + j, trimmed + j)
    decreases |labels| - k
  {
    hide WildcardOf, NextWildcard, DotsLeft, Join;
    WildcardStep(labels, k, trimmed);
    if k + 1 < |labels| { WildcardCandidates(labels, k + 1, trimmed + 1); }
  }

  /** Without a slash at the end nothing is trimmed. */
  lemma PlainCandidate(u: string, labels: seq<string>, k: nat)
    requires |labels| >= 1 && u == Join(labels, '.') && k < |labels| && labels[0] != "*" && !HasSuffix(u, "/")
    requires forall j :: 0 <= j < |labels| ==> '.' !in labels[j]
    ensures KeyLabels(u) == labels
    ensures NthCandidate(u, k) == if k == 0 then u else "*." + Join(labels[k..], '.')
  {
    hide Split, Join, TrimSlashes;
    NotWildcard(labels);
    SplitJoin(labels, '.');
    if k > 0 {
      SuffixEnd(labels, k);
      NothingTrimmed(Join(labels[k..], '.'), k - 1);
    }
  }

  lemma {:induction false} NothingTrimmed(s: string, n: nat)
    requires !HasSuffix(s, "/")
    ensures TrimSlashes(s, n) == s
    decreases n
  {
    if n > 0 { NothingTrimmed(s, n - 1); }
  }

  /** Dropping labels keeps the end of the text. */
  lemma {:induction false} SuffixEnd(labels: seq<string>, k: nat)
    requires 0 < k < |labels| && !HasSuffix(Join(labels, '.'), "/")
    ensures !HasSuffix(Join(labels[k..], '.'), "/")
  {
    var rest := Join(labels[1..], '.');
    assert Join(labels, '.') == labels[0] + ['.'] + rest;
    if rest != [] { assert rest[|rest| - 1] == Join(labels, '.')[|Join(labels, '.')| - 1]; }
    if k > 1 {
      SuffixEnd(labels[1..], k - 1);
      assert labels[1..][k - 1..] == labels[k..];
    }
  }

  lemma NotWildcard(labels: seq<string>)
    requires |labels| >= 1
    requires '.' !in labels[0] && labels[0] != "*"
    ensures TrimPrefix(Join(labels, '.'), "*.") == Join(labels, '.')
  {
    var u := Join(labels, '.');
    if |labels[0]| >= 2 {
      assert u[1] == labels[0][1];
    } else if |labels[0]| == 1 {
      assert u[0] == labels[0][0] && labels[0] == [labels[0][0]];
    }
  }
}
