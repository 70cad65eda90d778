/**
 Route paths: the segments a route key is cut into at '/', the order in which the trie
 descends them, and what "the longest registered prefix" means.
 */
module Paths {
  import opened Wrappers
  import opened Text

  /** A node position, read from the leaf up: the last segment and the path above it. */
  datatype Path = Root | Child(up: Path, segment: string)

  function Depth(p: Path): nat {
    match p
    case Root => 0
    case Child(up, _) => 1 + Depth(up)
  }

  /** `a` is `p` or lies above it. */
  predicate IsPrefix(a: Path, p: Path) {
    a == p || (p.Child? && IsPrefix(a, p.up))
  }

  lemma {:induction false} PrefixDepth(a: Path, p: Path)
    requires IsPrefix(a, p)
    ensures Depth(a) <= Depth(p)
    ensures a != p ==> Depth(a) < Depth(p)
  {
    if a != p { PrefixDepth(a, p.up); }
  }

  lemma {:induction false} PrefixTransitive(a: Path, b: Path, c: Path)
    requires IsPrefix(a, b) && IsPrefix(b, c)
    ensures IsPrefix(a, c)
  {
    if b != c { PrefixTransitive(a, b, c.up); }
  }

  /** The prefixes of one path form a chain. */
  lemma {:induction false} PrefixesChain(a: Path, b: Path, p: Path)
    requires IsPrefix(a, p) && IsPrefix(b, p)
    ensures IsPrefix(a, b) || IsPrefix(b, a)
  {
    if a != p && b != p { PrefixesChain(a, b, p.up); }
  }

  /** The deepest prefix of `p` that is registered in `keys`. */
  function LongestMatch(keys: set<Path>, p: Path): (r: Option<Path>)
    ensures r.Some? ==> r.value in keys && IsPrefix(r.value, p)
  {
    if p in keys then Some(p)
    else if p.Root? then None
    else LongestMatch(keys, p.up)
  }

  /** `LongestMatch` is exactly "the registered prefix below every other registered prefix". */
  lemma {:induction false} LongestMatchMeaning(keys: set<Path>, p: Path)
    ensures LongestMatch(keys, p).None? <==> forall k :: k in keys ==> !IsPrefix(k, p)
    ensures forall m :: LongestMatch(keys, p) == Some(m) <==>
              (m in keys && IsPrefix(m, p) && forall k :: k in keys && IsPrefix(k, p) ==> IsPrefix(k, m))
  {
    if p in keys {
      forall m | m in keys && IsPrefix(m, p) && IsPrefix(p, m) ensures m == p {
        PrefixDepth(m, p); PrefixDepth(p, m);
      }
      assert IsPrefix(p, p);
    } else if p.Child? {
      LongestMatchMeaning(keys, p.up);
    }
  }

  /** The path the trie descends for `key`, starting below `from`: cut at each '/'. */
  function Walk(from: Path, key: string): Path
    decreases |key|
  {
    var i := IndexOf(key, '/');
    if i < 0 then Child(from, key) else Walk(Child(from, key[..i]), key[i + 1..])
  }

  /** `parts`: a key's first segment, and the rest after the first '/' if there is one. */
  datatype Parts = Parts(head: string, rest: Option<string>)

  function SplitFirst(key: string): (r: Parts)
    ensures r.rest.Some? ==> |r.rest.value| < |key|
  {
    var i := IndexOf(key, '/');
    if i < 0 then Parts(key, None) else Parts(key[..i], Some(key[i + 1..]))
  }

  lemma WalkStep(from: Path, key: string)
    ensures var k := SplitFirst(key);
            Walk(from, key) == if k.rest.None? then Child(from, k.head) else Walk(Child(from, k.head), k.rest.value)
  {
  }

  /** The slash-joined text of a non-root path. */
  function PathText(p: Path): string
    requires p.Child?
  {
    if p.up.Root? then p.segment else PathText(p.up) + "/" + p.segment
  }

  predicate SlashFree(p: Path) {
    p.Child? ==> '/' !in p.segment && SlashFree(p.up)
  }

  lemma {:induction false} WalkSlashFree(from: Path, key: string)
    requires SlashFree(from)
    ensures Walk(from, key).Child? && SlashFree(Walk(from, key))
    decreases |key|
  {
    hide Walk, IndexOf;
    WalkStep(from, key);
    var k := SplitFirst(key);
    if k.rest.Some? { WalkSlashFree(Child(from, k.head), k.rest.value); }
  }

  /** One more segment at the end shows up in the rest of the key. */
  lemma SplitFirstSnoc(a: string, s: string)
    ensures var k := SplitFirst(a);
            SplitFirst(a + "/" + s) ==
            if k.rest.None? then Parts(a, Some(s)) else Parts(k.head, Some(k.rest.value + "/" + s))
  {
    hide IndexOf;
    var i := IndexOf(a, '/');
    var k := a + "/" + s;
    if i < 0 {
      IndexOfFirst(a, '/', s);
      assert k[..|a|] == a && k[|a| + 1..] == s;
    } else {
      var rest := a[i + 1..];
      assert k == a[..i] + "/" + (rest + "/" + s);
      IndexOfFirst(a[..i], '/', rest + "/" + s);
      assert k[..i] == a[..i] && k[i + 1..] == rest + "/" + s;
    }
  }

  /** Walking a key with one more segment ends one step below. */
  lemma {:induction false} WalkSnoc(from: Path, a: string, s: string)
    requires '/' !in s
    ensures Walk(from, a + "/" + s) == Child(Walk(from, a), s)
    decreases |a|
  {
    hide Walk;
    WalkStep(from, a);
    WalkStep(from, a + "/" + s);
    SplitFirstSnoc(a, s);
    var k := SplitFirst(a);
    if k.rest.None? {
      WalkStep(Child(from, a), s);
    } else {
      WalkSnoc(Child(from, k.head), k.rest.value, s);
    }
  }

  /** A path's text walks back to the path. */
  lemma {:induction false} WalkPathText(p: Path)
    requires p.Child? && SlashFree(p)
    ensures Walk(Root, PathText(p)) == p
  {
    if p.up.Child? {
      WalkPathText(p.up);
      WalkSnoc(Root, PathText(p.up), p.segment);
    }
  }

  /** The text of a walked key is the key. */
  lemma {:induction false} PathTextWalk(key: string)
    ensures Walk(Root, key).Child? && PathText(Walk(Root, key)) == key
    decreases |key|
  {
    PathTextWalkFrom(Root, key);
  }

  lemma {:induction false} PathTextWalkFrom(from: Path, key: string)
    ensures var p := Walk(from, key);
            p.Child? && PathText(p) == if from.Root? then key else PathText(from) + "/" + key
    decreases |key|
  {
    hide Walk, IndexOf;
    WalkStep(from, key);
    var k := SplitFirst(key);
    if k.rest.Some? {
      PathTextWalkFrom(Child(from, k.head), k.rest.value);
      assert key == k.head + "/" + k.rest.value;
      if from.Child? { Glue(PathText(from), k.head, k.rest.value); }
    }
  }

  lemma Glue(a: string, b: string, c: string)
    ensures (a + "/" + b) + "/" + c == a + "/" + (b + "/" + c)
  {
  }

  /** A proper prefix has a text that is a proper prefix, so it sorts strictly below. */
  lemma {:induction false} PrefixTextLess(a: Path, p: Path)
    requires a.Child? && IsPrefix(a, p) && a != p
    ensures p.Child? && Less(PathText(a), PathText(p))
  {
    PrefixChild(a, p.up);
    LessExtension(PathText(p.up), "/" + p.segment);
    assert PathText(p.up) + ("/" + p.segment) == PathText(p);
    if a != p.up {
      PrefixTextLess(a, p.up);
      LessTransitive(PathText(a), PathText(p.up), PathText(p));
    }
  }

  lemma {:induction false} PrefixChild(a: Path, p: Path)
    requires a.Child? && IsPrefix(a, p)
    ensures p.Child?
  {
  }

  /** The path that extends `from` by the listed segments. */
  function Extend(from: Path, segments: seq<string>): Path
    decreases |segments|
  {
    if segments == [] then from
    else Child(Extend(from, segments[..|segments| - 1]), segments[|segments| - 1])
  }

  lemma {:induction false} ExtendCons(from: Path, first: string, rest: seq<string>)
    ensures Extend(from, [first] + rest) == Extend(Child(from, first), rest)
    decreases |rest|
  {
    var all := [first] + rest;
    if rest == [] {
      assert all[..|all| - 1] == [];
    } else {
      assert all[..|all| - 1] == [first] + rest[..|rest| - 1];
      ExtendCons(from, first, rest[..|rest| - 1]);
    }
  }

  /** Walking a key is extending by its split segments. */
  lemma {:induction false} WalkIsExtend(from: Path, key: string)
    ensures Walk(from, key) == Extend(from, Split(key, '/'))
    decreases |key|
  {
    hide IndexOf;
    var i := IndexOf(key, '/');
    if i < 0 {
      assert [key][..0] == [];
      assert Extend(from, []) == from;
      assert Extend(from, [key]) == Child(from, key);
    } else {
      WalkIsExtend(Child(from, key[..i]), key[i + 1..]);
      ExtendCons(from, key[..i], Split(key[i + 1..], '/'));
    }
  }

  lemma {:induction false} ExtendDepth(a: seq<string>)
    ensures Depth(Extend(Root, a)) == |a|
    decreases |a|
  {
    if a != [] { ExtendDepth(a[..|a| - 1]); }
  }

  /** Segment lists name each other's prefixes exactly as their paths do. */
  lemma {:induction false} ExtendPrefix(a: seq<string>, b: seq<string>)
    ensures IsPrefix(Extend(Root, a), Extend(Root, b)) <==> a <= b
    decreases |b|
  {
    ExtendDepth(a);
    ExtendDepth(b);
    var pa, pb := Extend(Root, a), Extend(Root, b);
    if |a| > |b| {
      if IsPrefix(pa, pb) { PrefixDepth(pa, pb); }
    } else if |a| == |b| {
      if IsPrefix(pa, pb) {
        PrefixDepth(pa, pb);
        ExtendInjective(a, b);
      }
      assert a <= b ==> a == b;
    } else {
      var c := b[..|b| - 1];
      ExtendPrefix(a, c);
      assert pa != pb;
      assert a <= c <==> a <= b;
    }
  }

  lemma {:induction false} ExtendInjective(a: seq<string>, b: seq<string>)
    requires Extend(Root, a) == Extend(Root, b)
    ensures a == b
    decreases |a|
  {
    ExtendDepth(a);
    ExtendDepth(b);
    if a != [] {
      ExtendInjective(a[..|a| - 1], b[..|b| - 1]);
      assert a == a[..|a| - 1] + [a[|a| - 1]];
      assert b == b[..|b| - 1] + [b[|b| - 1]];
    }
  }
}
