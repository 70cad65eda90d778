/** Stock option type, for Go's nil results and (value, ok) pairs. */
module Wrappers {
  datatype Option<+T> = None | Some(value: T)
}

/** The few operations of Go's `strings` package that the controller relies on. */
module Text {

  /** Position of the first `c` in `s`, or -1 (`strings.Index` with a one-character needle). */
  function IndexOf(s: string, c: char): (i: int)
    ensures -1 <= i < |s|
    ensures i == -1 <==> c !in s
    ensures i >= 0 ==> s[i] == c && c !in s[..i]
  {
    if s == [] then -1
    else if s[0] == c then 0
    else
      var j := IndexOf(s[1..], c);
      if j == -1 then -1 else
      assert s[..j + 1] == [s[0]] + s[1..][..j];
      j + 1
  }

  predicate HasPrefix(s: string, p: string) { p <= s }

  predicate HasSuffix(s: string, p: string) { |p| <= |s| && s[|s| - |p|..] == p }

  function TrimPrefix(s: string, p: string): string {
    if HasPrefix(s, p) then s[|p|..] else s
  }

  function TrimSuffix(s: string, p: string): string {
    if HasSuffix(s, p) then s[..|s| - |p|] else s
  }

  /** `strings.Split` on one character: never empty, and cuts at every occurrence. */
  function Split(s: string, c: char): (r: seq<string>)
    ensures |r| >= 1
    decreases |s|
  {
    var i := IndexOf(s, c);
    if i < 0 then [s] else [s[..i]] + Split(s[i + 1..], c)
  }

  /** The string that `Split` cuts: parts glued by `c`. */
  function Join(parts: seq<string>, c: char): string
    requires |parts| >= 1
  {
    if |parts| == 1 then parts[0] else parts[0] + [c] + Join(parts[1..], c)
  }

  /** Inside `a + [c] + b` with `c` not in `a`, the first `c` is the one after `a`. */
  lemma IndexOfFirst(a: string, c: char, b: string)
    requires c !in a
    ensures IndexOf(a + [c] + b, c) == |a|
  {
    assert (a + [c] + b)[|a|] == c;
    assert (a + [c] + b)[..|a|] == a;
  }

  lemma SplitUnfold(s: string, c: char)
    ensures var i := IndexOf(s, c);
            Split(s, c) == if i < 0 then [s] else [s[..i]] + Split(s[i + 1..], c)
  {
  }

  lemma SplitCons(a: string, c: char, rest: string)
    requires c !in a
    ensures Split(a + [c] + rest, c) == [a] + Split(rest, c)
  {
    hide IndexOf;
    IndexOfFirst(a, c, rest);
    assert (a + [c] + rest)[|a| + 1..] == rest;
    assert (a + [c] + rest)[..|a|] == a;
  }

  /** Splitting undoes joining when no part holds the separator. */
  lemma {:induction false} SplitJoin(parts: seq<string>, c: char)
    requires |parts| >= 1
    requires forall k :: 0 <= k < |parts| ==> c !in parts[k]
    ensures Split(Join(parts, c), c) == parts
  {
    if |parts| == 1 {
      assert Split(parts[0], c) == [parts[0]];
    } else {
      SplitJoin(parts[1..], c);
      SplitJoinStep(parts, c);
    }
  }

  lemma SplitJoinStep(parts: seq<string>, c: char)
    requires |parts| > 1 && c !in parts[0] && Split(Join(parts[1..], c), c) == parts[1..]
    ensures Split(Join(parts, c), c) == parts
  {
    hide Split;
    SplitCons(parts[0], c, Join(parts[1..], c));
    assert parts == [parts[0]] + parts[1..];
  }

  /** Joining undoes splitting, and no part of a split holds the separator. */
  lemma {:induction false} JoinSplit(s: string, c: char)
    ensures Join(Split(s, c), c) == s
    ensures forall k :: 0 <= k < |Split(s, c)| ==> c !in Split(s, c)[k]
    decreases |s|
  {
    var i := IndexOf(s, c);
    if i >= 0 {
      JoinSplit(s[i + 1..], c);
      assert s == s[..i] + [c] + s[i + 1..];
      assert Split(s, c)[1..] == Split(s[i + 1..], c);
    }
  }

  /** Go's `<` on strings: the first differing character decides, a proper prefix is smaller. */
  predicate Less(a: string, b: string)
    decreases |a|
  {
    if b == [] then false
    else if a == [] then true
    else if a[0] != b[0] then a[0] < b[0]
    else Less(a[1..], b[1..])
  }

  lemma {:induction false} LessTotal(a: string, b: string)
    ensures Less(a, b) || a == b || Less(b, a)
    decreases |a|
  {
    if a != [] && b != [] && a[0] == b[0] {
      LessTotal(a[1..], b[1..]);
      assert a == [a[0]] + a[1..] && b == [b[0]] + b[1..];
    }
  }

  lemma {:induction false} LessTransitive(a: string, b: string, c: string)
    requires Less(a, b) && Less(b, c)
    ensures Less(a, c)
    decreases |a|
  {
    if a != [] && a[0] == b[0] && b[0] == c[0] {
      LessTransitive(a[1..], b[1..], c[1..]);
    }
  }

  lemma {:induction false} LessIrreflexive(a: string)
    ensures !Less(a, a)
    decreases |a|
  {
    if a != [] { LessIrreflexive(a[1..]); }
  }

  /** A common prefix does not change the order. */
  lemma {:induction false} LessCommonPrefix(p: string, a: string, b: string)
    ensures Less(p + a, p + b) == Less(a, b)
    decreases |p|
  {
    if p == [] {
      assert p + a == a && p + b == b;
    } else {
      assert (p + a)[1..] == p[1..] + a && (p + b)[1..] == p[1..] + b;
      LessCommonPrefix(p[1..], a, b);
    }
  }

  lemma LessExtension(a: string, b: string)
    requires b != []
    ensures Less(a, a + b)
  {
    LessCommonPrefix(a, [], b);
    assert a + [] == a;
  }
}
