/** BIG-IP pools and the in-place member removal of f5router/f5router.go. */
module Members {
  /** A pool member; every update carries an enabled one. */
  datatype Member = Member(address: string, port: int, session: string)

  const ENABLED := "user-enabled"

  const BLANK := Member("", 0, "")

  function Enabled(address: string, port: int): Member { Member(address, port, ENABLED) }

  predicate AllEnabled(ms: seq<Member>) {
    forall k | 0 <= k < |ms| :: ms[k].session == ENABLED
  }

  predicate Distinct(ms: seq<Member>) {
    forall j, k | 0 <= j < k < |ms| :: ms[j] != ms[k]
  }

  /** Overwrite entry `i` by the last live one and blank that. */
  function Overwritten(arr: seq<Member>, len: nat, i: nat): seq<Member>
    requires i < len <= |arr|
  {
    arr[i := arr[len - 1]][len - 1 := BLANK]
  }

  /**
   `removePool`'s loop from index `i`: it ranges over the original slice while the live part
   of the same array shrinks.
   */
  function Sweep(arr: seq<Member>, len: nat, i: nat, x: Member): seq<Member>
    requires i <= |arr| && len <= |arr|
    decreases |arr| - i
  {
    if i == |arr| then arr[..len]
    else if arr[i] == x && i < len then Sweep(Overwritten(arr, len, i), len - 1, i + 1, x)
    else Sweep(arr, len, i + 1, x)
  }

  /** The same loop when the pool handed in is the stored one: the member looked for changes with it. */
  function SelfSweep(arr: seq<Member>, len: nat, i: nat): seq<Member>
    requires i <= |arr| && len <= |arr| && (i < |arr| ==> len > 0)
    decreases |arr| - i
  {
    if i == |arr| then arr[..len]
    else if arr[i] == arr[0] && i < len && (len > 1 || i + 1 == |arr|) then
      SelfSweep(Overwritten(arr, len, i), len - 1, i + 1)
    else SelfSweep(arr, len, i + 1)
  }

  function Removed(ms: seq<Member>, x: Member): seq<Member> { Sweep(ms, |ms|, 0, x) }

  function SelfRemoved(ms: seq<Member>): seq<Member> { SelfSweep(ms, |ms|, 0) }

  /** The list with the last member moved into place `i`. */
  function SwapDelete(ms: seq<Member>, i: nat): seq<Member>
    requires i < |ms|
  {
    ms[i := ms[|ms| - 1]][..|ms| - 1]
  }

  /** The live part shrinks only by blanks. */
  predicate Tail(arr: seq<Member>, len: nat) {
    len <= |arr| && (forall k | 0 <= k < len :: arr[k].session == ENABLED) && (forall k | len <= k < |arr| :: arr[k] == BLANK)
  }

  lemma {:induction false} SweepMisses(arr: seq<Member>, len: nat, i: nat, x: Member)
    requires i <= |arr| && len <= |arr| && forall k | i <= k < |arr| :: arr[k] != x
    ensures Sweep(arr, len, i, x) == arr[..len]
    decreases |arr| - i
  {
    if i < |arr| { SweepMisses(arr, len, i + 1, x); }
  }

  lemma {:induction false} SweepFinds(ms: seq<Member>, i: nat, j: nat)
    requires AllEnabled(ms) && Distinct(ms) && i <= j < |ms|
    ensures Sweep(ms, |ms|, i, ms[j]) == SwapDelete(ms, j)
    decreases j - i
  {
    if i < j {
      SweepFinds(ms, i + 1, j);
    } else {
      var r := Overwritten(ms, |ms|, j);
      SweepMisses(r, |ms| - 1, j + 1, ms[j]);
      assert r[..|ms| - 1] == SwapDelete(ms, j);
    }
  }

  /** Without duplicates, exactly the member looked for goes, and the last one takes its place. */
  lemma RemovedDistinct(ms: seq<Member>, x: Member)
    requires AllEnabled(ms) && Distinct(ms)
    ensures x !in ms ==> Removed(ms, x) == ms
    ensures forall j | 0 <= j < |ms| && ms[j] == x :: Removed(ms, x) == SwapDelete(ms, j)
  {
    if x !in ms {
      SweepMisses(ms, |ms|, 0, x);
      assert ms[..|ms|] == ms;
    } else {
      var j :| 0 <= j < |ms| && ms[j] == x;
      SweepFinds(ms, 0, j);
    }
  }

  lemma {:induction false} SelfSweepMisses(arr: seq<Member>, len: nat, i: nat)
    requires 0 < i <= |arr| && len <= |arr| && (i < |arr| ==> len > 0)
    requires forall k | i <= k < |arr| :: arr[k] != arr[0]
    ensures SelfSweep(arr, len, i) == arr[..len]
    decreases |arr| - i
  {
    if i < |arr| { SelfSweepMisses(arr, len, i + 1); }
  }

  lemma SelfRemovedDistinct(ms: seq<Member>)
    requires AllEnabled(ms) && Distinct(ms) && ms != []
    ensures SelfRemoved(ms) == SwapDelete(ms, 0)
  {
    var r := Overwritten(ms, |ms|, 0);
    if |ms| == 1 {
      assert SelfSweep(r, 0, 1) == [];
    } else {
      SelfSweepMisses(r, |ms| - 1, 1);
    }
    assert r[..|ms| - 1] == SwapDelete(ms, 0);
  }

  lemma SwapDeleteDistinct(ms: seq<Member>, j: nat)
    requires AllEnabled(ms) && Distinct(ms) && j < |ms|
    ensures var r := SwapDelete(ms, j);
            AllEnabled(r) && Distinct(r) && forall m :: m in r <==> m in ms && m != ms[j]
  {
    var r, n := SwapDelete(ms, j), |ms| - 1;
    forall m | m in ms && m != ms[j] ensures m in r {
      var k :| 0 <= k < |ms| && ms[k] == m;
      assert r[if k == n then j else k] == m;
    }
  }

  /** What removal does to a list without duplicates. */
  lemma RemovedMembers(ms: seq<Member>, x: Member)
    requires AllEnabled(ms) && Distinct(ms)
    ensures var r := Removed(ms, x);
            AllEnabled(r) && Distinct(r) && forall m :: m in r <==> m in ms && m != x
  {
    hide Removed, SwapDelete;
    RemovedDistinct(ms, x);
    if x in ms {
      var j :| 0 <= j < |ms| && ms[j] == x;
      SwapDeleteDistinct(ms, j);
    }
  }

  /** With duplicates or not, what is left was there before. */
  lemma {:induction false} SweepAmong(arr: seq<Member>, len: nat, i: nat, x: Member, m: Member)
    requires i <= |arr| && len <= |arr| && m in Sweep(arr, len, i, x)
    ensures m in arr[..len]
    decreases |arr| - i
  {
    if i < |arr| {
      if arr[i] == x && i < len { SweepAmong(Overwritten(arr, len, i), len - 1, i + 1, x, m); }
      else { SweepAmong(arr, len, i + 1, x, m); }
    }
  }

  lemma {:induction false} SelfSweepAmong(arr: seq<Member>, len: nat, i: nat, m: Member)
    requires i <= |arr| && len <= |arr| && (i < |arr| ==> len > 0) && m in SelfSweep(arr, len, i)
    ensures m in arr[..len]
    decreases |arr| - i
  {
    if i < |arr| {
      if arr[i] == arr[0] && i < len && (len > 1 || i + 1 == |arr|) {
        SelfSweepAmong(Overwritten(arr, len, i), len - 1, i + 1, m);
      } else {
        SelfSweepAmong(arr, len, i + 1, m);
      }
    }
  }

  /** So what holds of every member holds of those left. */
  lemma RemovedAmong(ms: seq<Member>, x: Member)
    ensures forall m :: m in Removed(ms, x) ==> m in ms
    ensures forall m :: m in SelfRemoved(ms) ==> m in ms
  {
    assert ms[..|ms|] == ms;
    forall m | m in Removed(ms, x) ensures m in ms { SweepAmong(ms, |ms|, 0, x, m); }
    forall m | m in SelfRemoved(ms) ensures m in ms { SelfSweepAmong(ms, |ms|, 0, m); }
  }

  lemma {:induction false} SelfSweepLeaves(arr: seq<Member>, len: nat, i: nat)
    requires i <= |arr| && 1 <= len <= |arr| && |arr| > 1
    ensures SelfSweep(arr, len, i) != []
    decreases |arr| - i
  {
    if i < |arr| {
      if arr[i] == arr[0] && i < len && (len > 1 || i + 1 == |arr|) {
        SelfSweepLeaves(Overwritten(arr, len, i), len - 1, i + 1);
      } else {
        SelfSweepLeaves(arr, len, i + 1);
      }
    }
  }

  /** Handed the stored pool itself, the loop empties it exactly when it has one member. */
  lemma SelfRemovedEmpty(ms: seq<Member>)
    requires ms != []
    ensures SelfRemoved(ms) == [] <==> |ms| == 1
  {
    if |ms| == 1 {
      var r := Overwritten(ms, 1, 0);
      assert SelfSweep(r, 0, 1) == [];
    } else {
      SelfSweepLeaves(ms, |ms|, 0);
    }
  }

  lemma SweepStep(arr: seq<Member>, len: nat, i: nat, x: Member)
    requires i < |arr| && 0 < len <= |arr| && (i == 0 ==> len == |arr|)
    ensures Sweep(arr, len, i, x) ==
            if arr[i] == x && i < len then Sweep(Overwritten(arr, len, i), len - 1, i + 1, x) else Sweep(arr, len, i + 1, x)
    ensures SelfSweep(arr, len, i) ==
            if arr[i] == arr[0] && i < len then SelfSweep(Overwritten(arr, len, i), len - 1, i + 1) else SelfSweep(arr, len, i + 1)
  {
  }

  lemma SweepEnd(arr: seq<Member>, len: nat, x: Member)
    requires len <= |arr|
    ensures Sweep(arr, len, |arr|, x) == arr[..len] && SelfSweep(arr, len, |arr|) == arr[..len]
  {
  }
}
