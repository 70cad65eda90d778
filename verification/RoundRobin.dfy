/** Round robin over a pool (route/roundrobin.go), as positions and slots. */
module RoundRobinSpec {
  import opened Wrappers
  import opened PoolSpec

  /** Not failed, or the failure window is over. */
  predicate Available(x: Slot, retry: int, now: int) {
    x.failedAt.None? || now - x.failedAt.value > retry
  }

  /** The position `k` steps after `start` on a circle of `n`. */
  function Around(start: nat, k: nat, n: nat): (r: nat)
    requires start < n && k <= n
    ensures r < n
  {
    if start + k < n then start + k else start + k - n
  }

  /** Steps from `start` to the first available slot, looking from step `k` on; n if there is none. */
  function Steps(slots: seq<Slot>, start: nat, k: nat, retry: int, now: int): (r: nat)
    requires start < |slots| && k <= |slots|
    ensures k <= r <= |slots|
    ensures r < |slots| ==> Available(slots[Around(start, r, |slots|)], retry, now)
    ensures forall j :: k <= j < r ==> !Available(slots[Around(start, j, |slots|)], retry, now)
    decreases |slots| - k
  {
    if k == |slots| || Available(slots[Around(start, k, |slots|)], retry, now) then k
    else Steps(slots, start, k + 1, retry, now)
  }

  function ClearAll(slots: seq<Slot>): (r: seq<Slot>)
    ensures |r| == |slots|
  {
    seq(|slots|, i requires 0 <= i < |slots| => slots[i].(failedAt := None))
  }

  datatype Pick = Pick(at: nat, slots: seq<Slot>, nextIdx: nat)

  /**
   The endpoint handed out from `start`: the first available one in cyclic order; when all have
   failed, every failure is forgotten and the start endpoint is taken.
   */
  function Choose(slots: seq<Slot>, start: nat, retry: int, now: int): (p: Pick)
    requires start < |slots|
    ensures p.at < |slots| == |p.slots| && p.nextIdx < |slots|
  {
    var n := |slots|;
    var k := Steps(slots, start, 0, retry, now);
    if k < n then
      var at := Around(start, k, n);
      Pick(at, slots[at := slots[at].(failedAt := None)], Around(start, k + 1, n))
    else
      Pick(start, ClearAll(slots), Around(start, 1, n))
  }

  /** The start position used by a call. */
  function Start(nextIdx: int, n: nat, random: nat): (r: nat)
    requires nextIdx >= -1 && random < n
    ensures r < n
  {
    if nextIdx == -1 then random else if nextIdx >= n then 0 else nextIdx
  }

  /** Whatever has failed, somebody is picked: the pick is available or nobody was. */
  lemma ChooseMeaning(slots: seq<Slot>, start: nat, retry: int, now: int)
    requires start < |slots|
    ensures var p := Choose(slots, start, retry, now);
            var n := |slots|;
            && (Available(slots[p.at], retry, now) ==>
                  exists k :: 0 <= k < n && p.at == Around(start, k, n)
                              && (forall j :: 0 <= j < k ==> !Available(slots[Around(start, j, n)], retry, now))
                              && p.slots == slots[p.at := slots[p.at].(failedAt := None)])
            && (!Available(slots[p.at], retry, now) ==>
                  p.at == start && p.slots == ClearAll(slots)
                  && forall i :: 0 <= i < n ==> !Available(slots[i], retry, now))
            && (forall i :: 0 <= i < n ==> p.slots[i].endpoint == slots[i].endpoint && p.slots[i].updated == slots[i].updated)
            && p.nextIdx == if p.at + 1 == n then 0 else p.at + 1
  {
    var n := |slots|;
    var k := Steps(slots, start, 0, retry, now);
    if k == n {
      assert Around(start, 0, n) == start;
      forall i | 0 <= i < n ensures !Available(slots[i], retry, now) {
        var j := if i >= start then i - start else i - start + n;
        assert Around(start, j, n) == i;
      }
    }
  }

  /** The scan has passed over `k` slots from `start` and looks at `at`; the slots are `now` as given. */
  ghost predicate Scanning(was: seq<Slot>, slots: seq<Slot>, start: nat, k: nat, at: nat, retry: int, now: int) {
    && start < |was| && k <= |was|
    && at == Around(start, k, |was|)
    && slots == (if k < |was| then was else ClearAll(was))
    && Steps(was, start, 0, retry, now) == Steps(was, start, k, retry, now)
  }

  function NextAt(at: nat, n: nat): (r: nat)
    requires at < n
    ensures r < n
  {
    if at + 1 == n then 0 else at + 1
  }

  lemma ScanStart(slots: seq<Slot>, start: nat, retry: int, now: int)
    requires start < |slots|
    ensures Scanning(slots, slots, start, 0, start, retry, now)
  {
  }

  /** How the scan goes on: it takes an available slot, or passes it, and forgets all failures after a round. */
  lemma ScanStep(was: seq<Slot>, slots: seq<Slot>, start: nat, k: nat, at: nat, retry: int, now: int)
    requires Scanning(was, slots, start, k, at, retry, now)
    ensures |slots| == |was| && at < |was|
    ensures slots[at].endpoint == was[at].endpoint
    ensures Available(slots[at], retry, now) ==>
              Choose(was, start, retry, now) == Pick(at, slots[at := slots[at].(failedAt := None)], NextAt(at, |was|))
    ensures !Available(slots[at], retry, now) ==>
              && k < |was|
              && (NextAt(at, |was|) == start <==> k + 1 == |was|)
              && Scanning(was, if k + 1 < |was| then slots else ClearAll(slots), start, k + 1, NextAt(at, |was|), retry, now)
  {
    if k == |was| {
      assert slots[at := slots[at].(failedAt := None)] == slots;
    }
  }

  // ---------------------------------------------------------------------------------
  // The failure window

  /** An endpoint is passed over for `retry` after its failure, unless everyone is; after that it is served again. */
  lemma FailureWindow(slots: seq<Slot>, start: nat, x: nat, t: int, retry: int, now: int)
    requires start < |slots| && x < |slots| && slots[x].failedAt == Some(t)
    ensures var p := Choose(slots, start, retry, now);
            && (now <= t + retry && (exists y :: 0 <= y < |slots| && slots[y].failedAt == None) ==>
                  p.at != x && p.slots[x] == slots[x])
            && (now > t + retry && start == x ==> p.at == x && p.slots[x].failedAt == None)
  {
    var p := Choose(slots, start, retry, now);
    ChooseMeaning(slots, start, retry, now);
    if now <= t + retry && exists y :: 0 <= y < |slots| && slots[y].failedAt == None {
      var y :| 0 <= y < |slots| && slots[y].failedAt == None;
      assert Available(slots[y], retry, now) && !Available(slots[x], retry, now);
    }
    if now > t + retry && start == x { assert Around(start, 0, |slots|) == x; }
  }

  // ---------------------------------------------------------------------------------
  // Fairness

  /** What a call of `next` brings along: a random number, in case it needs one, and the time. */
  datatype Call = Call(random: nat, now: int)

  /** One call of `next` on a pool that is not empty. */
  function Turn(slots: seq<Slot>, nextIdx: int, call: Call, retry: int): (p: Pick)
    requires nextIdx >= -1 && call.random < |slots|
    ensures p.at < |slots| == |p.slots| && p.nextIdx < |slots|
  {
    Choose(slots, Start(nextIdx, |slots|, call.random), retry, call.now)
  }

  /** The positions handed out by successive calls. */
  function Served(slots: seq<Slot>, nextIdx: int, calls: seq<Call>, retry: int): (r: seq<nat>)
    requires nextIdx >= -1 && forall k | 0 <= k < |calls| :: calls[k].random < |slots|
    ensures |r| == |calls|
    decreases |calls|
  {
    if calls == [] then []
    else
      var p := Turn(slots, nextIdx, calls[0], retry);
      [p.at] + Served(p.slots, p.nextIdx, calls[1..], retry)
  }

  /** The positions of a circle of `n`, one after the other. */
  function Round(start: nat, calls: nat, n: nat): (r: seq<nat>)
    requires start < n
    ensures |r| == calls
    decreases calls
  {
    if calls == 0 then [] else [start] + Round(NextAt(start, n), calls - 1, n)
  }

  ghost predicate NoFailures(slots: seq<Slot>) {
    forall i :: 0 <= i < |slots| ==> slots[i].failedAt == None
  }

  lemma HealthyStep(slots: seq<Slot>, start: nat, retry: int, now: int)
    requires start < |slots| && NoFailures(slots)
    ensures Choose(slots, start, retry, now) == Pick(start, slots, NextAt(start, |slots|))
  {
    assert Steps(slots, start, 0, retry, now) == 0;
    assert slots[start := slots[start].(failedAt := None)] == slots;
  }

  /**
   Without failures successive calls serve the endpoints in turn: from the stored index if it is one,
   from the front if it is past the end, and from a random one if there is none yet.
   */
  lemma {:induction false} ServedInTurn(slots: seq<Slot>, nextIdx: int, calls: seq<Call>, retry: int)
    requires nextIdx >= -1 && (forall k | 0 <= k < |calls| :: calls[k].random < |slots|)
    requires NoFailures(slots) && |slots| > 0 && calls != []
    ensures var n := |slots|;
            && (nextIdx == -1 ==> Served(slots, nextIdx, calls, retry) == Round(calls[0].random, |calls|, n))
            && (0 <= nextIdx < n ==> Served(slots, nextIdx, calls, retry) == Round(nextIdx, |calls|, n))
            && (nextIdx >= n ==> Served(slots, nextIdx, calls, retry) == Round(0, |calls|, n))
    decreases |calls|
  {
    hide Choose, NoFailures;
    var n := |slots|;
    var first := if nextIdx == -1 then calls[0].random else if nextIdx < n then nextIdx else 0;
    HealthyStep(slots, first, retry, calls[0].now);
    var rest := calls[1..];
    forall k | 0 <= k < |rest| ensures rest[k].random < n { assert rest[k] == calls[k + 1]; }
    if rest != [] { ServedInTurn(slots, NextAt(first, n), rest, retry); }
  }

  function Occurs(s: seq<nat>, x: nat): nat {
    if s == [] then 0 else (if s[0] == x then 1 else 0) + Occurs(s[1..], x)
  }

  /** Steps from `start` to `x` going round. */
  function Distance(start: nat, x: nat, n: nat): (d: nat)
    requires start < n && x < n
    ensures d < n && Around(start, d, n) == x
  {
    if x >= start then x - start else x - start + n
  }

  /** Within one round, a position comes exactly once, after as many steps as it is away. */
  lemma {:induction false} PartRound(start: nat, calls: nat, x: nat, n: nat)
    requires start < n && x < n && calls <= n
    ensures Occurs(Round(start, calls, n), x) == if Distance(start, x, n) < calls then 1 else 0
    decreases calls
  {
    if calls > 0 {
      PartRound(NextAt(start, n), calls - 1, x, n);
      assert Round(start, calls, n)[1..] == Round(NextAt(start, n), calls - 1, n);
    }
  }

  lemma {:induction false} OccursSum(a: seq<nat>, b: seq<nat>, x: nat)
    ensures Occurs(a + b, x) == Occurs(a, x) + Occurs(b, x)
    decreases |a|
  {
    if a == [] {
      assert a + b == b;
    } else {
      assert (a + b)[1..] == a[1..] + b;
      OccursSum(a[1..], b, x);
    }
  }

  /** The round goes on from where it stopped. */
  lemma {:induction false} RoundSplit(start: nat, a: nat, b: nat, n: nat)
    requires start < n && a <= n
    ensures Round(start, a + b, n) == Round(start, a, n) + Round(Around(start, a, n), b, n)
    decreases a
  {
    if a > 0 {
      var next := NextAt(start, n);
      RoundSplit(next, a - 1, b, n);
      assert Around(next, a - 1, n) == Around(start, a, n);
    }
  }

  lemma {:induction false} RoundFair(start: nat, k: nat, x: nat, n: nat)
    requires start < n && x < n
    ensures Occurs(Round(start, k * n, n), x) == k
    decreases k
  {
    if k > 0 {
      assert k * n == n + (k - 1) * n;
      RoundSplit(start, n, (k - 1) * n, n);
      assert Around(start, n, n) == start;
      PartRound(start, n, x, n);
      RoundFair(start, k - 1, x, n);
      OccursSum(Round(start, n, n), Round(start, (k - 1) * n, n), x);
    }
  }

  /**
   From whatever index is stored, whatever the random numbers and the times, k rounds' worth of
   successive calls serve every endpoint exactly k times.
   */
  lemma Fair(slots: seq<Slot>, nextIdx: int, calls: seq<Call>, k: nat, x: nat, retry: int)
    requires nextIdx >= -1 && (forall j | 0 <= j < |calls| :: calls[j].random < |slots|)
    requires NoFailures(slots) && x < |slots| && |calls| == k * |slots|
    ensures Occurs(Served(slots, nextIdx, calls, retry), x) == k
  {
    hide Served, NoFailures, Round, Occurs;
    var n := |slots|;
    if k == 0 {
      NoneServed(slots, nextIdx, x, retry);
      assert calls == [];
    } else {
      assert k * n >= n;
      ServedInTurn(slots, nextIdx, calls, retry);
      RoundFair(if nextIdx == -1 then calls[0].random else if nextIdx < n then nextIdx else 0, k, x, n);
    }
  }

  lemma NoneServed(slots: seq<Slot>, nextIdx: int, x: nat, retry: int)
    requires nextIdx >= -1
    ensures Occurs(Served(slots, nextIdx, [], retry), x) == 0
  {
  }
}

/** The iterator object over a pool. */
module RoundRobins {
  import opened Wrappers
  import opened PoolSpec
  import opened Pools
  import opened RoundRobinSpec

  class RoundRobin {
    const pool: Pool
    var initialEndpoint: string
    var lastEndpoint: Option<Endpoint>

    constructor (pool: Pool, initial: string)
      ensures this.pool == pool && initialEndpoint == initial && lastEndpoint == None
    {
      this.pool, initialEndpoint, lastEndpoint := pool, initial, None;
    }

    /** One look of the scan: an expired failure window is closed. */
    method Try(i: nat, now: int) returns (ok: bool, endpoint: Endpoint)
      requires pool.Valid() && i < |pool.endpoints|
      modifies pool`slots, {pool.endpoints[i]}`failedAt
      ensures pool.Valid()
      ensures ok == Available(old(pool.slots)[i], pool.retryAfterFailure, now)
      ensures pool.slots == if ok then old(pool.slots)[i := old(pool.slots)[i].(failedAt := None)] else old(pool.slots)
      ensures endpoint == old(pool.slots)[i].endpoint
    {
      hide AddrIndex, IdIndex;
      var e := pool.endpoints[i];
      if e.failedAt.Some? && now - e.failedAt.value > pool.retryAfterFailure {
        pool.SetFailed(i, None);
      }
      ok, endpoint := e.failedAt.None?, e.endpoint;
      assert ok && old(pool.slots)[i].failedAt.None? ==>
          old(pool.slots)[i := old(pool.slots)[i].(failedAt := None)] == old(pool.slots);
    }

    /** The endless loop of `next`, which stops within one round and a step. */
    method Scan(startIdx: nat, now: int) returns (e: Endpoint)
      requires pool.Valid() && startIdx < |pool.endpoints|
      modifies pool`slots, pool`nextIdx, pool.endpoints
      ensures pool.Valid() && pool.endpoints == old(pool.endpoints)
      ensures var p := Choose(old(pool.slots), startIdx, pool.retryAfterFailure, now);
              && e == old(pool.slots)[p.at].endpoint
              && pool.slots == p.slots && pool.nextIdx == p.nextIdx
    {
      hide AddrIndex, IdIndex, Choose, Available, ClearAll, Scanning;
      var last := |pool.endpoints|;
      var curIdx := startIdx;
      ghost var k, was, retry := 0, pool.slots, pool.retryAfterFailure;
      ScanStart(was, startIdx, retry, now);
      while true
        invariant pool.Valid() && pool.endpoints == old(pool.endpoints)
        invariant Scanning(was, pool.slots, startIdx, k, curIdx, retry, now)
        decreases last - k
      {
        ScanStep(was, pool.slots, startIdx, k, curIdx, retry, now);
        var ok;
        ok, e := Try(curIdx, now);
        curIdx := if curIdx + 1 == last then 0 else curIdx + 1;
        if ok {
          pool.nextIdx := curIdx;
          return;
        }
        k := k + 1;
        if curIdx == startIdx { ClearFailures(); }
      }
    }

    /** `next`: where to start, then the scan. */
    method NextInRound(random: nat, now: int) returns (r: Option<Endpoint>)
      requires pool.Valid() && pool.nextIdx >= -1
      requires |pool.endpoints| > 0 ==> random < |pool.endpoints|
      modifies pool, pool.endpoints
      ensures pool.Valid() && pool.endpoints == old(pool.endpoints) && pool.nextIdx >= -1
      ensures |pool.endpoints| == 0 ==> r == None && pool.slots == old(pool.slots) && pool.nextIdx == old(pool.nextIdx)
      ensures |pool.endpoints| > 0 ==>
                var p := Turn(old(pool.slots), old(pool.nextIdx), Call(random, now), pool.retryAfterFailure);
                && r == Some(old(pool.slots)[p.at].endpoint)
                && pool.slots == p.slots && pool.nextIdx == p.nextIdx
    {
      hide AddrIndex, IdIndex, Choose;
      var last := |pool.endpoints|;
      if last == 0 { return None; }
      if pool.nextIdx == -1 { pool.nextIdx := random; } else if pool.nextIdx >= last { pool.nextIdx := 0; }
      var e := Scan(pool.nextIdx, now);
      r := Some(e);
    }

    /** All endpoints are marked failed: reset everything to available. */
    method ClearFailures()
      requires pool.Valid()
      modifies pool`slots, pool.endpoints
      ensures pool.Valid() && pool.endpoints == old(pool.endpoints)
      ensures pool.slots == ClearAll(old(pool.slots))
    {
      hide AddrIndex, IdIndex;
      for i := 0 to |pool.endpoints|
        invariant pool.Valid() && pool.endpoints == old(pool.endpoints)
        invariant |pool.slots| == |old(pool.slots)|
        invariant forall k :: 0 <= k < |pool.slots| ==>
                    pool.slots[k] == if k < i then old(pool.slots)[k].(failedAt := None) else old(pool.slots)[k]
      {
        pool.SetFailed(i, None);
      }
    }

    /** `Next`: the requested initial endpoint once, if the pool knows it; then round robin. */
    method Next(random: nat, now: int) returns (r: Option<Endpoint>)
      requires pool.Valid() && pool.nextIdx >= -1
      requires |pool.endpoints| > 0 ==> random < |pool.endpoints|
      modifies this, pool, pool.endpoints
      ensures pool.Valid() && pool.endpoints == old(pool.endpoints) && pool.nextIdx >= -1
      ensures initialEndpoint == "" && lastEndpoint == r
      ensures var wanted := if old(initialEndpoint) == "" then None else old(pool.Known(initialEndpoint));
              if wanted.Some? then
                r == wanted && pool.slots == old(pool.slots) && pool.nextIdx == old(pool.nextIdx)
              else if |pool.endpoints| == 0 then
                r == None && pool.slots == old(pool.slots) && pool.nextIdx == old(pool.nextIdx)
              else
                var p := Turn(old(pool.slots), old(pool.nextIdx), Call(random, now), pool.retryAfterFailure);
                && r == Some(old(pool.slots)[p.at].endpoint)
                && pool.slots == p.slots && pool.nextIdx == p.nextIdx
    {
      hide AddrIndex, IdIndex, Choose, Find;
      r := None;
      if initialEndpoint != "" {
        r := pool.FindById(initialEndpoint);
        initialEndpoint := "";
      }
      if r.None? { r := NextInRound(random, now); }
      lastEndpoint := r;
    }
  }
}
