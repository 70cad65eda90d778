/** The busiest applications, as values (stats/top_apps.go). */
module TopSpec {
  import opened HeapOrder

  /** Requests counted under one second. */
  datatype Slot = Slot(t: int, n: int)

  datatype Usage = Usage(slots: seq<Slot>, n: int)

  const UNUSED := Usage([], 0)

  function Sum(slots: seq<Slot>): int {
    if slots == [] then 0 else Sum(slots[..|slots| - 1]) + slots[|slots| - 1].n
  }

  predicate Rising(slots: seq<Slot>) {
    && (forall k | 0 <= k < |slots| :: slots[k].n > 0)
    && (forall k, l | 0 <= k < l < |slots| :: slots[k].t < slots[l].t)
  }

  /** What every entry of the table satisfies. */
  predicate Good(u: Usage) {
    u.slots != [] && Rising(u.slots) && u.n == Sum(u.slots)
  }

  /** `topAppsEntry.Mark`. */
  function MarkUsage(u: Usage, t: int): Usage {
    var k := |u.slots|;
    if k == 0 || u.slots[k - 1].t < t then Usage(u.slots + [Slot(t, 1)], u.n + 1)
    else Usage(u.slots[k - 1 := u.slots[k - 1].(n := u.slots[k - 1].n + 1)], u.n + 1)
  }

  /** The slots later than the cutoff. */
  function Later(slots: seq<Slot>, cutoff: int): seq<Slot> {
    if slots == [] then []
    else
      var before, last := Later(slots[..|slots| - 1], cutoff), slots[|slots| - 1];
      if last.t > cutoff then before + [last] else before
  }

  function TrimUsage(u: Usage, cutoff: int): Usage {
    var slots := Later(u.slots, cutoff);
    Usage(slots, Sum(slots))
  }

  type Usages = map<string, Usage>

  predicate AllGood(us: Usages) {
    forall a | a in us :: Good(us[a])
  }

  function At(us: Usages, app: string): Usage { if app in us then us[app] else UNUSED }

  function Marked(us: Usages, app: string, t: int): Usages { us[app := MarkUsage(At(us, app), t)] }

  function Trimmed(us: Usages, cutoff: int): Usages {
    map a | a in us && Later(us[a].slots, cutoff) != [] :: TrimUsage(us[a], cutoff)
  }

  /** The applications that a trim at `cutoff` has yet to touch. */
  function Pending(us: Usages, cutoff: int): set<string> {
    set a | a in us && us[a].slots != [] && us[a].slots[0].t <= cutoff
  }

  datatype TopEntry = TopEntry(app: string, requests: int)

  /** Different applications with their requests, in descending order. */
  ghost predicate Listed(us: Usages, top: seq<TopEntry>) {
    && (forall k | 0 <= k < |top| :: top[k].app in us && top[k].requests == us[top[k].app].n)
    && (forall k, l | 0 <= k < l < |top| :: top[k].app != top[l].app && top[k].requests >= top[l].requests)
  }

  ghost predicate Missing(app: string, top: seq<TopEntry>) {
    forall k | 0 <= k < |top| :: top[k].app != app
  }

  /** The `n` applications with most requests, in descending order. */
  ghost predicate IsTop(us: Usages, n: nat, top: seq<TopEntry>) {
    && |top| == (if n < |us| then n else |us|)
    && Listed(us, top)
    && (forall a, k | a in us && Missing(a, top) && 0 <= k < |top| :: us[a].n <= top[k].requests)
  }

  // ---------------------------------------------------------------------------------
  // Slots

  lemma SumSnoc(slots: seq<Slot>, s: Slot)
    ensures Sum(slots + [s]) == Sum(slots) + s.n
  {
    assert (slots + [s])[..|slots|] == slots;
  }

  lemma MarkGood(u: Usage, t: int)
    requires u == UNUSED || Good(u)
    ensures Good(MarkUsage(u, t))
  {
    var k := |u.slots|;
    if k == 0 || u.slots[k - 1].t < t {
      SumSnoc(u.slots, Slot(t, 1));
    } else {
      var r := MarkUsage(u, t).slots;
      assert r[..k - 1] == u.slots[..k - 1];
    }
  }

  /** The first slot after the cutoff. */
  function Cut(slots: seq<Slot>, cutoff: int): (i: nat)
    requires Rising(slots)
    ensures i <= |slots|
    ensures forall k | 0 <= k < i :: slots[k].t <= cutoff
    ensures forall k | i <= k < |slots| :: slots[k].t > cutoff
  {
    if slots == [] then 0
    else
      var k := |slots| - 1;
      if slots[k].t <= cutoff then |slots| else Cut(slots[..k], cutoff)
  }

  lemma {:induction false} LaterIsSuffix(slots: seq<Slot>, cutoff: int, i: nat)
    requires i <= |slots| && Rising(slots)
    requires forall k | 0 <= k < i :: slots[k].t <= cutoff
    requires i < |slots| ==> slots[i].t > cutoff
    ensures Later(slots, cutoff) == slots[i..]
  {
    hide Later;
    LaterUnfold(slots, cutoff);
    if slots != [] {
      var k := |slots| - 1;
      LaterIsSuffix(slots[..k], cutoff, if i <= k then i else k);
      if i <= k {
        assert slots[k].t > cutoff;
        assert slots[i..] == slots[..k][i..] + [slots[k]];
      } else {
        assert slots[..k][k..] == slots[i..];
      }
    }
  }

  lemma LaterUnfold(slots: seq<Slot>, cutoff: int)
    ensures slots == [] ==> Later(slots, cutoff) == []
    ensures slots != [] ==>
              var before, last := Later(slots[..|slots| - 1], cutoff), slots[|slots| - 1];
              Later(slots, cutoff) == if last.t > cutoff then before + [last] else before
  {
  }

  /** What `Later` is: exactly the slots after the cutoff, in order. */
  lemma LaterMeaning(slots: seq<Slot>, cutoff: int)
    requires Rising(slots)
    ensures var r := Later(slots, cutoff);
            && Rising(r) && |r| <= |slots| && r == slots[|slots| - |r|..]
            && (forall s :: s in r <==> s in slots && s.t > cutoff)
  {
    hide Later, Rising, Cut;
    var i := Cut(slots, cutoff);
    LaterIsSuffix(slots, cutoff, i);
    RisingSuffix(slots, i);
    SuffixMembers(slots, cutoff, i);
  }

  lemma RisingSuffix(slots: seq<Slot>, i: nat)
    requires Rising(slots) && i <= |slots|
    ensures Rising(slots[i..]) && |slots[i..]| == |slots| - i
  {
  }

  lemma SuffixMembers(slots: seq<Slot>, cutoff: int, i: nat)
    requires i <= |slots|
    requires forall k | 0 <= k < i :: slots[k].t <= cutoff
    requires forall k | i <= k < |slots| :: slots[k].t > cutoff
    ensures forall s :: s in slots[i..] <==> s in slots && s.t > cutoff
  {
    var r := slots[i..];
    forall s | s in slots && s.t > cutoff ensures s in r {
      var k :| 0 <= k < |slots| && slots[k] == s;
      assert r[k - i] == s;
    }
    forall s | s in r ensures s in slots && s.t > cutoff {
      var k :| 0 <= k < |r| && r[k] == s;
      assert slots[i + k] == s;
    }
  }

  lemma {:induction false} SumSplit(slots: seq<Slot>, i: nat)
    requires i <= |slots|
    ensures Sum(slots) == Sum(slots[..i]) + Sum(slots[i..])
  {
    var k := |slots| - 1;
    if i == |slots| {
      assert slots[..i] == slots && slots[i..] == [];
    } else {
      SumSplit(slots[..k], i);
      assert slots[..k][..i] == slots[..i];
      assert slots[i..] == slots[..k][i..] + [slots[k]];
      SumSnoc(slots[..k][i..], slots[k]);
    }
  }

  lemma TrimGood(u: Usage, cutoff: int)
    requires Good(u)
    ensures TrimUsage(u, cutoff).slots != [] ==> Good(TrimUsage(u, cutoff))
    ensures u.slots[0].t > cutoff ==> TrimUsage(u, cutoff) == u
    ensures TrimUsage(u, cutoff).slots != [] ==> TrimUsage(u, cutoff).slots[0].t > cutoff
    ensures Later(Later(u.slots, cutoff), cutoff) == Later(u.slots, cutoff)
  {
    LaterMeaning(u.slots, cutoff);
    var r := Later(u.slots, cutoff);
    if r != [] { assert r[0] in r; }
    if u.slots[0].t > cutoff { LaterIsSuffix(u.slots, cutoff, 0); }
    LaterIsSuffix(r, cutoff, 0);
  }

  // ---------------------------------------------------------------------------------
  // Trimming one application at a time

  function TrimmedAt(us: Usages, app: string, cutoff: int): Usages
    requires app in us
  {
    if Later(us[app].slots, cutoff) == [] then us - {app} else us[app := TrimUsage(us[app], cutoff)]
  }

  lemma TrimTouched(us: Usages, app: string, cutoff: int)
    requires AllGood(us) && app in us
    ensures var r := TrimmedAt(us, app, cutoff);
            && AllGood(r) && Trimmed(r, cutoff) == Trimmed(us, cutoff)
            && Pending(r, cutoff) == Pending(us, cutoff) - {app}
  {
    hide Good, Later;
    TrimGood(us[app], cutoff);
    assert Good(us[app]) && us[app].slots != [] by { GoodNonempty(us[app]); }
  }

  lemma GoodNonempty(u: Usage)
    requires Good(u)
    ensures u.slots != []
  {
  }

  lemma TrimDone(us: Usages, cutoff: int)
    requires AllGood(us) && Pending(us, cutoff) == {}
    ensures Trimmed(us, cutoff) == us
  {
    forall a | a in us ensures TrimUsage(us[a], cutoff) == us[a] && us[a].slots != [] {
      GoodNonempty(us[a]);
      assert us[a].slots[0].t <= cutoff ==> a in Pending(us, cutoff);
      TrimGood(us[a], cutoff);
    }
  }

  lemma TrimmedGood(us: Usages, cutoff: int)
    requires AllGood(us)
    ensures AllGood(Trimmed(us, cutoff))
  {
    forall a | a in us ensures TrimUsage(us[a], cutoff).slots != [] ==> Good(TrimUsage(us[a], cutoff)) {
      TrimGood(us[a], cutoff);
    }
  }

  lemma MarkedGood(us: Usages, app: string, t: int)
    requires AllGood(us)
    ensures AllGood(Marked(us, app, t))
  {
    MarkGood(At(us, app), t);
  }

  // ---------------------------------------------------------------------------------
  // Runs

  datatype Event = Mark(app: string, t: int) | Trim(cutoff: int)

  function Step(us: Usages, ev: Event): Usages {
    match ev
    case Mark(app, t) => Marked(us, app, t)
    case Trim(cutoff) => Trimmed(us, cutoff)
  }

  function Run(events: seq<Event>): Usages {
    if events == [] then map[] else Step(Run(events[..|events| - 1]), events[|events| - 1])
  }

  lemma {:induction false} RunGood(events: seq<Event>)
    ensures AllGood(Run(events))
  {
    if events != [] {
      var us, ev := Run(events[..|events| - 1]), events[|events| - 1];
      RunGood(events[..|events| - 1]);
      match ev
      case Mark(app, t) => MarkedGood(us, app, t);
      case Trim(cutoff) => TrimmedGood(us, cutoff);
    }
  }

  /** The requests of an application that the table counts after the cutoff. */
  function CountedAfter(us: Usages, app: string, cutoff: int): int { Sum(Later(At(us, app).slots, cutoff)) }

  predicate Marks(ev: Event, app: string) { ev.Mark? && ev.app == app }

  /** The requests of an application that were marked after the cutoff. */
  function MarksAfter(events: seq<Event>, app: string, cutoff: int): int {
    if events == [] then 0
    else
      var ev := events[|events| - 1];
      MarksAfter(events[..|events| - 1], app, cutoff) + if Marks(ev, app) && ev.t > cutoff then 1 else 0
  }

  /** No trim has cut later than `cutoff`. */
  predicate TrimmedBefore(events: seq<Event>, cutoff: int) {
    forall k | 0 <= k < |events| && events[k].Trim? :: events[k].cutoff <= cutoff
  }

  /** Some mark of the application is after the cutoff. */
  ghost predicate Seen(events: seq<Event>, app: string, cutoff: int) {
    exists k | 0 <= k < |events| :: Marks(events[k], app) && events[k].t > cutoff
  }

  /** The marks at or before the cutoff that come after one that is after it. */
  ghost function LateMarks(events: seq<Event>, app: string, cutoff: int): nat {
    if events == [] then 0
    else
      var before, ev := events[..|events| - 1], events[|events| - 1];
      LateMarks(before, app, cutoff) + if Marks(ev, app) && ev.t <= cutoff && Seen(before, app, cutoff) then 1 else 0
  }

  /** Once the application's marks have passed the cutoff they stay behind it. */
  ghost predicate Settled(events: seq<Event>, app: string, cutoff: int) {
    forall k, l | 0 <= k < l < |events| && Marks(events[k], app) && Marks(events[l], app) ::
      events[k].t > cutoff ==> events[l].t > cutoff
  }

  /**
   Whatever has been trimmed up to the cutoff, the table counts every request marked after it, and
   besides those exactly the late ones; so it counts no other exactly when there is none.
   */
  lemma RequestsCounted(events: seq<Event>, app: string, cutoff: int)
    requires TrimmedBefore(events, cutoff)
    ensures CountedAfter(Run(events), app, cutoff) == MarksAfter(events, app, cutoff) + LateMarks(events, app, cutoff)
    ensures CountedAfter(Run(events), app, cutoff) == MarksAfter(events, app, cutoff) <==> Settled(events, app, cutoff)
  {
    hide Run, Later, CountedAfter, MarksAfter, LateMarks, Settled;
    CountedExactly(events, app, cutoff);
    LateIsUnsettled(events, app, cutoff);
  }

  lemma {:induction false} CountedExactly(events: seq<Event>, app: string, cutoff: int)
    requires TrimmedBefore(events, cutoff)
    ensures CountedAfter(Run(events), app, cutoff) == MarksAfter(events, app, cutoff) + LateMarks(events, app, cutoff)
  {
    hide Later, MarkUsage, Seen;
    if events != [] {
      var before, ev := events[..|events| - 1], events[|events| - 1];
      CountedExactly(before, app, cutoff);
      match ev
      case Mark(a, t) =>
        if a == app {
          MarkCounted(At(Run(before), app), t, cutoff);
          LastIsLate(before, app, cutoff);
        }
      case Trim(c) => TrimKeepsCount(Run(before), app, c, cutoff);
    } else {
      LaterUnfold([], cutoff);
    }
  }

  /** The last slot is after the cutoff. */
  predicate LastLate(u: Usage, cutoff: int) { u.slots != [] && u.slots[|u.slots| - 1].t > cutoff }

  /** The entry's last slot is after the cutoff exactly when such a mark has been seen. */
  lemma {:induction false} LastIsLate(events: seq<Event>, app: string, cutoff: int)
    requires TrimmedBefore(events, cutoff)
    ensures LastLate(At(Run(events), app), cutoff) <==> Seen(events, app, cutoff)
  {
    hide Later, Good, Seen, AllGood;
    if events != [] {
      var before, ev := events[..|events| - 1], events[|events| - 1];
      LastIsLate(before, app, cutoff);
      SeenSnoc(events, app, cutoff);
      match ev
      case Mark(a, t) =>
      case Trim(c) =>
        RunGood(before);
        TrimKeepsLast(Run(before), app, c, cutoff);
    } else {
      assert !Seen([], app, cutoff) by { NoneSeen(app, cutoff); }
    }
  }

  lemma NoneSeen(app: string, cutoff: int)
    ensures !Seen([], app, cutoff)
  {
  }

  lemma SeenSnoc(events: seq<Event>, app: string, cutoff: int)
    requires events != []
    ensures var n := |events| - 1;
            Seen(events, app, cutoff) <==>
            Seen(events[..n], app, cutoff) || (Marks(events[n], app) && events[n].t > cutoff)
  {
    var n := |events| - 1;
    var front := events[..n];
    if k :| 0 <= k < n && Marks(front[k], app) && front[k].t > cutoff { assert events[k] == front[k]; }
    if k :| 0 <= k < |events| && Marks(events[k], app) && events[k].t > cutoff {
      if k < n { assert front[k] == events[k]; }
    }
  }

  /** A trim at or before the cutoff does not change whether the last slot is after it. */
  lemma TrimKeepsLast(us: Usages, app: string, earlier: int, cutoff: int)
    requires AllGood(us) && earlier <= cutoff
    ensures LastLate(At(Trimmed(us, earlier), app), cutoff) <==> LastLate(At(us, app), cutoff)
  {
    hide Later;
    if app in us {
      var slots := us[app].slots;
      assert Good(us[app]);
      LaterUnfold(slots, earlier);
      if slots[|slots| - 1].t <= earlier { LaterIsSuffix(slots, earlier, |slots|); }
    }
  }

  lemma {:induction false} LateIsUnsettled(events: seq<Event>, app: string, cutoff: int)
    ensures LateMarks(events, app, cutoff) == 0 <==> Settled(events, app, cutoff)
  {
    if events != [] {
      var n := |events| - 1;
      var front, ev := events[..n], events[n];
      LateIsUnsettled(front, app, cutoff);
      assert forall k | 0 <= k < n :: front[k] == events[k];
      if Marks(ev, app) && ev.t <= cutoff && Seen(front, app, cutoff) {
        var k :| 0 <= k < |front| && Marks(front[k], app) && front[k].t > cutoff;
        assert Marks(events[k], app) && events[k].t > cutoff;
      } else {
        SettledSnoc(events, app, cutoff);
      }
    }
  }

  lemma SettledSnoc(events: seq<Event>, app: string, cutoff: int)
    requires events != []
    requires var n := |events| - 1;
             !(Marks(events[n], app) && events[n].t <= cutoff && Seen(events[..n], app, cutoff))
    ensures Settled(events, app, cutoff) <==> Settled(events[..|events| - 1], app, cutoff)
  {
    var n := |events| - 1;
    var front := events[..n];
    assert forall k | 0 <= k < n :: front[k] == events[k];
  }

  /** The second a request is counted under. */
  function CountedAt(u: Usage, t: int): int {
    var k := |u.slots|;
    if k == 0 || u.slots[k - 1].t < t then t else u.slots[k - 1].t
  }

  lemma MarkCounted(u: Usage, t: int, cutoff: int)
    ensures Sum(Later(MarkUsage(u, t).slots, cutoff)) ==
            Sum(Later(u.slots, cutoff)) + if CountedAt(u, t) > cutoff then 1 else 0
  {
    hide Later;
    var k, r := |u.slots|, MarkUsage(u, t).slots;
    LaterUnfold(r, cutoff);
    LaterUnfold(u.slots, cutoff);
    if k == 0 || u.slots[k - 1].t < t {
      assert r[..k] == u.slots;
      SumSnoc(Later(u.slots, cutoff), Slot(t, 1));
    } else {
      assert r[..k - 1] == u.slots[..k - 1];
      SumSnoc(Later(r[..k - 1], cutoff), r[k - 1]);
      SumSnoc(Later(r[..k - 1], cutoff), u.slots[k - 1]);
    }
  }

  lemma {:induction false} TrimCounted(slots: seq<Slot>, earlier: int, cutoff: int)
    requires earlier <= cutoff
    ensures Later(Later(slots, earlier), cutoff) == Later(slots, cutoff)
  {
    hide Later;
    LaterUnfold(slots, earlier);
    LaterUnfold(slots, cutoff);
    if slots != [] {
      var k := |slots| - 1;
      TrimCounted(slots[..k], earlier, cutoff);
      var r := Later(slots[..k], earlier);
      LaterUnfold(r + [slots[k]], cutoff);
      assert (r + [slots[k]])[..|r|] == r;
    }
  }

  lemma TrimKeepsCount(us: Usages, app: string, earlier: int, cutoff: int)
    requires earlier <= cutoff
    ensures CountedAfter(Trimmed(us, earlier), app, cutoff) == CountedAfter(us, app, cutoff)
  {
    hide Later;
    TrimCounted(At(us, app).slots, earlier, cutoff);
    LaterUnfold([], cutoff);
    LaterUnfold([], earlier);
  }

  /**
   What `TopSince` reports: exactly the applications with a request marked at or after `time`, each
   with those requests and its late ones; so with exactly those requests when none is late.
   */
  lemma ReportedRequests(events: seq<Event>, app: string, time: int)
    requires TrimmedBefore(events, time - 1)
    ensures var us := Trimmed(Run(events), time - 1);
            && (app in us <==> MarksAfter(events, app, time - 1) > 0)
            && (app in us ==>
                  && us[app].n == MarksAfter(events, app, time - 1) + LateMarks(events, app, time - 1)
                  && (us[app].n == MarksAfter(events, app, time - 1) <==> Settled(events, app, time - 1)))
  {
    hide Later, Run, MarksAfter, LateMarks, Settled, Seen;
    RequestsCounted(events, app, time - 1);
    RunGood(events);
    TrimmedGood(Run(events), time - 1);
    LateNeedsSeen(events, app, time - 1);
    var u := At(Run(events), app);
    LaterUnfold([], time - 1);
    if u.slots != [] {
      LaterMeaning(u.slots, time - 1);
      SumPositive(Later(u.slots, time - 1));
    }
  }

  /** A late mark comes after a mark that counts. */
  lemma {:induction false} LateNeedsSeen(events: seq<Event>, app: string, cutoff: int)
    ensures MarksAfter(events, app, cutoff) >= 0
    ensures MarksAfter(events, app, cutoff) > 0 <==> Seen(events, app, cutoff)
    ensures LateMarks(events, app, cutoff) > 0 ==> MarksAfter(events, app, cutoff) > 0
  {
    hide Seen;
    if events != [] {
      LateNeedsSeen(events[..|events| - 1], app, cutoff);
      SeenSnoc(events, app, cutoff);
    } else {
      NoneSeen(app, cutoff);
    }
  }

  lemma {:induction false} SumPositive(slots: seq<Slot>)
    requires Rising(slots)
    ensures Sum(slots) >= 0 && (slots != [] <==> Sum(slots) > 0)
  {
    if slots != [] { SumPositive(slots[..|slots| - 1]); }
  }

  /** A late mark, counted under the last second of its entry. */
  lemma OutOfOrderOvercounts(app: string)
    ensures var events := [Mark(app, 5), Mark(app, 3)];
            CountedAfter(Run(events), app, 4) == 2 && MarksAfter(events, app, 4) == 1
  {
    var e0, e1 := [Mark(app, 5)], [Mark(app, 5), Mark(app, 3)];
    assert e1[..1] == e0 && e0[..0] == [];
    assert Run(e0[..0]) == map[];
    assert MarkUsage(UNUSED, 5) == Usage([Slot(5, 1)], 1);
    assert Run(e0) == map[app := Usage([Slot(5, 1)], 1)];
    assert Run(e1)[app].slots == [Slot(5, 2)];
    assert [Slot(5, 2)][..0] == [];
    assert Later([Slot(5, 2)], 4) == [Slot(5, 2)];
    assert MarksAfter(e0, app, 4) == 1;
  }
}

/** `TopApps`: a map and two heaps over the same entries. */
module TopApps {
  import opened HeapOrder
  import opened Heaps
  import opened TopSpec

  /** Smaller is earlier. The source indexes without a test, so every entry compared must have a slot. */
  function FirstMark(u: Usage): int
    requires u.slots != []
  {
    u.slots[0].t
  }

  /** `topAppsEntry.Trim`. */
  method TrimSlots(u: Usage, cutoff: int) returns (r: Usage)
    requires Good(u)
    ensures r == TrimUsage(u, cutoff)
  {
    hide Later;
    var i: nat, n := 0, 0;
    while i < |u.slots| && u.slots[i].t <= cutoff
      invariant i <= |u.slots| && n == Sum(u.slots[..i])
      invariant forall k | 0 <= k < i :: u.slots[k].t <= cutoff
    {
      assert u.slots[..i + 1] == u.slots[..i] + [u.slots[i]];
      SumSnoc(u.slots[..i], u.slots[i]);
      n := n + u.slots[i].n;
      i := i + 1;
    }
    LaterIsSuffix(u.slots, cutoff, i);
    SumSplit(u.slots, i);
    r := Usage(u.slots[i..], u.n - n);
  }

  class TopApps {
    var m: map<string, Entry<Usage>>
    const t: Heap<Usage>
    const n: Heap<Usage>
    ghost var usages: Usages

    constructor ()
      ensures Valid() && usages == map[]
    {
      m, usages := map[], map[];
      t := new Heap<Usage>((u: Usage) requires u.slots != [] => FirstMark(u), First);
      n := new Heap<Usage>((u: Usage) => -u.n, Second);
    }

    ghost predicate Ranked() {
      && (forall u: Usage | u.slots != [] :: t.rank.requires(u) && t.rank(u) == FirstMark(u))
      && (forall u: Usage :: n.rank.requires(u) && n.rank(u) == -u.n)
    }

    ghost predicate Holds(usages: Usages)
      reads this`m, m.Values`data
    {
      m.Keys == usages.Keys && forall a | a in m :: m[a].applicationId == a && m[a].data == usages[a]
    }

    /** Both heaps hold exactly the map's entries, each where its index fields say. */
    ghost predicate Valid()
      reads this, t, n, m.Values
    {
      Twins(t, n, m.Values) && Holds(usages) && Ranked() && AllGood(usages)
    }

    /** The application's entry, taken out of both heaps, or a new one. */
    method EntryFor(app: string) returns (y: Entry<Usage>, ghost others: set<Entry<Usage>>)
      requires Valid()
      modifies this`m, t`h, t`keys, n`h, n`keys, m.Values`first, m.Values`second
      ensures Twins(t, n, others) && y !in others && m.Values == others + {y}
      ensures y in old(m.Values) || fresh(y)
      ensures y.data == At(usages, app) && app in m && m[app] == y && Holds(usages[app := y.data])
      ensures others <= old(m.Values)
    {
      hide Heap.Valid, Twins, AllGood;
      others := m.Values;
      if app in m {
        y := m[app];
        Detach(t, n, others, y);
        others := others - {y};
      } else {
        y := new Entry<Usage>(app, UNUSED);
        PutValues(m, app, y);
        m := m[app := y];
      }
    }

    /** Replace the data of an entry outside both heaps. */
    method Write(ghost app: string, y: Entry<Usage>, u: Usage, ghost others: set<Entry<Usage>>)
      requires Twins(t, n, others) && y !in others && app in m && m[app] == y && m.Values == others + {y}
      requires Holds(usages[app := y.data])
      modifies y`data
      ensures Twins(t, n, others) && Holds(usages[app := u]) && y.data == u
    {
      hide Twins;
      SetData(t, n, others, y, u);
    }

    method Mark(app: string, time: int)
      requires Valid()
      modifies this`m, this`usages, t`h, t`keys, n`h, n`keys, m.Values
      ensures Valid() && usages == Marked(old(usages), app, time)
    {
      hide Twins, Holds, AllGood, MarkUsage;
      MarkedGood(usages, app, time);
      var y, others := EntryFor(app);
      Write(app, y, MarkUsage(y.data, time), others);
      MarkNonempty(At(usages, app), time);
      usages := Marked(usages, app, time);
      Attach(t, n, others, y);
    }

    lemma MarkNonempty(u: Usage, time: int)
      ensures MarkUsage(u, time).slots != []
    {
    }

    /** Trim an entry that is in neither heap; put it back unless nothing is left of it. */
    method Settle(u: Entry<Usage>, ghost app: string, cutoff: int, ghost others: set<Entry<Usage>>)
      requires Ranked() && Holds(usages) && AllGood(usages) && app in m && m[app] == u
      requires others == m.Values - {u} && Twins(t, n, others) && app in usages && u.data == usages[app]
      modifies this`m, this`usages, t`h, t`keys, n`h, n`keys, m.Values
      ensures Valid() && usages == TrimmedAt(old(usages), app, cutoff) && m.Values <= old(m.Values)
    {
      hide Twins, Later, Good, Holds, AllGood, Trimmed, Pending;
      TrimTouched(usages, app, cutoff);
      GoodAt(usages, app, cutoff);
      var r := TrimSlots(u.data, cutoff);
      if r.slots == [] {
        Forget(u, app, others);
      } else {
        assert r.slots[0].t > cutoff;
        assert usages[app := u.data] == usages;
        Write(app, u, r, others);
        usages := usages[app := r];
        Attach(t, n, others, u);
        assert others + {u} == m.Values;
      }
    }

    lemma GoodAt(us: Usages, app: string, cutoff: int)
      requires AllGood(us) && app in us
      ensures Good(us[app])
      ensures TrimUsage(us[app], cutoff).slots != [] ==> TrimUsage(us[app], cutoff).slots[0].t > cutoff
    {
      TrimGood(us[app], cutoff);
    }

    method Forget(u: Entry<Usage>, ghost app: string, ghost others: set<Entry<Usage>>)
      requires Holds(usages) && app in m && m[app] == u && others == m.Values - {u}
      modifies this`m, this`usages
      ensures m == old(m) - {app} && usages == old(usages) - {app} && m.Values == others && Holds(usages)
    {
      MinusValues(m, app);
      m, usages := m - {u.applicationId}, usages - {app};
    }

    /** One round of `trim`. */
    method TrimRound(cutoff: int) returns (more: bool)
      requires Valid() && |t.h| > 0
      modifies this`m, this`usages, t`h, t`keys, n`h, n`keys, m.Values
      ensures Valid() && m.Values <= old(m.Values)
      ensures Trimmed(usages, cutoff) == Trimmed(old(usages), cutoff)
      ensures if more then |Pending(usages, cutoff)| < |old(Pending(usages, cutoff))| else Trimmed(usages, cutoff) == usages
    {
      hide Twins, Lopsided, Later, Good, Trimmed, TrimmedAt;
      ghost var all := m.Values;
      var u := PopFirst(t, n, all);
      ghost var app :| app in m && m[app] == u;
      GoodNonempty(usages[app]);
      var v := RemoveSecond(t, n, all, u);
      assert v == u;
      more := u.data.slots[0].t <= cutoff;
      if more {
        TrimTouched(usages, app, cutoff);
        assert app in Pending(usages, cutoff);
        Settle(u, app, cutoff, all - {u});
      } else {
        Attach(t, n, all - {u}, u);
        assert all - {u} + {u} == all;
        forall a | a in usages ensures a !in Pending(usages, cutoff) { assert m[a] in all; }
        TrimDone(usages, cutoff);
      }
    }

    /** `Trim`. */
    method Trim(cutoff: int)
      requires Valid()
      modifies this`m, this`usages, t`h, t`keys, n`h, n`keys, m.Values
      ensures Valid() && usages == Trimmed(old(usages), cutoff) && m.Values <= old(m.Values)
    {
      hide Trimmed;
      var more := true;
      while |t.h| > 0 && more
        invariant Valid() && m.Values <= old(m.Values)
        invariant Trimmed(usages, cutoff) == Trimmed(old(usages), cutoff)
        invariant !more ==> Trimmed(usages, cutoff) == usages
        decreases more, |Pending(usages, cutoff)|
      {
        more := TrimRound(cutoff);
      }
      if |t.h| == 0 { NothingLeft(cutoff); }
    }

    lemma NothingLeft(cutoff: int)
      requires Valid() && |t.h| == 0
      ensures Trimmed(usages, cutoff) == usages
    {
      SameSize(t.h);
      SomeValue(m);
      assert usages == map[];
    }

    /** The report lists the entries taken. */
    ghost predicate Reported(taken: seq<Entry<Usage>>, top: seq<TopEntry>)
      reads Elems(taken)
    {
      |top| == |taken| && forall k | 0 <= k < |top| :: top[k] == TopEntry(taken[k].applicationId, taken[k].data.n)
    }

    /** `TopSince`: trim, then take the top from a copy, leaving the live heaps as they are. */
    method TopSince(time: int, count: nat) returns (top: seq<TopEntry>)
      requires Valid()
      modifies this`m, this`usages, t`h, t`keys, n`h, n`keys, m.Values
      ensures Valid() && usages == Trimmed(old(usages), time - 1)
      ensures IsTop(usages, count, top)
    {
      hide Twins, Holds, AllGood, Trimmed, Drained, IsTop;
      Trim(time - 1);
      top := Top(count);
    }

    method Top(count: nat) returns (top: seq<TopEntry>)
      requires Valid()
      ensures IsTop(usages, count, top)
    {
      hide Twins, Holds, AllGood, Drained, IsTop;
      var a := CopyOf(t, n, m.Values);
      top := [];
      ghost var taken: seq<Entry<Usage>> := [];
      while |a.h| > 0 && |top| < count
        invariant fresh(a) && a.side.Snapshot? && a.rank == n.rank
        invariant Drained(taken, a, m.Values) && Reported(taken, top) && |top| <= count
        decreases |a.h|
      {
        var z := Drain(taken, a, m.Values);
        taken := taken + [z];
        top := top + [TopEntry(z.applicationId, z.data.n)];
      }
      TopReported(taken, a, top, count);
    }

    lemma TopReported(taken: seq<Entry<Usage>>, a: Heap<Usage>, top: seq<TopEntry>, count: nat)
      requires Holds(usages) && Ranked() && a.rank == n.rank && Drained(taken, a, m.Values)
      requires Reported(taken, top) && |top| <= count && (a.h == [] || |top| == count)
      ensures IsTop(usages, count, top)
    {
      hide Heap.Valid, Holds, Drained, Listed, Missing, Ranked;
      TakenSize(taken, a);
      TakenListed(taken, a, top);
      forall app, k | app in usages && Missing(app, top) && 0 <= k < |top|
        ensures usages[app].n <= top[k].requests
      {
        LeftBehind(taken, a, top, app, k);
      }
    }

    lemma TakenListed(taken: seq<Entry<Usage>>, a: Heap<Usage>, top: seq<TopEntry>)
      requires Holds(usages) && Ranked() && a.rank == n.rank && Drained(taken, a, m.Values) && Reported(taken, top)
      ensures Listed(usages, top)
    {
      hide Heap.Valid;
      forall k | 0 <= k < |taken|
        ensures taken[k].applicationId in m && m[taken[k].applicationId] == taken[k]
      {
        assert taken[k] in Elems(taken);
      }
    }

    lemma LeftBehind(taken: seq<Entry<Usage>>, a: Heap<Usage>, top: seq<TopEntry>, app: string, k: nat)
      requires Holds(usages) && Ranked() && a.rank == n.rank && Drained(taken, a, m.Values) && Reported(taken, top)
      requires app in usages && Missing(app, top) && k < |top|
      ensures usages[app].n <= top[k].requests
    {
      hide Heap.Valid;
      assert m[app] in Elems(taken) + Elems(a.h);
      assert a.rank(taken[k].data) <= a.rank(m[app].data);
    }

    lemma TakenSize(taken: seq<Entry<Usage>>, a: Heap<Usage>)
      requires Holds(usages) && Drained(taken, a, m.Values)
      ensures |taken| + |a.h| == |usages|
    {
      ElemsSize(taken);
      ElemsSize(a.h);
      ValuesSize(m);
      assert |m.Keys| == |usages.Keys|;
    }
  }
}
