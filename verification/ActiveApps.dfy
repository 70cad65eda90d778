/** The applications seen lately, as values (stats/active_apps.go). */
module ActiveSpec {
  import opened HeapOrder

  type Times = map<string, int>

  function Max(a: int, b: int): int { if a < b then b else a }

  /** A new entry starts at time zero. */
  function Marked(times: Times, app: string, t: int): Times {
    times[app := Max(if app in times then times[app] else 0, t)]
  }

  function Trimmed(times: Times, cutoff: int): Times {
    map a | a in times && times[a] > cutoff :: times[a]
  }

  /** The applications at or after the cutoff, latest first. */
  ghost predicate IsActiveSince(times: Times, cutoff: int, apps: seq<string>) {
    && Distinct(apps)
    && (forall a :: a in apps <==> a in times && times[a] >= cutoff)
    && (forall k, l | 0 <= k < l < |apps| :: times[apps[k]] >= times[apps[l]])
  }

  // ---------------------------------------------------------------------------------
  // Runs

  datatype Event = Mark(app: string, t: int) | Trim(cutoff: int)

  function Step(times: Times, ev: Event): Times {
    match ev
    case Mark(app, t) => Marked(times, app, t)
    case Trim(cutoff) => Trimmed(times, cutoff)
  }

  function Run(events: seq<Event>): Times {
    if events == [] then map[] else Step(Run(events[..|events| - 1]), events[|events| - 1])
  }

  /** The latest mark of an application in a stretch of events, zero at least. */
  function LatestMark(events: seq<Event>, app: string): int {
    if events == [] then 0
    else
      var before, ev := LatestMark(events[..|events| - 1], app), events[|events| - 1];
      if ev.Mark? && ev.app == app then Max(before, ev.t) else before
  }

  /** From event `k` on the application has been there without a break. */
  ghost predicate InsertedAt(events: seq<Event>, app: string, k: nat) {
    && k < |events| && events[k].Mark? && events[k].app == app
    && app !in Run(events[..k])
    && forall n | k < n <= |events| :: app in Run(events[..n])
  }

  /** An entry's time is the latest mark since the entry was last inserted. */
  lemma {:induction false} TimeIsLatestMark(events: seq<Event>, app: string)
    requires app in Run(events)
    ensures exists k: nat :: InsertedAt(events, app, k) && Run(events)[app] == LatestMark(events[k..], app)
  {
    hide Run, LatestMark;
    var n := |events|;
    assert n > 0 by { if n == 0 { RunUnfold(events); } }
    var before, ev := events[..n - 1], events[n - 1];
    RunUnfold(events);
    assert events[..n] == events;
    if app in Run(before) {
      TimeIsLatestMark(before, app);
      var k: nat :| InsertedAt(before, app, k) && Run(before)[app] == LatestMark(before[k..], app);
      StillInserted(events, app, k);
      LatestSnoc(before[k..], ev, app);
      assert events[k..] == before[k..] + [ev];
    } else {
      assert InsertedAt(events, app, n - 1);
      LatestSnoc([], ev, app);
      assert events[n - 1..] == [] + [ev];
    }
  }

  lemma StillInserted(events: seq<Event>, app: string, k: nat)
    requires |events| > 0 && InsertedAt(events[..|events| - 1], app, k) && app in Run(events)
    ensures InsertedAt(events, app, k)
  {
    hide Run;
    var before := events[..|events| - 1];
    assert before[..k] == events[..k];
    forall n | k < n <= |events| ensures app in Run(events[..n]) {
      if n < |events| { assert before[..n] == events[..n]; } else { assert events[..n] == events; }
    }
  }

  lemma RunUnfold(events: seq<Event>)
    ensures events == [] ==> Run(events) == map[]
    ensures events != [] ==> Run(events) == Step(Run(events[..|events| - 1]), events[|events| - 1])
  {
  }

  lemma LatestSnoc(events: seq<Event>, ev: Event, app: string)
    ensures var before := LatestMark(events, app);
            LatestMark(events + [ev], app) == if ev.Mark? && ev.app == app then Max(before, ev.t) else before
    ensures LatestMark([], app) == 0
  {
    assert (events + [ev])[..|events|] == events;
  }

  /** A mark that no later trim reaches; a mark before time zero counts as time zero. */
  ghost predicate Survives(events: seq<Event>, app: string, k: int) {
    && 0 <= k < |events| && events[k].Mark? && events[k].app == app
    && forall l | k < l < |events| && events[l].Trim? :: events[l].cutoff < Stamp(events[k])
  }

  function Stamp(ev: Event): int
    requires ev.Mark?
  {
    if ev.t < 0 then 0 else ev.t
  }

  lemma SurvivesSnoc(events: seq<Event>, app: string, k: int)
    requires events != []
    ensures var n := |events| - 1;
            Survives(events, app, k) <==>
            if k == n then events[n].Mark? && events[n].app == app
            else Survives(events[..n], app, k) && (events[n].Trim? ==> events[n].cutoff < Stamp(events[k]))
  {
    var n := |events| - 1;
    assert forall l | 0 <= l < n :: events[..n][l] == events[l];
  }

  /** An application is listed exactly when one of its marks survives, at the time of the latest that does. */
  lemma {:induction false} PresentExactly(events: seq<Event>, app: string)
    ensures app in Run(events) <==> exists k :: Survives(events, app, k)
    ensures app in Run(events) ==>
              && (exists k :: Survives(events, app, k) && Stamp(events[k]) == Run(events)[app])
              && (forall k | Survives(events, app, k) :: Stamp(events[k]) <= Run(events)[app])
  {
    hide Run;
    RunUnfold(events);
    if events != [] {
      var n := |events| - 1;
      var front, ev := events[..n], events[n];
      PresentExactly(front, app);
      forall k ensures Survives(events, app, k) <==>
                         if k == n then ev.Mark? && ev.app == app
                         else Survives(front, app, k) && (ev.Trim? ==> ev.cutoff < Stamp(events[k]))
      {
        SurvivesSnoc(events, app, k);
      }
      if app in Run(front) {
        var k :| Survives(front, app, k) && Stamp(front[k]) == Run(front)[app];
        if Survives(events, app, k) { assert Stamp(events[k]) == Run(front)[app]; }
      }
      if ev.Mark? && ev.app == app { assert Survives(events, app, n); }
    }
  }

  lemma TrimmedMinus(times: Times, app: string, cutoff: int)
    requires app in times && times[app] <= cutoff
    ensures Trimmed(times - {app}, cutoff) == Trimmed(times, cutoff)
  {
  }

  lemma TrimmedAll(times: Times, cutoff: int)
    requires forall a | a in times :: times[a] > cutoff
    ensures Trimmed(times, cutoff) == times
  {
  }
}

/** `ActiveApps`: a map and two heaps over the same entries. */
module ActiveApps {
  import opened HeapOrder
  import opened Heaps
  import opened ActiveSpec

  class ActiveApps {
    var m: map<string, Entry<int>>
    const i: Heap<int>
    const j: Heap<int>
    ghost var times: Times

    constructor ()
      ensures Valid() && times == map[]
    {
      m, times := map[], map[];
      i := new Heap<int>((t: int) => t, First);
      j := new Heap<int>((t: int) => -t, Second);
    }

    ghost predicate Timed(times: Times)
      reads this`m, m.Values`data
    {
      m.Keys == times.Keys && forall a | a in m :: m[a].applicationId == a && m[a].data == times[a]
    }

    /** Both heaps hold exactly the map's entries, each where its index fields say. */
    ghost predicate Valid()
      reads this, i, j, m.Values
    {
      Twins(i, j, m.Values) && Timed(times) && Ranked()
    }

    ghost predicate Ranked() {
      (forall t: int :: i.rank.requires(t) && i.rank(t) == t) && (forall t: int :: j.rank.requires(t) && j.rank(t) == -t)
    }

    /** The application's entry, taken out of both heaps, or a new one. */
    method EntryFor(app: string) returns (y: Entry<int>, ghost others: set<Entry<int>>)
      requires Valid()
      modifies this`m, i`h, i`keys, j`h, j`keys, m.Values`first, m.Values`second
      ensures Twins(i, j, others) && y !in others && m.Values == others + {y}
      ensures y in old(m.Values) || fresh(y)
      ensures y.data == if app in times then times[app] else 0
      ensures app in m && m[app] == y && Timed(times[app := y.data]) && others <= old(m.Values)
    {
      hide Heap.Valid, Twins;
      others := m.Values;
      if app in m {
        y := m[app];
        Detach(i, j, others, y);
        others := others - {y};
      } else {
        y := new Entry<int>(app, 0);
        PutValues(m, app, y);
        m := m[app := y];
      }
    }

    /** `activeAppsEntry.Mark`, on an entry outside both heaps. */
    method Stamp(ghost app: string, y: Entry<int>, t: int, ghost others: set<Entry<int>>)
      requires Twins(i, j, others) && y !in others && app in m && m[app] == y && m.Values == others + {y}
      requires y.data == (if app in times then times[app] else 0) && Timed(times[app := y.data])
      modifies y`data
      ensures Twins(i, j, others) && Timed(Marked(times, app, t))
    {
      hide Twins;
      if y.data < t { SetData(i, j, others, y, t); }
    }

    method Mark(app: string, t: int)
      requires Valid()
      modifies this`m, this`times, i`h, i`keys, j`h, j`keys, m.Values
      ensures Valid() && times == Marked(old(times), app, t)
    {
      hide Twins, Timed;
      var y, others := EntryFor(app);
      Stamp(app, y, t, others);
      times := Marked(times, app, t);
      assert i.rank.requires(y.data) && j.rank.requires(y.data);
      Attach(i, j, others, y);
    }

    /** One round of `Trim`: drop the oldest entry, or find it recent enough. */
    method TrimOldest(cutoff: int) returns (more: bool)
      requires Valid() && |i.h| > 0
      modifies this`m, this`times, i`h, i`keys, j`h, j`keys, m.Values`first, m.Values`second
      ensures Valid() && m.Values <= old(m.Values)
      ensures Trimmed(times, cutoff) == Trimmed(old(times), cutoff)
      ensures if more then |m| < old(|m|) else Trimmed(times, cutoff) == times
    {
      hide Twins, Lopsided;
      ghost var all := m.Values;
      var z := PopFirst(i, j, all);
      ghost var app :| app in m && m[app] == z;
      more := z.data <= cutoff;
      if !more {
        PushBack(i, j, all, z);
        forall a | a in m ensures times[a] > cutoff { assert m[a] in all; }
        TrimmedAll(times, cutoff);
      } else {
        var _ := RemoveSecond(i, j, all, z);
        TrimmedMinus(times, app, cutoff);
        Forget(z, app);
      }
    }

    /** Drop an entry that is in neither heap any more. */
    method Forget(z: Entry<int>, ghost app: string)
      requires Ranked() && Timed(times) && app in m && m[app] == z && Twins(i, j, m.Values - {z})
      modifies this`m, this`times
      ensures Valid() && times == old(times) - {app} && m == old(m) - {app} && m.Values <= old(m.Values)
      ensures |m| < old(|m|)
    {
      hide Twins;
      MinusValues(m, app);
      assert m.Keys - {app} == (m - {app}).Keys;
      m, times := m - {z.applicationId}, times - {app};
    }

    method Trim(cutoff: int)
      requires Valid()
      modifies this`m, this`times, i`h, i`keys, j`h, j`keys, m.Values`first, m.Values`second
      ensures Valid() && times == Trimmed(old(times), cutoff)
    {
      hide Trimmed;
      var more := true;
      while |i.h| > 0 && more
        invariant Valid() && m.Values <= old(m.Values)
        invariant Trimmed(times, cutoff) == Trimmed(old(times), cutoff)
        invariant !more ==> Trimmed(times, cutoff) == times
        decreases more, |m|
      {
        more := TrimOldest(cutoff);
      }
      if |i.h| == 0 { NothingLeft(cutoff); }
    }

    lemma NothingLeft(cutoff: int)
      requires Valid() && |i.h| == 0
      ensures Trimmed(times, cutoff) == times
    {
      SameSize(i.h);
      SomeValue(m);
      assert times == map[];
    }

    /** The entries taken so far: the first `|apps|` are reported, any other is too old. */
    ghost predicate Reported(taken: seq<Entry<int>>, apps: seq<string>, cutoff: int)
      reads Elems(taken)
    {
      && |apps| <= |taken|
      && (forall k | 0 <= k < |apps| :: apps[k] == taken[k].applicationId && taken[k].data >= cutoff)
      && (forall k | |apps| <= k < |taken| :: taken[k].data < cutoff)
    }

    /** `ActiveSince`, from a copy: the live heaps stay as they are. */
    method ActiveSince(cutoff: int) returns (apps: seq<string>)
      requires Valid()
      ensures IsActiveSince(times, cutoff, apps)
    {
      hide Twins, Drained, IsActiveSince;
      var a := CopyOf(i, j, m.Values);
      apps := [];
      ghost var taken: seq<Entry<int>> := [];
      while |a.h| > 0
        invariant fresh(a) && a.side.Snapshot? && a.rank == j.rank
        invariant Drained(taken, a, m.Values) && Reported(taken, apps, cutoff) && |taken| == |apps|
        decreases |a.h|
      {
        var z := Drain(taken, a, m.Values);
        taken := taken + [z];
        if z.data < cutoff { break; }
        apps := apps + [z.applicationId];
      }
      SinceReported(taken, a, apps, cutoff);
    }

    lemma SinceReported(taken: seq<Entry<int>>, a: Heap<int>, apps: seq<string>, cutoff: int)
      requires Timed(times) && Ranked() && a.rank == j.rank && Drained(taken, a, m.Values)
      requires Reported(taken, apps, cutoff) && (a.h == [] || |apps| < |taken|)
      ensures IsActiveSince(times, cutoff, apps)
    {
      hide Heap.Valid;
      forall k | 0 <= k < |taken| ensures taken[k] in m.Values { assert taken[k] in Elems(taken); }
      forall x | x in a.h ensures x.data < cutoff {
        assert a.rank(taken[|apps|].data) <= a.rank(x.data);
      }
      forall app | app in times && times[app] >= cutoff ensures app in apps {
        var z := m[app];
        assert z in Elems(taken) + Elems(a.h);
        var k :| 0 <= k < |taken| && taken[k] == z;
        assert apps[k] == app;
      }
    }
  }
}
