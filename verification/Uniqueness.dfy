/** Which addresses are used, recorded and reaped, over every run. */
module Uniqueness {
  import opened Wrappers
  import opened Text
  import opened Uris
  import opened AddressSpace
  import opened Allocators
  import opened Members
  import opened RouterSpec
  import opened RouterFacts

  predicate NoRepeats(list: seq<Addr>) {
    forall j, k | 0 <= j < k < |list| :: list[j] != list[k]
  }

  function Elems(list: seq<Addr>): set<Addr> { set a | a in list }

  predicate Injective(dataGroup: map<Name, Addr>) {
    forall m, n | m in dataGroup && n in dataGroup && dataGroup[m] == dataGroup[n] :: m == n
  }

  /** The used addresses are the recorded ones and the reaped ones, every one of them once. */
  ghost predicate Divided(dataGroup: map<Name, Addr>, used: set<Addr>, reaped: seq<Addr>) {
    && Injective(dataGroup) && NoRepeats(reaped)
    && dataGroup.Values !! Elems(reaped) && used == dataGroup.Values + Elems(reaped)
  }

  ghost predicate Partitioned(s: State) { Divided(s.dataGroup, s.used, s.reaped) }

  /** Then no two live HTTP virtuals share a destination. */
  lemma DestinationsDiffer(s: State, m: Name, n: Name)
    requires Destined(s.virtuals, s.dataGroup) && Partitioned(s) && m in s.virtuals && n in s.virtuals && m != n
    ensures s.virtuals[m].destination != s.virtuals[n].destination
  {
  }

  // ---------------------------------------------------------------------------------
  // Pieces

  lemma RecordValues(dataGroup: map<Name, Addr>, n: Name, a: Addr)
    requires n !in dataGroup
    ensures dataGroup[n := a].Values == dataGroup.Values + {a}
    ensures Injective(dataGroup) && a !in dataGroup.Values ==> Injective(dataGroup[n := a])
  {
    var r := dataGroup[n := a];
    assert r[n] in r.Values;
    forall x | x in dataGroup.Values ensures x in r.Values {
      var m :| m in dataGroup && dataGroup[m] == x;
      assert r[m] in r.Values;
    }
  }

  lemma ForgetValues(dataGroup: map<Name, Addr>, n: Name)
    requires n in dataGroup && Injective(dataGroup)
    ensures (dataGroup - {n}).Values == dataGroup.Values - {dataGroup[n]} && Injective(dataGroup - {n})
  {
    var r := dataGroup - {n};
    forall x | x in dataGroup.Values && x != dataGroup[n] ensures x in r.Values {
      var m :| m in dataGroup && dataGroup[m] == x;
      assert r[m] in r.Values;
    }
  }

  lemma FirstTaken(list: seq<Addr>)
    requires list != [] && NoRepeats(list)
    ensures NoRepeats(TakeFirst(list)) && Elems(TakeFirst(list)) == Elems(list) - {list[0]}
  {
    var r := TakeFirst(list);
    forall a | a in list && a != list[0] ensures a in r {
      var k :| 0 <= k < |list| && list[k] == a;
      assert r[if k == |list| - 1 then 0 else k] == a;
    }
  }

  lemma Appended(list: seq<Addr>, a: Addr)
    requires NoRepeats(list) && a !in list
    ensures NoRepeats(list + [a]) && Elems(list + [a]) == Elems(list) + {a}
  {
  }

  // ---------------------------------------------------------------------------------
  // Every update but the first drain keeps the division

  lemma AssignPartitioned(b: Block, s: State, n: Name)
    requires ValidBlock(b) && s.cursor < Capacity(b) && Partitioned(s)
    ensures Partitioned(Assign(b, s, n).0)
  {
    hide Capacity, FirstFree, Nth, Injective, NoRepeats, Elems, TakeFirst;
    if n !in s.virtuals && n !in s.dataGroup {
      if s.reaped != [] {
        var a := s.reaped[0];
        FirstTaken(s.reaped);
        assert a in Elems(s.reaped) by { FirstIn(s.reaped); }
        RecordValues(s.dataGroup, n, a);
      } else {
        FirstFreeMeaning(b, s.used, s.cursor);
        var k := FirstFree(b, s.used, s.cursor);
        if k.Some? { RecordValues(s.dataGroup, n, Nth(b, k.value)); }
      }
    }
  }

  lemma FirstIn(list: seq<Addr>)
    requires list != []
    ensures list[0] in Elems(list)
  {
  }

  lemma AddPartitioned(cfg: Config, s: State, uri: string, address: string, port: int, app: string)
    requires Ready(cfg, s) && Partitioned(s)
    ensures Partitioned(HttpAdd(cfg, s, uri, address, port, app))
  {
    hide Assign, Installed, UriString, Capacity, MakeDescription, NonEmpty, Accepted, Divided;
    var n := NameOf(uri);
    AssignFrame(cfg.block, s, n);
    AssignPartitioned(cfg.block, s, n);
    var (r, d) := Assign(cfg.block, s, n);
    if d.Some? { InstalledVirtuals(cfg, r, uri, Enabled(address, port), MakeDescription(UriString(uri), app), d.value); }
  }

  lemma RemovePartitioned(s: State, uri: string, address: string, port: int)
    requires Partitioned(s)
    ensures Partitioned(HttpRemove(s, uri, address, port))
  {
    hide UriString, Count, Injective, NoRepeats, Elems, Removed, Shrunk;
    var n := NameOf(uri);
    if n in s.dataGroup {
      var a := s.dataGroup[n];
      ForgetValues(s.dataGroup, n);
      NotReaped(s, n);
      Appended(s.reaped, a);
    } else {
      assert s.dataGroup - {n} == s.dataGroup;
    }
  }

  lemma NotReaped(s: State, n: Name)
    requires Partitioned(s) && n in s.dataGroup
    ensures s.dataGroup[n] !in s.reaped && s.dataGroup[n] in s.dataGroup.Values
  {
    var a := s.dataGroup[n];
    assert a in s.reaped <==> a in Elems(s.reaped);
  }

  lemma OthersPartitioned(cfg: Config, s: State, u: Update, s': State)
    requires Ready(cfg, s) && Next(cfg, s, u, s')
    requires u.BindRoute? || u.UnbindRoute? || u.AddTcp? || u.RemoveTcp?
    ensures s'.dataGroup == s.dataGroup && s'.used == s.used && s'.reaped == s.reaped && s'.cursor == s.cursor
  {
    hide UriString, AddPool, Shrunk, Removed, SelfRemoved, Capacity, NonEmpty, PlannedPool, PlannedVirtual,
         WithMonitors;
  }

  // ---------------------------------------------------------------------------------
  // No address is ever lost

  /** Every address that the cursor has passed is used. */
  ghost predicate Filled(b: Block, s: State) {
    ValidBlock(b) && s.cursor < Capacity(b) && forall k | 0 <= k < s.cursor :: Nth(b, k) in s.used
  }

  /** A route that is live or recorded, a reaped address, or an address of the cursor that no record holds. */
  ghost predicate HasRoom(b: Block, s: State, n: Name)
    requires ValidBlock(b)
  {
    n in s.virtuals || n in s.dataGroup || s.reaped != [] || exists k | 0 <= k < Capacity(b) :: Nth(b, k) !in s.dataGroup.Values
  }

  /** A destination is found exactly when there is room. */
  lemma AssignExact(b: Block, s: State, n: Name)
    requires Partitioned(s) && Filled(b, s)
    ensures Assign(b, s, n).1.Some? <==> HasRoom(b, s, n)
  {
    hide Capacity, FirstFree, Nth, Injective, NoRepeats;
    FirstFreeMeaning(b, s.used, s.cursor);
    if s.reaped == [] { assert s.used == s.dataGroup.Values by { assert Elems([]) == {}; } }
  }

  lemma AssignFilled(b: Block, s: State, n: Name)
    requires Filled(b, s)
    ensures Filled(b, Assign(b, s, n).0)
  {
    hide Capacity, FirstFree, Nth, TakeFirst;
    FirstFreeMeaning(b, s.used, s.cursor);
  }

  /** As long as fewer addresses are recorded than the cursor can hand out, every route finds one. */
  lemma RoomByCount(b: Block, s: State, n: Name)
    requires ValidBlock(b) && |s.dataGroup| < Capacity(b)
    ensures HasRoom(b, s, n)
  {
    hide Capacity, Nth;
    var all := FirstAddresses(b, Capacity(b));
    DistinctAddresses(b);
    ValuesBound(s.dataGroup);
    if all <= s.dataGroup.Values {
      SubsetBound(all, s.dataGroup.Values);
    } else {
      var a :| a in all && a !in s.dataGroup.Values;
      var k :| 0 <= k < Capacity(b) && Nth(b, k) == a;
    }
  }

  lemma {:induction false} SubsetBound(a: set<Addr>, b: set<Addr>)
    requires a <= b
    ensures |a| <= |b|
  {
    if a != {} {
      var x :| x in a;
      SubsetBound(a - {x}, b - {x});
    }
  }

  lemma {:induction false} ValuesBound(m: map<Name, Addr>)
    ensures |m.Values| <= |m|
  {
    if m != map[] {
      var n :| n in m;
      var r := m - {n};
      assert r.Keys == m.Keys - {n};
      ValuesBound(r);
      forall a | a in m.Values ensures a in r.Values + {m[n]} {
        var k :| k in m && m[k] == a;
        if k != n { assert k in r && r[k] == a; }
      }
      SubsetBound(m.Values, r.Values + {m[n]});
    } else {
      assert m.Values == {};
    }
  }

  // ---------------------------------------------------------------------------------
  // The first drain

  /** The first drain keeps the division exactly when nothing is reaped and every record is live. */
  lemma DrainExact(s: State, s': State)
    requires Partitioned(s) && Truncated(s, s')
    ensures Partitioned(s') <==> SafeDrain(s)
  {
    hide Elems;
    if SafeDrain(s) {
      DrainSafe(s, s');
    } else if s.reaped != [] {
      DrainRepeats(s, s');
    } else {
      DrainLoses(s, s');
    }
  }

  predicate SafeDrain(s: State) { s.reaped == [] && s.dataGroup.Keys <= s.virtuals.Keys }

  lemma DrainSafe(s: State, s': State)
    requires Partitioned(s) && Truncated(s, s') && SafeDrain(s)
    ensures Partitioned(s') && s'.reaped == [] && s'.dataGroup == s.dataGroup && s'.used == s.used
  {
    assert LiveRecords(s) == s.dataGroup;
    var list := s'.reaped[|s.reaped|..];
    assert forall a :: a !in list;
    SomeElement(list);
  }

  lemma SomeElement(list: seq<Addr>)
    ensures list == [] || exists a :: a in list
  {
    if list != [] { assert list[0] in list; }
  }

  /** An address reaped before the drain is listed twice after it. */
  lemma DrainRepeats(s: State, s': State)
    requires Partitioned(s) && Truncated(s, s') && s.reaped != []
    ensures !NoRepeats(s'.reaped)
  {
    var a, records, list := s.reaped[0], LiveRecords(s), s'.reaped[|s.reaped|..];
    FirstIn(s.reaped);
    assert a !in records.Values by { LiveValues(s); }
    assert a in list;
    var k :| 0 <= k < |list| && list[k] == a;
    assert s'.reaped[0] == s'.reaped[..|s.reaped|][0] == a;
    assert s'.reaped[|s.reaped| + k] == a;
  }

  lemma LiveValues(s: State)
    ensures LiveRecords(s).Values <= s.dataGroup.Values
  {
  }

  /** The address of a record without a live virtual is reaped but no longer used. */
  lemma DrainLoses(s: State, s': State)
    requires Partitioned(s) && Truncated(s, s') && s.reaped == [] && !(s.dataGroup.Keys <= s.virtuals.Keys)
    ensures !Partitioned(s')
  {
    var n :| n in s.dataGroup && n !in s.virtuals;
    var a, records, list := s.dataGroup[n], LiveRecords(s), s'.reaped[|s.reaped|..];
    assert a in s.dataGroup.Values;
    assert a !in records.Values;
    assert a in list && list == s'.reaped;
    assert a in Elems(s'.reaped);
  }

  /** After such a drain two routes can get the same address: c and e do. */
  lemma DrainedAddressShared(b: Block, s: State, s': State, a: Name, c: Name, d: Name, e: Name)
    requires ValidBlock(b) && a != c && c != d && d != e && c != e && e != a && d != a
    requires s.dataGroup == map[a := Nth(b, 1)] && s.used == {Nth(b, 1)} && s.reaped == [] && s.cursor == 0
    requires s.virtuals == map[] && Truncated(s, s')
    ensures var (s1, d1) := Assign(b, s', c);
            s1.cursor < Capacity(b) &&
            var (s2, d2) := Assign(b, s1, d);
            s2.cursor < Capacity(b) &&
            var (s3, d3) := Assign(b, s2, e);
            Partitioned(s) && d1 == d3 == Some(Internal(Nth(b, 1)))
  {
    var x, y := Nth(b, 0), Nth(b, 1);
    assert s.dataGroup.Values == {y} by { assert s.dataGroup[a] == y; }
    assert Partitioned(s) by { assert Elems([]) == {}; }
    assert LiveRecords(s) == map[];
    assert s'.reaped == [y] by { OnlyOne(s'.reaped, y); }
    var s1 := Assign(b, s', c).0;
    assert s1 == s'.(reaped := [], dataGroup := map[c := y]);
    assert FirstFree(b, {}, 0) == Some(0);
    var s2 := Assign(b, s1, d).0;
    assert s2 == s1.(used := {} + {x}, dataGroup := map[c := y, d := x], cursor := 0);
    assert x != y && FirstFree(b, {} + {x}, 0) == FirstFree(b, {} + {x}, 1) == Some(1);
  }

  lemma OnlyOne(list: seq<Addr>, a: Addr)
    requires NoRepeats(list) && forall x :: x in list <==> x == a
    ensures list == [a]
  {
    assert a in list;
    if |list| > 1 { TwoDiffer(list); }
  }

  lemma TwoDiffer(list: seq<Addr>)
    requires NoRepeats(list) && |list| > 1
    ensures exists x, y :: x in list && y in list && x != y
  {
    assert list[0] in list && list[1] in list && list[0] != list[1];
  }

  // ---------------------------------------------------------------------------------
  // The cached data group

  predicate UniqueNames(records: seq<Record>) {
    forall j, k | 0 <= j < k < |records| :: records[j].name != records[k].name
  }

  /** In range, and no earlier record in range has its address. */
  predicate Kept(b: Block, records: seq<Record>, i: nat)
    requires i < |records|
  {
    InRange(b, records[i]) && forall j | 0 <= j < i && InRange(b, records[j]) :: records[j].data != records[i].data
  }

  lemma {:induction false} CachedInRange(b: Block, records: seq<Record>, a: Addr)
    ensures a in Cached(b, {}, records).1 <==> exists i | 0 <= i < |records| :: InRange(b, records[i]) && records[i].data == Some(a)
  {
    hide InRange;
    if records != [] {
      var before, r := records[..|records| - 1], records[|records| - 1];
      CachedInRange(b, before, a);
      assert InRange(b, r) ==> r.data.Some? by { HasData(b, r); }
      if i :| 0 <= i < |before| && InRange(b, before[i]) && before[i].data == Some(a) { assert records[i] == before[i]; }
      if InRange(b, r) && r.data.value == a { assert records[|before|] == r; }
    }
  }

  /** Exactly the addresses of the records are used that lie in the block and have a port at all. */
  lemma CachedUses(b: Block, records: seq<Record>, a: Addr)
    requires ValidBlock(b)
    ensures a in Cached(b, {}, records).1 <==>
            Contains(b, a.ip) && a.port <= 65535 && exists i | 0 <= i < |records| :: records[i].data == Some(a)
  {
    CachedInRange(b, records, a);
  }

  lemma HasData(b: Block, r: Record)
    ensures InRange(b, r) ==> r.data.Some?
  {
  }

  lemma {:induction false} CachedNames(b: Block, records: seq<Record>)
    ensures forall n | n in Cached(b, {}, records).0 :: exists i :: 0 <= i < |records| && records[i].name == n
  {
    hide InRange;
    if records != [] {
      var before, r := records[..|records| - 1], records[|records| - 1];
      CachedNames(b, before);
      HasData(b, r);
      forall n | n in Cached(b, {}, records).0 ensures exists i :: 0 <= i < |records| && records[i].name == n {
        if n == r.name {
          assert records[|before|].name == n;
        } else {
          assert n in Cached(b, {}, before).0;
          var i :| 0 <= i < |before| && before[i].name == n;
          assert records[i].name == n;
        }
      }
    }
  }

  /** A fresh start divides the used addresses. */
  lemma {:induction false} CachedDivided(b: Block, records: seq<Record>)
    requires UniqueNames(records)
    ensures Divided(Cached(b, {}, records).0, Cached(b, {}, records).1, [])
  {
    hide InRange, Injective;
    assert Elems([]) == {};
    if records != [] {
      var before, r := records[..|records| - 1], records[|records| - 1];
      CachedDivided(b, before);
      HasData(b, r);
      var (dataGroup, used) := Cached(b, {}, before);
      CachedNames(b, before);
      assert r.name !in dataGroup;
      if InRange(b, r) && r.data.value !in used { RecordValues(dataGroup, r.name, r.data.value); }
    } else {
      assert Injective(map[]) by { NothingInjective(); }
    }
  }

  lemma NothingInjective()
    ensures Injective(map[])
  {
  }

  /** A kept record is in the data group with its address. */
  lemma {:induction false} CachedKeeps(b: Block, records: seq<Record>, i: nat)
    requires UniqueNames(records) && i < |records| && Kept(b, records, i)
    ensures records[i].name in Cached(b, {}, records).0
    ensures Cached(b, {}, records).0[records[i].name] == records[i].data.value
  {
    hide InRange;
    var before, r := records[..|records| - 1], records[|records| - 1];
    HasData(b, records[i]);
    if i < |before| {
      CachedKeeps(b, before, i);
    } else {
      CachedInRange(b, before, r.data.value);
    }
  }
}
