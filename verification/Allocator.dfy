/** IP addresses as big-endian bytes and as numbers. */
module Addresses {
  type Byte = x: int | 0 <= x < 256

  function Pow256(n: nat): nat { if n == 0 then 1 else 256 * Pow256(n - 1) }

  /** The number that big-endian bytes denote. */
  function Value(b: seq<Byte>): nat {
    if b == [] then 0 else 256 * Value(b[..|b| - 1]) + b[|b| - 1]
  }

  lemma {:induction false} ValueBound(b: seq<Byte>)
    ensures Value(b) < Pow256(|b|)
  {
    if b != [] { ValueBound(b[..|b| - 1]); }
  }

  /** Byte-wise increment with carry. */
  function Incremented(b: seq<Byte>): (r: seq<Byte>)
    ensures |r| == |b|
  {
    if b == [] then []
    else
      var k := |b| - 1;
      if b[k] < 255 then b[..k] + [b[k] + 1] else Incremented(b[..k]) + [0]
  }

  lemma ValueSnoc(b: seq<Byte>, x: Byte)
    ensures Value(b + [x]) == 256 * Value(b) + x
  {
    assert (b + [x])[..|b|] == b;
  }

  /** The byte-carry increment is plus one, wrapping at the top. */
  lemma {:induction false} IncrementedValue(b: seq<Byte>)
    ensures Value(Incremented(b)) == if Value(b) + 1 == Pow256(|b|) then 0 else Value(b) + 1
  {
    if b != [] {
      var k := |b| - 1;
      ValueBound(b[..k]);
      if b[k] < 255 {
        ValueSnoc(b[..k], b[k] + 1);
      } else {
        IncrementedValue(b[..k]);
        ValueSnoc(Incremented(b[..k]), 0);
      }
    }
  }

  function Zeros(n: nat): seq<Byte> { seq(n, _ => 0) }

  /** The carry loop, on a copy of the bytes. */
  method Increment(ip: array<Byte>) returns (r: array<Byte>)
    ensures fresh(r) && r[..] == Incremented(ip[..])
  {
    hide Incremented, Zeros;
    ghost var was := ip[..];
    var n := ip.Length;
    r := new Byte[n](i requires 0 <= i < n reads ip => ip[i]);
    var i := n - 1;
    CarryStarts(was);
    assert r[..] == was[..n] + Zeros(0);
    while i >= 0
      invariant -1 <= i < n
      invariant r[..] == was[..i + 1] + Zeros(n - 1 - i)
      invariant Incremented(was) == Incremented(was[..i + 1]) + Zeros(n - 1 - i)
    {
      CarryStep(was, i);
      assert r[i] == was[i];
      var x: int := r[i];
      r[i] := (x + 1) % 256;
      assert r[..] == was[..i] + [(x + 1) % 256] + Zeros(n - 1 - i);
      if r[i] > 0 { return; }
      i := i - 1;
    }
    assert was[..0] == [];
    CarryEnds();
  }

  lemma CarryStarts(b: seq<Byte>)
    ensures Incremented(b) == Incremented(b[..|b|]) + Zeros(0) && Zeros(0) == []
  {
    assert b[..|b|] == b;
  }

  lemma CarryEnds()
    ensures Incremented([]) == []
  {
  }

  /** One byte of the carry: it stops here, or a zero joins the zeros behind. */
  lemma CarryStep(b: seq<Byte>, i: nat)
    requires i < |b|
    ensures b[i] < 255 ==> Incremented(b[..i + 1]) == b[..i] + [b[i] + 1]
    ensures b[i] == 255 ==> Incremented(b[..i + 1]) + Zeros(|b| - 1 - i) == Incremented(b[..i]) + Zeros(|b| - i)
    ensures [0] + Zeros(|b| - 1 - i) == Zeros(|b| - i) && |Zeros(|b| - 1 - i)| == |b| - 1 - i
    ensures forall p: seq<Byte> :: p + [0] + Zeros(|b| - 1 - i) == p + Zeros(|b| - i)
  {
    assert b[..i + 1][..i] == b[..i];
    assert [0] + Zeros(|b| - 1 - i) == Zeros(|b| - i);
  }
}

/** The tier-2 address block and the order in which the cursor hands its addresses out. */
module AddressSpace {
  import opened Wrappers

  const TOP := 0x1_0000_0000_0000_0000_0000_0000_0000_0000
  const V4_START := 0xffff_0000_0000
  const V4_END := 0x1_0000_0000_0000
  const FIRST_PORT := 10000
  const LAST_PORT := 65535

  /** Whether an address is written as IPv4. */
  predicate IsV4(ip: int) { V4_START <= ip < V4_END }

  /** A CIDR block: `size` addresses from the aligned `base` (section 3.1 of RFC 4632). */
  datatype Block = Block(base: nat, size: nat)

  predicate ValidBlock(b: Block) {
    && b.size > 0 && b.base % b.size == 0 && b.base + b.size <= TOP
    && (IsV4(b.base) ==> b.base + b.size <= V4_END)
  }

  /** `IPNet.Contains`: the same family and the same prefix. */
  predicate Contains(b: Block, ip: int)
    requires ValidBlock(b)
  {
    IsV4(ip) == IsV4(b.base) && ip / b.size == b.base / b.size
  }

  lemma SamePrefix(b: Block, ip: int)
    requires ValidBlock(b)
    ensures ip / b.size == b.base / b.size <==> b.base <= ip < b.base + b.size
  {
    var q, r := ip / b.size, ip % b.size;
    var p := b.base / b.size;
    assert ip == b.size * q + r && b.base == b.size * p;
    if q < p { Stretch(b.size, q + 1, p); }
    if q > p { Stretch(b.size, p + 1, q); }
  }

  lemma Stretch(n: nat, a: int, c: int)
    requires a <= c
    ensures n * a <= n * c
  {
  }

  /** How many addresses the increment walks through before it leaves the block. */
  function Reach(b: Block): nat
    requires ValidBlock(b)
  {
    if b.base < V4_START < b.base + b.size then V4_START - b.base else b.size
  }

  function NextIp(ip: nat): nat { if ip + 1 == TOP then 0 else ip + 1 }

  /** The increment stays in the block for exactly `Reach` addresses. */
  lemma ReachMeaning(b: Block, d: nat)
    requires ValidBlock(b) && d < Reach(b)
    ensures Contains(b, b.base + d)
    ensures Contains(b, NextIp(b.base + d)) <==> d + 1 < Reach(b)
    ensures b.base + Reach(b) <= TOP
  {
    SamePrefix(b, b.base + d);
    SamePrefix(b, NextIp(b.base + d));
  }

  datatype Addr = Addr(ip: nat, port: int)

  /** How many addresses the cursor can hand out: port 10000 only on the first IP. */
  function Capacity(b: Block): nat
    requires ValidBlock(b)
  {
    55536 + (Reach(b) - 1) * 55535
  }

  /** The k-th address of the cursor. */
  function Nth(b: Block, k: nat): Addr {
    if k < 55536 then Addr(b.base, FIRST_PORT + k)
    else Addr(b.base + 1 + (k - 55536) / 55535, FIRST_PORT + 1 + (k - 55536) % 55535)
  }

  lemma NthInjective(b: Block, j: nat, k: nat)
    requires Nth(b, j) == Nth(b, k)
    ensures j == k
  {
  }

  /** Where the k-th address lies. */
  lemma NthInside(b: Block, k: nat)
    requires ValidBlock(b) && k < Capacity(b)
    ensures var a := Nth(b, k);
            && b.base <= a.ip < b.base + Reach(b) && 10000 <= a.port <= 65535
            && (k == 0 <==> a == Addr(b.base, 10000))
            && (k + 1 == Capacity(b) <==> a == Addr(b.base + Reach(b) - 1, 65535))
  {
    assert Reach(b) >= 1;
  }

  /** The address after the k-th: the next port, or the second port of the next IP. */
  lemma NthNext(b: Block, k: nat)
    ensures var a := Nth(b, k);
            Nth(b, k + 1) == if a.port == 65535 then Addr(a.ip + 1, 10001) else Addr(a.ip, a.port + 1)
  {
  }

  // ---------------------------------------------------------------------------------
  // The scan

  /** The first address at or after the k-th that is not used. */
  function FirstFree(b: Block, used: set<Addr>, k: nat): Option<nat>
    requires ValidBlock(b) && k <= Capacity(b)
    decreases Capacity(b) - k
  {
    if k == Capacity(b) then None
    else if Nth(b, k) !in used then Some(k)
    else FirstFree(b, used, k + 1)
  }

  lemma {:induction false} FirstFreeMeaning(b: Block, used: set<Addr>, k: nat)
    requires ValidBlock(b) && k <= Capacity(b)
    ensures match FirstFree(b, used, k)
            case Some(r) => k <= r < Capacity(b) && Nth(b, r) !in used && forall j | k <= j < r :: Nth(b, j) in used
            case None => forall j | k <= j < Capacity(b) :: Nth(b, j) in used
    decreases Capacity(b) - k
  {
    hide Nth, Capacity;
    if k < Capacity(b) { FirstFreeMeaning(b, used, k + 1); }
  }

  /** The addresses a fresh cursor has handed out after `n` allocations. */
  function FirstAddresses(b: Block, n: nat): set<Addr> { set k | 0 <= k < n :: Nth(b, k) }

  /** From a fresh start, allocation number `n` gets the n-th address; past the capacity there is none. */
  lemma NextFromFresh(b: Block, n: nat)
    requires ValidBlock(b) && n <= Capacity(b)
    ensures FirstFree(b, FirstAddresses(b, n), if n == 0 then 0 else n - 1) ==
            if n < Capacity(b) then Some(n) else None
  {
    hide Nth, Capacity;
    var used := FirstAddresses(b, n);
    if n < Capacity(b) {
      assert Nth(b, n) !in used by {
        forall j | 0 <= j < n ensures Nth(b, j) != Nth(b, n) {
          if Nth(b, j) == Nth(b, n) { NthInjective(b, j, n); }
        }
      }
    }
    assert n > 0 ==> Nth(b, n - 1) in used;
    FirstFreeMeaning(b, used, n);
  }

  /** What `n` allocations from a fresh start return. */
  function Outcomes(b: Block, n: nat): (r: (seq<Option<Addr>>, set<Addr>, nat))
    requires ValidBlock(b)
    ensures r.2 < Capacity(b)
  {
    if n == 0 then
      assert Capacity(b) >= 1;
      ([], {}, 0)
    else
      var (results, used, k) := Outcomes(b, n - 1);
      FirstFreeMeaning(b, used, k);
      match FirstFree(b, used, k)
      case Some(j) => (results + [Some(Nth(b, j))], used + {Nth(b, j)}, j)
      case None => (results + [None], used, Capacity(b) - 1)
  }

  /** Exactly `Capacity` allocations succeed, with pairwise different addresses, and no later one. */
  lemma {:induction false} CapacityExact(b: Block, n: nat)
    requires ValidBlock(b)
    ensures var (results, used, k) := Outcomes(b, n);
            && |results| == n
            && (forall i | 0 <= i < n :: results[i] == if i < Capacity(b) then Some(Nth(b, i)) else None)
            && (n <= Capacity(b) ==> used == FirstAddresses(b, n) && k == if n == 0 then 0 else n - 1)
            && (n > Capacity(b) ==> used == FirstAddresses(b, Capacity(b)) && k == Capacity(b) - 1)
  {
    hide Nth, Capacity;
    if n > 0 {
      CapacityExact(b, n - 1);
      var m := if n - 1 <= Capacity(b) then n - 1 else Capacity(b);
      NextFromFresh(b, m);
      assert FirstAddresses(b, m) + {Nth(b, m)} == FirstAddresses(b, m + 1);
    } else {
      assert FirstAddresses(b, 0) == {};
    }
  }

  lemma DistinctAddresses(b: Block)
    requires ValidBlock(b)
    ensures |FirstAddresses(b, Capacity(b))| == Capacity(b)
  {
    FirstCount(b, Capacity(b));
  }

  lemma {:induction false} FirstCount(b: Block, n: nat)
    ensures |FirstAddresses(b, n)| == n
  {
    hide Nth;
    if n > 0 {
      FirstCount(b, n - 1);
      forall j | 0 <= j < n - 1 ensures Nth(b, j) != Nth(b, n - 1) {
        if Nth(b, j) == Nth(b, n - 1) { NthInjective(b, j, n - 1); }
      }
      assert FirstAddresses(b, n) == FirstAddresses(b, n - 1) + {Nth(b, n - 1)};
    }
  }
}

/** `tier2VSInfo`: used addresses, reaped addresses, and the cursor. */
module Allocators {
  import opened Wrappers
  import opened Addresses
  import opened AddressSpace

  lemma SixteenBytes()
    ensures Pow256(16) == TOP
  {
    assert Pow256(4) == 0x1_0000_0000;
    assert Pow256(8) == 0x1_0000_0000 * Pow256(4);
    assert Pow256(12) == 0x1_0000_0000 * Pow256(8);
    assert Pow256(16) == 0x1_0000_0000 * Pow256(12);
  }

  /** The slice after its first element has been overwritten by its last. */
  function TakeFirst<T>(s: seq<T>): seq<T>
    requires s != []
  {
    s[0 := s[|s| - 1]][..|s| - 1]
  }

  class Tier2 {
    const block: Block
    var holderIP: array<Byte>
    var holderPort: int
    var used: set<Addr>
    var reaped: seq<Addr>
    ghost var k: nat

    constructor (block: Block, ip: array<Byte>)
      requires ValidBlock(block) && ip.Length == 16 && Value(ip[..]) == block.base
      ensures Valid() && this.block == block && used == {} && reaped == [] && k == 0
    {
      this.block := block;
      holderIP, holderPort := ip, FIRST_PORT;
      used, reaped, k := {}, [], 0;
    }

    function Cursor(): Addr
      reads this`holderIP, this`holderPort, holderIP
    {
      Addr(Value(holderIP[..]), holderPort)
    }

    /** The cursor is at the k-th address of the block. */
    ghost predicate Valid()
      reads this`holderIP, this`holderPort, this`k, holderIP
    {
      ValidBlock(block) && holderIP.Length == 16 && k < Capacity(block) && Cursor() == Nth(block, k)
    }

    /** `incrementHolderIP`: one address on, or an error exactly at the end of the block. */
    method IncrementHolderIP() returns (ok: bool)
      requires ValidBlock(block) && holderIP.Length == 16
      requires block.base <= Value(holderIP[..]) < block.base + Reach(block)
      modifies this`holderIP
      ensures ok <==> old(Value(holderIP[..])) + 1 < block.base + Reach(block)
      ensures if ok then holderIP.Length == 16 && Value(holderIP[..]) == old(Value(holderIP[..])) + 1
              else holderIP == old(holderIP)
    {
      hide Contains, Value, Pow256, Reach;
      var ipCopy := Increment(holderIP);
      SixteenBytes();
      IncrementedValue(holderIP[..]);
      ReachMeaning(block, Value(holderIP[..]) - block.base);
      ok := Contains(block, Value(ipCopy[..]));
      if ok { holderIP := ipCopy; }
    }

    /** `getAvailableVirtualAddress`: a reaped address, or the first free one from the cursor on. */
    method GetAvailable() returns (r: Option<Addr>)
      requires Valid()
      modifies this`holderIP, this`holderPort, this`used, this`reaped, this`k
      ensures Valid()
      ensures old(reaped) != [] ==>
                r == Some(old(reaped)[0]) && reaped == TakeFirst(old(reaped)) && used == old(used) && k == old(k)
      ensures old(reaped) == [] ==>
                && reaped == []
                && match FirstFree(block, old(used), old(k))
                   case Some(j) => r == Some(Nth(block, j)) && used == old(used) + {Nth(block, j)} && k == j
                   case None => r == None && used == old(used) && k == Capacity(block) - 1
    {
      if reaped != [] {
        r := Some(reaped[0]);
        reaped := TakeFirst(reaped);
        return;
      }
      r := ScanFree();
    }

    method ScanFree() returns (r: Option<Addr>)
      requires Valid()
      modifies this`holderIP, this`holderPort, this`used, this`k
      ensures Valid()
      ensures match FirstFree(block, old(used), old(k))
              case Some(j) => r == Some(Nth(block, j)) && used == old(used) + {Nth(block, j)} && k == j
              case None => r == None && used == old(used) && k == Capacity(block) - 1
    {
      hide Capacity, Nth, Reach, Value, ValidBlock;
      var va := Cursor();
      var found := va in used;
      ghost var skipped := false;
      while found
        invariant used == old(used) && ValidBlock(block) && holderIP.Length == 16 && k < Capacity(block)
        invariant if skipped then Skipped() && found else Cursor() == va == Nth(block, k)
        invariant !skipped ==> found == (va in used)
        invariant FirstFree(block, used, old(k)) == FirstFree(block, used, if skipped then k + 1 else k)
        decreases Capacity(block) - k, if skipped then 0 else 1
      {
        NthInside(block, k);
        NthNext(block, k);
        if holderPort == 65535 {
          var ok := IncrementHolderIP();
          if !ok { return None; }
          holderPort := 10000;
          skipped := true;
        } else {
          holderPort := holderPort + 1;
          va := Cursor();
          found := va in used;
          k, skipped := k + 1, false;
        }
      }
      used := used + {va};
      r := Some(va);
    }

    /** The cursor has moved to port 10000 of the next IP, which it will not look at. */
    ghost predicate Skipped()
      reads this, holderIP
    {
      && ValidBlock(block) && k + 1 < Capacity(block) && holderPort == FIRST_PORT
      && Nth(block, k + 1) == Addr(Value(holderIP[..]), FIRST_PORT + 1)
    }
  }
}
