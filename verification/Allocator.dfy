/**
  Picking a free block (allocateSubnet in pkg/subnet/etcd/local_manager.go).  The scan steps a 32-bit
  address past the upper bound with wrapping addition, so it is modelled step by step: exactly when it
  ends, what it has collected then, and exactly when that is what the range has to offer.
 */
module Allocator {
  import opened Ip4
  import opened NetworkConfig

  /** The scan collects at most this many candidates. */
  const LIMIT := 100

  predicate Taken(sn: Net, leases: seq<Net>)
  {
    exists i :: 0 <= i < |leases| && sn.Overlaps(leases[i])
  }

  /** The free blocks from an address up to the bound, in order and without wrap-around. */
  function FreeFrom(ip: nat, max: Addr, len: PrefixLen, leases: seq<Net>): seq<nat>
    decreases max + 1 - ip
  {
    if ip > max then []
    else (if Taken(Net(ip, len), leases) then [] else [ip]) + FreeFrom(ip + Pow2(32 - len), max, len, leases)
  }

  /** The list of free blocks holds exactly the aligned addresses of the range that overlap no lease. */
  lemma {:induction false} FreeFromIs(ip: nat, max: Addr, len: PrefixLen, leases: seq<Net>, b: nat)
    requires Aligned(ip, len)
    ensures b in FreeFrom(ip, max, len, leases) <==>
              Aligned(b, len) && ip <= b <= max && !Taken(Net(b, len), leases)
    decreases max + 1 - ip
  {
    hide Pow2, Shl32, BitAnd, Taken, RunStart;
    if ip <= max {
      var rest := FreeFrom(ip + Pow2(32 - len), max, len, leases);
      var head := if Taken(Net(ip, len), leases) then [] else [ip];
      assert b in head + rest <==> b in head || b in rest;
      NextRun(ip, 32 - len);
      FreeFromIs(ip + Pow2(32 - len), max, len, leases, b);
      if Aligned(b, len) && ip < b { RunsApart(ip, b, 32 - len); }
    }
  }

  /** isSubnetConfigCompat: the address lies between the bounds and the length is the configured one. */
  predicate Compatible(min: Addr, max: Addr, len: nat, sn: Net)
  {
    min <= sn.ip <= max && sn.len == len
  }

  method OverlapsAny(sn: Net, leases: seq<Net>) returns (taken: bool)
    ensures taken <==> Taken(sn, leases)
  {
    for i := 0 to |leases|
      invariant forall j :: 0 <= j < i ==> !sn.Overlaps(leases[j])
    {
      if sn.Overlaps(leases[i]) { return true; }
    }
    return false;
  }

  /** When the scan cannot run past the range: it ends below the top block, or fills up before its end. */
  predicate ScanIsBounded(min: Addr, max: Addr, len: PrefixLen, leases: seq<Net>)
  {
    max + Pow2(32 - len) < 0x1_0000_0000 || |FreeFrom(min, max, len, leases)| >= LIMIT
  }

  lemma FreeFromStep(ip: Addr, max: Addr, len: PrefixLen, leases: seq<Net>, free: seq<nat>)
    requires ip <= max && free == FreeFrom(ip, max, len, leases)
    ensures Taken(Net(ip, len), leases) ==> FreeFrom(ip + Pow2(32 - len), max, len, leases) == free
    ensures !Taken(Net(ip, len), leases) ==>
      free != [] && free[0] == ip && FreeFrom(ip + Pow2(32 - len), max, len, leases) == free[1..]
  {
  }

  function Limited(s: seq<nat>): seq<nat>
  {
    if |s| <= LIMIT then s else s[..LIMIT]
  }

  /** The first free blocks of the range, as many as the scan collects. */
  function Candidates(min: Addr, max: Addr, len: PrefixLen, leases: seq<Net>): seq<nat>
  {
    Limited(FreeFrom(min, max, len, leases))
  }

  /** One size past a block of the range is the next address, or wraps to zero from the top block. */
  lemma NextBlock(ip: Addr, max: Addr, len: nat)
    requires 0 < len <= 32 && ip <= max && Aligned(ip, len)
    ensures var size := Pow2(32 - len);
      && size > 0 && Aligned(ip + size, len) && ip + size <= 0x1_0000_0000
      && (ip + size < 0x1_0000_0000 ==> Net(ip, len).Next() == Net(ip + size, len))
      && (ip + size == 0x1_0000_0000 ==> Net(ip, len).Next() == Net(0, len))
  {
    var n := Net(ip, len);
    NextRun(ip, 32 - len);
    MaskValue(n);
    ContainsIffInBlock(n, ip);
  }

  lemma RangeFree(min: Addr, max: Addr, len: nat, leases: seq<Net>)
    requires len <= 32 && Aligned(min, len)
    ensures FreeFrom(min, max, len, leases) == [] <==> RangeFull(min, max, len, leases)
  {
    var free := FreeFrom(min, max, len, leases);
    if free == [] {
      forall a: Addr | Aligned(a, len) && min <= a <= max
        ensures Taken(Net(a, len), leases)
      {
        FreeFromIs(min, max, len, leases, a);
      }
    } else {
      FreeFromIs(min, max, len, leases, free[0]);
    }
  }

  // ---------------------------------------------------------------------------------------------
  // The scan as a run, including the runs that leave the range

  datatype Scan = Scan(sn: Net, available: seq<nat>)

  predicate Running(s: Scan, max: Addr)
  {
    s.sn.ip <= max && |s.available| < LIMIT
  }

  function Step(s: Scan, leases: seq<Net>): Scan
  {
    Scan(s.sn.Next(), if Taken(s.sn, leases) then s.available else s.available + [s.sn.ip])
  }

  /** The state after n more iterations, or where the loop stopped before that. */
  function After(s: Scan, max: Addr, leases: seq<Net>, n: nat): Scan
    decreases n
  {
    if n == 0 || !Running(s, max) then s else After(Step(s, leases), max, leases, n - 1)
  }

  /** Every block the scan looks at lies in the configured range. */
  ghost predicate ScansOnlyRange(min: Addr, max: Addr, len: PrefixLen, leases: seq<Net>)
  {
    forall n: nat :: var s := After(Scan(Net(min, len), []), max, leases, n); Running(s, max) ==> min <= s.sn.ip
  }

  lemma {:induction false} BoundedScanStays(min: Addr, ip: Addr, max: Addr, len: nat, leases: seq<Net>,
                                            avail: seq<nat>, n: nat)
    requires 0 < len <= 32 && min <= ip && Aligned(ip, len)
    requires max + Pow2(32 - len) < 0x1_0000_0000 || |avail| + |FreeFrom(ip, max, len, leases)| >= LIMIT
    ensures var s := After(Scan(Net(ip, len), avail), max, leases, n); Running(s, max) ==> min <= s.sn.ip
    decreases n
  {
    var s := Scan(Net(ip, len), avail);
    if n > 0 && Running(s, max) {
      var size := Pow2(32 - len);
      NextBlock(ip, max, len);
      var s' := Step(s, leases);
      if ip + size < 0x1_0000_0000 {
        BoundedScanStays(min, ip + size, max, len, leases, s'.available, n - 1);
      } else {
        assert !Running(s', max);
      }
    }
  }

  /** So whatever a scan short of the top has collected lies in the range, at any time. */
  lemma {:induction false} CollectsWithin(min: Addr, ip: Addr, max: Addr, len: nat, leases: seq<Net>,
                                          avail: seq<nat>, n: nat)
    requires 0 < len <= 32 && min <= ip && Aligned(ip, len) && AllWithin(avail, min, max)
    requires max + Pow2(32 - len) < 0x1_0000_0000
    ensures AllWithin(After(Scan(Net(ip, len), avail), max, leases, n).available, min, max)
    decreases n
  {
    hide Taken, RunStart, Pow2, Shl32;
    var s := Scan(Net(ip, len), avail);
    if n > 0 && Running(s, max) {
      NextBlock(ip, max, len);
      AfterStep(s, max, leases, n - 1);
      CollectsWithin(min, ip + Pow2(32 - len), max, len, leases, Step(s, leases).available, n - 1);
    }
  }

  lemma AfterStep(s: Scan, max: Addr, leases: seq<Net>, n: nat)
    requires Running(s, max)
    ensures After(s, max, leases, n + 1) == After(Step(s, leases), max, leases, n)
  {
  }

  lemma FreeFromPast(ip: nat, max: Addr, len: PrefixLen, leases: seq<Net>)
    requires ip > max
    ensures FreeFrom(ip, max, len, leases) == []
  {
  }

  /** Too few free blocks below the top: the scan wraps around to address zero and goes on. */
  lemma {:induction false} ScanWraps(ip: Addr, max: Addr, len: nat, leases: seq<Net>, avail: seq<nat>)
    requires 0 < len <= 32 && ip <= max && Aligned(ip, len)
    requires max + Pow2(32 - len) == 0x1_0000_0000 && Aligned(max, len)
    requires |avail| + |FreeFrom(ip, max, len, leases)| < LIMIT
    ensures After(Scan(Net(ip, len), avail), max, leases, |Blocks(ip, max, Pow2(32 - len))|)
         == Scan(Net(0, len), avail + FreeFrom(ip, max, len, leases))
    decreases max - ip
  {
    hide Pow2, Shl32, BitAnd, Taken, RunStart, FreeFrom;
    var size := Pow2(32 - len);
    NextBlock(ip, max, len);
    var s := Scan(Net(ip, len), avail);
    var s' := Step(s, leases);
    var n := |Blocks(ip + size, max, size)|;
    var free, rest := FreeFrom(ip, max, len, leases), FreeFrom(ip + size, max, len, leases);
    FreeFromStep(ip, max, len, leases, free);
    assert s'.available + rest == avail + free by {
      if !Taken(Net(ip, len), leases) { assert free == [ip] + rest; }
    }
    AfterStep(s, max, leases, n);
    if ip < max {
      RunsApart(ip, max, 32 - len);
      ScanWraps(ip + size, max, len, leases, s'.available);
    } else {
      FreeFromPast(ip + size, max, len, leases);
    }
  }

  /** The scan keeps to the range of an accepted configuration exactly when it is bounded. */
  lemma ScansOnlyRangeIff(c: Config, leases: seq<Net>)
    requires c.Ready()
    ensures ScansOnlyRange(c.subnetMin, c.subnetMax, c.subnetLen, leases)
       <==> ScanIsBounded(c.subnetMin, c.subnetMax, c.subnetLen, leases)
  {
    hide Pow2, Shl32, BitAnd, Taken, RunStart, Blocks, FreeFrom;
    var min, max, len := c.subnetMin, c.subnetMax, c.subnetLen;
    var s := Scan(Net(min, len), []);
    if ScanIsBounded(min, max, len, leases) {
      forall n: nat
        ensures var t := After(s, max, leases, n); Running(t, max) ==> min <= t.sn.ip
      {
        BoundedScanStays(min, min, max, len, leases, [], n);
      }
    } else {
      TopBound(c);
      ScanWraps(min, max, len, leases, []);
      var n := |Blocks(min, max, Pow2(32 - len))|;
      var t := After(s, max, leases, n);
      assert [] + FreeFrom(min, max, len, leases) == FreeFrom(min, max, len, leases);
      assert Running(t, max) && t.sn.ip == 0 < min;
    }
  }

  /** A bound whose block ends the address space: the network lies in the upper half, away from zero. */
  lemma TopBound(c: Config)
    requires c.Ready() && c.subnetMax + Pow2(32 - c.subnetLen) >= 0x1_0000_0000
    ensures c.subnetMax + Pow2(32 - c.subnetLen) == 0x1_0000_0000 && 0 < c.subnetMin <= c.subnetMax
  {
    Pow2Word();
    Pow2Mono(32 - c.subnetLen, 32);
    EndsWithin(c.subnetMax, c.subnetLen);
    NonEmptyHasPrefix(c.network);
    AwayFromZero(c.network, c.subnetMax);
    TopIsLargest(c.subnetMin, c.subnetMax, c.subnetLen);
  }

  lemma TopIsLargest(a: Addr, max: Addr, len: nat)
    requires len <= 32 && Aligned(a, len) && Aligned(max, len) && max + Pow2(32 - len) == 0x1_0000_0000
    ensures a <= max
  {
    if a > max { RunsApart(max, a, 32 - len); }
  }

  lemma EndsWithin(a: Addr, len: nat)
    requires len <= 32 && Aligned(a, len)
    ensures a + Pow2(32 - len) <= 0x1_0000_0000
  {
    ContainsIffInBlock(Net(a, len), a);
  }

  /** A network holding an address of the upper half, but not the whole space, does not hold zero. */
  lemma AwayFromZero(network: Net, a: Addr)
    requires network.len > 0 && Inside(network, a) && a >= 0x8000_0000
    ensures network.First() > 0
  {
    Pow2Word();
    Pow2Mono(network.Bits(), 32);
  }

  /** With the bound at the top and every block of the address space leased, the loop never stops. */
  lemma {:induction false} ScanNeverEnds(ip: Addr, max: Addr, len: nat, leases: seq<Net>, n: nat)
    requires 0 < len <= 32 && Aligned(ip, len) && Aligned(max, len) && max + Pow2(32 - len) == 0x1_0000_0000
    requires forall a: Addr :: Aligned(a, len) ==> Taken(Net(a, len), leases)
    ensures Running(After(Scan(Net(ip, len), []), max, leases, n), max)
    decreases n
  {
    TopIsLargest(ip, max, len);
    if n > 0 {
      NextBlock(ip, max, len);
      AlignedZero(len);
      ScanNeverEnds(Net(ip, len).Next().ip, max, len, leases, n - 1);
      assert Step(Scan(Net(ip, len), []), leases) == Scan(Net(ip, len).Next(), []);
    }
  }

  lemma AlignedZero(len: nat)
    requires len <= 32
    ensures Aligned(0, len)
  {
    ShrZero(32 - len);
  }

  // ---------------------------------------------------------------------------------------------
  // When the scan ends, and with what

  ghost predicate Ends(min: Addr, max: Addr, len: PrefixLen, leases: seq<Net>)
  {
    exists n: nat :: StopsAt(Scan(Net(min, len), []), max, leases, n)
  }

  predicate StopsAt(s: Scan, max: Addr, leases: seq<Net>, n: nat)
  {
    !Running(After(s, max, leases, n), max)
  }

  /** What the scan has collected when it ends. */
  ghost function Collected(min: Addr, max: Addr, len: PrefixLen, leases: seq<Net>): seq<nat>
    requires Ends(min, max, len, leases)
  {
    var s := Scan(Net(min, len), []);
    var n: nat :| StopsAt(s, max, leases, n);
    After(s, max, leases, n).available
  }

  /** Aligned addresses whose blocks overlap no lease. */
  ghost predicate AllFree(s: seq<nat>, len: PrefixLen, leases: seq<Net>)
  {
    forall b :: b in s ==> b < 0x1_0000_0000 && Aligned(b, len) && !Taken(Net(b, len), leases)
  }

  /** Some block of the address space is free, in the range or not. */
  ghost predicate SomeFree(len: PrefixLen, leases: seq<Net>)
  {
    exists a: Addr :: Aligned(a, len) && !Taken(Net(a, len), leases)
  }

  ghost predicate CanEnd(max: Addr, len: PrefixLen, leases: seq<Net>)
  {
    max + Pow2(32 - len) < 0x1_0000_0000 || SomeFree(len, leases)
  }

  lemma {:induction false} AfterMore(s: Scan, max: Addr, leases: seq<Net>, n: nat, m: nat)
    ensures After(s, max, leases, n + m) == After(After(s, max, leases, n), max, leases, m)
    decreases n
  {
    hide Taken;
    if n > 0 && Running(s, max) {
      AfterMore(Step(s, leases), max, leases, n - 1, m);
    } else if !Running(s, max) {
      AfterStopped(s, max, leases, n + m);
    }
  }

  lemma AfterStopped(s: Scan, max: Addr, leases: seq<Net>, n: nat)
    requires !Running(s, max)
    ensures After(s, max, leases, n) == s
  {
  }

  /** Where the scan stops does not depend on how long one waits. */
  lemma StopsOnce(s: Scan, max: Addr, leases: seq<Net>, n: nat, m: nat)
    requires StopsAt(s, max, leases, n) && StopsAt(s, max, leases, m)
    ensures After(s, max, leases, n) == After(s, max, leases, m)
  {
    hide Running, After;
    if n <= m {
      AfterMore(s, max, leases, n, m - n);
      AfterStopped(After(s, max, leases, n), max, leases, m - n);
    } else {
      AfterMore(s, max, leases, m, n - m);
      AfterStopped(After(s, max, leases, m), max, leases, n - m);
    }
  }

  lemma CollectedIs(min: Addr, max: Addr, len: PrefixLen, leases: seq<Net>, n: nat)
    requires StopsAt(Scan(Net(min, len), []), max, leases, n)
    ensures Ends(min, max, len, leases)
    ensures Collected(min, max, len, leases) == After(Scan(Net(min, len), []), max, leases, n).available
  {
    hide Running, After;
    var s := Scan(Net(min, len), []);
    var m: nat :| StopsAt(s, max, leases, m) && Collected(min, max, len, leases) == After(s, max, leases, m).available;
    StopsOnce(s, max, leases, n, m);
  }

  /** A scan that cannot run past the range stops with the first free blocks it has met. */
  lemma {:induction false} ScanFills(ip: Addr, max: Addr, len: nat, leases: seq<Net>, avail: seq<nat>) returns (n: nat)
    requires 0 < len <= 32 && Aligned(ip, len) && |avail| <= LIMIT
    requires max + Pow2(32 - len) < 0x1_0000_0000 || |avail| + |FreeFrom(ip, max, len, leases)| >= LIMIT
    ensures StopsAt(Scan(Net(ip, len), avail), max, leases, n)
    ensures After(Scan(Net(ip, len), avail), max, leases, n).available
      == Limited(avail + FreeFrom(ip, max, len, leases))
    decreases max + 1 - ip
  {
    hide Pow2, Shl32, BitAnd, Taken, RunStart, FreeFrom;
    var s, free := Scan(Net(ip, len), avail), FreeFrom(ip, max, len, leases);
    if ip > max {
      FreeFromPast(ip, max, len, leases);
      n := 0;
    } else if |avail| >= LIMIT {
      n := 0;
    } else {
      var size, s' := Pow2(32 - len), Step(s, leases);
      NextBlock(ip, max, len);
      FreeFromStep(ip, max, len, leases, free);
      var rest := FreeFrom(ip + size, max, len, leases);
      assert s'.available + rest == avail + free by {
        if !Taken(Net(ip, len), leases) { assert free == [ip] + rest; }
      }
      if ip + size < 0x1_0000_0000 {
        var m := ScanFills(ip + size, max, len, leases, s'.available);
        n := m + 1;
        AfterStep(s, max, leases, m);
      } else {
        FreeFromPast(ip + size, max, len, leases);
        n := 1;
        AfterStep(s, max, leases, 0);
      }
    }
  }

  /** From address zero on, lap by lap, with some block free: the scan ends, having met the first free one. */
  lemma {:induction false} LapsEnd(max: Addr, len: nat, leases: seq<Net>, avail: seq<nat>) returns (n: nat)
    requires 0 < len <= 32 && Aligned(max, len) && max + Pow2(32 - len) == 0x1_0000_0000 && |avail| < LIMIT
    requires FreeFrom(0, max, len, leases) != []
    ensures StopsAt(Scan(Net(0, len), avail), max, leases, n)
    ensures var all := After(Scan(Net(0, len), avail), max, leases, n).available;
      && FreeFrom(0, max, len, leases)[0] in all
      && forall b :: b in all ==> b in avail || b in FreeFrom(0, max, len, leases)
    decreases LIMIT - |avail|
  {
    hide Pow2, Shl32, BitAnd, Taken, RunStart, FreeFrom, After, Running, Blocks;
    var free := FreeFrom(0, max, len, leases);
    AlignedZero(len);
    if |avail| + |free| >= LIMIT {
      n := ScanFills(0, max, len, leases, avail);
      assert Limited(avail + free)[|avail|] == free[0];
    } else {
      ScanWraps(0, max, len, leases, avail);
      var lap := |Blocks(0, max, Pow2(32 - len))|;
      var m := LapsEnd(max, len, leases, avail + free);
      n := lap + m;
      AfterMore(Scan(Net(0, len), avail), max, leases, lap, m);
    }
  }

  /** The first free block from an address on is the least of them. */
  lemma {:induction false} FirstFreeIsLeast(ip: nat, max: Addr, len: PrefixLen, leases: seq<Net>, b: nat)
    requires b in FreeFrom(ip, max, len, leases)
    ensures ip <= FreeFrom(ip, max, len, leases)[0] <= b
    decreases max + 1 - ip
  {
    hide Taken, Pow2;
    var rest := FreeFrom(ip + Pow2(32 - len), max, len, leases);
    if b in rest { FirstFreeIsLeast(ip + Pow2(32 - len), max, len, leases, b); }
  }

  /** The free blocks of the address space, when the range ends at its top. */
  lemma FreeFromZero(max: Addr, len: nat, leases: seq<Net>, b: nat)
    requires len <= 32 && Aligned(max, len) && max + Pow2(32 - len) == 0x1_0000_0000
    ensures b in FreeFrom(0, max, len, leases) <==> b < 0x1_0000_0000 && Aligned(b, len) && !Taken(Net(b, len), leases)
  {
    hide Taken, FreeFrom;
    AlignedZero(len);
    FreeFromIs(0, max, len, leases, b);
    if b < 0x1_0000_0000 && Aligned(b, len) { TopIsLargest(b, max, len); }
  }

  /** An unbounded scan that ends: what it collects, and that the first free block of all is part of it. */
  lemma UnboundedCollects(c: Config, leases: seq<Net>, a: Addr)
    requires c.Ready() && !ScanIsBounded(c.subnetMin, c.subnetMax, c.subnetLen, leases)
    requires Aligned(a, c.subnetLen) && !Taken(Net(a, c.subnetLen), leases)
    ensures Ends(c.subnetMin, c.subnetMax, c.subnetLen, leases)
    ensures var all, len := Collected(c.subnetMin, c.subnetMax, c.subnetLen, leases), c.subnetLen;
      && (exists b :: b in all && b <= a)
      && AllFree(all, len, leases)
  {
    hide Pow2, Shl32, BitAnd, Taken, RunStart, FreeFrom, After, Running, Blocks;
    var min, max, len := c.subnetMin, c.subnetMax, c.subnetLen;
    TopBound(c);
    var s, free, first := Scan(Net(min, len), []), FreeFrom(0, max, len, leases), FreeFrom(min, max, len, leases);
    FreeFromZero(max, len, leases, a);
    FirstFreeIsLeast(0, max, len, leases, a);
    ScanWraps(min, max, len, leases, []);
    assert [] + first == first;
    var lap := |Blocks(min, max, Pow2(32 - len))|;
    var m := LapsEnd(max, len, leases, first);
    AfterMore(s, max, leases, lap, m);
    CollectedIs(min, max, len, leases, lap + m);
    var all := Collected(min, max, len, leases);
    forall b | b in all ensures b < 0x1_0000_0000 && Aligned(b, len) && !Taken(Net(b, len), leases) {
      FreeFromZero(max, len, leases, b);
      FreeFromIs(min, max, len, leases, b);
    }
    assert free[0] in all && free[0] <= a;
  }

  /** A bounded scan ends with the first free blocks of the range. */
  lemma BoundedCollects(min: Addr, max: Addr, len: PrefixLen, leases: seq<Net>)
    requires 0 < len && Aligned(min, len) && ScanIsBounded(min, max, len, leases)
    ensures Ends(min, max, len, leases) && Collected(min, max, len, leases) == Candidates(min, max, len, leases)
    ensures var all, free := Collected(min, max, len, leases), FreeFrom(min, max, len, leases);
      all <= free && |all| == if |free| < 100 then |free| else 100
  {
    hide Pow2, Taken, RunStart, FreeFrom, After, Running;
    var n := ScanFills(min, max, len, leases, []);
    assert [] + FreeFrom(min, max, len, leases) == FreeFrom(min, max, len, leases);
    CollectedIs(min, max, len, leases, n);
  }

  /** The scan ends exactly when the range stops short of the top block or some block of the address space is free. */
  lemma EndsIff(c: Config, leases: seq<Net>)
    requires c.Ready()
    ensures Ends(c.subnetMin, c.subnetMax, c.subnetLen, leases) <==> CanEnd(c.subnetMax, c.subnetLen, leases)
  {
    hide Pow2, Shl32, BitAnd, Taken, RunStart, FreeFrom, After, Running;
    var min, max, len := c.subnetMin, c.subnetMax, c.subnetLen;
    if ScanIsBounded(min, max, len, leases) {
      BoundedCollects(min, max, len, leases);
      if !(max + Pow2(32 - len) < 0x1_0000_0000) {
        var b := FreeFrom(min, max, len, leases)[0];
        FreeFromIs(min, max, len, leases, b);
      }
    } else if SomeFree(len, leases) {
      var a: Addr :| Aligned(a, len) && !Taken(Net(a, len), leases);
      UnboundedCollects(c, leases, a);
    } else {
      TopBound(c);
      forall n: nat ensures !StopsAt(Scan(Net(min, len), []), max, leases, n) {
        ScanNeverEnds(min, max, len, leases, n);
      }
    }
  }

  // ---------------------------------------------------------------------------------------------
  // What the allocator hands out

  ghost predicate RangeFull(min: Addr, max: Addr, len: PrefixLen, leases: seq<Net>)
  {
    forall a: Addr :: Aligned(a, len) && min <= a <= max ==> Taken(Net(a, len), leases)
  }

  predicate AllWithin(s: seq<nat>, min: nat, max: nat)
  {
    forall b :: b in s ==> min <= b <= max
  }

  /** The promise: the scan ends with blocks of the range, and with none only when the range is full. */
  ghost predicate ServesRange(min: Addr, max: Addr, len: PrefixLen, leases: seq<Net>)
  {
    && Ends(min, max, len, leases)
    && AllWithin(Collected(min, max, len, leases), min, max)
    && (Collected(min, max, len, leases) == [] <==> RangeFull(min, max, len, leases))
  }

  /** The condition: the scan is bounded, or it can find free blocks in the range and none below it. */
  ghost predicate KeepsToRange(min: Addr, max: Addr, len: PrefixLen, leases: seq<Net>)
  {
    || ScanIsBounded(min, max, len, leases)
    || (&& !RangeFull(min, max, len, leases)
        && forall a: Addr :: Aligned(a, len) && a < min ==> Taken(Net(a, len), leases))
  }

  lemma BoundedServes(c: Config, leases: seq<Net>)
    requires c.Ready() && ScanIsBounded(c.subnetMin, c.subnetMax, c.subnetLen, leases)
    ensures ServesRange(c.subnetMin, c.subnetMax, c.subnetLen, leases)
  {
    BoundedCollects(c.subnetMin, c.subnetMax, c.subnetLen, leases);
    CandidatesServe(c.subnetMin, c.subnetMax, c.subnetLen, leases);
    hide Candidates, Collected, Ends, RangeFull;
  }

  lemma CandidatesServe(min: Addr, max: Addr, len: PrefixLen, leases: seq<Net>)
    requires Aligned(min, len)
    ensures AllWithin(Candidates(min, max, len, leases), min, max)
    ensures Candidates(min, max, len, leases) == [] <==> RangeFull(min, max, len, leases)
  {
    hide Taken, RunStart, FreeFrom, RangeFull;
    RangeFree(min, max, len, leases);
    forall b | b in Candidates(min, max, len, leases) ensures min <= b <= max { FreeFromIs(min, max, len, leases, b); }
  }

  /** The allocator keeps its promise exactly under that condition. */
  lemma ServesRangeIff(c: Config, leases: seq<Net>)
    requires c.Ready()
    ensures ServesRange(c.subnetMin, c.subnetMax, c.subnetLen, leases)
       <==> KeepsToRange(c.subnetMin, c.subnetMax, c.subnetLen, leases)
  {
    var min, max, len := c.subnetMin, c.subnetMax, c.subnetLen;
    if ScanIsBounded(min, max, len, leases) {
      BoundedServes(c, leases);
    } else if SomeFree(len, leases) {
      UnboundedServesIff(c, leases);
    } else {
      EndsIff(c, leases);
      hide Collected, Ends, Taken, ScanIsBounded;
    }
  }

  lemma UnboundedServesIff(c: Config, leases: seq<Net>)
    requires c.Ready() && !ScanIsBounded(c.subnetMin, c.subnetMax, c.subnetLen, leases) && SomeFree(c.subnetLen, leases)
    ensures ServesRange(c.subnetMin, c.subnetMax, c.subnetLen, leases)
       <==> KeepsToRange(c.subnetMin, c.subnetMax, c.subnetLen, leases)
  {
    var min, max, len := c.subnetMin, c.subnetMax, c.subnetLen;
    TopBound(c);
    hide Pow2, Taken, RunStart, FreeFrom, Collected, Ends, ScanIsBounded;
    if a: Addr :| Aligned(a, len) && a < min && !Taken(Net(a, len), leases) {
      UnboundedCollects(c, leases, a);
      var b :| b in Collected(min, max, len, leases) && b <= a;
    } else {
      var a: Addr :| Aligned(a, len) && !Taken(Net(a, len), leases);
      TopIsLargest(a, max, len);
      UnboundedCollects(c, leases, a);
      forall b | b in Collected(min, max, len, leases) ensures min <= b <= max { TopIsLargest(b, max, len); }
    }
  }

  /** A range that ends at the top block: with every block of the address space leased, no scan ends. */
  lemma WholeSpaceLeased(c: Config)
    requires c.Ready() && c.subnetMax + Pow2(32 - c.subnetLen) >= 0x1_0000_0000
    ensures !Ends(c.subnetMin, c.subnetMax, c.subnetLen, [Net(0, 0)])
  {
    hide Pow2, RunStart, Ends;
    var leases := [Net(0, 0)];
    forall a: Addr ensures Taken(Net(a, c.subnetLen), leases) {
      OverlapsAtShorter(Net(a, c.subnetLen), Net(0, 0));
      ContainsIffInBlock(Net(0, 0), a);
      WholeSpace();
      assert Net(a, c.subnetLen).Overlaps(leases[0]);
    }
    EndsIff(c, leases);
  }

  lemma WholeSpace()
    ensures Net(0, 0).First() == 0 && Net(0, 0).Size() == 0x1_0000_0000
  {
    ShrZero(32);
    Pow2Word();
  }

  /** Too few free blocks in such a range and block zero free: address zero, outside the network, is a candidate. */
  lemma ZeroIsCandidate(c: Config, leases: seq<Net>)
    requires c.Ready() && !ScanIsBounded(c.subnetMin, c.subnetMax, c.subnetLen, leases)
    requires !Taken(Net(0, c.subnetLen), leases)
    ensures Ends(c.subnetMin, c.subnetMax, c.subnetLen, leases)
    ensures 0 in Collected(c.subnetMin, c.subnetMax, c.subnetLen, leases) && !c.network.Contains(0)
  {
    hide Pow2, Taken, RunStart, FreeFrom, Collected, Ends, ScanIsBounded;
    AlignedZero(c.subnetLen);
    UnboundedCollects(c, leases, 0);
    var b :| b in Collected(c.subnetMin, c.subnetMax, c.subnetLen, leases) && b <= 0;
    NetworkAwayFromZero(c, leases);
    ContainsIffInBlock(c.network, 0);
  }

  lemma NetworkAwayFromZero(c: Config, leases: seq<Net>)
    requires c.Ready() && !ScanIsBounded(c.subnetMin, c.subnetMax, c.subnetLen, leases)
    ensures c.network.First() > 0
  {
    Pow2Word();
    Pow2Mono(32 - c.subnetLen, 31);
    NonEmptyHasPrefix(c.network);
    AwayFromZero(c.network, c.subnetMax);
  }

  /** Whatever is collected is aligned and free. */
  lemma {:induction false} CollectedAligned(ip: Addr, max: Addr, len: PrefixLen, leases: seq<Net>, avail: seq<nat>,
                                            n: nat)
    requires 0 < len && Aligned(ip, len) && AllFree(avail, len, leases)
    ensures AllFree(After(Scan(Net(ip, len), avail), max, leases, n).available, len, leases)
    decreases n
  {
    hide AllFree, Aligned;
    var s := Scan(Net(ip, len), avail);
    if n > 0 && Running(s, max) {
      StepFree(ip, max, len, leases, avail);
      AfterStep(s, max, leases, n - 1);
      CollectedAligned(s.sn.Next().ip, max, len, leases, Step(s, leases).available, n - 1);
      hide Step, Running, After;
    }
  }

  lemma StepFree(ip: Addr, max: Addr, len: PrefixLen, leases: seq<Net>, avail: seq<nat>)
    requires 0 < len && Aligned(ip, len) && AllFree(avail, len, leases) && ip <= max
    ensures var s := Step(Scan(Net(ip, len), avail), leases);
      Aligned(s.sn.ip, len) && s.sn.len == len && AllFree(s.available, len, leases)
  {
    hide Taken, RunStart, Pow2, Shl32;
    NextBlock(ip, max, len);
    AlignedZero(len);
  }

  /** The outer loop, on every configuration and lease list for which it ends. */
  method CollectFree(c: Config, leases: seq<Net>) returns (available: seq<Addr>)
    requires c.Ready() && CanEnd(c.subnetMax, c.subnetLen, leases)
    ensures Ends(c.subnetMin, c.subnetMax, c.subnetLen, leases)
    ensures available == Collected(c.subnetMin, c.subnetMax, c.subnetLen, leases)
    ensures AllFree(available, c.subnetLen, leases)
  {
    hide Pow2, Shl32, BitAnd, Taken, RunStart, FreeFrom, CanEnd, Ends, After;
    var max, len := c.subnetMax, c.subnetLen;
    EndsIff(c, leases);
    var sn := Net(c.subnetMin, len);
    available := [];
    ghost var s, n := Scan(sn, []), 0;
    ghost var end := EndOf(c.subnetMin, max, len, leases);
    AfterNone(s, max, leases);
    while sn.ip <= max && |available| < LIMIT
      invariant n <= end && After(s, max, leases, n) == Scan(sn, available)
      decreases end - n
    {
      var taken := OverlapsAny(sn, leases);
      AfterLast(s, max, leases, n);
      sn, available := sn.Next(), if taken then available else available + [sn.ip];
      n := n + 1;
    }
    CollectedIs(c.subnetMin, max, len, leases, n);
    CollectedAligned(c.subnetMin, max, len, leases, [], n);
  }

  /** Some number of steps after which the scan has stopped. */
  lemma EndOf(min: Addr, max: Addr, len: PrefixLen, leases: seq<Net>) returns (n: nat)
    requires Ends(min, max, len, leases)
    ensures StopsAt(Scan(Net(min, len), []), max, leases, n)
  {
    n :| StopsAt(Scan(Net(min, len), []), max, leases, n);
  }

  lemma AfterNone(s: Scan, max: Addr, leases: seq<Net>)
    ensures After(s, max, leases, 0) == s
  {
  }

  lemma AfterLast(s: Scan, max: Addr, leases: seq<Net>, n: nat)
    requires Running(After(s, max, leases, n), max)
    ensures After(s, max, leases, n + 1) == Step(After(s, max, leases, n), leases)
  {
    hide Taken, Running;
    AfterMore(s, max, leases, n, 1);
    AfterNone(Step(After(s, max, leases, n), leases), max, leases);
  }

  /**
    A block that is handed out is aligned, free and among those collected, and none is handed out exactly
    when none was collected.  Under the condition above it is a block of the range and inside the network,
    and "out of subnets" means that every block of the range overlaps a lease.  Which candidate is taken
    is left open (`randInt`).
   */
  method AllocateSubnet(c: Config, leases: seq<Net>) returns (r: Option<Net>)
    requires c.Ready() && CanEnd(c.subnetMax, c.subnetLen, leases)
    ensures Ends(c.subnetMin, c.subnetMax, c.subnetLen, leases)
    ensures r.None? <==> Collected(c.subnetMin, c.subnetMax, c.subnetLen, leases) == []
    ensures r.Some? ==>
      && r.value.len == c.subnetLen && r.value.ip in Collected(c.subnetMin, c.subnetMax, c.subnetLen, leases)
      && r.value.Canonical() && !Taken(r.value, leases)
    ensures KeepsToRange(c.subnetMin, c.subnetMax, c.subnetLen, leases) ==>
      && (r.None? <==> RangeFull(c.subnetMin, c.subnetMax, c.subnetLen, leases))
      && (r.Some? ==>
            Compatible(c.subnetMin, c.subnetMax, c.subnetLen, r.value) && c.network.ContainsCidr(r.value))
  {
    hide Taken, Collected, Ends, CanEnd, KeepsToRange, RangeFull;
    var available := CollectFree(c, leases);
    ServesRangeIff(c, leases);
    if |available| == 0 { return None; }
    var i: nat :| i < |available|;
    assert available[i] in available;
    r := Some(Net(available[i], c.subnetLen));
    if KeepsToRange(c.subnetMin, c.subnetMax, c.subnetLen, leases) {
      RangeInsideNetwork(c, available[i]);
    }
  }
}
