/**
  IPv4 addresses and blocks (pkg/ip/ipnet.go), with the bit operations of the source written out
  on unsigned 32-bit numbers.  Every predicate the source computes with masks is proved equal to a
  statement about the addresses a block holds.
 */
module Ip4 {

  type Addr = a: nat | a < 0x1_0000_0000
  type PrefixLen = p: nat | p <= 32

  datatype Option<+T> = None | Some(value: T)

  function Pow2(k: nat): (r: nat)
    ensures 1 <= r
  {
    if k == 0 then 1 else 2 * Pow2(k - 1)
  }

  /** Bitwise and of two unsigned numbers, bit by bit. */
  function BitAnd(x: nat, y: nat): nat
  {
    if x == 0 then 0
    else (if x % 2 == 1 && y % 2 == 1 then 1 else 0) + 2 * BitAnd(x / 2, y / 2)
  }

  /** Bitwise or of two unsigned numbers, bit by bit. */
  function BitOr(x: nat, y: nat): nat
    decreases x + y
  {
    if x == 0 && y == 0 then 0
    else (if x % 2 == 1 || y % 2 == 1 then 1 else 0) + 2 * BitOr(x / 2, y / 2)
  }

  /** `x >> k`: the number without its lowest k bits. */
  function Shr(x: nat, k: nat): nat
    decreases k
  {
    if k == 0 then x else Shr(x / 2, k - 1)
  }

  /** `x << k` on an unbounded number. */
  function Shl(x: nat, k: nat): nat
    decreases k
  {
    if k == 0 then x else 2 * Shl(x, k - 1)
  }

  /** 32-bit unsigned addition: the carry out of the word is lost. */
  function Add32(x: Addr, y: Addr): Addr
  {
    if x + y < 0x1_0000_0000 then x + y else x + y - 0x1_0000_0000
  }

  /** 32-bit unsigned subtraction: a borrow wraps around. */
  function Sub32(x: Addr, y: Addr): Addr
  {
    if x >= y then x - y else x - y + 0x1_0000_0000
  }

  /** `x << k` on a 32-bit unsigned number: the bits shifted out are lost. */
  function Shl32(x: Addr, k: nat): Addr
    decreases k
  {
    if k == 0 then x else Add32(Shl32(x, k - 1), Shl32(x, k - 1))
  }

  /** The start of the aligned run of 2^k numbers that holds x. */
  function RunStart(x: nat, k: nat): nat
  {
    Shl(Shr(x, k), k)
  }

  datatype Net = Net(ip: Addr, len: PrefixLen) {

    /** The number of host bits. */
    function Bits(): nat
    {
      32 - len
    }

    function Size(): nat
    {
      Pow2(Bits())
    }

    function Mask(): Addr
    {
      Shl32(0xFFFF_FFFF, Bits())
    }

    function Network(): Net
    {
      BitAndBound(ip, Mask());
      Net(BitAnd(ip, Mask()), len)
    }

    function Next(): Net
    {
      Net(Add32(ip, Shl32(1, Bits())), len)
    }

    predicate Contains(a: Addr)
    {
      BitAnd(ip, Mask()) == BitAnd(a, Mask())
    }

    predicate Overlaps(other: Net)
    {
      var mask := if len < other.len then Mask() else other.Mask();
      BitAnd(ip, mask) == BitAnd(other.ip, mask)
    }

    predicate ContainsCidr(other: Net)
    {
      Mask() <= other.Mask() && Contains(other.ip)
    }

    predicate Empty()
    {
      ip == 0 && len == 0
    }

    /** The smallest address of the block. */
    function First(): nat
    {
      RunStart(ip, Bits())
    }

    /** The address has no bits below the prefix. */
    predicate Canonical()
    {
      ip == First()
    }
  }

  // ---------------------------------------------------------------------------------------------
  // Shifts, runs and masks

  lemma {:induction false} Pow2Mono(j: nat, k: nat)
    requires j <= k
    ensures Pow2(j) <= Pow2(k)
    ensures j < k ==> 2 * Pow2(j) <= Pow2(k)
  {
    if j < k { Pow2Mono(j, k - 1); }
  }

  lemma Pow2Word()
    ensures Pow2(32) == 0x1_0000_0000
  {
    assert Pow2(8) == 256;
    assert Pow2(16) == 65536;
    assert Pow2(24) == 0x100_0000;
  }

  lemma {:induction false} BitAndBound(x: nat, y: nat)
    ensures BitAnd(x, y) <= x
  {
    if x > 0 { BitAndBound(x / 2, y / 2); }
  }

  lemma {:induction false} ShlFacts(x: nat, y: nat, k: nat)
    ensures Shl(x + y, k) == Shl(x, k) + Shl(y, k)
    ensures Shl(x, k) == Shl(y, k) <==> x == y
    ensures Shl(1, k) == Pow2(k)
  {
    if k > 0 { ShlFacts(x, y, k - 1); }
  }

  lemma {:induction false} ShrShr(x: nat, j: nat, k: nat)
    ensures Shr(x, j + k) == Shr(Shr(x, j), k)
    decreases j
  {
    if j > 0 { ShrShr(x / 2, j - 1, k); }
  }

  lemma {:induction false} ShrBound(x: nat, k: nat, w: nat)
    requires k <= w && x < Pow2(w)
    ensures Shr(x, k) < Pow2(w - k)
    decreases k
  {
    if k > 0 { ShrBound(x / 2, k - 1, w - 1); }
  }

  lemma {:induction false} ShlBound(x: nat, k: nat, w: nat)
    requires k <= w && x < Pow2(w - k)
    ensures Shl(x, k) + Pow2(k) <= Pow2(w)
  {
    if k > 0 { ShlBound(x, k - 1, w - 1); }
  }

  /** Equal high bits means lying in the same aligned run. */
  lemma {:induction false} SameRun(x: nat, y: nat, k: nat)
    ensures Shr(x, k) == Shr(y, k) <==> RunStart(x, k) <= y < RunStart(x, k) + Pow2(k)
    ensures RunStart(x, k) <= x < RunStart(x, k) + Pow2(k)
    decreases k
  {
    if k > 0 {
      SameRun(x / 2, y / 2, k - 1);
      assert Shr(x, k) == Shr(x / 2, k - 1);
      assert Shr(y, k) == Shr(y / 2, k - 1);
    }
  }

  /** Shifting left is the start of a run, and the next run starts one size later. */
  lemma {:induction false} RunOfShl(q: nat, k: nat)
    ensures Shr(Shl(q, k), k) == q
    ensures RunStart(Shl(q, k), k) == Shl(q, k)
  {
    if k > 0 {
      RunOfShl(q, k - 1);
      assert Shl(q, k) / 2 == Shl(q, k - 1);
    }
  }

  /** The high bits of a number w bits wide are what a mask of w ones with the lowest k cleared keeps. */
  lemma {:induction false} AndHighBits(x: nat, w: nat, k: nat)
    requires k <= w && x < Pow2(w)
    ensures Pow2(k) <= Pow2(w)
    ensures BitAnd(x, Pow2(w) - Pow2(k)) == RunStart(x, k)
    decreases w
  {
    Pow2Mono(k, w);
    if x == 0 {
      ShrZero(k);
    } else if k > 0 {
      AndHighBits(x / 2, w - 1, k - 1);
      assert Pow2(w) - Pow2(k) == 2 * (Pow2(w - 1) - Pow2(k - 1));
      assert RunStart(x, k) == 2 * RunStart(x / 2, k - 1);
    } else {
      AndHighBits(x / 2, w - 1, 0);
      assert Pow2(w) - 1 == 2 * (Pow2(w - 1) - 1) + 1;
    }
  }

  lemma {:induction false} ShrZero(k: nat)
    ensures Shr(0, k) == 0 == Shl(0, k)
  {
    if k > 0 { ShrZero(k - 1); }
  }

  /** Setting the lowest k bits moves a number to the end of its aligned run. */
  lemma {:induction false} OrLowBits(x: nat, k: nat)
    ensures BitOr(x, Pow2(k) - 1) == RunStart(x, k) + Pow2(k) - 1
    decreases k
  {
    if k > 0 {
      OrLowBits(x / 2, k - 1);
      assert Pow2(k) - 1 == 2 * (Pow2(k - 1) - 1) + 1;
      assert RunStart(x, k) == 2 * RunStart(x / 2, k - 1);
    } else {
      OrZero(x);
    }
  }

  lemma {:induction false} OrZero(x: nat)
    ensures BitOr(x, 0) == x
  {
    if x > 0 { OrZero(x / 2); }
  }

  lemma {:induction false} Shl32Values(k: nat)
    requires k <= 32
    ensures Pow2(k) <= 0x1_0000_0000
    ensures Shl32(0xFFFF_FFFF, k) == 0x1_0000_0000 - Pow2(k)
    ensures k < 32 ==> Shl32(1, k) == Pow2(k)
  {
    Pow2Word();
    Pow2Mono(k, 32);
    if k > 0 { Shl32Values(k - 1); }
  }

  /** The mask of a block is all ones but the lowest 32 - len bits, and its size fits in a word. */
  lemma MaskValue(n: Net)
    ensures n.Size() <= 0x1_0000_0000 && n.Mask() == 0x1_0000_0000 - n.Size()
    ensures n.len > 0 ==> Shl32(1, n.Bits()) == n.Size() < 0x1_0000_0000
  {
    Shl32Values(n.Bits());
    if n.len > 0 { Pow2Word(); Pow2Mono(n.Bits(), 32); }
  }

  lemma MaskedValue(n: Net, a: Addr)
    ensures BitAnd(a, n.Mask()) == RunStart(a, n.Bits())
  {
    MaskValue(n);
    Pow2Word();
    AndHighBits(a, 32, n.Bits());
  }

  // ---------------------------------------------------------------------------------------------
  // What the mask tests mean

  /** `Contains` is membership in the run of `Size()` addresses that starts at `First()`. */
  lemma ContainsIffInBlock(n: Net, a: Addr)
    ensures n.Contains(a) <==> n.First() <= a < n.First() + n.Size()
    ensures n.Contains(a) <==> Shr(n.ip, n.Bits()) == Shr(a, n.Bits())
    ensures n.First() <= n.ip < n.First() + n.Size() <= 0x1_0000_0000
  {
    MaskedValue(n, n.ip);
    MaskedValue(n, a);
    SameRun(n.ip, a, n.Bits());
    ShlFacts(Shr(n.ip, n.Bits()), Shr(a, n.Bits()), n.Bits());
    Pow2Word();
    ShrBound(n.ip, n.Bits(), 32);
    ShlBound(Shr(n.ip, n.Bits()), n.Bits(), 32);
  }

  lemma NetworkIsFirst(n: Net)
    ensures n.Network().ip == n.First() && n.Network().Canonical()
    ensures n.Canonical() <==> n.Network() == n
  {
    MaskedValue(n, n.ip);
    RunOfShl(Shr(n.ip, n.Bits()), n.Bits());
  }

  lemma OverlapsAtShorter(n: Net, o: Net)
    ensures n.Overlaps(o) <==> var k := (if n.len <= o.len then n else o).Bits(); Shr(n.ip, k) == Shr(o.ip, k)
  {
    var b := if n.len < o.len then n else o;
    MaskedValue(b, n.ip);
    MaskedValue(b, o.ip);
    ShlFacts(Shr(n.ip, b.Bits()), Shr(o.ip, b.Bits()), b.Bits());
  }

  /** Sharing the bits of a longer prefix is sharing those of a shorter one. */
  lemma LongerPrefixAgrees(big: Net, small: Net, a: Addr, b: Addr)
    requires big.len <= small.len && Shr(a, small.Bits()) == Shr(b, small.Bits())
    ensures Shr(a, big.Bits()) == Shr(b, big.Bits())
  {
    ShrShr(a, small.Bits(), small.len - big.len);
    ShrShr(b, small.Bits(), small.len - big.len);
  }

  /** `Overlaps` compares under the shorter mask; that is having an address in common. */
  lemma OverlapsIffShareAddress(n: Net, o: Net)
    ensures n.Overlaps(o) <==> exists a: Addr :: n.Contains(a) && o.Contains(a)
    ensures n.Overlaps(o) <==> o.Overlaps(n)
  {
    OverlapsAtShorter(n, o);
    OverlapsAtShorter(o, n);
    var big, small := if n.len <= o.len then n else o, if n.len <= o.len then o else n;
    forall a: Addr | big.Contains(a) && small.Contains(a)
      ensures n.Overlaps(o)
    {
      ContainsIffInBlock(big, a);
      ContainsIffInBlock(small, a);
      LongerPrefixAgrees(big, small, a, small.ip);
    }
    if n.Overlaps(o) {
      ContainsIffInBlock(big, small.ip);
      assert big.Contains(small.ip) && small.Contains(small.ip);
    }
  }

  lemma MaskOrder(n: Net, o: Net)
    ensures n.Mask() <= o.Mask() <==> n.len <= o.len
  {
    MaskValue(n);
    MaskValue(o);
    if n.len <= o.len { Pow2Mono(o.Bits(), n.Bits()); } else { Pow2Mono(n.Bits(), o.Bits()); }
  }

  /** `ContainsCidr` compares masks and one address; that is inclusion of the whole block. */
  lemma ContainsCidrIffSubset(n: Net, o: Net)
    ensures n.ContainsCidr(o) <==> forall a: Addr :: o.Contains(a) ==> n.Contains(a)
  {
    MaskOrder(n, o);
    if n.ContainsCidr(o) {
      forall a: Addr | o.Contains(a)
        ensures n.Contains(a)
      {
        ContainsIffInBlock(o, a);
        ContainsIffInBlock(n, a);
        ContainsIffInBlock(n, o.ip);
        LongerPrefixAgrees(n, o, a, o.ip);
      }
    } else if n.len > o.len {
      LongerBlockMissesEnd(n, o);
    } else {
      assert o.Contains(o.ip) && !n.Contains(o.ip);
    }
  }

  /** A block with a longer prefix cannot hold both ends of a shorter one. */
  lemma LongerBlockMissesEnd(n: Net, o: Net)
    requires n.len > o.len
    ensures exists a: Addr :: o.Contains(a) && !n.Contains(a)
  {
    Pow2Mono(n.Bits(), o.Bits());
    NetworkIsFirst(o);
    LastAddressIsLast(o);
    var first: Addr := o.Network().ip;
    var last: Addr := LastAddress(o);
    ContainsIffInBlock(o, first);
    ContainsIffInBlock(n, first);
    ContainsIffInBlock(n, last);
    assert o.Contains(first) && o.Contains(last);
    assert !n.Contains(first) || !n.Contains(last);
  }

  /** Blocks of one prefix length with masked addresses overlap only when they are the same block. */
  lemma AlignedOverlapIsEqual(n: Net, o: Net)
    requires n.len == o.len && n.Canonical() && o.Canonical()
    ensures n.Overlaps(o) <==> n == o
  {
    OverlapsAtShorter(n, o);
  }

  /** One size after a masked address is the next masked address. */
  lemma NextRun(x: nat, k: nat)
    requires x == RunStart(x, k)
    ensures x + Pow2(k) == RunStart(x + Pow2(k), k)
  {
    ShlFacts(Shr(x, k), 1, k);
    RunOfShl(Shr(x, k) + 1, k);
  }

  /** Distinct masked addresses are at least one size apart. */
  lemma RunsApart(x: nat, y: nat, k: nat)
    requires x == RunStart(x, k) && y == RunStart(y, k) && x < y
    ensures x + Pow2(k) <= y
  {
    SameRun(x, y, k);
  }

  // ---------------------------------------------------------------------------------------------
  // The address helpers of the mesh backend (pkg/backend/cloudflaremesh/routes_linux.go)

  /** `lastIPv4`: the address or-ed with the complement of the mask. */
  function LastAddress(n: Net): Addr
  {
    MaskValue(n);
    OrLowBits(n.ip, n.Bits());
    ContainsIffInBlock(n, n.ip);
    BitOr(n.ip, 0xFFFF_FFFF - n.Mask())
  }

  /** `firstUsableIPv4`: the address after the network address, unless it leaves the block or ends it. */
  function FirstUsable(n: Net): Option<Addr>
  {
    var first := Add32(n.ip, 1);
    if !n.Contains(first) || first == LastAddress(n) then None else Some(first)
  }

  predicate CidrsOverlap(n: Net, o: Net)
  {
    n.Contains(o.ip) || o.Contains(n.ip)
  }

  /** The test `newLocalRouteManager` makes: both the address and the last address lie in the cluster network. */
  predicate EndpointsInside(cluster: Net, local: Net)
  {
    cluster.Contains(local.ip) && cluster.Contains(LastAddress(local))
  }

  lemma LastAddressIsLast(n: Net)
    ensures LastAddress(n) == n.First() + n.Size() - 1
    ensures n.Contains(LastAddress(n))
    ensures forall a: Addr :: n.Contains(a) ==> a <= LastAddress(n)
  {
    LastAddressValue(n);
    ContainsIffInBlock(n, LastAddress(n));
    forall a: Addr | n.Contains(a) ensures a <= LastAddress(n) { ContainsIffInBlock(n, a); }
  }

  lemma LastAddressValue(n: Net)
    ensures LastAddress(n) == n.First() + n.Size() - 1
  {
    hide BitOr, BitAnd, Shl, Shr, Pow2, Shl32;
    MaskValue(n);
    OrLowBits(n.ip, n.Bits());
    assert 0xFFFF_FFFF - n.Mask() == Pow2(n.Bits()) - 1;
  }

  /**
    A gateway address exists exactly when two more addresses follow the network address in its block,
    or, for the whole address space written at its very last address, when the increment wraps to 0.0.0.0.
   */
  lemma FirstUsableIff(n: Net)
    ensures FirstUsable(n).Some? <==> n.ip + 2 < n.First() + n.Size() || (n.len == 0 && n.ip == 0x1_0000_0000 - 1)
    ensures FirstUsable(n).Some? && n.ip < 0x1_0000_0000 - 1 ==>
              n.Contains(FirstUsable(n).value) && n.ip < FirstUsable(n).value < LastAddress(n)
    ensures FirstUsable(n).Some? && n.ip < 0x1_0000_0000 - 1 ==> FirstUsable(n).value == n.ip + 1
    ensures n.Canonical() ==> (FirstUsable(n).Some? <==> n.len <= 30)
  {
    var first: Addr := Add32(n.ip, 1);
    var base, size := n.First(), n.Size();
    ContainsIffInBlock(n, first);
    assert LastAddress(n) == base + size - 1 by { LastAddressIsLast(n); }
    SizeOfLength(n);
    if n.ip < 0x1_0000_0000 - 1 {
      assert first == n.ip + 1;
    } else {
      assert first == 0;
      assert n.Contains(first) <==> base == 0;
    }
  }

  lemma SizeOfLength(n: Net)
    ensures n.len <= 30 <==> n.Size() >= 4
    ensures n.len == 0 <==> n.Size() == 0x1_0000_0000
  {
    Pow2Word();
    if n.len > 0 { Pow2Mono(n.Bits(), 32); }
    assert Pow2(2) == 4 && Pow2(1) == 2;
    if n.len <= 30 { Pow2Mono(2, n.Bits()); } else { Pow2Mono(n.Bits(), 1); }
  }

  /** The two-way containment test of the mesh backend is the overlap test of the ip package. */
  lemma CidrsOverlapIsOverlaps(n: Net, o: Net)
    ensures CidrsOverlap(n, o) <==> n.Overlaps(o)
  {
    OverlapsAtShorter(n, o);
    ContainsIffInBlock(n, o.ip);
    ContainsIffInBlock(o, n.ip);
    var big, small := if n.len <= o.len then n else o, if n.len <= o.len then o else n;
    if Shr(n.ip, small.Bits()) == Shr(o.ip, small.Bits()) { LongerPrefixAgrees(big, small, n.ip, o.ip); }
  }

  /**
    Checking the address and the last address is whole-block containment for every cluster network
    exactly when the address lies in the lower half of its own block; a masked address always does.
   */
  lemma EndpointsInsideIffContained(local: Net)
    ensures (forall cluster: Net :: EndpointsInside(cluster, local) <==> cluster.ContainsCidr(local))
       <==> 2 * (local.ip - local.First()) < local.Size()
  {
    if 2 * (local.ip - local.First()) < local.Size() {
      forall cluster: Net
        ensures EndpointsInside(cluster, local) <==> cluster.ContainsCidr(local)
      {
        LowerHalfEndpoints(cluster, local);
      }
    } else {
      UpperHalfCounterexample(local);
    }
  }

  lemma LowerHalfEndpoints(cluster: Net, local: Net)
    requires 2 * (local.ip - local.First()) < local.Size()
    ensures EndpointsInside(cluster, local) <==> cluster.ContainsCidr(local)
  {
    LastAddressIsLast(local);
    MaskOrder(cluster, local);
    if cluster.len <= local.len {
      ContainsCidrIffSubset(cluster, local);
    } else {
      Pow2Mono(cluster.Bits(), local.Bits());
      ContainsIffInBlock(cluster, local.ip);
      ContainsIffInBlock(cluster, LastAddress(local));
    }
  }

  /** The upper half of the block passes the endpoint test without containing the block. */
  lemma UpperHalfCounterexample(local: Net)
    requires 2 * (local.ip - local.First()) >= local.Size()
    ensures exists cluster: Net :: EndpointsInside(cluster, local) && !cluster.ContainsCidr(local)
  {
    ContainsIffInBlock(local, local.ip);
    LastAddressIsLast(local);
    var k := local.Bits();
    assert Pow2(k) == 2 * Pow2(k - 1);
    var half := Net(local.ip, local.len + 1);
    UpperHalfRun(local.ip, k);
    ContainsIffInBlock(half, LastAddress(local));
    MaskOrder(half, local);
    assert EndpointsInside(half, local) && !half.ContainsCidr(local);
  }

  lemma {:induction false} UpperHalfRun(x: nat, k: nat)
    requires k > 0 && x >= RunStart(x, k) + Pow2(k - 1)
    ensures RunStart(x, k - 1) == RunStart(x, k) + Pow2(k - 1)
    decreases k
  {
    if k > 1 {
      assert RunStart(x, k) == 2 * RunStart(x / 2, k - 1);
      assert RunStart(x, k - 1) == 2 * RunStart(x / 2, k - 2);
      UpperHalfRun(x / 2, k - 1);
    } else {
      assert Shr(x, 1) == x / 2;
    }
  }
}
