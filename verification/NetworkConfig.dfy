/**
  The IPv4 part of CheckNetworkConfig (pkg/subnet/config.go).  The check fills in the subnet length and
  the range bounds with wrapping 32-bit arithmetic and mask tests; its outcome is stated here in terms
  of address intervals, and the range it leaves behind is proved to lie inside the network.
 */
module NetworkConfig {
  import opened Ip4

  datatype ConfigError =
    | NoNetwork
    | SubnetLenTooLong
    | TooFewSubnets
    | NetworkTooSmall
    | MinOutside
    | MaxOutside
    | MinUnaligned
    | MaxUnaligned

  /** The subnet length after the defaulting rules, or the error they end in. */
  function EffectiveLen(network: Net, subnetLen: nat): (r: (nat, Option<ConfigError>))
    ensures r.1.None? ==> network.len + 2 <= r.0 <= 30
  {
    if subnetLen > 30 then (subnetLen, Some(SubnetLenTooLong))
    else if subnetLen > 0 then (subnetLen, if subnetLen < network.len + 2 then Some(TooFewSubnets) else None)
    else if network.len > 28 then (0, Some(NetworkTooSmall))
    else if network.len <= 22 then (24, None)
    else (network.len + 2, None)
  }

  /** A given length is kept; by default blocks have 256 addresses where four of them fit, or are quarters. */
  ghost predicate LengthIs(network: Net, given: nat, len: nat)
  {
    && len <= 32 && (given > 0 ==> len == given)
    && (given == 0 && 4 * 256 <= network.Size() ==> Pow2(32 - len) == 256)
    && (given == 0 && 4 * 256 > network.Size() ==> 4 * Pow2(32 - len) == network.Size())
  }

  /** There is room for four blocks, and they have at least four addresses. */
  ghost predicate LengthFits(network: Net, given: nat)
  {
    if given == 0 then network.Size() / 4 >= 4
    else given <= 30 && 4 * Pow2(32 - given) <= network.Size()
  }

  lemma SmallPowers()
    ensures Pow2(2) == 4 && Pow2(4) == 16 && Pow2(8) == 256 && Pow2(10) == 1024
  {
    assert Pow2(2) == 4;
    assert Pow2(4) == 4 * Pow2(2);
    assert Pow2(6) == 4 * Pow2(4);
    assert Pow2(8) == 4 * Pow2(6);
    assert Pow2(10) == 4 * Pow2(8);
  }

  lemma SizeOrder(j: nat, k: nat)
    ensures Pow2(j) <= Pow2(k) <==> j <= k
    ensures Pow2(j) == Pow2(k) <==> j == k
  {
    if j < k { Pow2Mono(j, k); } else if k < j { Pow2Mono(k, j); }
  }

  /** The length and each of its errors, in terms of sizes. */
  lemma LengthBySize(network: Net, given: nat)
    ensures var (len, problem) := EffectiveLen(network, given);
      && (problem.None? <==> LengthFits(network, given)) && (problem.None? ==> LengthIs(network, given, len))
      && (problem == Some(SubnetLenTooLong) <==> given > 30)
      && (problem == Some(TooFewSubnets) <==> 0 < given <= 30 && 4 * Pow2(32 - given) > network.Size())
      && (problem == Some(NetworkTooSmall) <==> given == 0 && network.Size() / 4 < 4)
  {
    var w := network.Bits();
    SmallPowers();
    SizeOrder(10, w);
    SizeOrder(4, w);
    if 0 < given <= 30 {
      assert 4 * Pow2(32 - given) == Pow2(34 - given);
      SizeOrder(34 - given, w);
    }
    if w >= 2 { assert Pow2(w) == 4 * Pow2(w - 2); }
    hide Pow2;
  }

  /** Which configurations with a masked network are accepted. */
  lemma AcceptedIff(network: Net, given: nat, len: nat, min: Addr, max: Addr)
    requires network.Canonical() && LengthIs(network, given, len)
    ensures FirstProblem(network, given, min, max).None? <==>
      && network != Net(0, 0) && LengthFits(network, given)
      && (min != 0 ==> Inside(network, min) && Aligned(min, len))
      && (max != 0 ==> Inside(network, max) && Aligned(max, len))
  {
    LengthBySize(network, given);
    if LengthFits(network, given) && !network.Empty() {
      SizeOrder(32 - len, 32 - EffectiveLen(network, given).0);
      DefaultsDoNotWrap(network, len);
      DefaultsAreBlocks(network, len);
      hide Pow2, Shl32, RunStart;
    }
  }

  predicate Aligned(a: nat, subnetLen: nat)
    requires subnetLen <= 32
  {
    a == RunStart(a, 32 - subnetLen)
  }

  predicate Inside(network: Net, a: nat)
  {
    network.First() <= a < network.First() + network.Size()
  }

  /** The first problem with a configuration, read off address intervals instead of masks. */
  function FirstProblem(network: Net, subnetLen: nat, min: Addr, max: Addr): Option<ConfigError>
  {
    if network.Empty() then Some(NoNetwork)
    else
      var (len, problem) := EffectiveLen(network, subnetLen);
      if problem.Some? then problem else BoundsProblem(network, len, min, max)
  }

  function BoundsProblem(network: Net, len: nat, min: Addr, max: Addr): Option<ConfigError>
    requires len <= 32
  {
    if min != 0 && !Inside(network, min) then Some(MinOutside)
    else if max != 0 && !Inside(network, max) then Some(MaxOutside)
    else if !Aligned(FilledMin(network, len, min), len) then Some(MinUnaligned)
    else if !Aligned(FilledMax(network, len, max), len) then Some(MaxUnaligned)
    else None
  }

  /** The lower bound, defaulted in 32-bit arithmetic to the address after the network's first block. */
  function FilledMin(network: Net, len: nat, min: Addr): Addr
    requires len <= 32
  {
    if min != 0 then min else Add32(network.ip, Shl32(1, 32 - len))
  }

  function FilledMax(network: Net, len: nat, max: Addr): Addr
    requires len <= 32
  {
    if max != 0 then max else Sub32(network.Next().ip, Shl32(1, 32 - len))
  }

  /** The second block of the network: the first one is skipped by default. */
  function DefaultMin(network: Net, len: nat): nat
    requires len <= 32
  {
    network.First() + Pow2(32 - len)
  }

  /** The last block of the network. */
  function DefaultMax(network: Net, len: nat): int
    requires len <= 32
  {
    network.First() + network.Size() - Pow2(32 - len)
  }

  class Config {
    var enableIPv4: bool
    var network: Net
    var subnetMin: Addr
    var subnetMax: Addr
    var subnetLen: nat

    /** What an accepted configuration guarantees to the allocator. */
    ghost predicate Ready()
      reads this
    {
      && network.Canonical() && !network.Empty()
      && network.len + 2 <= subnetLen <= 30
      && Inside(network, subnetMin) && Inside(network, subnetMax)
      && Aligned(subnetMin, subnetLen) && Aligned(subnetMax, subnetLen)
    }

    method CheckNetworkConfig() returns (err: Option<ConfigError>)
      modifies this
      ensures network == old(network) && enableIPv4 == old(enableIPv4)
      ensures !enableIPv4 ==> err.None? && unchanged(this)
      ensures enableIPv4 ==> err == old(FirstProblem(network, subnetLen, subnetMin, subnetMax))
      ensures enableIPv4 && err.None? && network.Canonical() ==> Ready()
      ensures enableIPv4 ==> Filled(err, old((subnetLen, subnetMin, subnetMax)))
      ensures enableIPv4 && err.None? ==> LengthIs(network, old(subnetLen), subnetLen)
      ensures enableIPv4 && !LengthFits(network, old(subnetLen)) ==> err.Some?
    {
      LengthBySize(network, subnetLen);
      hide LengthIs, LengthFits;
      if !enableIPv4 { return None; }
      if network.Empty() { return Some(NoNetwork); }
      if subnetLen > 0 {
        if subnetLen > 30 { return Some(SubnetLenTooLong); }
        if subnetLen < network.len + 2 { return Some(TooFewSubnets); }
      } else if network.len > 28 {
        return Some(NetworkTooSmall);
      } else if network.len <= 22 {
        subnetLen := 24;
      } else {
        subnetLen := network.len + 2;
      }
      err := CheckBounds();
    }

    /** Which fields a check has filled in: each one unless an earlier step already failed. */
    ghost predicate Filled(err: Option<ConfigError>, before: (nat, Addr, Addr))
      reads this
    {
      var (len, problem) := EffectiveLen(network, before.0);
      if network.Empty() || problem.Some? then (subnetLen, subnetMin, subnetMax) == before
      else subnetLen == len && BoundsFilled(err, before.1, before.2)
    }

    ghost predicate BoundsFilled(err: Option<ConfigError>, min: Addr, max: Addr)
      requires subnetLen <= 32
      reads this
    {
      && subnetMin == FilledMin(network, subnetLen, min)
      && subnetMax == (if err != Some(MinOutside) then FilledMax(network, subnetLen, max) else max)
    }

    /** The second half of the check: default each bound or test it, then test the alignment of both. */
    method CheckBounds() returns (err: Option<ConfigError>)
      requires !network.Empty() && network.len + 2 <= subnetLen <= 30
      modifies this`subnetMin, this`subnetMax
      ensures err == BoundsProblem(network, subnetLen, old(subnetMin), old(subnetMax))
      ensures err.None? && network.Canonical() ==> Ready()
      ensures BoundsFilled(err, old(subnetMin), old(subnetMax))
    {
      hide BitAnd, RunStart, Shl32, Pow2;
      var subnetSize := Shl32(1, 32 - subnetLen);
      if network.Canonical() {
        DefaultsDoNotWrap(network, subnetLen);
        DefaultsAreBlocks(network, subnetLen);
      }

      if subnetMin == 0 {
        subnetMin := Add32(network.ip, subnetSize);
      } else {
        var inside := network.Contains(subnetMin);
        InsideByMask(network, subnetMin);
        if !inside { return Some(MinOutside); }
      }

      if subnetMax == 0 {
        subnetMax := Sub32(network.Next().ip, subnetSize);
      } else {
        var inside := network.Contains(subnetMax);
        InsideByMask(network, subnetMax);
        if !inside { return Some(MaxOutside); }
      }

      var mask := Shl32(0xFFFF_FFFF, 32 - subnetLen);
      AlignedByMask(subnetMin, subnetLen);
      AlignedByMask(subnetMax, subnetLen);
      if subnetMin != BitAnd(subnetMin, mask) { return Some(MinUnaligned); }
      if subnetMax != BitAnd(subnetMax, mask) { return Some(MaxUnaligned); }
      return None;
    }
  }

  lemma InsideByMask(network: Net, a: Addr)
    ensures network.Contains(a) <==> Inside(network, a)
  {
    ContainsIffInBlock(network, a);
  }

  lemma AlignedByMask(a: Addr, len: nat)
    requires len <= 32
    ensures a == BitAnd(a, Shl32(0xFFFF_FFFF, 32 - len)) <==> Aligned(a, len)
  {
    MaskedValue(Net(0, len), a);
    assert Net(0, len).Bits() == 32 - len;
  }

  /** The wrapping arithmetic of the defaults gives the second and the last block of the network. */
  lemma DefaultsDoNotWrap(network: Net, len: nat)
    requires network.Canonical() && !network.Empty() && network.len + 2 <= len <= 30
    ensures Shl32(1, 32 - len) == Pow2(32 - len)
    ensures Add32(network.ip, Shl32(1, 32 - len)) == DefaultMin(network, len)
    ensures Sub32(network.Next().ip, Shl32(1, 32 - len)) == DefaultMax(network, len)
  {
    NonEmptyHasPrefix(network);
    MaskValue(network);
    ContainsIffInBlock(network, network.ip);
    Shl32Values(32 - len);
    FourBlocksFit(network, len);
  }

  /** Both default bounds are aligned and inside the network. */
  lemma DefaultsAreBlocks(network: Net, len: nat)
    requires network.Canonical() && network.len + 2 <= len <= 30
    ensures Inside(network, DefaultMin(network, len)) && Aligned(DefaultMin(network, len), len)
    ensures DefaultMax(network, len) >= 0
    ensures Inside(network, DefaultMax(network, len)) && Aligned(DefaultMax(network, len), len)
  {
    FourBlocksFit(network, len);
    DefaultMinAligned(network, len);
    DefaultMaxAligned(network, len);
  }

  /**
    A network with host bits, which the reader of configurations would have masked: the bounds of an
    accepted configuration lie inside it exactly when it is the whole address space, or the upper one was
    given and the lower one was given or does not run over the end.
   */
  lemma BoundsInsideIff(network: Net, len: nat, min: Addr, max: Addr)
    requires !network.Empty() && network.len + 2 <= len <= 30 && BoundsProblem(network, len, min, max).None?
    ensures Inside(network, FilledMin(network, len, min)) && Inside(network, FilledMax(network, len, max)) <==>
      || network.len == 0
      || (&& (max != 0 || network.Canonical())
          && (min != 0 || network.ip + Pow2(32 - len) < network.First() + network.Size()))
  {
    hide Pow2, Shl32, RunStart, BitAnd;
    MaskValue(network);
    ContainsIffInBlock(network, network.ip);
    SizeOfLength(network);
    if network.len > 0 {
      if min == 0 { MinInsideIff(network, len); }
      if max == 0 { MaxInsideIff(network, len); }
    }
  }

  lemma MinInsideIff(network: Net, len: nat)
    requires 0 < network.len && network.len + 2 <= len <= 30
    ensures Inside(network, FilledMin(network, len, 0)) <==>
      network.ip + Pow2(32 - len) < network.First() + network.Size()
  {
    hide Pow2, Shl32, RunStart, BitAnd;
    ContainsIffInBlock(network, network.ip);
    Shl32Values(32 - len);
    FourBlocksFit(network, len);
    RoomBehind(network);
  }

  /** A network ends where the address space does, or another of its size fits behind it; so it does before it. */
  lemma RoomBehind(network: Net)
    requires network.len > 0
    ensures network.First() == 0 || network.Size() <= network.First()
    ensures var end := network.First() + network.Size(); end == 0x1_0000_0000 || end + network.Size() <= 0x1_0000_0000
    ensures 2 * network.Size() <= 0x1_0000_0000
  {
    var k, first := network.Bits(), network.First();
    hide Shl32, BitAnd;
    ContainsIffInBlock(network, network.ip);
    Pow2Word();
    Pow2Mono(k, 32);
    RunStartOfCoarser(network.ip, k, k);
    NextRun(first, k);
    ShrZero(k);
    WordAligned(k);
    if first > 0 { RunsApart(0, first, k); }
    if first + Pow2(k) < 0x1_0000_0000 { RunsApart(first + Pow2(k), 0x1_0000_0000, k); }
  }

  lemma WordAligned(k: nat)
    requires k <= 32
    ensures RunStart(0x1_0000_0000, k) == 0x1_0000_0000
  {
    Pow2Word();
    SizeInBlocks(k, 32);
    RunOfShl(Pow2(32 - k), k);
  }

  lemma MaxInsideIff(network: Net, len: nat)
    requires 0 < network.len && network.len + 2 <= len <= 30 && Aligned(FilledMax(network, len, 0), len)
    ensures Inside(network, FilledMax(network, len, 0)) <==> network.Canonical()
  {
    hide Shl32, BitAnd;
    var k, first, size, whole := 32 - len, network.First(), Pow2(32 - len), network.Size();
    ContainsIffInBlock(network, network.ip);
    MaskValue(network);
    Shl32Values(k);
    FourBlocksFit(network, len);
    RoomBehind(network);
    var max := FilledMax(network, len, 0);
    FirstAligned(network, len);
    if network.ip < first + size { LastBlock(network, len, max); }
    hide Pow2, RunStart;
  }

  /** The first and the last block of a network are aligned. */
  lemma FirstAligned(network: Net, len: nat)
    requires network.len <= len <= 32
    ensures Aligned(network.First(), len)
    ensures network.First() + network.Size() - Pow2(32 - len) >= 0
    ensures Aligned(network.First() + network.Size() - Pow2(32 - len), len)
  {
    hide Shr, Shl, Pow2;
    ContainsIffInBlock(network, network.ip);
    var masked := Net(network.First(), network.len);
    RunStartOfCoarser(network.ip, 32 - len, network.Bits());
    RunStartOfCoarser(network.ip, network.Bits(), network.Bits());
    DefaultMaxAligned(masked, len);
  }

  /** An aligned upper bound that starts inside the last block starts it. */
  lemma LastBlock(network: Net, len: nat, max: Addr)
    requires network.len <= len <= 32 && Aligned(max, len)
    requires network.First() + network.Size() - Pow2(32 - len) <= max < network.First() + network.Size()
    ensures max == network.First() + network.Size() - Pow2(32 - len)
  {
    FirstAligned(network, len);
    var last := network.First() + network.Size() - Pow2(32 - len);
    if last < max { RunsApart(last, max, 32 - len); }
  }

  /** Such a network: written with the address of its last block, and only the upper bound given. */
  lemma HostBitsEscape(network: Net, len: nat)
    requires network.Canonical() && !network.Empty() && network.len + 2 <= len <= 30
    ensures 0 < DefaultMax(network, len) < 0x1_0000_0000
    ensures var last := DefaultMax(network, len); var written := Net(last, network.len);
      BoundsProblem(written, len, 0, last).None? && !Inside(written, FilledMin(written, len, 0))
  {
    hide Shl32, BitAnd, Shr, Shl;
    NonEmptyHasPrefix(network);
    ContainsIffInBlock(network, network.ip);
    DefaultsAreBlocks(network, len);
    FourBlocksFit(network, len);
    var last := DefaultMax(network, len);
    var written := Net(last, network.len);
    assert written.First() == network.First() by { SameRun(network.ip, last, network.Bits()); }
    MinInsideIff(written, len);
    Shl32Values(32 - len);
    NextRun(last, 32 - len);
    ShrZero(32 - len);
    hide Pow2, RunStart;
  }

  lemma FourBlocksFit(network: Net, len: nat)
    requires network.len + 2 <= len <= 30
    ensures 4 * Pow2(32 - len) <= network.Size()
  {
    var k, w := 32 - len, network.Bits();
    Pow2Mono(k, w - 1);
    Pow2Mono(w - 1, w);
    if k < w - 1 { Pow2Mono(k, w - 1); }
  }

  lemma DefaultMinAligned(network: Net, len: nat)
    requires network.Canonical() && network.len <= len <= 32
    ensures Aligned(DefaultMin(network, len), len)
  {
    RunStartOfCoarser(network.ip, 32 - len, network.Bits());
    NextRun(network.First(), 32 - len);
  }

  lemma DefaultMaxAligned(network: Net, len: nat)
    requires network.Canonical() && network.len <= len <= 32
    ensures DefaultMax(network, len) >= 0 && Aligned(DefaultMax(network, len), len)
    ensures DefaultMax(network, len) == network.First() + Shl(RangeCount(network, len), 32 - len)
  {
    hide Shr, Shl, Pow2;
    var k, count := 32 - len, RangeCount(network, len);
    RunStartOfCoarser(network.ip, k, network.Bits());
    SizeInBlocks(k, network.Bits());
    ShlFacts(count, 1, k);
    var q := Shr(network.First(), k);
    ShlFacts(q, count, k);
    RunOfShl(q + count, k);
  }

  /** The number of blocks in the default range: all of them but the first. */
  function RangeCount(network: Net, len: nat): nat
    requires network.len <= len <= 32
  {
    Pow2(len - network.len) - 1
  }

  lemma NonEmptyHasPrefix(network: Net)
    requires network.Canonical() && !network.Empty()
    ensures network.len > 0
  {
    ContainsIffInBlock(network, network.ip);
    SizeOfLength(network);
  }

  lemma {:induction false} SizeInBlocks(k: nat, w: nat)
    requires k <= w
    ensures Pow2(w) == Shl(Pow2(w - k), k)
  {
    if k > 0 { SizeInBlocks(k - 1, w - 1); }
  }

  /** A run of 2^w numbers starts on a boundary of every smaller power of two. */
  lemma {:induction false} RunStartOfCoarser(x: nat, k: nat, w: nat)
    requires k <= w
    ensures RunStart(RunStart(x, w), k) == RunStart(x, w)
    decreases k
  {
    if k > 0 {
      assert RunStart(x, w) == 2 * RunStart(x / 2, w - 1);
      RunStartOfCoarser(x / 2, k - 1, w - 1);
      var y := RunStart(x, w);
      assert RunStart(y, k) == 2 * RunStart(y / 2, k - 1);
    }
  }

  // ---------------------------------------------------------------------------------------------
  // The blocks of a range

  /** The block addresses from `ip` to `max` in steps of `size`, without wrap-around. */
  function Blocks(ip: nat, max: nat, size: nat): seq<nat>
    requires size > 0
    decreases max + 1 - ip
  {
    if ip > max then [] else [ip] + Blocks(ip + size, max, size)
  }

  /** Listing a range in steps gives exactly its aligned addresses. */
  lemma {:induction false} BlocksAreAligned(ip: nat, max: nat, len: nat)
    requires len <= 32 && Aligned(ip, len)
    ensures forall a: nat :: a in Blocks(ip, max, Pow2(32 - len)) <==> Aligned(a, len) && ip <= a <= max
    decreases max + 1 - ip
  {
    if ip <= max {
      var k := 32 - len;
      NextRun(ip, k);
      BlocksAreAligned(ip + Pow2(k), max, len);
      var rest := Blocks(ip + Pow2(k), max, Pow2(k));
      assert Blocks(ip, max, Pow2(k)) == [ip] + rest;
      forall a: nat
        ensures a in [ip] + rest <==> Aligned(a, len) && ip <= a <= max
      {
        if Aligned(a, len) && ip < a { RunsApart(ip, a, k); }
        assert a in [ip] + rest <==> a == ip || a in rest;
      }
    }
  }

  lemma {:induction false} BlocksCount(ip: nat, c: nat, k: nat)
    requires c > 0
    ensures |Blocks(ip, ip + Shl(c - 1, k), Pow2(k))| == c
    decreases c
  {
    ShlZero(k);
    if c > 1 {
      ShlFacts(c - 2, 1, k);
      BlocksCount(ip + Pow2(k), c - 1, k);
    }
  }

  lemma {:induction false} ShlZero(k: nat)
    ensures Shl(0, k) == 0
  {
    if k > 0 { ShlZero(k - 1); }
  }

  /**
    The range of an accepted configuration: every block between the bounds is a whole block of the
    network, although the bounds were computed modulo 2^32.
   */
  lemma RangeInsideNetwork(c: Config, a: Addr)
    requires c.Ready()
    requires Aligned(a, c.subnetLen) && c.subnetMin <= a <= c.subnetMax
    ensures Net(a, c.subnetLen).Canonical()
    ensures c.network.ContainsCidr(Net(a, c.subnetLen))
  {
    hide Pow2, Shl32, BitAnd, RunStart;
    ContainsIffInBlock(c.network, a);
    MaskOrder(c.network, Net(a, c.subnetLen));
  }

  /** With both bounds defaulted the range holds all blocks of the network but the first: at least three. */
  lemma DefaultRangeCount(network: Net, len: nat)
    requires network.Canonical() && !network.Empty() && network.len + 2 <= len <= 30
    ensures DefaultMax(network, len) >= 0
    ensures |Blocks(DefaultMin(network, len), DefaultMax(network, len), Pow2(32 - len))|
      == Pow2(len - network.len) - 1 >= 3
  {
    var k, count := 32 - len, RangeCount(network, len);
    DefaultMaxAligned(network, len);
    FourBlocksFit(network, len);
    Pow2Mono(2, len - network.len);
    assert Pow2(2) == 4;
    ShlFacts(count - 1, 1, k);
    BlocksCount(DefaultMin(network, len), count, k);
  }
}
