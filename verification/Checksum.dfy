/**
  The Internet checksum of the UDP proxy (cksum and decrement_ttl in pkg/backend/udp/proxy_amd64.c).
  The fast form adds 32-bit little-endian words with an end-around carry and folds once at the end; it is
  proved equal to the complement of the plain 16-bit one's complement sum of section 2 of RFC 1071, and
  the incremental patch after a TTL decrement (section 3 of RFC 1624) equal to computing it anew.
 */
module Checksum {

  type U8 = x: nat | x < 0x100
  type U16 = x: nat | x < 0x1_0000
  type U32 = x: nat | x < 0x1_0000_0000

  // ---------------------------------------------------------------------------------------------
  // The reference: 16-bit one's complement sum

  /** 16-bit one's complement addition: the carry is added back in. */
  function OnesAdd(x: U16, y: U16): U16
  {
    if x + y < 0x1_0000 then x + y else x + y - 0xFFFF
  }

  function OnesSum(ws: seq<U16>): U16
  {
    if ws == [] then 0 else OnesAdd(OnesSum(ws[..|ws| - 1]), ws[|ws| - 1])
  }

  /** The 16-bit words of a buffer of little-endian 32-bit words. */
  function Halves(buf: seq<U32>): seq<U16>
  {
    if buf == [] then []
    else Halves(buf[..|buf| - 1]) + [buf[|buf| - 1] % 0x1_0000, buf[|buf| - 1] / 0x1_0000]
  }

  /** The words in order, each as its low and its high half. */
  lemma {:induction false} HalvesAre(buf: seq<U32>, i: nat)
    requires i < |buf|
    ensures |Halves(buf)| == 2 * |buf|
    ensures Halves(buf)[2 * i] == buf[i] % 0x1_0000 && Halves(buf)[2 * i + 1] == buf[i] / 0x1_0000
  {
    var n := |buf| - 1;
    if n > 0 { HalvesAre(buf[..n], if i < n then i else 0); }
  }

  /** The checksum of a buffer according to section 2 of RFC 1071. */
  function Expected(buf: seq<U32>): U16
  {
    0xFFFF - OnesSum(Halves(buf))
  }

  /** The fast version: add 32-bit words with an end-around carry, then fold down to 16 bits. */
  method Cksum(buf: seq<U32>) returns (r: U16)
    ensures r == Expected(buf)
  {
    var sum: U32 := 0;
    for i := 0 to |buf|
      invariant Same(sum, Total(buf[..i]))
    {
      var s := buf[i];
      ghost var before := sum;
      sum := if sum + s < 0x1_0000_0000 then sum + s else sum + s - 0x1_0000_0000;
      if sum < s { sum := sum + 1; }
      assert buf[..i + 1][..i] == buf[..i];
      AddWordSame(before, Total(buf[..i]), s, sum);
    }
    assert buf[..|buf|] == buf;
    var t1: U16 := sum % 0x1_0000;
    var t2: U16 := sum / 0x1_0000;
    var folded: U16 := if t1 + t2 < 0x1_0000 then t1 + t2 else t1 + t2 - 0x1_0000;
    if folded < t2 { folded := folded + 1; }
    FoldSame(sum, folded);
    SameTransitive(folded, sum, Total(buf));
    SumSame(buf);
    SameSymmetric(OnesSum(Halves(buf)), Total(buf));
    SameTransitive(folded, Total(buf), OnesSum(Halves(buf)));
    SameIsEqual(folded, OnesSum(Halves(buf)));
    r := 0xFFFF - folded;
  }

  // ---------------------------------------------------------------------------------------------
  // Residues modulo 0xFFFF

  /** The plain sum of the 16-bit words. */
  function Total(buf: seq<U32>): nat
  {
    if buf == [] then 0 else Total(buf[..|buf| - 1]) + HalfTotal(buf[|buf| - 1])
  }

  function HalfTotal(w: U32): nat
  {
    w % 0x1_0000 + w / 0x1_0000
  }

  predicate Congruent(x: int, y: int)
  {
    (x - y) % 0xFFFF == 0
  }

  /** Congruent, and zero together: what a one's complement sum determines about the numbers added. */
  predicate Same(x: int, y: int)
  {
    Congruent(x, y) && (x == 0 <==> y == 0)
  }

  lemma SameTransitive(x: int, y: int, z: int)
    requires Same(x, y) && Same(y, z)
    ensures Same(x, z)
  {
  }

  lemma SameSymmetric(x: int, y: int)
    requires Same(x, y)
    ensures Same(y, x)
  {
  }

  /** A 16-bit sum is determined by its residue and by whether it is zero. */
  lemma SameIsEqual(x: U16, y: U16)
    requires Same(x, y)
    ensures x == y
  {
  }

  lemma AddWordSame(sum: U32, total: nat, s: U32, sum': U32)
    requires Same(sum, total)
    requires sum' == if sum + s < 0x1_0000_0000 then sum + s else sum + s - 0xFFFF_FFFF
    ensures Same(sum', total + HalfTotal(s))
  {
    assert s == 0x1_0000 * (s / 0x1_0000) + s % 0x1_0000;
    assert sum + s - (total + HalfTotal(s)) == (sum - total) + 0xFFFF * (s / 0x1_0000);
  }

  lemma FoldSame(sum: U32, folded: U16)
    requires folded == OnesAdd(sum % 0x1_0000, sum / 0x1_0000)
    ensures Same(folded, sum)
  {
    assert sum == 0x1_0000 * (sum / 0x1_0000) + sum % 0x1_0000;
  }

  lemma OnesAddSame(x: U16, y: U16, t: nat)
    requires Same(x, t)
    ensures Same(OnesAdd(x, y), t + y)
  {
  }

  lemma {:induction false} SumSame(buf: seq<U32>)
    ensures Same(OnesSum(Halves(buf)), Total(buf))
  {
    if buf != [] {
      var n := |buf| - 1;
      var front, lo, hi := Halves(buf[..n]), buf[n] % 0x1_0000, buf[n] / 0x1_0000;
      SumSame(buf[..n]);
      var hs := Halves(buf);
      assert hs[..|hs| - 1] == front + [lo];
      assert (front + [lo])[..|front|] == front;
      OnesAddSame(OnesSum(front), lo, Total(buf[..n]));
      OnesAddSame(OnesSum(front + [lo]), hi, Total(buf[..n]) + lo);
    }
  }

  /** Replacing one word changes the total by the difference of the words. */
  lemma {:induction false} TotalUpdate(buf: seq<U32>, i: nat, w: U32)
    requires i < |buf|
    ensures Total(buf[i := w]) == Total(buf) - HalfTotal(buf[i]) + HalfTotal(w)
  {
    var n := |buf| - 1;
    var after := buf[i := w];
    if i == n {
      assert after[..n] == buf[..n];
    } else {
      assert after[..n] == buf[..n][i := w];
      TotalUpdate(buf[..n], i, w);
    }
  }

  /** The checksum as a function of the total. */
  lemma ExpectedOfTotal(buf: seq<U32>)
    ensures Same(0xFFFF - Expected(buf), Total(buf))
  {
    SumSame(buf);
  }

  // ---------------------------------------------------------------------------------------------
  // Filling in a checksum

  /**
    Writing the checksum into a zeroed field, the upper half of some word as in both headers the proxy
    builds, gives a buffer that checksums to zero.
   */
  lemma FilledChecksumsToZero(buf: seq<U32>, i: nat)
    requires i < |buf| && buf[i] < 0x1_0000
    ensures Expected(buf[i := buf[i] + 0x1_0000 * Expected(buf)]) == 0
  {
    var c: int := Expected(buf);
    var w: U32 := buf[i] + 0x1_0000 * c;
    assert w % 0x1_0000 == buf[i] && w / 0x1_0000 == c;
    TotalUpdate(buf, i, w);
    ExpectedOfTotal(buf);
    ExpectedOfTotal(buf[i := w]);
    FullSum(0xFFFF - Expected(buf[i := w]), Total(buf), c);
  }

  lemma FullSum(s: U16, t: nat, c: U16)
    requires Same(0xFFFF - c, t) && Same(s, t + c)
    ensures s == 0xFFFF
  {
  }

  /** The value of a 16-bit word read in the other byte order (`htons`). */
  function Swap(x: U16): U16
  {
    x % 0x100 * 0x100 + x / 0x100
  }

  function SwapAll(ws: seq<U16>): seq<U16>
  {
    seq(|ws|, i requires 0 <= i < |ws| => Swap(ws[i]))
  }

  /**
    Byte order does not matter: summing the words in network order gives the swapped sum, so the value
    stored as a little-endian word is the checksum the standard defines on network-order words.
   */
  lemma {:induction false} SumInNetworkOrder(ws: seq<U16>)
    ensures OnesSum(SwapAll(ws)) == Swap(OnesSum(ws))
  {
    if ws != [] {
      var n := |ws| - 1;
      SumInNetworkOrder(ws[..n]);
      assert SwapAll(ws)[..n] == SwapAll(ws[..n]);
      SwapAdd(OnesSum(ws[..n]), ws[n]);
    }
  }

  lemma SwapAdd(x: U16, y: U16)
    ensures OnesAdd(Swap(x), Swap(y)) == Swap(OnesAdd(x, y))
  {
    hide Congruent, Swap, OnesAdd;
    var z, s := OnesAdd(x, y), OnesAdd(Swap(x), Swap(y));
    var x1: int, y1: int, z1: int := x, y, z;
    OnesAddCongruent(x, y);
    OnesAddCongruent(Swap(x), Swap(y));
    SwapScales(x);
    SwapScales(y);
    SwapScales(z);
    CongruentAdd(Swap(x), 0x100 * x1, Swap(y), 0x100 * y1);
    CongruentScale(x1 + y1, z1);
    CongruentTransitive(Swap(x) as int + Swap(y), 0x100 * (x1 + y1), 0x100 * z1);
    CongruentTransitive(s, Swap(x) as int + Swap(y), 0x100 * z1);
    CongruentTransitive(s, 0x100 * z1, Swap(z));
    SameIsEqual(s, Swap(z));
  }

  lemma SwapScales(x: U16)
    ensures Congruent(Swap(x), 0x100 * x) && Congruent(0x100 * x, Swap(x)) && (Swap(x) == 0 <==> x == 0)
  {
    assert x == 0x100 * (x / 0x100) + x % 0x100;
    assert 0x100 * x - Swap(x) == 0xFFFF * (x / 0x100);
  }

  lemma OnesAddCongruent(x: U16, y: U16)
    ensures Congruent(OnesAdd(x, y), x + y) && Congruent(x + y, OnesAdd(x, y))
    ensures OnesAdd(x, y) == 0 <==> x == 0 && y == 0
  {
  }

  lemma CongruentAdd(a: int, b: int, c: int, d: int)
    requires Congruent(a, b) && Congruent(c, d)
    ensures Congruent(a + c, b + d)
  {
  }

  lemma CongruentScale(a: int, b: int)
    requires Congruent(a, b)
    ensures Congruent(0x100 * a, 0x100 * b)
  {
    var k := (a - b) / 0xFFFF;
    Multiple(0x100 * a - 0x100 * b, 0x100 * k);
  }

  lemma Multiple(x: int, k: int)
    requires x == 0xFFFF * k
    ensures x % 0xFFFF == 0
  {
  }

  lemma CongruentTransitive(a: int, b: int, c: int)
    requires Congruent(a, b) && Congruent(b, c)
    ensures Congruent(a, c)
  {
  }

  // ---------------------------------------------------------------------------------------------
  // The TTL

  /** An IPv4 header as the proxy sees it: the words before and after the one holding TTL and checksum. */
  class IpHeader {
    const front: seq<U32>
    const protocol: U8
    const back: seq<U32>
    var ttl: U8
    var check: U16

    constructor (front: seq<U32>, ttl: U8, protocol: U8, check: U16, back: seq<U32>)
      ensures this.front == front && this.ttl == ttl && this.protocol == protocol && this.check == check
        && this.back == back
    {
      this.front, this.ttl, this.protocol, this.check, this.back := front, ttl, protocol, check, back;
    }

    /** The header as an array of 32-bit words, with a given value in the checksum field. */
    function WordsWith(c: U16): seq<U32>
      reads this
    {
      HeaderWords(front, ttl, protocol, c, back)
    }

    /**
      A TTL of one ends in a discarded packet.  Any other TTL but zero leaves the checksum of the whole
      header as it was, whatever that was, and a check field that was right for the old header is right
      for the new one.  From zero the TTL wraps to 255 and the checksum changes.
     */
    method DecrementTtl() returns (alive: bool)
      modifies this
      ensures alive <==> old(ttl) != 1
      ensures ttl == if old(ttl) == 0 then 255 else old(ttl) - 1
      ensures !alive ==> check == old(check)
      ensures alive ==> (Expected(WordsWith(check)) == old(Expected(WordsWith(check))) <==> old(ttl) != 0)
      ensures alive && old(ttl) != 0 && old(check == Expected(WordsWith(0))) ==> check == Expected(WordsWith(0))
    {
      ttl := if ttl == 0 then 255 else ttl - 1;
      if ttl == 0 { return false; }
      if check >= Swap(0xFFFF - 0x100) {
        check := Wrap16(check + Swap(0x100) + 1);
      } else {
        check := Wrap16(check + Swap(0x100));
      }
      PatchKeepsChecksumIff(front, old(ttl), ttl, protocol, old(check), check, back);
      if old(ttl) != 0 { PatchEqualsRecomputed(front, old(ttl), protocol, old(check), check, back); }
      return true;
    }
  }

  function Wrap16(x: nat): U16
    requires x < 0x2_0000
  {
    if x < 0x1_0000 then x else x - 0x1_0000
  }

  /** Little-endian layout of the third word: TTL, protocol, check field. */
  function HeaderWords(front: seq<U32>, ttl: U8, protocol: U8, check: U16, back: seq<U32>): seq<U32>
  {
    front + [ttl + 0x100 * protocol + 0x1_0000 * check] + back
  }

  function Patched(check: U16): U16
  {
    if check >= 0xFFFE then check - 0xFFFE else check + 1
  }

  lemma HeaderTotal(front: seq<U32>, ttl: U8, protocol: U8, check: U16, back: seq<U32>)
    ensures Total(HeaderWords(front, ttl, protocol, check, back))
         == Total(HeaderWords(front, 0, 0, 0, back)) + ttl + 0x100 * protocol + check
  {
    var zero := HeaderWords(front, 0, 0, 0, back);
    var w: U32 := ttl + 0x100 * protocol + 0x1_0000 * check;
    assert w % 0x1_0000 == ttl + 0x100 * protocol && w / 0x1_0000 == check;
    assert HeaderWords(front, ttl, protocol, check, back) == zero[|front| := w];
    TotalUpdate(zero, |front|, w);
  }

  lemma PatchKeepsChecksumIff(front: seq<U32>, ttl: U8, ttl': U8, protocol: U8, check: U16, check': U16, back: seq<U32>)
    requires ttl != 1 && ttl' == (if ttl == 0 then 255 else ttl - 1) && check' == Patched(check)
    ensures var h := HeaderWords(front, ttl, protocol, check, back);
      var h' := HeaderWords(front, ttl', protocol, check', back);
      Expected(h') == Expected(h) <==> ttl != 0
  {
    var h, h' := HeaderWords(front, ttl, protocol, check, back), HeaderWords(front, ttl', protocol, check', back);
    HeaderTotal(front, ttl, protocol, check, back);
    HeaderTotal(front, ttl', protocol, check', back);
    ExpectedOfTotal(h);
    ExpectedOfTotal(h');
    ChangedSums(0xFFFF - Expected(h), 0xFFFF - Expected(h'), Total(h), Total(h'), ttl, check);
  }

  lemma ChangedSums(s: U16, s': U16, t: nat, t': nat, ttl: U8, check: U16)
    requires Same(s, t) && Same(s', t') && ttl != 1 && t >= ttl
    requires t' == t + (if ttl == 0 then 255 else -1) + Patched(check) - check && t' > 0
    ensures s == s' <==> ttl != 0
  {
    if ttl != 0 {
      assert Congruent(t, t');
      assert Same(t, t');
      SameTransitive(s, t, t');
      SameSymmetric(s', t');
      SameTransitive(s, t', s');
      SameIsEqual(s, s');
    } else if s == s' {
      NotCongruent(s, t, t');
    }
  }

  lemma NotCongruent(s: int, t: int, t': int)
    requires Congruent(s, t) && (t' == t + 0x100 || t' == t + 0x100 - 0xFFFF)
    ensures !Congruent(s, t')
  {
  }

  lemma PatchEqualsRecomputed(front: seq<U32>, ttl: U8, protocol: U8, check: U16, check': U16, back: seq<U32>)
    requires ttl >= 2 && check' == Patched(check)
    ensures check == Expected(HeaderWords(front, ttl, protocol, 0, back)) ==>
            check' == Expected(HeaderWords(front, ttl - 1, protocol, 0, back))
  {
    var h, h' := HeaderWords(front, ttl, protocol, 0, back), HeaderWords(front, ttl - 1, protocol, 0, back);
    HeaderTotal(front, ttl, protocol, 0, back);
    HeaderTotal(front, ttl - 1, protocol, 0, back);
    ExpectedOfTotal(h);
    ExpectedOfTotal(h');
    SumMinusOne(0xFFFF - Expected(h), 0xFFFF - Expected(h'), Total(h));
  }

  lemma SumMinusOne(s: U16, s': U16, t: nat)
    requires t >= 2 && Same(s, t) && Same(s', t - 1)
    ensures s' == if s == 1 then 0xFFFF else s - 1
  {
    var r: U16 := if s == 1 then 0xFFFF else s - 1;
    assert Same(t - 1, r);
    SameTransitive(s', t - 1, r);
    SameIsEqual(s', r);
  }
}
