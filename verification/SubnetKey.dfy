/**
  The registry key of a subnet (MakeSubnetKey and ParseSubnetKey in pkg/subnet/subnet.go).  Parsing runs
  an unanchored, backtracking, greedy regular expression in which two of the dots match any character,
  so the matcher itself is modelled and the round trip is proved through it.
 */
module SubnetKey {
  import opened Ip4

  // ---------------------------------------------------------------------------------------------
  // Decimal numbers and dotted addresses

  predicate IsDigit(c: char)
  {
    '0' <= c <= '9'
  }

  predicate Digits(s: string)
  {
    forall i :: 0 <= i < |s| ==> IsDigit(s[i])
  }

  /** The decimal text of a number (`%d`). */
  function Dec(n: nat): (s: string)
    ensures |s| > 0 && Digits(s)
    ensures |s| > 1 ==> s[0] != '0'
  {
    if n < 10 then [(n as char) + '0'] else Dec(n / 10) + [((n % 10) as char) + '0']
  }

  function DecValue(s: string): nat
    requires Digits(s)
  {
    if s == [] then 0 else DecValue(s[..|s| - 1]) * 10 + (s[|s| - 1] - '0') as nat
  }

  lemma {:induction false} DecRoundTrip(n: nat)
    ensures DecValue(Dec(n)) == n
  {
    var s := Dec(n);
    if n < 10 {
      assert s[..0] == [];
      assert DecValue(s) == DecValue(s[..0]) * 10 + (s[0] - '0') as nat;
    } else {
      DecRoundTrip(n / 10);
      assert s[..|s| - 1] == Dec(n / 10);
    }
  }

  /** `strconv.ParseUint(s, 10, bits)` with the largest accepted value given by its limit. */
  function ParseUint(s: string, limit: nat): Option<nat>
  {
    if s != [] && Digits(s) && DecValue(s) < limit then Some(DecValue(s)) else None
  }

  /** One field of a dotted address: decimal, without leading zeros, at most 255. */
  function ParseOctet(s: string): (r: Option<nat>)
    ensures r.Some? ==> r.value < 256
  {
    if |s| > 1 && s[0] == '0' then None else ParseUint(s, 256)
  }

  /** The text before and after the first `sep`, if there is one. */
  function Cut(s: string, sep: char): (r: Option<(string, string)>)
    ensures r.Some? ==> |r.value.1| < |s|
  {
    if s == [] then None
    else if s[0] == sep then Some(([], s[1..]))
    else
      var rest := Cut(s[1..], sep);
      if rest.None? then None else Some(([s[0]] + rest.value.0, rest.value.1))
  }

  lemma {:induction false} CutAt(a: string, sep: char, b: string)
    requires sep !in a
    ensures Cut(a + [sep] + b, sep) == Some((a, b))
  {
    var s := a + [sep] + b;
    if a == [] {
      assert s[1..] == b;
    } else {
      assert s[1..] == a[1..] + [sep] + b;
      CutAt(a[1..], sep, b);
      assert [a[0]] + a[1..] == a;
    }
  }

  /** The first `n` octets of a dotted text, most significant first; every field but the last ends in a dot. */
  function ParseOctets(s: string, n: nat): (r: Option<seq<nat>>)
    ensures r.Some? ==> |r.value| == n && forall i :: 0 <= i < n ==> r.value[i] < 256
    decreases n
  {
    if n == 0 then None
    else if n == 1 then
      var o := ParseOctet(s);
      if o.None? then None else Some([o.value])
    else
      var c := Cut(s, '.');
      if c.None? then None
      else
        var o, rest := ParseOctet(c.value.0), ParseOctets(c.value.1, n - 1);
        if o.None? || rest.None? then None else Some([o.value] + rest.value)
  }

  /** `net.ParseIP(s).To4()` followed by `FromIP`. */
  function ParseDotted(s: string): Option<Addr>
  {
    var r := ParseOctets(s, 4);
    if r.None? then None
    else Some(r.value[0] * 0x100_0000 + r.value[1] * 0x1_0000 + r.value[2] * 0x100 + r.value[3])
  }

  function Octets(a: Addr): (r: seq<nat>)
    ensures |r| == 4 && forall i :: 0 <= i < 4 ==> r[i] < 256
    ensures r[0] * 0x100_0000 + r[1] * 0x1_0000 + r[2] * 0x100 + r[3] == a
  {
    var q1 := a / 256;
    var q2 := q1 / 256;
    var q3 := q2 / 256;
    [q3, q2 % 256, q1 % 256, a % 256]
  }

  /** `IP4.StringSep(".")`. */
  function Dotted(a: Addr): string
  {
    Join(Octets(a))
  }

  function Join(os: seq<nat>): string
    requires os != []
  {
    if |os| == 1 then Dec(os[0]) else Dec(os[0]) + "." + Join(os[1..])
  }

  lemma OctetRoundTrip(n: nat)
    requires n < 256
    ensures ParseOctet(Dec(n)) == Some(n)
  {
    DecRoundTrip(n);
  }

  lemma {:induction false} OctetsRoundTrip(os: seq<nat>)
    requires os != [] && forall i :: 0 <= i < |os| ==> os[i] < 256
    ensures ParseOctets(Join(os), |os|) == Some(os)
  {
    OctetRoundTrip(os[0]);
    if |os| > 1 {
      OctetsRoundTrip(os[1..]);
      CutAt(Dec(os[0]), '.', Join(os[1..]));
      assert Dec(os[0]) + "." + Join(os[1..]) == Dec(os[0]) + ['.'] + Join(os[1..]);
      assert [os[0]] + os[1..] == os;
    } else {
      assert os == [os[0]];
    }
  }

  lemma DottedRoundTrip(a: Addr)
    ensures ParseDotted(Dotted(a)) == Some(a)
  {
    OctetsRoundTrip(Octets(a));
  }

  // ---------------------------------------------------------------------------------------------
  // The regular expression

  datatype Class = Digit | Literal(c: char) | Any | Hex {
    predicate Has(c: char)
    {
      match this
      case Digit => IsDigit(c)
      case Literal(l) => c == l
      case Any => c != '\n'
      case Hex => IsDigit(c) || 'a' <= c <= 'f' || c == ':'
    }
  }

  /** `Maybe(r)` is `(?:r)?` before the end anchor; `Eos` is the end anchor. */
  datatype Regex = Eos | One(cls: Class, next: Regex) | Plus(cls: Class, next: Regex) | Maybe(next: Regex)

  /** The end of the longest run of a class from a position. */
  function RunEnd(cls: Class, s: string, i: nat): (e: nat)
    requires i <= |s|
    ensures i <= e <= |s|
    ensures forall p :: i <= p < e ==> cls.Has(s[p])
    ensures e < |s| ==> !cls.Has(s[e])
    decreases |s| - i
  {
    if i < |s| && cls.Has(s[i]) then RunEnd(cls, s, i + 1) else i
  }

  /** Backtracking match from a position: the end of every repeated or single item, in order. */
  function Match(r: Regex, s: string, i: nat): Option<seq<nat>>
    requires i <= |s|
    decreases r, 0
  {
    match r
    case Eos => if i == |s| then Some([]) else None
    case One(cls, next) =>
      if i < |s| && cls.Has(s[i]) then Consumed(i + 1, Match(next, s, i + 1)) else None
    case Plus(cls, next) => MatchPlus(next, s, i, RunEnd(cls, s, i))
    case Maybe(next) =>
      var m := Match(next, s, i);
      if m.Some? then m else if i == |s| then Some([]) else None
  }

  /** A repeated item starting at `i` may end at `e` or, giving characters back, anywhere after `i`. */
  function MatchPlus(next: Regex, s: string, i: nat, e: nat): Option<seq<nat>>
    requires i <= e <= |s|
    decreases next, e + 1
  {
    if e == i then None
    else
      var m := Match(next, s, e);
      if m.Some? then Consumed(e, m) else MatchPlus(next, s, i, e - 1)
  }

  function Consumed(e: nat, m: Option<seq<nat>>): Option<seq<nat>>
  {
    if m.None? then None else Some([e] + m.value)
  }

  const V6_TAIL: Regex :=
    Maybe(One(Literal('&'), Plus(Hex, One(Literal('-'), Plus(Digit, Eos)))))

  const PREFIX_LEN: Regex := Plus(Digit, V6_TAIL)
  const LAST_FIELD: Regex := Plus(Digit, One(Literal('-'), PREFIX_LEN))
  const LAST_FIELDS: Regex := Plus(Digit, One(Any, Plus(Digit, One(Any, LAST_FIELD))))

  /** `(\d+\.\d+.\d+.\d+)-(\d+)(?:&([a-f\d:]+)-(\d+))?$` with its two unescaped dots. */
  const SUBNET_REGEX: Regex := Plus(Digit, One(Literal('.'), LAST_FIELDS))

  /** The leftmost match at or after a position. */
  function Find(s: string, i: nat): Option<(nat, seq<nat>)>
    requires i <= |s|
    decreases |s| - i
  {
    var m := Match(SUBNET_REGEX, s, i);
    if m.Some? then Some((i, m.value))
    else if i < |s| then Find(s, i + 1)
    else None
  }

  /** What a key denotes; the captured IPv6 texts are left unread. */
  datatype Key = Bad | V4(net: Net) | DualStack(net: Net, ip6: string, len6: string)

  function ParseSubnetKey(s: string): Key
  {
    var m := Find(s, 0);
    if m.None? then Bad
    else
      var (start, ends) := m.value;
      FindShape(s, 0);
      var ip, len := ParseDotted(s[start..ends[6]]), ParseUint(s[ends[7]..ends[8]], 32);
      if ip.None? || len.None? then Bad
      else if |ends| > 9 then DualStack(Net(ip.value, len.value), s[ends[9]..ends[10]], s[ends[11]..ends[12]])
      else V4(Net(ip.value, len.value))
  }

  function MakeSubnetKey(n: Net): string
  {
    Dotted(n.ip) + "-" + Dec(n.len)
  }

  // ---------------------------------------------------------------------------------------------
  // Shape of a match

  predicate Ordered(i: nat, ends: seq<nat>, top: nat)
    decreases ends
  {
    if ends == [] then i == top else i < ends[0] && Ordered(ends[0], ends[1..], top)
  }

  function Length(r: Regex): nat
  {
    match r
    case Eos => 0
    case One(_, next) => 1 + Length(next)
    case Plus(_, next) => 1 + Length(next)
    case Maybe(next) => Length(next)
  }

  function Required(r: Regex): nat
  {
    match r
    case Eos => 0
    case One(_, next) => 1 + Required(next)
    case Plus(_, next) => 1 + Required(next)
    case Maybe(_) => 0
  }

  predicate OneTail(r: Regex)
  {
    match r
    case Eos => true
    case One(_, next) => OneTail(next)
    case Plus(_, next) => OneTail(next)
    case Maybe(next) => OneTail(next) && Required(next) == Length(next)
  }

  /** A match consumes increasing positions up to the end of the text, with or without the optional tail. */
  lemma {:induction false} MatchShape(r: Regex, s: string, i: nat)
    requires i <= |s|
    ensures Match(r, s, i).Some? ==>
              var ends := Match(r, s, i).value;
              Ordered(i, ends, |s|) && (OneTail(r) ==> |ends| == Length(r) || |ends| == Required(r))
    decreases r, 0
  {
    match r
    case Eos =>
    case One(_, next) =>
      if Match(r, s, i).Some? {
        MatchShape(next, s, i + 1);
        OrderedCons(i, i + 1, Match(next, s, i + 1).value, |s|);
      }
    case Plus(cls, next) => MatchPlusShape(next, s, i, RunEnd(cls, s, i));
    case Maybe(next) =>
      MatchShape(next, s, i);
      RequiredAtMost(next);
  }

  lemma {:induction false} MatchPlusShape(next: Regex, s: string, i: nat, e: nat)
    requires i <= e <= |s|
    ensures MatchPlus(next, s, i, e).Some? ==>
              var ends := MatchPlus(next, s, i, e).value;
              Ordered(i, ends, |s|) && (OneTail(next) ==> |ends| == 1 + Length(next) || |ends| == 1 + Required(next))
    decreases next, e + 1
  {
    if e > i {
      MatchShape(next, s, e);
      var m := Match(next, s, e);
      if m.None? { MatchPlusShape(next, s, i, e - 1); } else { OrderedCons(i, e, m.value, |s|); }
    }
  }

  lemma RequiredAtMost(r: Regex)
    ensures Required(r) <= Length(r)
  {
  }

  lemma {:induction false} OrderedWithin(i: nat, ends: seq<nat>, top: nat)
    requires Ordered(i, ends, top)
    ensures forall j :: 0 <= j < |ends| ==> i < ends[j] <= top
    ensures forall j, k :: 0 <= j < k < |ends| ==> ends[j] < ends[k]
    decreases ends
  {
    if ends != [] {
      OrderedWithin(ends[0], ends[1..], top);
      assert ends == [ends[0]] + ends[1..];
    }
  }

  lemma OrderedCons(i: nat, e: nat, rest: seq<nat>, top: nat)
    requires i < e && Ordered(e, rest, top)
    ensures Ordered(i, [e] + rest, top)
  {
    assert ([e] + rest)[1..] == rest;
  }

  lemma SubnetRegexShape()
    ensures OneTail(SUBNET_REGEX) && Length(SUBNET_REGEX) == 13 && Required(SUBNET_REGEX) == 9
  {
    assert OneTail(V6_TAIL) && Length(V6_TAIL) == 4 && Required(V6_TAIL) == 0;
  }

  lemma {:induction false} FindShape(s: string, i: nat)
    requires i <= |s|
    ensures Find(s, i).Some? ==>
              var (start, ends) := Find(s, i).value;
              && i <= start <= |s|
              && (|ends| == 9 || |ends| == 13)
              && (forall j :: 0 <= j < |ends| ==> start < ends[j] <= |s|)
              && (forall j, k :: 0 <= j < k < |ends| ==> ends[j] < ends[k])
    decreases |s| - i
  {
    SubnetRegexShape();
    MatchShape(SUBNET_REGEX, s, i);
    var m := Match(SUBNET_REGEX, s, i);
    if m.Some? { OrderedWithin(i, m.value, |s|); } else if i < |s| { FindShape(s, i + 1); }
  }

  // ---------------------------------------------------------------------------------------------
  // Nothing matches across the directory part of a key

  /** Characters no repeated item of the expression accepts. */
  predicate Barrier(c: char)
  {
    !Class.Hex.Has(c)
  }

  /** Between two single-character items there is always a repeated one. */
  predicate Isolated(r: Regex)
  {
    match r
    case Eos => true
    case One(_, next) => next.Plus? && Isolated(next)
    case Plus(cls, next) => (cls.Digit? || cls.Hex?) && Isolated(next)
    case Maybe(next) => Isolated(next)
  }

  /** So no match covers two barrier characters in a row. */
  lemma {:induction false} NoAdjacentBarriers(r: Regex, s: string, i: nat, p: nat)
    requires Isolated(r) && i <= p && p + 1 < |s|
    requires Barrier(s[p]) && Barrier(s[p + 1])
    ensures Match(r, s, i).None?
    decreases r, 0
  {
    match r
    case Eos =>
    case One(_, next) =>
      if i < p {
        NoAdjacentBarriers(next, s, i + 1, p);
      } else if next.Plus? {
        assert RunEnd(next.cls, s, i + 1) == i + 1;
        assert Match(next, s, i + 1).None?;
      }
    case Plus(cls, next) =>
      assert RunEnd(cls, s, i) <= p;
      NoAdjacentBarriersPlus(next, s, i, RunEnd(cls, s, i), p);
    case Maybe(next) => NoAdjacentBarriers(next, s, i, p);
  }

  lemma {:induction false} NoAdjacentBarriersPlus(next: Regex, s: string, i: nat, e: nat, p: nat)
    requires Isolated(next) && i <= e <= p && p + 1 < |s|
    requires Barrier(s[p]) && Barrier(s[p + 1])
    ensures MatchPlus(next, s, i, e).None?
    decreases next, e + 1
  {
    if e > i {
      NoAdjacentBarriers(next, s, e, p);
      NoAdjacentBarriersPlus(next, s, i, e - 1, p);
    }
  }

  const SUBNETS := "/subnets/"

  /** No match starts inside a directory part that ends in `/subnets/`. */
  lemma NoEarlyMatch(path: string, key: string, i: nat)
    requires i < |path + SUBNETS|
    ensures Match(SUBNET_REGEX, path + SUBNETS + key, i).None?
  {
    var s := path + SUBNETS + key;
    var p := |path| + 1;
    assert s[p] == 's' && s[p + 1] == 'u';
    if i <= p {
      NoAdjacentBarriers(SUBNET_REGEX, s, i, p);
    } else {
      assert s[i] == SUBNETS[i - |path|];
      assert !IsDigit(s[i]);
      assert SUBNET_REGEX == Plus(Digit, One(Literal('.'), LAST_FIELDS));
      assert RunEnd(Digit, s, i) == i;
    }
  }

  lemma {:induction false} FindSkips(s: string, i: nat, b: nat)
    requires i <= b <= |s|
    requires forall j :: i <= j < b ==> Match(SUBNET_REGEX, s, j).None?
    requires Match(SUBNET_REGEX, s, b).Some?
    ensures Find(s, i) == Some((b, Match(SUBNET_REGEX, s, b).value))
    decreases b - i
  {
    if i < b { FindSkips(s, i + 1, b); }
  }

  // ---------------------------------------------------------------------------------------------
  // The round trip

  /** A repeated digit item over a maximal run of digits takes the whole run. */
  lemma GreedyDigits(next: Regex, s: string, i: nat, e: nat)
    requires i < e <= |s|
    requires forall p :: i <= p < e ==> IsDigit(s[p])
    requires e < |s| ==> !IsDigit(s[e])
    requires Match(next, s, e).Some?
    ensures Match(Plus(Digit, next), s, i) == Some([e] + Match(next, s, e).value)
  {
    RunIs(s, i, e);
  }

  lemma {:induction false} RunIs(s: string, i: nat, e: nat)
    requires i <= e <= |s|
    requires forall p :: i <= p < e ==> IsDigit(s[p])
    requires e < |s| ==> !IsDigit(s[e])
    ensures RunEnd(Digit, s, i) == e
    decreases e - i
  {
    if i < e { RunIs(s, i + 1, e); }
  }

  /** A digit field followed by a separator, then whatever the rest of the expression matches. */
  lemma FieldThenSeparator(cls: Class, next: Regex, s: string, i: nat, e: nat)
    requires i < e < |s|
    requires forall p :: i <= p < e ==> IsDigit(s[p])
    requires !IsDigit(s[e]) && cls.Has(s[e])
    requires Match(next, s, e + 1).Some?
    ensures Match(Plus(Digit, One(cls, next)), s, i) == Some([e, e + 1] + Match(next, s, e + 1).value)
  {
    GreedyDigits(One(cls, next), s, i, e);
    assert [e] + ([e + 1] + Match(next, s, e + 1).value) == [e, e + 1] + Match(next, s, e + 1).value;
  }

  /** The ends of the five fields of a key that starts at `b` and of the separators between them. */
  lemma MatchKey(s: string, b: nat, e0: nat, e1: nat, e2: nat, e3: nat)
    requires b < e0 && e0 + 1 < e1 && e1 + 1 < e2 && e2 + 1 < e3 && e3 + 1 < |s|
    requires forall p :: b <= p < |s| && p != e0 && p != e1 && p != e2 && p != e3 ==> IsDigit(s[p])
    requires s[e0] == '.' && s[e1] == '.' && s[e2] == '.' && s[e3] == '-'
    ensures Match(SUBNET_REGEX, s, b) == Some([e0, e0 + 1, e1, e1 + 1, e2, e2 + 1, e3, e3 + 1, |s|])
  {
    MatchLastFields(s, e0 + 1, e1, e2, e3);
    FieldThenSeparator(Literal('.'), LAST_FIELDS, s, b, e0);
    assert [e0, e0 + 1] + [e1, e1 + 1, e2, e2 + 1, e3, e3 + 1, |s|]
        == [e0, e0 + 1, e1, e1 + 1, e2, e2 + 1, e3, e3 + 1, |s|];
  }

  lemma MatchLastFields(s: string, i: nat, e1: nat, e2: nat, e3: nat)
    requires i < e1 && e1 + 1 < e2 && e2 + 1 < e3 && e3 + 1 < |s|
    requires forall p :: i <= p < |s| && p != e1 && p != e2 && p != e3 ==> IsDigit(s[p])
    requires s[e1] == '.' && s[e2] == '.' && s[e3] == '-'
    ensures Match(LAST_FIELDS, s, i) == Some([e1, e1 + 1, e2, e2 + 1, e3, e3 + 1, |s|])
  {
    var r2 := Plus(Digit, One(Any, LAST_FIELD));
    assert LAST_FIELDS == Plus(Digit, One(Any, r2));
    MatchLastField(s, e2 + 1, e3);
    FieldThenSeparator(Any, LAST_FIELD, s, e1 + 1, e2);
    FieldThenSeparator(Any, r2, s, i, e1);
    assert [e2, e2 + 1] + [e3, e3 + 1, |s|] == [e2, e2 + 1, e3, e3 + 1, |s|];
    assert [e1, e1 + 1] + [e2, e2 + 1, e3, e3 + 1, |s|] == [e1, e1 + 1, e2, e2 + 1, e3, e3 + 1, |s|];
  }

  lemma MatchLastField(s: string, i: nat, e: nat)
    requires i < e && e + 1 < |s| && s[e] == '-'
    requires forall p :: i <= p < |s| && p != e ==> IsDigit(s[p])
    ensures Match(LAST_FIELD, s, i) == Some([e, e + 1, |s|])
  {
    assert Match(V6_TAIL, s, |s|) == Some([]);
    GreedyDigits(V6_TAIL, s, e + 1, |s|);
    assert PREFIX_LEN == Plus(Digit, V6_TAIL) && [|s|] + [] == [|s|];
    assert Match(PREFIX_LEN, s, e + 1) == Some([|s|]);
    FieldThenSeparator(Literal('-'), PREFIX_LEN, s, i, e);
    assert [e, e + 1] + [|s|] == [e, e + 1, |s|];
  }

  /** Where the separators of a made key are, and that everything else is a digit. */
  lemma KeyLayout(n: Net) returns (e0: nat, e1: nat, e2: nat, e3: nat)
    ensures var k := MakeSubnetKey(n);
      && 0 < e0 && e0 + 1 < e1 && e1 + 1 < e2 && e2 + 1 < e3 && e3 + 1 < |k|
      && (forall p :: 0 <= p < |k| && p != e0 && p != e1 && p != e2 && p != e3 ==> IsDigit(k[p]))
      && k[e0] == '.' && k[e1] == '.' && k[e2] == '.' && k[e3] == '-'
      && k[..e3] == Dotted(n.ip) && k[e3 + 1..] == Dec(n.len)
  {
    var os := Octets(n.ip);
    var a, b, c, d, l := Dec(os[0]), Dec(os[1]), Dec(os[2]), Dec(os[3]), Dec(n.len);
    var k := MakeSubnetKey(n);
    assert Join(os[3..]) == d;
    assert os[2..][1..] == os[3..] && os[1..][1..] == os[2..];
    assert Join(os[2..]) == c + "." + d;
    assert Join(os[1..]) == b + "." + (c + "." + d);
    assert Dotted(n.ip) == a + "." + (b + "." + (c + "." + d));
    e0 := |a|;
    e1 := e0 + 1 + |b|;
    e2 := e1 + 1 + |c|;
    e3 := e2 + 1 + |d|;
    assert k == a + "." + b + "." + c + "." + d + "-" + l;
  }

  /** Parsing the key made for a block, under any directory ending in `/subnets/`, gives the block back. */
  lemma KeyRoundTrip(path: string, n: Net)
    ensures n.len <= 31 ==> ParseSubnetKey(path + SUBNETS + MakeSubnetKey(n)) == V4(n)
    ensures n.len == 32 ==> ParseSubnetKey(path + SUBNETS + MakeSubnetKey(n)) == Bad
  {
    var s := path + SUBNETS + MakeSubnetKey(n);
    var start, ends := FindKey(path, n);
    DottedRoundTrip(n.ip);
    DecRoundTrip(n.len);
  }

  /** The match found in a key captures the dotted address and the prefix length, and no IPv6 part. */
  lemma FindKey(path: string, n: Net) returns (start: nat, ends: seq<nat>)
    ensures var s := path + SUBNETS + MakeSubnetKey(n);
      && Find(s, 0) == Some((start, ends))
      && |ends| == 9 && start <= ends[6] <= ends[7] <= ends[8] <= |s|
      && s[start..ends[6]] == Dotted(n.ip) && s[ends[7]..ends[8]] == Dec(n.len)
  {
    var k := MakeSubnetKey(n);
    var s := path + SUBNETS + k;
    var b := |path + SUBNETS|;
    hide Match, Find, Dec, Dotted, MakeSubnetKey;
    var e0, e1, e2, e3 := KeyLayout(n);
    assert forall p :: b <= p < |s| ==> s[p] == k[p - b];
    MatchKey(s, b, b + e0, b + e1, b + e2, b + e3);
    forall j | 0 <= j < b ensures Match(SUBNET_REGEX, s, j).None? { NoEarlyMatch(path, k, j); }
    FindSkips(s, 0, b);
    start, ends := b, Match(SUBNET_REGEX, s, b).value;
    assert s[b..b + e3] == k[..e3];
    assert s[b + e3 + 1..|s|] == k[e3 + 1..];
  }

  /** Distinct blocks have distinct keys, so a key that is absent from the registry guards its block. */
  lemma KeysAreDistinct(m: Net, n: Net)
    requires m.len <= 31 && n.len <= 31
    ensures MakeSubnetKey(m) == MakeSubnetKey(n) <==> m == n
  {
    KeyRoundTrip("", m);
    KeyRoundTrip("", n);
  }
}
