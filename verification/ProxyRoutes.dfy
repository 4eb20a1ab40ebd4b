/**
  The route table of the UDP proxy (set_route, del_route, find_route and process_cmd in
  pkg/backend/udp/proxy_amd64.c): an array that doubles when full, fills a deleted slot with its last
  entry, and moves every entry it finds to the front.  It is proved to refine a map from destination
  (network and mask) to next hop.

  Addresses are written as numbers in one byte order throughout; masking commutes with swapping bytes.
 */
module ProxyRoutes {
  import opened Ip4

  datatype Destination = Destination(ip: Addr, mask: Addr)

  datatype Hop = Hop(ip: Addr, port: nat)

  datatype Entry = Entry(dst: Destination, hop: Hop)

  datatype Errno = OK | ENOMEM | ENOENT

  predicate Contains(d: Destination, a: Addr)
  {
    d.ip == BitAnd(a, d.mask)
  }

  /** A list of entries, no two for one destination, that holds exactly the routes of a map. */
  ghost predicate Represents(es: seq<Entry>, m: map<Destination, Hop>)
  {
    && (forall i, j :: 0 <= i < j < |es| ==> es[i].dst != es[j].dst)
    && (forall i :: 0 <= i < |es| ==> es[i].dst in m && m[es[i].dst] == es[i].hop)
    && (forall d :: d in m ==> exists i :: 0 <= i < |es| && es[i].dst == d)
  }

  /** A route the map offers for an address, or none if it offers none. */
  ghost predicate Answers(m: map<Destination, Hop>, a: Addr, r: Option<Hop>)
  {
    if r.None? then forall d :: d in m ==> !Contains(d, a)
    else exists d :: d in m && Contains(d, a) && m[d] == r.value
  }

  class RouteTable {
    var routes: array<Entry>
    var count: nat
    var exit: bool
    ghost var table: map<Destination, Hop>

    ghost predicate Valid()
      reads this, routes
    {
      count <= routes.Length && Represents(routes[..count], table)
    }

    constructor ()
      ensures Valid() && fresh(routes) && table == map[] && !exit
    {
      routes := new Entry[0];
      count, exit, table := 0, false, map[];
    }

    /** The position of the entry for a destination, or the number of entries. */
    method IndexOf(dst: Destination) returns (i: nat)
      requires Valid()
      ensures i <= count && (i < count ==> routes[i].dst == dst)
      ensures i < count <==> dst in table
    {
      i := 0;
      while i < count && routes[i].dst != dst
        invariant i <= count && forall j :: 0 <= j < i ==> routes[j].dst != dst
      {
        i := i + 1;
      }
      if i < count { assert routes[..count][i].dst in table; }
    }

    /** The route is set unless it is new, the array is full and there is no memory to double it. */
    method SetRoute(dst: Destination, hop: Hop, memory: bool) returns (err: Errno)
      requires Valid()
      modifies this, routes
      ensures Valid() && (routes == old(routes) || fresh(routes)) && exit == old(exit)
      ensures err == OK || err == ENOMEM
      ensures err == ENOMEM <==> !memory && dst !in old(table) && old(count == routes.Length)
      ensures table == if err == OK then old(table)[dst := hop] else old(table)
      ensures routes.Length ==
        if dst in old(table) || old(count < routes.Length) || !memory then old(routes.Length)
        else if old(count) == 0 then 8 else 2 * old(count)
    {
      hide Represents;
      var i := IndexOf(dst);
      ghost var before := routes[..count];
      if i < count {
        routes[i] := Entry(dst, hop);
        table := table[dst := hop];
        assert routes[..count] == before[i := Entry(dst, hop)];
        RepresentsUpdate(before, old(table), i, hop);
        return OK;
      }
      if routes.Length == count {
        if !memory { return ENOMEM; }
        Grow(Entry(dst, hop));
      }
      routes[count] := Entry(dst, hop);
      count := count + 1;
      table := table[dst := hop];
      assert routes[..count] == before + [Entry(dst, hop)];
      RepresentsAppend(before, old(table), Entry(dst, hop));
      return OK;
    }

    /** `realloc` to 8 entries or twice the size; `filler` stands for the bytes not written yet. */
    method Grow(filler: Entry)
      requires count == routes.Length
      modifies this`routes
      ensures fresh(routes) && routes.Length == if count == 0 then 8 else 2 * count
      ensures routes[..count] == old(routes[..count])
    {
      var larger := new Entry[if count == 0 then 8 else 2 * count](_ => filler);
      for j := 0 to count
        modifies larger
        invariant larger[..j] == routes[..j]
      {
        larger[j] := routes[j];
      }
      routes := larger;
    }

    method DelRoute(dst: Destination) returns (err: Errno)
      requires Valid()
      modifies this, routes
      ensures Valid() && routes == old(routes) && exit == old(exit)
      ensures err == if dst in old(table) then OK else ENOENT
      ensures table == old(table) - {dst}
    {
      var i := IndexOf(dst);
      if i == count { return ENOENT; }
      ghost var before := routes[..count];
      routes[i] := routes[count - 1];
      count := count - 1;
      table := table - {dst};
      assert routes[..count] == before[i := before[|before| - 1]][..|before| - 1];
      RepresentsDelete(before, old(table), i);
      return OK;
    }

    /** A lookup answers from the map and moves what it found to the front, which leaves the map alone. */
    method FindRoute(a: Addr) returns (r: Option<Hop>)
      requires Valid()
      modifies this, routes
      ensures Valid() && routes == old(routes) && exit == old(exit) && table == old(table)
      ensures Answers(table, a, r)
      ensures r == FirstMatch(old(routes[..count]), a)
    {
      var i := 0;
      ghost var before := routes[..count];
      while i < count && !Contains(routes[i].dst, a)
        invariant i <= count && FirstMatch(before, a) == FirstMatch(before[i..], a)
        invariant forall j :: 0 <= j < i ==> !Contains(routes[j].dst, a)
      {
        assert before[i..][1..] == before[i + 1..];
        i := i + 1;
      }
      FirstMatchAnswers(before, table, a);
      if i == count { return None; }
      if i != 0 {
        routes[i], routes[0] := routes[0], routes[i];
        assert routes[..count] == before[i := before[0]][0 := before[i]];
        RepresentsSwap(before, table, i);
      }
      return Some(routes[0].hop);
    }

    /** A control message: set or delete the route of a masked destination, or stop. */
    method ProcessCmd(c: Command, memory: bool)
      requires Valid() && (c.Stop? || c.Unknown? || 0 < c.len <= 32)
      modifies this, routes
      ensures Valid() && (routes == old(routes) || fresh(routes))
      ensures exit == (old(exit) || c.Stop?)
      ensures State() == Obeyed(old(State()), c, memory)
    {
      hide Represents, Masked;
      RepresentsSize(routes[..count], table);
      match c
      case SetRoute(net, len, hop) =>
        var _ := SetRoute(Masked(net, len), hop, memory);
      case DelRoute(net, len) =>
        var _ := DelRoute(Masked(net, len));
      case Stop => exit := true;
      case Unknown =>
    }

    /** The map, and how many routes the array has room for. */
    ghost function State(): Standing
      reads this
    {
      Standing(table, routes.Length)
    }

    /**
      A run of commands, each with memory to grow or without, and lookups: the table ends as the map does,
      and every lookup is answered from the map as it stood then.
     */
    method Serve(ops: seq<Operation>) returns (answers: seq<Option<Hop>>)
      requires Valid() && forall i :: 0 <= i < |ops| ==> ops[i].Ok()
      modifies this, routes
      ensures Valid() && (routes == old(routes) || fresh(routes))
      ensures State() == Replayed(old(State()), ops)
      ensures |answers| == |ops|
      ensures forall i :: 0 <= i < |ops| && ops[i].Lookup? ==>
        Answers(Replayed(old(State()), ops[..i]).routes, ops[i].addr, answers[i])
      ensures old(table) == map[] && MemoryAlways(ops) ==> Remembers(table, ops)
      ensures old(table) == map[] && MemoryAlways(ops) ==>
        forall i :: 0 <= i < |ops| && ops[i].Lookup? && BlocksApart(ops[..i]) ==>
          LastSetAnswers(ops[..i], ops[i].addr, answers[i])
    {
      hide Answers, Represents, Replayed, Obeyed, Remembers, LastSetAnswers, BlocksApart;
      answers := [];
      ReplayedNone(State());
      for n := 0 to |ops|
        invariant Valid() && (routes == old(routes) || fresh(routes)) && |answers| == n
        invariant State() == Replayed(old(State()), ops[..n])
        invariant forall i :: 0 <= i < n && ops[i].Lookup? ==>
          Answers(Replayed(old(State()), ops[..i]).routes, ops[i].addr, answers[i])
      {
        var r := None;
        ghost var now := table;
        match ops[n] {
          case Lookup(a) => r := FindRoute(a);
          case Control(c, memory) => ProcessCmd(c, memory);
        }
        assert ops[n].Lookup? ==> Answers(now, ops[n].addr, r);
        ReplayedStep(old(State()), ops[..n + 1]);
        assert ops[..n + 1][..n] == ops[..n];
        answers := answers + [r];
      }
      assert ops[..|ops|] == ops;
      if old(table) == map[] && MemoryAlways(ops) {
        forall n | 0 <= n <= |ops| ensures Remembers(Replayed(old(State()), ops[..n]).routes, ops[..n]) {
          ReplayRemembers(old(State()), ops[..n]);
        }
        forall i | 0 <= i < |ops| && ops[i].Lookup? && BlocksApart(ops[..i])
          ensures LastSetAnswers(ops[..i], ops[i].addr, answers[i])
        {
          AnswersLastSet(Replayed(old(State()), ops[..i]).routes, ops[..i], ops[i].addr, answers[i]);
        }
      }
    }
  }

  /** What the linear search returns: the hop of the first entry that contains the address. */
  function FirstMatch(es: seq<Entry>, a: Addr): Option<Hop>
  {
    if es == [] then None
    else if Contains(es[0].dst, a) then Some(es[0].hop)
    else FirstMatch(es[1..], a)
  }

  datatype Command =
    | SetRoute(net: Addr, len: nat, hop: Hop)
    | DelRoute(net: Addr, len: nat)
    | Stop
    | Unknown

  /** `netmask(len)` and the network address under it. */
  function Masked(net: Addr, len: nat): Destination
  {
    var mask := if len <= 32 then Shl32(0xFFFF_FFFF, 32 - len) else 0;
    BitAndBound(net, mask);
    Destination(BitAnd(net, mask), mask)
  }

  datatype Standing = Standing(routes: map<Destination, Hop>, room: nat)

  /** What a command makes of the map: a new route needs room, or memory to double it. */
  function Obeyed(t: Standing, c: Command, memory: bool): Standing
  {
    match c
    case SetRoute(net, len, hop) =>
      var d := Masked(net, len);
      if d in t.routes || |t.routes| < t.room then t.(routes := t.routes[d := hop])
      else if memory then Standing(t.routes[d := hop], if t.room == 0 then 8 else 2 * t.room)
      else t
    case DelRoute(net, len) => t.(routes := t.routes - {Masked(net, len)})
    case _ => t
  }

  datatype Operation = Lookup(addr: Addr) | Control(command: Command, memory: bool) {
    predicate Ok()
    {
      Control? && (command.SetRoute? || command.DelRoute?) ==> 0 < command.len <= 32
    }
  }

  function Replayed(t: Standing, ops: seq<Operation>): Standing
  {
    if ops == [] then t
    else
      var before, last := Replayed(t, ops[..|ops| - 1]), ops[|ops| - 1];
      if last.Lookup? then before else Obeyed(before, last.command, last.memory)
  }

  lemma ReplayedNone(t: Standing)
    ensures Replayed(t, []) == t
  {
  }

  lemma ReplayedStep(t: Standing, ops: seq<Operation>)
    requires ops != []
    ensures var before, last := Replayed(t, ops[..|ops| - 1]), ops[|ops| - 1];
      Replayed(t, ops) == if last.Lookup? then before else Obeyed(before, last.command, last.memory)
  {
  }

  // ---------------------------------------------------------------------------------------------
  // Lists of entries

  lemma RepresentsUpdate(es: seq<Entry>, m: map<Destination, Hop>, i: nat, hop: Hop)
    requires Represents(es, m) && i < |es|
    ensures Represents(es[i := Entry(es[i].dst, hop)], m[es[i].dst := hop])
  {
    var after := es[i := Entry(es[i].dst, hop)];
    var m' := m[es[i].dst := hop];
    forall d | d in m' ensures exists j :: 0 <= j < |after| && after[j].dst == d {
      var j :| 0 <= j < |es| && es[j].dst == d;
      assert after[j].dst == d;
    }
  }

  lemma RepresentsAppend(es: seq<Entry>, m: map<Destination, Hop>, e: Entry)
    requires Represents(es, m) && e.dst !in m
    ensures Represents(es + [e], m[e.dst := e.hop])
  {
    var after := es + [e];
    var m' := m[e.dst := e.hop];
    forall d | d in m' ensures exists j :: 0 <= j < |after| && after[j].dst == d {
      if d == e.dst {
        assert after[|es|].dst == d;
      } else {
        var j :| 0 <= j < |es| && es[j].dst == d;
        assert after[j].dst == d;
      }
    }
  }

  lemma RepresentsDelete(es: seq<Entry>, m: map<Destination, Hop>, i: nat)
    requires Represents(es, m) && i < |es|
    ensures Represents(es[i := es[|es| - 1]][..|es| - 1], m - {es[i].dst})
  {
    var n := |es| - 1;
    var after := es[i := es[n]][..n];
    forall d | d in m - {es[i].dst} ensures exists j :: 0 <= j < |after| && after[j].dst == d {
      var j :| 0 <= j < |es| && es[j].dst == d;
      assert after[if j == n then i else j].dst == d;
    }
  }

  /** The array has as many entries as the map has routes. */
  lemma {:induction false} RepresentsSize(es: seq<Entry>, m: map<Destination, Hop>)
    requires Represents(es, m)
    ensures |es| == |m|
  {
    if es == [] {
      assert m == map[] by { assert forall d :: d !in m; }
    } else {
      var n := |es| - 1;
      RepresentsDelete(es, m, n);
      assert es[n := es[n]] == es;
      RepresentsSize(es[..n], m - {es[n].dst});
      assert (m - {es[n].dst}).Keys == m.Keys - {es[n].dst} && es[n].dst in m;
    }
  }

  lemma RepresentsSwap(es: seq<Entry>, m: map<Destination, Hop>, i: nat)
    requires Represents(es, m) && 0 < i < |es|
    ensures Represents(es[i := es[0]][0 := es[i]], m)
  {
    var after := es[i := es[0]][0 := es[i]];
    forall d | d in m ensures exists j :: 0 <= j < |after| && after[j].dst == d {
      var j :| 0 <= j < |es| && es[j].dst == d;
      assert after[if j == 0 then i else if j == i then 0 else j].dst == d;
    }
  }

  lemma FirstMatchAnswers(es: seq<Entry>, m: map<Destination, Hop>, a: Addr)
    requires Represents(es, m)
    ensures Answers(m, a, FirstMatch(es, a))
  {
    var i := FirstMatchAt(es, a);
    if i == |es| {
      forall d | d in m ensures !Contains(d, a) { var j :| 0 <= j < |es| && es[j].dst == d; }
    } else {
      assert es[i].dst in m && Contains(es[i].dst, a);
    }
  }

  lemma {:induction false} FirstMatchAt(es: seq<Entry>, a: Addr) returns (i: nat)
    ensures i <= |es| && forall j :: 0 <= j < i ==> !Contains(es[j].dst, a)
    ensures i < |es| ==> Contains(es[i].dst, a) && FirstMatch(es, a) == Some(es[i].hop)
    ensures i == |es| ==> FirstMatch(es, a) == None
  {
    if es == [] || Contains(es[0].dst, a) {
      i := 0;
    } else {
      var k := FirstMatchAt(es[1..], a);
      i := k + 1;
      assert forall j :: 1 <= j < i ==> es[j] == es[1..][j - 1];
    }
  }

  // ---------------------------------------------------------------------------------------------
  // When the order of the array does not show

  /** All routes of the map that contain the address lead to one next hop. */
  ghost predicate Agree(m: map<Destination, Hop>, a: Addr)
  {
    forall d, e :: d in m && e in m && Contains(d, a) && Contains(e, a) ==> m[d] == m[e]
  }

  /** When they do, a lookup has one answer. */
  lemma OneAnswer(m: map<Destination, Hop>, a: Addr, r: Option<Hop>, r': Option<Hop>)
    requires Agree(m, a) && Answers(m, a, r) && Answers(m, a, r')
    ensures r == r'
  {
  }

  ghost predicate OrderDoesNotMatter(m: map<Destination, Hop>, a: Addr)
  {
    forall es, fs :: Represents(es, m) && Represents(fs, m) ==> FirstMatch(es, a) == FirstMatch(fs, a)
  }

  /**
    Lookups reorder the array, so an answer may depend on earlier lookups.  It does not exactly when all
    routes containing the address agree; pairwise disjoint destinations always do.
   */
  lemma OrderDoesNotMatterIff(m: map<Destination, Hop>, a: Addr)
    ensures OrderDoesNotMatter(m, a) <==> Agree(m, a)
  {
    if Agree(m, a) {
      forall es, fs | Represents(es, m) && Represents(fs, m)
        ensures FirstMatch(es, a) == FirstMatch(fs, a)
      {
        FirstMatchAnswers(es, m, a);
        FirstMatchAnswers(fs, m, a);
      }
    } else {
      var d, e :| d in m && e in m && Contains(d, a) && Contains(e, a) && m[d] != m[e];
      var es := ListedFirst(m, d);
      var fs := ListedFirst(m, e);
      assert FirstMatch(es, a) != FirstMatch(fs, a);
    }
  }

  lemma ListedFirst(m: map<Destination, Hop>, d: Destination) returns (es: seq<Entry>)
    requires d in m
    ensures Represents(es, m) && es != [] && es[0] == Entry(d, m[d])
  {
    var rest := m - {d};
    var tail := Listed(rest);
    es := [Entry(d, m[d])] + tail;
    forall k | k in m ensures exists j :: 0 <= j < |es| && es[j].dst == k {
      if k == d {
        assert es[0].dst == k;
      } else {
        assert k in rest;
        var j :| 0 <= j < |tail| && tail[j].dst == k;
        assert es[j + 1].dst == k;
      }
    }
  }

  lemma {:induction false} Listed(m: map<Destination, Hop>) returns (es: seq<Entry>)
    ensures Represents(es, m)
    decreases |m|
  {
    if m == map[] {
      es := [];
    } else {
      var d :| d in m;
      var rest := m - {d};
      assert rest.Keys == m.Keys - {d};
      var front := Listed(rest);
      es := front + [Entry(d, m[d])];
      RepresentsAppend(front, rest, Entry(d, m[d]));
      assert rest[d := m[d]] == m;
    }
  }

  lemma DisjointRoutesAgree(m: map<Destination, Hop>, a: Addr)
    requires forall d, e :: d in m && e in m && d != e ==> forall b: Addr :: !(Contains(d, b) && Contains(e, b))
    ensures Agree(m, a)
  {
  }

  /** The destination of a command contains the addresses of the block it names. */
  lemma MaskedContains(net: Addr, len: PrefixLen, a: Addr)
    ensures Contains(Masked(net, len), a) <==> Net(net, len).Contains(a)
  {
    assert Net(net, len).Bits() == 32 - len;
  }

  // ---------------------------------------------------------------------------------------------
  // What a run of commands comes to, block by block

  /** The array key of a block: its first address and its mask. */
  function Dest(b: Net): Destination
  {
    Destination(FirstAddr(b), b.Mask())
  }

  function FirstAddr(b: Net): Addr
  {
    ContainsIffInBlock(b, b.ip);
    b.First()
  }

  predicate SameBlock(b: Net, c: Net)
  {
    b.len == c.len && b.First() == c.First()
  }

  lemma DestIsBlock(b: Net, c: Net)
    ensures Dest(b) == Dest(c) <==> SameBlock(b, c)
  {
    MaskOrder(b, c);
    MaskOrder(c, b);
  }

  lemma MaskedIsDest(net: Addr, len: PrefixLen)
    ensures Masked(net, len) == Dest(Net(net, len))
  {
    MaskedValue(Net(net, len), net);
    assert Net(net, len).Bits() == 32 - len;
  }

  /** The block a command is about. */
  function BlockOf(o: Operation): Option<Net>
    requires o.Ok()
  {
    if o.Control? && (o.command.SetRoute? || o.command.DelRoute?) then Some(Net(o.command.net, o.command.len)) else None
  }

  predicate Names(o: Operation, b: Net)
  {
    o.Ok() && BlockOf(o).Some? && SameBlock(BlockOf(o).value, b)
  }

  /** The last command that names the block sets it to the hop. */
  predicate LastSets(ops: seq<Operation>, b: Net, hop: Hop)
  {
    exists i :: 0 <= i < |ops| && SetsLast(ops, i, b, hop)
  }

  predicate SetsLast(ops: seq<Operation>, i: nat, b: Net, hop: Hop)
    requires i < |ops|
  {
    && Names(ops[i], b) && ops[i].command.SetRoute? && ops[i].command.hop == hop
    && forall j :: i < j < |ops| ==> !Names(ops[j], b)
  }

  predicate MemoryAlways(ops: seq<Operation>)
  {
    forall i :: 0 <= i < |ops| && ops[i].Control? ==> ops[i].memory
  }

  predicate Routed(table: map<Destination, Hop>, b: Net, hop: Hop)
  {
    Dest(b) in table && table[Dest(b)] == hop
  }

  /** The routes are those of the blocks whose last command set them, and no others. */
  ghost predicate Remembers(table: map<Destination, Hop>, ops: seq<Operation>)
  {
    && (forall b: Net, hop :: Routed(table, b, hop) <==> LastSets(ops, b, hop))
    && (forall d :: d in table ==> exists b: Net :: d == Dest(b))
  }

  lemma LastSetsMore(ops: seq<Operation>, b: Net, hop: Hop)
    requires ops != []
    ensures var n := |ops| - 1; LastSets(ops, b, hop) <==>
      if Names(ops[n], b) then ops[n].command.SetRoute? && ops[n].command.hop == hop else LastSets(ops[..n], b, hop)
  {
    hide SameBlock;
    var n := |ops| - 1;
    var front := ops[..n];
    if Names(ops[n], b) {
      assert ops[n].command.SetRoute? && ops[n].command.hop == hop ==> SetsLast(ops, n, b, hop);
    } else {
      forall i | 0 <= i < n ensures SetsLast(ops, i, b, hop) <==> SetsLast(front, i, b, hop) {
        assert forall j :: 0 <= j < n ==> front[j] == ops[j];
      }
    }
  }

  /** From an empty table, with memory throughout. */
  lemma {:induction false} ReplayRemembers(t: Standing, ops: seq<Operation>)
    requires t.routes == map[] && MemoryAlways(ops) && forall i :: 0 <= i < |ops| ==> ops[i].Ok()
    ensures Remembers(Replayed(t, ops).routes, ops)
  {
    if ops == [] {
      assert Replayed(t, ops) == t;
    } else {
      var n := |ops| - 1;
      var front, o := ops[..n], ops[n];
      ReplayRemembers(t, front);
      ReplayedStep(t, ops);
      var before, after := Replayed(t, front).routes, Replayed(t, ops).routes;
      StepRemembers(Replayed(t, front), o);
      hide Replayed, Obeyed, Masked, Remembers, Names, Routed;
      RemembersMore(before, after, ops);
    }
  }

  /** One operation changes the route of the block it names and no other. */
  lemma StepRemembers(t: Standing, o: Operation)
    requires o.Ok() && (o.Control? ==> o.memory)
    ensures Stepped(t.routes, if o.Lookup? then t.routes else Obeyed(t, o.command, o.memory).routes, o)
  {
    var after := if o.Lookup? then t.routes else Obeyed(t, o.command, o.memory).routes;
    var block := BlockOf(o);
    if block.Some? { MaskedIsDest(o.command.net, o.command.len); }
    forall b: Net, hop
      ensures Routed(after, b, hop) <==>
        if Names(o, b) then o.command.SetRoute? && o.command.hop == hop else Routed(t.routes, b, hop)
    {
      if block.Some? { DestIsBlock(block.value, b); }
    }
  }

  ghost predicate Stepped(before: map<Destination, Hop>, after: map<Destination, Hop>, o: Operation)
  {
    && (forall b: Net, hop :: Routed(after, b, hop) <==>
          if Names(o, b) then o.command.SetRoute? && o.command.hop == hop else Routed(before, b, hop))
    && (forall d :: d in after ==> d in before || exists b: Net :: d == Dest(b))
  }

  lemma RemembersMore(before: map<Destination, Hop>, after: map<Destination, Hop>, ops: seq<Operation>)
    requires ops != [] && Remembers(before, ops[..|ops| - 1]) && Stepped(before, after, ops[|ops| - 1])
    ensures Remembers(after, ops)
  {
    hide Names, Routed, LastSets;
    forall b: Net, hop ensures Routed(after, b, hop) <==> LastSets(ops, b, hop) { LastSetsMore(ops, b, hop); }
  }

  /** Blocks that were set are the same or share no address. */
  ghost predicate BlocksApart(ops: seq<Operation>)
  {
    forall b: Net, c: Net, h, g :: LastSets(ops, b, h) && LastSets(ops, c, g) && b.Overlaps(c) ==> SameBlock(b, c)
  }

  /** The answer is the hop last set for the block that holds the address, and none if there is no such block. */
  ghost predicate LastSetAnswers(ops: seq<Operation>, a: Addr, r: Option<Hop>)
  {
    && (r.None? ==> forall b: Net, hop :: LastSets(ops, b, hop) ==> !b.Contains(a))
    && (r.Some? ==> forall b: Net, hop :: LastSets(ops, b, hop) && b.Contains(a) ==> r.value == hop)
    && (r.Some? ==> exists b: Net :: LastSets(ops, b, r.value) && b.Contains(a))
  }

  lemma DestContains(b: Net, a: Addr)
    ensures Contains(Dest(b), a) <==> b.Contains(a)
  {
    MaskedValue(b, a);
    MaskedValue(b, b.ip);
  }

  lemma AnswersLastSet(table: map<Destination, Hop>, ops: seq<Operation>, a: Addr, r: Option<Hop>)
    requires Remembers(table, ops) && BlocksApart(ops) && Answers(table, a, r)
    ensures LastSetAnswers(ops, a, r)
  {
    hide LastSets, Contains, Dest;
    forall b: Net, hop | LastSets(ops, b, hop) && b.Contains(a)
      ensures r.Some? && r.value == hop
    {
      assert Routed(table, b, hop);
      DestContains(b, a);
      var d :| d in table && Contains(d, a) && r.Some? && table[d] == r.value;
      var c: Net :| d == Dest(c);
      DestContains(c, a);
      assert Routed(table, c, r.value);
      OverlapsIffShareAddress(b, c);
      DestIsBlock(b, c);
    }
    if r.Some? {
      var d :| d in table && Contains(d, a) && table[d] == r.value;
      var c: Net :| d == Dest(c);
      DestContains(c, a);
      assert Routed(table, c, r.value);
      assert LastSets(ops, c, r.value) && c.Contains(a);
    }
  }
}
