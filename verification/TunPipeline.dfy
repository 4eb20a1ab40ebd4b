/**
  The transmit path of the mesh transport (pkg/backend/cloudflaremesh/tunbuffer.go and masque_linux.go):
  a fixed set of buffers goes round from the pool to the TUN reader, through the outbound queue to the
  MASQUE writer and back to the pool, while sessions come and go.  Buffers are shared memory: a slice
  names a buffer, and whoever holds one may overwrite what the others would see.
 */
module TunPipeline {
  import opened Ip4

  type Byte = b: int | 0 <= b < 256

  type Packet = seq<Byte>

  const HEADROOM := 1

  const OUTBOUND_QUEUE_DEPTH := 256

  const TUN_BUFFER_POOL_SIZE := OUTBOUND_QUEUE_DEPTH + 32

  /** A view of the first len bytes of a buffer, whose capacity is cap. */
  datatype Slice = Slice(id: nat, len: nat, cap: nat)

  /** What the free list becomes when a slice is put back: a full one, unless it is too small or the list is full. */
  function Recycled(free: seq<Slice>, count: nat, size: nat, buf: Slice): seq<Slice>
  {
    if buf.cap < size || |free| >= count then free else free + [buf.(len := size)]
  }

  function Fresh(count: nat, size: nat): seq<Slice>
  {
    seq(count, i requires i >= 0 => Slice(i, size, size))
  }

  class TunBufferPool {
    const count: nat
    const size: nat
    var free: seq<Slice>

    constructor (count: nat, mtu: nat)
      ensures this.count == count && size == mtu + 1 && free == Fresh(count, size)
    {
      this.count, this.size := count, mtu + HEADROOM;
      free := [];
      new;
      for i := 0 to count
        invariant free == Fresh(i, size)
      {
        free := free + [Slice(i, size, size)];
      }
    }

    /** Blocks while neither a buffer nor a cancellation is there; with both there, either may be picked. */
    method Get(cancelled: bool) returns (buf: Option<Slice>)
      requires free != [] || cancelled
      requires forall b :: b in free ==> size <= b.cap
      modifies this
      ensures buf.None? ==> cancelled && free == old(free)
      ensures buf.Some? ==> old(free) != [] && free == old(free)[1..] && buf.value == old(free)[0].(len := size)
    {
      var picked: bool := *;
      if free != [] && (!cancelled || picked) {
        buf := Some(free[0].(len := size));
        free := free[1..];
      } else {
        buf := None;
      }
    }

    method Put(buf: Slice)
      modifies this
      ensures free == Recycled(old(free), count, size, buf)
    {
      if buf.cap < size {
        return;
      }
      if |free| < count {
        free := free + [buf.(len := size)];
      }
    }
  }

  datatype Params = Params(count: nat, depth: nat, mtu: nat) {
    function Size(): nat
    {
      mtu + HEADROOM
    }
  }

  datatype Reader = Asking | Reading(buf: Slice) | Offering(buf: Slice) | Stopped

  datatype Writer = Down | Idle | Sending(buf: Slice)

  /** The logs: packets read from the TUN, handed to the MASQUE connection, and given up at cancellation. */
  datatype State = State(
    mem: map<nat, Packet>,
    free: seq<Slice>,
    reader: Reader,
    queue: seq<Slice>,
    closed: bool,
    writer: Writer,
    cancelled: bool,
    read: seq<Packet>,
    sent: seq<Packet>,
    dropped: seq<Packet>)

  /** Handover is a send that meets a waiting receiver, which is how an unbuffered queue works. */
  datatype Action =
    | Cancel
    | Get
    | GetCancelled
    | Read(packet: Packet)
    | ReadFails(junk: Packet)
    | Offer
    | OfferCancelled
    | Connect
    | Disconnect
    | Take
    | Handover
    | Send(scratch: Packet, failed: bool)

  function Zeroed(count: nat, size: nat): (mem: map<nat, Packet>)
    ensures forall i: nat :: i < count ==> i in mem && |mem[i]| == size
  {
    if count == 0 then map[] else Zeroed(count - 1, size)[count - 1 := seq(size, j => 0)]
  }

  function Init(p: Params): State
  {
    State(Zeroed(p.count, p.Size()), Fresh(p.count, p.Size()), Asking, [], false, Down, false, [], [], [])
  }

  /** The packet a slice shows: its bytes past the headroom. */
  function Shown(mem: map<nat, Packet>, s: Slice): Packet
  {
    if s.id in mem && HEADROOM <= s.len <= |mem[s.id]| then mem[s.id][HEADROOM..s.len] else []
  }

  /** The buffer after data has been copied in behind the headroom. */
  function Filled(mem: map<nat, Packet>, id: nat, data: Packet): map<nat, Packet>
  {
    if id in mem && HEADROOM + |data| <= |mem[id]|
    then mem[id := mem[id][..HEADROOM] + data + mem[id][HEADROOM + |data|..]]
    else mem
  }

  predicate Enabled(p: Params, s: State, a: Action)
  {
    match a
    case Cancel => true
    case Get => s.reader.Asking? && s.free != []
    case GetCancelled => s.reader.Asking? && s.cancelled
    case Read(packet) => s.reader.Reading? && |packet| <= p.mtu
    case ReadFails(junk) => s.reader.Reading? && |junk| <= p.mtu
    case Offer => s.reader.Offering? && |s.queue| < p.depth
    case OfferCancelled => s.reader.Offering? && s.cancelled
    case Connect => s.writer.Down? && !s.cancelled
    case Disconnect => s.writer.Idle?
    case Take => s.writer.Idle? && s.queue != []
    case Handover => s.reader.Offering? && s.writer.Idle? && s.queue == []
    case Send(scratch, _) => s.writer.Sending? && |scratch| == p.Size()
  }

  function After(p: Params, s: State, a: Action): State
    requires Enabled(p, s, a)
  {
    match a
    case Cancel => s.(cancelled := true)
    case Get => s.(free := s.free[1..], reader := Reading(s.free[0].(len := p.Size())))
    case GetCancelled => s.(reader := Stopped)
    case Read(packet) =>
      s.(mem := Filled(s.mem, s.reader.buf.id, packet),
         reader := Offering(s.reader.buf.(len := HEADROOM + |packet|)),
         read := s.read + [packet])
    case ReadFails(junk) =>
      s.(mem := Filled(s.mem, s.reader.buf.id, junk),
         free := Recycled(s.free, p.count, p.Size(), s.reader.buf), reader := Stopped, closed := true)
    case Offer => s.(queue := s.queue + [s.reader.buf], reader := Asking)
    case OfferCancelled =>
      s.(free := Recycled(s.free, p.count, p.Size(), s.reader.buf), reader := Stopped,
         dropped := s.dropped + [Shown(s.mem, s.reader.buf)])
    case Connect => s.(writer := Idle)
    case Disconnect => s.(writer := Down)
    case Take => s.(queue := s.queue[1..], writer := Sending(s.queue[0]))
    case Handover => s.(reader := Asking, writer := Sending(s.reader.buf))
    case Send(scratch, failed) =>
      s.(sent := s.sent + [Shown(s.mem, s.writer.buf)],
         mem := s.mem[s.writer.buf.id := scratch],
         free := Recycled(s.free, p.count, p.Size(), s.writer.buf),
         writer := if failed then Down else Idle)
  }

  /** The state a sequence of actions leads to, if every one of them could happen. */
  function Run(p: Params, acts: seq<Action>): Option<State>
  {
    if acts == [] then Some(Init(p))
    else
      match Run(p, acts[..|acts| - 1])
      case None => None
      case Some(s) => if Enabled(p, s, acts[|acts| - 1]) then Some(After(p, s, acts[|acts| - 1])) else None
  }

  function Ids(slices: seq<Slice>): (ids: seq<nat>)
    ensures |ids| == |slices|
  {
    seq(|slices|, i requires 0 <= i < |slices| => slices[i].id)
  }

  function ReaderHolds(s: State): seq<Slice>
  {
    if s.reader.Reading? || s.reader.Offering? then [s.reader.buf] else []
  }

  function WriterHolds(s: State): seq<Slice>
  {
    if s.writer.Sending? then [s.writer.buf] else []
  }

  /** Every holding of a buffer by a stage. */
  function Holdings(s: State): multiset<nat>
  {
    multiset(Ids(s.free)) + multiset(Ids(ReaderHolds(s))) + multiset(Ids(s.queue)) + multiset(Ids(WriterHolds(s)))
  }

  /** Each buffer is held exactly once, by one stage. */
  ghost predicate OneOwner(p: Params, s: State)
  {
    && (forall i: nat :: Holdings(s)[i] == if i < p.count then 1 else 0)
    && |s.free| + |ReaderHolds(s)| + |s.queue| + |WriterHolds(s)| == p.count
  }

  predicate FullLength(p: Params, slices: seq<Slice>)
  {
    forall b :: b in slices ==> b.len == b.cap == p.Size()
  }

  predicate HoldsPacket(p: Params, slices: seq<Slice>)
  {
    forall b :: b in slices ==> HEADROOM <= b.len <= p.Size() == b.cap
  }

  ghost predicate Shaped(p: Params, s: State)
  {
    && FullLength(p, s.free)
    && (s.reader.Reading? ==> s.reader.buf.len == s.reader.buf.cap == p.Size())
    && HoldsPacket(p, ReaderHolds(s)) && HoldsPacket(p, s.queue) && HoldsPacket(p, WriterHolds(s))
    && |s.queue| <= p.depth
    && (forall i: nat :: i < p.count ==> i in s.mem && |s.mem[i]| == p.Size())
  }

  function Packets(mem: map<nat, Packet>, slices: seq<Slice>): (r: seq<Packet>)
    ensures |r| == |slices|
  {
    seq(|slices|, i requires 0 <= i < |slices| => Shown(mem, slices[i]))
  }

  function Offered(s: State): seq<Slice>
  {
    if s.reader.Offering? then [s.reader.buf] else []
  }

  /** The slices that carry packets, oldest first. */
  function InFlight(s: State): seq<Slice>
  {
    WriterHolds(s) + s.queue + Offered(s)
  }

  /** Whatever was read has been sent, is in a buffer, or was given up, in that order. */
  predicate Accounted(s: State)
  {
    && s.read == s.sent + Packets(s.mem, InFlight(s)) + s.dropped
    && (s.dropped != [] ==> s.cancelled && s.reader.Stopped? && |s.dropped| == 1)
  }

  ghost predicate Inv(p: Params, s: State)
  {
    OneOwner(p, s) && Shaped(p, s) && Accounted(s)
  }

  lemma InitInv(p: Params)
    ensures Inv(p, Init(p))
  {
    hide Accounted;
    FreshOnce(p.count, p.Size());
    assert Accounted(Init(p)) by { NothingYet(p); }
  }

  lemma NothingYet(p: Params)
    ensures Accounted(Init(p))
  {
  }

  lemma {:induction false} FreshOnce(count: nat, size: nat)
    ensures forall i: nat :: multiset(Ids(Fresh(count, size)))[i] == if i < count then 1 else 0
  {
    if count == 0 {
      assert Ids(Fresh(0, size)) == [];
    } else {
      FreshOnce(count - 1, size);
      assert Ids(Fresh(count, size)) == Ids(Fresh(count - 1, size)) + [count - 1];
    }
  }

  lemma IdsFirst(slices: seq<Slice>)
    requires slices != []
    ensures multiset(Ids(slices)) == multiset{slices[0].id} + multiset(Ids(slices[1..]))
  {
    assert Ids(slices) == [slices[0].id] + Ids(slices[1..]);
  }

  lemma IdsAdded(slices: seq<Slice>, b: Slice)
    ensures multiset(Ids(slices + [b])) == multiset(Ids(slices)) + multiset{b.id}
  {
    assert Ids(slices + [b]) == Ids(slices) + [b.id];
  }

  lemma IdsOne(b: Slice)
    ensures multiset(Ids([b])) == multiset{b.id}
  {
    assert Ids([b]) == [b.id];
  }

  /** While somebody holds a buffer the free list has room for it: put never drops one. */
  lemma PutKeeps(p: Params, s: State, b: Slice)
    requires OneOwner(p, s) && b.cap == p.Size()
    requires ReaderHolds(s) != [] || WriterHolds(s) != []
    ensures Recycled(s.free, p.count, p.Size(), b) == s.free + [b.(len := p.Size())]
  {
  }

  predicate Returns(a: Action)
  {
    a.ReadFails? || a.OfferCancelled? || a.Send?
  }

  /** Moving a buffer on leaves the holdings as they were. */
  lemma MovesKeepHoldings(p: Params, s: State, a: Action)
    requires Enabled(p, s, a) && !Returns(a)
    ensures Holdings(After(p, s, a)) == Holdings(s)
  {
    hide Ids, Filled, Shown, Recycled;
    match a
    case Get => GetKeepsHoldings(p, s);
    case Read(packet) => ReadKeepsHoldings(p, s, packet);
    case Offer => OfferKeepsHoldings(p, s);
    case Take => TakeKeepsHoldings(p, s);
    case Handover => HandoverKeepsHoldings(p, s);
    case _ =>
  }

  lemma GetKeepsHoldings(p: Params, s: State)
    requires Enabled(p, s, Get)
    ensures Holdings(After(p, s, Get)) == Holdings(s)
  {
    hide Ids, Filled, Shown, Recycled;
    IdsFirst(s.free);
    IdsOne(s.free[0].(len := p.Size()));
  }

  lemma ReadKeepsHoldings(p: Params, s: State, packet: Packet)
    requires Enabled(p, s, Read(packet))
    ensures Holdings(After(p, s, Read(packet))) == Holdings(s)
  {
    hide Ids, Filled, Shown, Recycled;
    IdsOne(s.reader.buf);
    IdsOne(s.reader.buf.(len := HEADROOM + |packet|));
  }

  lemma OfferKeepsHoldings(p: Params, s: State)
    requires Enabled(p, s, Offer)
    ensures Holdings(After(p, s, Offer)) == Holdings(s)
  {
    hide Ids, Filled, Shown, Recycled;
    IdsAdded(s.queue, s.reader.buf);
    IdsOne(s.reader.buf);
  }

  lemma HandoverKeepsHoldings(p: Params, s: State)
    requires Enabled(p, s, Handover)
    ensures Holdings(After(p, s, Handover)) == Holdings(s)
  {
    hide Ids;
    IdsOne(s.reader.buf);
    assert multiset(Ids([])) == multiset{} by { assert Ids([]) == []; }
  }

  lemma TakeKeepsHoldings(p: Params, s: State)
    requires Enabled(p, s, Take)
    ensures Holdings(After(p, s, Take)) == Holdings(s)
  {
    hide Ids, Filled, Shown, Recycled;
    IdsFirst(s.queue);
    IdsOne(s.queue[0]);
    var free, held := multiset(Ids(s.free)), multiset(Ids(ReaderHolds(s)));
    LastTwo(free + held, multiset{s.queue[0].id}, multiset(Ids(s.queue[1..])));
    assert multiset(Ids([])) == multiset{} by { assert Ids([]) == []; }
  }

  lemma LastTwo(a: multiset<nat>, b: multiset<nat>, c: multiset<nat>)
    ensures a + (b + c) + multiset{} == a + c + b
  {
  }

  /** So does putting one back, since the pool never drops it. */
  lemma ReturnsKeepHoldings(p: Params, s: State, a: Action)
    requires OneOwner(p, s) && Shaped(p, s) && Enabled(p, s, a) && Returns(a)
    ensures Holdings(After(p, s, a)) == Holdings(s)
    ensures |After(p, s, a).free| == |s.free| + 1
  {
    var b := if a.Send? then s.writer.buf else s.reader.buf;
    assert b.cap == p.Size() by {
      if a.Send? { assert b in WriterHolds(s); } else { assert b in ReaderHolds(s); }
    }
    PutKeeps(p, s, b);
    hide *;
    ReturnedHoldings(p, s, a, b);
  }

  lemma ReturnedHoldings(p: Params, s: State, a: Action, b: Slice)
    requires Enabled(p, s, a) && Returns(a) && b == if a.Send? then s.writer.buf else s.reader.buf
    requires Recycled(s.free, p.count, p.Size(), b) == s.free + [b.(len := p.Size())]
    ensures Holdings(After(p, s, a)) == Holdings(s)
    ensures |After(p, s, a).free| == |s.free| + 1
  {
    hide Ids, Filled, Shown, Recycled;
    IdsAdded(s.free, b.(len := p.Size()));
    IdsOne(b);
  }

  lemma OwnerKept(p: Params, s: State, a: Action)
    requires OneOwner(p, s) && Shaped(p, s) && Enabled(p, s, a)
    ensures OneOwner(p, After(p, s, a))
  {
    hide *;
    if Returns(a) {
      ReturnsKeepHoldings(p, s, a);
      ReturnsKeepCount(p, s, a);
    } else {
      MovesKeepHoldings(p, s, a);
      MovesKeepCount(p, s, a);
    }
    SameHoldings(p, s, After(p, s, a));
  }

  predicate CountKept(s: State, s': State)
  {
    |s'.free| + |ReaderHolds(s')| + |s'.queue| + |WriterHolds(s')|
      == |s.free| + |ReaderHolds(s)| + |s.queue| + |WriterHolds(s)|
  }

  lemma ReturnsKeepCount(p: Params, s: State, a: Action)
    requires Enabled(p, s, a) && Returns(a) && |After(p, s, a).free| == |s.free| + 1
    ensures CountKept(s, After(p, s, a))
  {
    hide Recycled, Filled, Shown;
  }

  lemma MovesKeepCount(p: Params, s: State, a: Action)
    requires Enabled(p, s, a) && !Returns(a)
    ensures CountKept(s, After(p, s, a))
  {
    hide Recycled, Filled, Shown;
  }

  lemma SameHoldings(p: Params, s: State, s': State)
    requires OneOwner(p, s) && Holdings(s') == Holdings(s) && CountKept(s, s')
    ensures OneOwner(p, s')
  {
    hide Holdings, ReaderHolds, WriterHolds;
  }

  lemma ShapeKept(p: Params, s: State, a: Action)
    requires OneOwner(p, s) && Shaped(p, s) && Enabled(p, s, a)
    ensures Shaped(p, After(p, s, a))
  {
    hide Holdings, Shown;
    if a.Send? { assert s.writer.buf in WriterHolds(s); }
    if a.Offer? || a.Handover? || a.OfferCancelled? || a.ReadFails? { assert s.reader.buf in ReaderHolds(s); }
  }

  /** The buffer one stage holds is not held by another. */
  lemma HeldOnce(p: Params, s: State)
    requires OneOwner(p, s)
    ensures s.reader.Reading? || s.reader.Offering? ==>
      s.reader.buf.id < p.count && s.reader.buf.id !in Ids(s.queue) && s.reader.buf.id !in Ids(WriterHolds(s))
    ensures s.writer.Sending? ==>
      s.writer.buf.id < p.count && s.writer.buf.id !in Ids(s.queue) && s.writer.buf.id !in Ids(ReaderHolds(s))
  {
    hide Ids;
    if s.reader.Reading? || s.reader.Offering? {
      IdsOne(s.reader.buf);
      assert Holdings(s)[s.reader.buf.id] <= 1;
    }
    if s.writer.Sending? {
      IdsOne(s.writer.buf);
      assert Holdings(s)[s.writer.buf.id] <= 1;
    }
  }

  /** Writing to a buffer does not change what slices of other buffers show. */
  lemma PacketsSame(mem: map<nat, Packet>, id: nat, data: Packet, slices: seq<Slice>)
    requires id !in Ids(slices)
    ensures Packets(mem[id := data], slices) == Packets(mem, slices)
  {
    forall i | 0 <= i < |slices| ensures Shown(mem[id := data], slices[i]) == Shown(mem, slices[i]) {
      assert Ids(slices)[i] == slices[i].id;
    }
  }

  lemma FilledSame(mem: map<nat, Packet>, id: nat, data: Packet, slices: seq<Slice>)
    requires id !in Ids(slices)
    ensures Packets(Filled(mem, id, data), slices) == Packets(mem, slices)
  {
    hide Packets;
    if id in mem && HEADROOM + |data| <= |mem[id]| {
      PacketsSame(mem, id, mem[id][..HEADROOM] + data + mem[id][HEADROOM + |data|..], slices);
    }
  }

  lemma FilledShows(mem: map<nat, Packet>, b: Slice, data: Packet)
    requires b.id in mem && HEADROOM + |data| <= |mem[b.id]| && b.len == HEADROOM + |data|
    ensures Shown(Filled(mem, b.id, data), b) == data
  {
  }

  lemma PacketsJoin(mem: map<nat, Packet>, a: seq<Slice>, b: seq<Slice>)
    ensures Packets(mem, a + b) == Packets(mem, a) + Packets(mem, b)
  {
  }

  lemma IdsJoin(a: seq<Slice>, b: seq<Slice>)
    ensures Ids(a + b) == Ids(a) + Ids(b)
  {
  }

  lemma ReadAccounted(p: Params, s: State, packet: Packet)
    requires Inv(p, s) && Enabled(p, s, Read(packet))
    ensures Accounted(After(p, s, Read(packet)))
  {
    var s', b := After(p, s, Read(packet)), s.reader.buf.(len := HEADROOM + |packet|);
    assert b.id !in Ids(InFlight(s)) && b.id < p.count by {
      HeldOnce(p, s);
      IdsJoin(WriterHolds(s), s.queue);
      assert InFlight(s) == WriterHolds(s) + s.queue;
    }
    FilledSame(s.mem, b.id, packet, InFlight(s));
    FilledShows(s.mem, b, packet);
    PacketsJoin(s'.mem, InFlight(s), [b]);
    assert InFlight(s') == InFlight(s) + [b];
    assert Packets(s'.mem, [b]) == [packet];
    hide Packets, InFlight, Filled, Shown, OneOwner, Shaped;
  }

  lemma ReadFailsAccounted(p: Params, s: State, junk: Packet)
    requires Inv(p, s) && Enabled(p, s, ReadFails(junk))
    ensures Accounted(After(p, s, ReadFails(junk)))
  {
    hide Packets, Filled, Shown, Shaped, Recycled;
    var b := s.reader.buf;
    assert b.id !in Ids(InFlight(s)) by {
      HeldOnce(p, s);
      IdsJoin(WriterHolds(s), s.queue);
      assert InFlight(s) == WriterHolds(s) + s.queue;
    }
    FilledSame(s.mem, b.id, junk, InFlight(s));
  }

  lemma SendAccounted(p: Params, s: State, scratch: Packet, failed: bool)
    requires Inv(p, s) && Enabled(p, s, Send(scratch, failed))
    ensures Accounted(After(p, s, Send(scratch, failed)))
  {
    hide Shaped, Recycled, OneOwner, Ids, Packets, Shown;
    var b, rest := s.writer.buf, s.queue + Offered(s);
    WriterAlone(p, s);
    PacketsSame(s.mem, b.id, scratch, rest);
    PacketsJoin(s.mem, [b], rest);
    assert InFlight(s) == [b] + rest && InFlight(After(p, s, Send(scratch, failed))) == rest;
    assert Packets(s.mem, [b]) == [Shown(s.mem, b)] by { ShownAlone(s.mem, b); }
    hide InFlight, Offered;
  }

  lemma ShownAlone(mem: map<nat, Packet>, b: Slice)
    ensures Packets(mem, [b]) == [Shown(mem, b)]
  {
  }

  lemma WriterAlone(p: Params, s: State)
    requires OneOwner(p, s) && s.writer.Sending?
    ensures s.writer.buf.id !in Ids(s.queue + Offered(s))
  {
    HeldOnce(p, s);
    IdsJoin(s.queue, Offered(s));
    hide OneOwner;
  }

  lemma OfferCancelledAccounted(p: Params, s: State)
    requires Inv(p, s) && Enabled(p, s, OfferCancelled)
    ensures Accounted(After(p, s, OfferCancelled))
  {
    hide Shaped, Recycled, OneOwner;
    var s', b := After(p, s, OfferCancelled), s.reader.buf;
    assert InFlight(s) == InFlight(s') + [b];
    PacketsJoin(s.mem, InFlight(s'), [b]);
    assert Packets(s.mem, [b]) == [Shown(s.mem, b)];
    hide Packets, InFlight, Shown;
  }

  lemma StepAccounted(p: Params, s: State, a: Action)
    requires Inv(p, s) && Enabled(p, s, a)
    ensures Accounted(After(p, s, a))
  {
    hide Shaped, Recycled, OneOwner, Packets, Filled, Shown;
    match a
    case Read(packet) => ReadAccounted(p, s, packet);
    case ReadFails(junk) => ReadFailsAccounted(p, s, junk);
    case Send(scratch, failed) => SendAccounted(p, s, scratch, failed);
    case OfferCancelled => OfferCancelledAccounted(p, s);
    case _ => assert InFlight(After(p, s, a)) == InFlight(s);
  }

  lemma {:induction false} RunInv(p: Params, acts: seq<Action>)
    requires Run(p, acts).Some?
    ensures Inv(p, Run(p, acts).value)
  {
    if acts == [] {
      InitInv(p);
    } else {
      var front, a := acts[..|acts| - 1], acts[|acts| - 1];
      RunInv(p, front);
      var s := Run(p, front).value;
      OwnerKept(p, s, a);
      ShapeKept(p, s, a);
      StepAccounted(p, s, a);
      hide OneOwner, Shaped, Accounted, Enabled, After;
    }
  }

  /** In every run each buffer is held by exactly one stage: none is lost, none is shared. */
  lemma BuffersConserved(p: Params, acts: seq<Action>)
    requires Run(p, acts).Some?
    ensures OneOwner(p, Run(p, acts).value)
  {
    RunInv(p, acts);
  }

  /**
    The MASQUE connection gets the packets in the order in which they were read, each once and with the
    bytes that were read, whatever sessions were lost meanwhile; once nothing is in flight and nothing was
    cancelled it has got them all.
   */
  lemma PacketsDeliveredInOrder(p: Params, acts: seq<Action>)
    requires Run(p, acts).Some?
    ensures var s := Run(p, acts).value;
      && s.sent <= s.read
      && |s.read| <= |s.sent| + p.depth + 2
      && (!s.cancelled && InFlight(s) == [] ==> s.sent == s.read)
  {
    RunInv(p, acts);
    hide OneOwner, Run;
  }

  /** With the sizes of the source the reader finds 31 free buffers or more whenever it asks for one. */
  lemma ReaderFindsBuffer(acts: seq<Action>, mtu: nat)
    requires Run(Params(TUN_BUFFER_POOL_SIZE, OUTBOUND_QUEUE_DEPTH, mtu), acts).Some?
    ensures TUN_BUFFER_POOL_SIZE == 288 && OUTBOUND_QUEUE_DEPTH == 256
    ensures var s := Run(Params(TUN_BUFFER_POOL_SIZE, OUTBOUND_QUEUE_DEPTH, mtu), acts).value;
      s.reader.Asking? ==> |s.free| >= 31
  {
    RunInv(Params(TUN_BUFFER_POOL_SIZE, OUTBOUND_QUEUE_DEPTH, mtu), acts);
    hide Run;
  }

  ghost predicate Starves(p: Params, acts: seq<Action>)
  {
    Run(p, acts).Some? && Run(p, acts).value.reader.Asking? && Run(p, acts).value.free == []
  }

  /** The reads that queue n packets. */
  function Filling(n: nat): seq<Action>
  {
    if n == 0 then [Connect, Get, Read([]), Handover] else Filling(n - 1) + [Get, Read([]), Offer]
  }

  lemma Extended(p: Params, acts: seq<Action>, a: Action)
    requires Run(p, acts).Some? && Enabled(p, Run(p, acts).value, a)
    ensures Run(p, acts + [a]) == Some(After(p, Run(p, acts).value, a))
  {
    assert (acts + [a])[..|acts + [a]| - 1] == acts;
  }

  lemma QueueOne(p: Params, acts: seq<Action>)
    requires Run(p, acts).Some?
    requires var s := Run(p, acts).value; s.reader.Asking? && s.free != [] && |s.queue| < p.depth
    ensures Run(p, acts + [Get, Read([]), Offer]).Some?
    ensures var s, s' := Run(p, acts).value, Run(p, acts + [Get, Read([]), Offer]).value;
      s'.reader.Asking? && |s'.free| == |s.free| - 1 && |s'.queue| == |s.queue| + 1 && s'.writer == s.writer
  {
    hide Run, Filled;
    Extended(p, acts, Get);
    Extended(p, acts + [Get], Read([]));
    Extended(p, acts + [Get] + [Read([])], Offer);
    assert acts + [Get] + [Read([])] + [Offer] == acts + [Get, Read([]), Offer];
  }

  lemma FirstTaken(p: Params)
    requires 1 <= p.count
    ensures Run(p, Filling(0)).Some?
    ensures var s := Run(p, Filling(0)).value; s.reader.Asking? && s.queue == [] && |s.free| == p.count - 1
  {
    hide Filled;
    assert Run(p, []) == Some(Init(p));
    Extended(p, [], Connect);
    assert [] + [Connect] == [Connect];
    hide Run;
    Extended(p, [Connect], Get);
    Extended(p, [Connect] + [Get], Read([]));
    Extended(p, [Connect] + [Get] + [Read([])], Handover);
    assert [Connect] + [Get] + [Read([])] + [Handover] == Filling(0);
  }

  lemma {:induction false} FillingRuns(p: Params, n: nat)
    requires n < p.count && n <= p.depth
    ensures Run(p, Filling(n)).Some?
    ensures var s := Run(p, Filling(n)).value; s.reader.Asking? && |s.queue| == n && |s.free| == p.count - 1 - n
  {
    if n == 0 {
      FirstTaken(p);
    } else {
      FillingRuns(p, n - 1);
      hide Run;
      QueueOne(p, Filling(n - 1));
    }
  }

  /** The reader can find the pool empty exactly when the pool is not at least two buffers larger than the queue. */
  lemma ReaderNeverStarvesIff(p: Params)
    ensures (forall acts :: !Starves(p, acts)) <==> p.count >= p.depth + 2
  {
    if p.count == 0 {
      assert Starves(p, []);
    } else if p.count <= p.depth + 1 {
      FillingRuns(p, p.count - 1);
      assert Starves(p, Filling(p.count - 1));
    } else {
      forall acts ensures !Starves(p, acts) { NotStarved(p, acts); }
    }
  }

  lemma NotStarved(p: Params, acts: seq<Action>)
    requires p.count >= p.depth + 2
    ensures !Starves(p, acts)
  {
    if Run(p, acts).Some? {
      RunInv(p, acts);
    }
    hide Run;
  }

  // ---------------------------------------------------------------------------------------------
  // Single steps

  /**
    A send hands over the packet, gives the buffer back at full length, and brings the session down exactly
    when it failed; the other packets in flight stay as they were.
   */
  lemma SendOutcome(p: Params, s: State, scratch: Packet, failed: bool)
    requires Inv(p, s) && Enabled(p, s, Send(scratch, failed))
    ensures s.writer.buf.id in s.mem && 1 <= s.writer.buf.len <= |s.mem[s.writer.buf.id]|
    ensures var s', b := After(p, s, Send(scratch, failed)), s.writer.buf;
      && s'.sent == s.sent + [s.mem[b.id][1..b.len]]
      && s'.free == s.free + [Slice(b.id, p.mtu + 1, p.mtu + 1)]
      && (s'.writer.Down? <==> failed) && (s'.writer.Idle? <==> !failed)
      && s'.queue == s.queue && s'.reader == s.reader && s'.read == s.read
  {
    assert s.writer.buf in WriterHolds(s);
    PutKeeps(p, s, s.writer.buf);
    HeldOnce(p, s);
  }

  /** A read that fails gives its buffer back, closes the queue and ends the reader, which never reads again. */
  lemma ReaderStopsForGood(p: Params, s: State, a: Action)
    requires Inv(p, s) && Enabled(p, s, a)
    ensures a.ReadFails? ==>
      var s' := After(p, s, a);
      && s'.closed && s'.reader.Stopped? && s'.queue == s.queue && s'.read == s.read
      && s'.free == s.free + [Slice(s.reader.buf.id, p.mtu + 1, p.mtu + 1)]
    ensures s.reader.Stopped? ==> After(p, s, a).reader.Stopped? && After(p, s, a).read == s.read
  {
    if a.ReadFails? {
      assert s.reader.buf in ReaderHolds(s);
      PutKeeps(p, s, s.reader.buf);
    }
  }

  lemma StepStops(p: Params, s: State, a: Action)
    requires Enabled(p, s, a) && (s.closed ==> s.reader.Stopped?) && (s.reader.Stopped? ==> s.closed || s.cancelled)
    ensures var s' := After(p, s, a);
      && (s'.cancelled <==> s.cancelled || a == Cancel) && (s'.closed <==> s.closed || a.ReadFails?)
      && (s'.closed ==> s'.reader.Stopped?) && (s'.reader.Stopped? ==> s'.closed || s'.cancelled)
  {
    hide Recycled, Shown, Filled;
  }

  /** The reader stops only after a cancellation or a failed read, and the queue is closed by the latter alone. */
  lemma {:induction false} StoppedMeans(p: Params, acts: seq<Action>)
    requires Run(p, acts).Some?
    ensures var s := Run(p, acts).value;
      && (s.cancelled <==> Cancel in acts)
      && (s.closed <==> exists i :: 0 <= i < |acts| && acts[i].ReadFails?)
      && (s.closed ==> s.reader.Stopped?) && (s.reader.Stopped? ==> s.closed || s.cancelled)
  {
    hide Recycled, Shown, Filled;
    if acts == [] {
    } else {
      var front, a := acts[..|acts| - 1], acts[|acts| - 1];
      assert acts == front + [a];
      StoppedMeans(p, front);
      StepStops(p, Run(p, front).value, a);
      hide After, Enabled;
      assert forall i :: 0 <= i < |front| ==> acts[i] == front[i];
      assert acts[|front|] == a;
    }
  }

  // ---------------------------------------------------------------------------------------------
  // What was read can always still be sent

  /** From s to t nothing more is read, and everything read so far is sent. */
  predicate Delivered(s: State, t: State)
  {
    t.sent == s.read == t.read && InFlight(t) == [] && !t.cancelled && (t.reader.Stopped? ==> s.reader.Stopped?)
  }

  ghost predicate Leads(p: Params, acts: seq<Action>, more: seq<Action>, t: State)
  {
    Run(p, acts + more) == Some(t)
  }

  function Remaining(s: State): nat
  {
    2 * |InFlight(s)| + if s.writer.Sending? then 0 else if s.writer.Idle? then 1 else 2
  }

  /** The next step of the writer, or of both, towards that. */
  function Onward(p: Params, s: State): Action
  {
    match s.writer
    case Down => Connect
    case Sending(_) => Send(seq(p.Size(), j => 0), false)
    case Idle => if s.queue != [] then Take else Handover
  }

  lemma OnwardSteps(p: Params, s: State)
    requires !s.cancelled && InFlight(s) != []
    ensures Enabled(p, s, Onward(p, s))
    ensures var s' := After(p, s, Onward(p, s));
      && !s'.cancelled && s'.read == s.read && (s'.reader.Stopped? ==> s.reader.Stopped?)
      && Remaining(s') < Remaining(s)
  {
    hide Shown, Recycled;
  }

  lemma NothingInFlight(p: Params, s: State)
    requires Inv(p, s) && !s.cancelled && InFlight(s) == []
    ensures Delivered(s, s)
  {
    hide OneOwner, Shaped;
  }

  lemma OneMore(p: Params, acts: seq<Action>, s: State, a: Action)
    requires Run(p, acts) == Some(s) && Enabled(p, s, a)
    ensures Run(p, acts + [a]) == Some(After(p, s, a))
  {
    Extended(p, acts, a);
  }

  lemma InvHolds(p: Params, acts: seq<Action>, s: State)
    requires Run(p, acts) == Some(s)
    ensures Inv(p, s)
  {
    RunInv(p, acts);
  }

  /** While nothing is cancelled, whatever stage the packets are in and whatever was lost, they can all be sent. */
  lemma {:induction false} CanDeliverAll(p: Params, acts: seq<Action>, s: State)
    requires Run(p, acts) == Some(s) && !s.cancelled
    ensures exists more, t :: Leads(p, acts, more, t) && Delivered(s, t)
    decreases Remaining(s)
  {
    hide Run, Enabled, After, Inv, InFlight, Remaining;
    if InFlight(s) == [] {
      InvHolds(p, acts, s);
      NothingInFlight(p, s);
      assert acts + [] == acts;
      assert Leads(p, acts, [], s);
    } else {
      var a := Onward(p, s);
      OnwardSteps(p, s);
      OneMore(p, acts, s, a);
      CanDeliverAll(p, acts + [a], After(p, s, a));
      var more, t :| Leads(p, acts + [a], more, t) && Delivered(After(p, s, a), t);
      assert acts + [a] + more == acts + ([a] + more);
      assert Leads(p, acts, [a] + more, t) && Delivered(s, t);
    }
  }

  lemma ReadsAfter(p: Params, acts: seq<Action>, s: State, packet: Packet) returns (more: seq<Action>, t: State)
    requires Run(p, acts) == Some(s) && p.count > 0 && |packet| <= p.mtu
    requires InFlight(s) == [] && !s.reader.Stopped?
    ensures Leads(p, acts, more, t) && t.read == s.read + [packet]
  {
    InvHolds(p, acts, s);
    hide Run, Filled, Accounted, Shaped;
    if s.reader.Asking? {
      assert s.free != [];
      var s1 := After(p, s, Get);
      OneMore(p, acts, s, Get);
      OneMore(p, acts + [Get], s1, Read(packet));
      assert acts + [Get] + [Read(packet)] == acts + [Get, Read(packet)];
      return [Get, Read(packet)], After(p, s1, Read(packet));
    } else {
      OneMore(p, acts, s, Read(packet));
      return [Read(packet)], After(p, s, Read(packet));
    }
  }

  /** And a reader that has not stopped can go on to read any packet that fits. */
  lemma CanReadNext(p: Params, acts: seq<Action>, s: State, packet: Packet)
    requires Run(p, acts) == Some(s) && p.count > 0 && |packet| <= p.mtu && !s.cancelled && !s.reader.Stopped?
    ensures exists more, t :: Leads(p, acts, more, t) && t.read == s.read + [packet]
  {
    hide Run, InFlight;
    CanDeliverAll(p, acts, s);
    var more, t :| Leads(p, acts, more, t) && Delivered(s, t);
    var last, u := ReadsAfter(p, acts + more, t, packet);
    assert acts + more + last == acts + (more + last);
    assert Leads(p, acts, more + last, u);
  }
}
