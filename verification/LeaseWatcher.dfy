/**
  The lease watcher (pkg/lease/lease.go): a list of known leases kept up to date from snapshots (Reset)
  and incremental events (Update), and the batches of events it emits to a backend.

  Two leases are the same subnet according to the address families that are enabled; the statements
  below hold in any one of the modes, for leases that all carry the flags of that mode.
 */
module LeaseWatcher {
  import opened Ip4
  import opened Leases

  datatype Event = Added(lease: Lease) | Removed(lease: Lease)

  predicate SameSubnet(ipv4: bool, ipv6: bool, first: Lease, second: Lease)
  {
    || (ipv4 && !ipv6 && first.subnet == second.subnet)
    || (!ipv4 && ipv6 && first.subnet6 == second.subnet6)
    || (ipv4 && ipv6 && first.subnet == second.subnet && first.subnet6 == second.subnet6)
    || (!ipv4 && !ipv6 && first.subnet == second.subnet)
  }

  /** The position of the first listed lease for the same subnet, or the length of the list. */
  function Find(leases: seq<Lease>, l: Lease): (i: nat)
    ensures i <= |leases|
    ensures i < |leases| ==> SameSubnet(leases[i].enableIPv4, leases[i].enableIPv6, leases[i], l)
    ensures forall j :: 0 <= j < i ==> !SameSubnet(leases[j].enableIPv4, leases[j].enableIPv6, leases[j], l)
  {
    if leases == [] || SameSubnet(leases[0].enableIPv4, leases[0].enableIPv6, leases[0], l) then 0
    else 1 + Find(leases[1..], l)
  }

  function Without(leases: seq<Lease>, l: Lease): seq<Lease>
  {
    var i := Find(leases, l);
    if i < |leases| then leases[..i] + leases[i + 1..] else leases
  }

  function With(leases: seq<Lease>, l: Lease): seq<Lease>
  {
    var i := Find(leases, l);
    if i < |leases| then leases[i := l] else leases + [l]
  }

  predicate Own(own: Lease, l: Lease)
  {
    SameSubnet(l.enableIPv4, l.enableIPv6, own, l)
  }

  /** One event of another node: the new list and the event passed on. */
  function Apply(leases: seq<Lease>, e: Event): (seq<Lease>, Event)
  {
    match e
    case Added(l) => (With(leases, l), Added(l))
    case Removed(l) =>
      var i := Find(leases, l);
      (Without(leases, l), Removed(if i < |leases| then leases[i] else l))
  }

  function UpdateAll(own: Lease, leases: seq<Lease>, events: seq<Event>): (seq<Lease>, seq<Event>)
    decreases |events|
  {
    if events == [] then (leases, [])
    else if Own(own, events[0].lease) then UpdateAll(own, leases, events[1..])
    else
      var (after, passed) := Apply(leases, events[0]);
      var (end, batch) := UpdateAll(own, after, events[1..]);
      (end, [passed] + batch)
  }

  /** Going through a snapshot: the leases that are new, and what is left of the old list. */
  function Diff(own: Lease, leases: seq<Lease>, snapshot: seq<Lease>): (seq<Event>, seq<Lease>)
    decreases |snapshot|
  {
    if snapshot == [] then ([], leases)
    else if Own(own, snapshot[0]) then Diff(own, leases, snapshot[1..])
    else
      var (added, left) := Diff(own, Without(leases, snapshot[0]), snapshot[1..]);
      (if Find(leases, snapshot[0]) < |leases| then added else [Added(snapshot[0])] + added, left)
  }

  function Removals(leases: seq<Lease>): (r: seq<Event>)
    ensures |r| == |leases| && forall i :: 0 <= i < |r| ==> r[i] == Removed(leases[i])
  {
    seq(|leases|, i requires 0 <= i < |leases| => Removed(leases[i]))
  }

  function ResetBatch(own: Lease, leases: seq<Lease>, snapshot: seq<Lease>): seq<Event>
  {
    var (added, left) := Diff(own, leases, snapshot);
    added + Removals(left)
  }

  lemma DiffStep(own: Lease, leases: seq<Lease>, snapshot: seq<Lease>)
    requires snapshot != []
    ensures var nl := snapshot[0];
      if Own(own, nl) then Diff(own, leases, snapshot) == Diff(own, leases, snapshot[1..])
      else
        var (added, left) := Diff(own, Without(leases, nl), snapshot[1..]);
        Diff(own, leases, snapshot) == (if Find(leases, nl) < |leases| then added else [Added(nl)] + added, left)
  {
  }

  lemma DiffNone(own: Lease, leases: seq<Lease>, snapshot: seq<Lease>)
    requires snapshot == []
    ensures Diff(own, leases, snapshot) == ([], leases)
  {
  }

  class Watcher {
    const ownLease: Lease
    var leases: seq<Lease>

    constructor (own: Lease)
      ensures ownLease == own && leases == []
    {
      ownLease, leases := own, [];
    }

    method FindLease(l: Lease) returns (i: nat)
      ensures i == Find(leases, l)
    {
      i := 0;
      while i < |leases| && !SameSubnet(leases[i].enableIPv4, leases[i].enableIPv6, leases[i], l)
        invariant i <= |leases| && Find(leases, l) == i + Find(leases[i..], l)
      {
        assert leases[i..][1..] == leases[i + 1..];
        i := i + 1;
      }
    }

    method Reset(snapshot: seq<Lease>) returns (batch: seq<Event>)
      modifies this
      ensures leases == snapshot
      ensures batch == ResetBatch(ownLease, old(leases), snapshot)
    {
      hide Diff, Find, Own;
      batch := [];
      assert snapshot[0..] == snapshot;
      ghost var whole := Diff(ownLease, leases, snapshot);
      for n := 0 to |snapshot|
        invariant batch + Diff(ownLease, leases, snapshot[n..]).0 == whole.0
        invariant Diff(ownLease, leases, snapshot[n..]).1 == whole.1
      {
        var nl := snapshot[n];
        DiffStep(ownLease, leases, snapshot[n..]);
        assert snapshot[n..][1..] == snapshot[n + 1..];
        if !Own(ownLease, nl) {
          var i := FindLease(nl);
          if i < |leases| {
            leases := leases[..i] + leases[i + 1..];
          } else {
            batch := batch + [Added(nl)];
          }
        }
      }
      DiffNone(ownLease, leases, snapshot[|snapshot|..]);
      for n := 0 to |leases|
        invariant batch == whole.0 + Removals(leases)[..n]
      {
        batch := batch + [Removed(leases[n])];
      }
      leases := snapshot;
    }

    method Update(events: seq<Event>) returns (batch: seq<Event>)
      modifies this
      ensures (leases, batch) == UpdateAll(ownLease, old(leases), events)
    {
      batch := [];
      assert events[0..] == events;
      for n := 0 to |events|
        invariant UpdateAll(ownLease, leases, events[n..]).0 == UpdateAll(ownLease, old(leases), events).0
        invariant batch + UpdateAll(ownLease, leases, events[n..]).1 == UpdateAll(ownLease, old(leases), events).1
      {
        var e := events[n];
        assert events[n..][1..] == events[n + 1..];
        if !Own(ownLease, e.lease) {
          ghost var after := Apply(leases, e);
          ghost var rest := UpdateAll(ownLease, after.0, events[n + 1..]).1;
          assert batch + ([after.1] + rest) == batch + [after.1] + rest;
          var passed;
          if e.Added? { passed := Add(e.lease); } else { passed := Remove(e.lease); }
          batch := batch + [passed];
        }
      }
      assert events[|events|..] == [];
      assert UpdateAll(ownLease, leases, events[|events|..]) == (leases, []);
      assert batch + [] == batch;
    }

    method Add(l: Lease) returns (passed: Event)
      modifies this
      ensures (leases, passed) == Apply(old(leases), Added(l))
    {
      var i := FindLease(l);
      if i < |leases| {
        leases := leases[i := l];
        return Added(leases[i]);
      }
      leases := leases + [l];
      return Added(leases[|leases| - 1]);
    }

    method Remove(l: Lease) returns (passed: Event)
      modifies this
      ensures (leases, passed) == Apply(old(leases), Removed(l))
    {
      var i := FindLease(l);
      if i < |leases| {
        passed := Removed(leases[i]);
        leases := leases[..i] + leases[i + 1..];
      } else {
        passed := Removed(l);
      }
    }
  }

  // ---------------------------------------------------------------------------------------------
  // One address-family mode: a lease is identified by a key

  datatype Mode = Mode(ipv4: bool, ipv6: bool) {
    predicate Has(l: Lease)
    {
      l.enableIPv4 == ipv4 && l.enableIPv6 == ipv6
    }

    predicate HasAll(leases: seq<Lease>)
    {
      forall i :: 0 <= i < |leases| ==> Has(leases[i])
    }

    predicate HasEvents(events: seq<Event>)
    {
      forall i :: 0 <= i < |events| ==> Has(events[i].lease)
    }

    /** The part of a lease that identifies its subnet in this mode. */
    function KeyOf(l: Lease): Key
    {
      if ipv6 then (if ipv4 then Both(l.subnet, l.subnet6) else Six(l.subnet6)) else Four(l.subnet)
    }
  }

  datatype Key = Four(net: Net) | Six(net6: Net6) | Both(net: Net, net6: Net6)

  lemma SameSubnetIsSameKey(m: Mode, a: Lease, b: Lease)
    ensures SameSubnet(m.ipv4, m.ipv6, a, b) <==> m.KeyOf(a) == m.KeyOf(b)
  {
  }

  /** The lease stored under a key, if any: the first one in the list. */
  function Lookup(m: Mode, leases: seq<Lease>, k: Key): (r: Option<Lease>)
    ensures r.Some? ==> r.value in leases && m.KeyOf(r.value) == k
    ensures r.None? <==> forall i :: 0 <= i < |leases| ==> m.KeyOf(leases[i]) != k
  {
    if leases == [] then None
    else if m.KeyOf(leases[0]) == k then Some(leases[0])
    else Lookup(m, leases[1..], k)
  }

  predicate Distinct(m: Mode, leases: seq<Lease>)
  {
    forall i, j :: 0 <= i < j < |leases| ==> m.KeyOf(leases[i]) != m.KeyOf(leases[j])
  }

  lemma {:induction false} LookupIs(m: Mode, leases: seq<Lease>, i: nat)
    requires Distinct(m, leases) && i < |leases|
    ensures Lookup(m, leases, m.KeyOf(leases[i])) == Some(leases[i])
  {
    if i > 0 { LookupIs(m, leases[1..], i - 1); }
  }

  lemma FindIsKey(m: Mode, leases: seq<Lease>, l: Lease)
    requires m.HasAll(leases)
    ensures var i := Find(leases, l);
      && (i < |leases| <==> Lookup(m, leases, m.KeyOf(l)).Some?)
      && (i < |leases| ==> m.KeyOf(leases[i]) == m.KeyOf(l))
      && (forall j :: 0 <= j < i ==> m.KeyOf(leases[j]) != m.KeyOf(l))
  {
    hide Lookup;
    forall j | 0 <= j < |leases|
      ensures SameSubnet(leases[j].enableIPv4, leases[j].enableIPv6, leases[j], l) <==> m.KeyOf(leases[j]) == m.KeyOf(l)
    {
      SameSubnetIsSameKey(m, leases[j], l);
    }
  }

  /** Taking a lease out leaves a list without duplicates that differs at its key alone. */
  lemma WithoutLookup(m: Mode, leases: seq<Lease>, l: Lease, k: Key)
    requires m.HasAll(leases) && Distinct(m, leases)
    ensures m.HasAll(Without(leases, l)) && Distinct(m, Without(leases, l))
    ensures Lookup(m, Without(leases, l), k) == if k == m.KeyOf(l) then None else Lookup(m, leases, k)
  {
    hide Lookup, Find;
    FindIsKey(m, leases, l);
    var after := Without(leases, l);
    var i := Find(leases, l);
    if i < |leases| {
      forall j | 0 <= j < |after| ensures after[j] == leases[if j < i then j else j + 1] {}
      LookupElsewhere(m, leases, after, k);
    }
  }

  /** With the same leases under a key, two lists without duplicates give the same answer for it. */
  lemma LookupElsewhere(m: Mode, leases: seq<Lease>, after: seq<Lease>, k: Key)
    requires Distinct(m, leases)
    requires forall j :: 0 <= j < |after| && m.KeyOf(after[j]) == k ==> after[j] in leases
    ensures (forall j :: 0 <= j < |leases| && m.KeyOf(leases[j]) == k ==> leases[j] in after)
      ==> Lookup(m, after, k) == Lookup(m, leases, k)
  {
    hide Lookup;
    var a, b := Lookup(m, after, k), Lookup(m, leases, k);
    if a.Some? {
      var j :| 0 <= j < |after| && after[j] == a.value;
      var i :| 0 <= i < |leases| && leases[i] == a.value;
      LookupIs(m, leases, i);
    }
  }

  /** Adding a lease overwrites or appends: the list stays without duplicates and changes at its key alone. */
  lemma WithLookup(m: Mode, leases: seq<Lease>, l: Lease, k: Key)
    requires m.HasAll(leases) && m.Has(l) && Distinct(m, leases)
    ensures m.HasAll(With(leases, l)) && Distinct(m, With(leases, l))
    ensures Lookup(m, leases, m.KeyOf(l)).None? ==> With(leases, l) == leases + [l]
    ensures Lookup(m, leases, m.KeyOf(l)).Some? ==> |With(leases, l)| == |leases|
    ensures forall j :: 0 <= j < |leases| && m.KeyOf(leases[j]) != m.KeyOf(l) ==>
      j < |With(leases, l)| && With(leases, l)[j] == leases[j]
    ensures Lookup(m, With(leases, l), k) == if k == m.KeyOf(l) then Some(l) else Lookup(m, leases, k)
  {
    hide Lookup, Find;
    FindIsKey(m, leases, l);
    var after := With(leases, l);
    var i := Find(leases, l);
    assert after[i] == l;
    if k == m.KeyOf(l) {
      LookupIs(m, after, i);
    } else {
      forall j | 0 <= j < |leases| && m.KeyOf(leases[j]) == k ensures leases[j] in after {
        assert after[j] == leases[j];
      }
      LookupElsewhere(m, leases, after, k);
    }
  }

  // ---------------------------------------------------------------------------------------------
  // What a consumer of the batches knows

  /** Whether a consumer holds a key after folding a batch: added events insert it, removed ones delete it. */
  function Holds(m: Mode, k: Key, held: bool, batch: seq<Event>): bool
    decreases |batch|
  {
    if batch == [] then held
    else Holds(m, k, if m.KeyOf(batch[0].lease) == k then batch[0].Added? else held, batch[1..])
  }

  lemma HoldsNone(m: Mode, k: Key, held: bool)
    ensures Holds(m, k, held, []) == held
  {
  }

  lemma {:induction false} HoldsConcat(m: Mode, k: Key, held: bool, a: seq<Event>, b: seq<Event>)
    ensures Holds(m, k, held, a + b) == Holds(m, k, Holds(m, k, held, a), b)
    decreases |a|
  {
    if a == [] {
      assert a + b == b;
    } else {
      assert (a + b)[1..] == a[1..] + b;
      HoldsConcat(m, k, if m.KeyOf(a[0].lease) == k then a[0].Added? else held, a[1..], b);
    }
  }

  lemma {:induction false} HoldsRemovals(m: Mode, k: Key, held: bool, leases: seq<Lease>)
    ensures Holds(m, k, held, Removals(leases)) == (held && Lookup(m, leases, k).None?)
    decreases |leases|
  {
    if leases != [] {
      assert Removals(leases)[1..] == Removals(leases[1..]);
      HoldsRemovals(m, k, held && m.KeyOf(leases[0]) != k, leases[1..]);
    }
  }

  /** An event passed on for a removed subnet that was known carries the stored lease, attributes included. */
  lemma RemovalCarriesStoredLease(m: Mode, leases: seq<Lease>, l: Lease)
    requires m.HasAll(leases) && Distinct(m, leases)
    ensures var stored := Lookup(m, leases, m.KeyOf(l));
      Apply(leases, Removed(l)).1 == Removed(if stored.Some? then stored.value else l)
  {
    FindIsKey(m, leases, l);
    var i := Find(leases, l);
    if i < |leases| { LookupIs(m, leases, i); }
  }

  /** The lease stored under a key after the events of other nodes, folded one at a time. */
  function Fold(m: Mode, own: Lease, k: Key, stored: Option<Lease>, events: seq<Event>): Option<Lease>
    decreases |events|
  {
    if events == [] then stored
    else
      var l := events[0].lease;
      var next := if m.KeyOf(l) != k || k == m.KeyOf(own) then stored else if events[0].Added? then Some(l) else None;
      Fold(m, own, k, next, events[1..])
  }

  /**
    Update folds the events of other nodes into the list key by key, keeps it free of duplicates, and
    passes on a batch from which a consumer learns exactly the other subnets in the list.
   */
  lemma {:induction false} UpdateTracks(m: Mode, own: Lease, leases: seq<Lease>, events: seq<Event>, k: Key)
    requires m.HasAll(leases) && m.HasEvents(events) && Distinct(m, leases)
    ensures var (end, batch) := UpdateAll(own, leases, events);
      && m.HasAll(end) && Distinct(m, end)
      && Lookup(m, end, k) == Fold(m, own, k, Lookup(m, leases, k), events)
      && (k != m.KeyOf(own) ==> Holds(m, k, Lookup(m, leases, k).Some?, batch) == Lookup(m, end, k).Some?)
      && (k == m.KeyOf(own) ==>
            Lookup(m, end, k) == Lookup(m, leases, k) && forall held :: Holds(m, k, held, batch) == held)
    decreases |events|
  {
    hide Lookup;
    if events != [] {
      var l := events[0].lease;
      SameSubnetIsSameKey(m, own, l);
      if Own(own, l) {
        UpdateTracks(m, own, leases, events[1..], k);
      } else {
        var (after, passed) := Apply(leases, events[0]);
        if events[0].Added? { WithLookup(m, leases, l, k); } else { WithoutLookup(m, leases, l, k); }
        FindIsKey(m, leases, l);
        UpdateTracks(m, own, after, events[1..], k);
        var (end, batch) := UpdateAll(own, after, events[1..]);
        assert ([passed] + batch)[1..] == batch;
      }
    }
  }

  /** What a pass over a snapshot does at one key. */
  lemma {:induction false} DiffTracks(m: Mode, own: Lease, leases: seq<Lease>, snapshot: seq<Lease>, k: Key)
    requires m.HasAll(leases) && m.HasAll(snapshot) && Distinct(m, leases) && Distinct(m, snapshot)
    ensures var (added, left) := Diff(own, leases, snapshot);
      var inNew := k != m.KeyOf(own) && Lookup(m, snapshot, k).Some?;
      && m.HasAll(left) && Distinct(m, left)
      && Lookup(m, left, k) == (if inNew then None else Lookup(m, leases, k))
      && (forall held :: Holds(m, k, held, added) == (held || (inNew && Lookup(m, leases, k).None?)))
      && (forall e :: e in added ==> e.Added? && e.lease in snapshot && m.KeyOf(e.lease) != m.KeyOf(own))
      && (forall l :: l in left ==> l in leases)
    decreases |snapshot|
  {
    hide Find;
    if snapshot != [] {
      var nl := snapshot[0];
      SameSubnetIsSameKey(m, own, nl);
      assert snapshot == [nl] + snapshot[1..];
      if Own(own, nl) {
        DiffTracks(m, own, leases, snapshot[1..], k);
      } else {
        WithoutLookup(m, leases, nl, k);
        FindIsKey(m, leases, nl);
        DiffTracks(m, own, Without(leases, nl), snapshot[1..], k);
        var (added, left) := Diff(own, Without(leases, nl), snapshot[1..]);
        assert ([Added(nl)] + added)[1..] == added;
      }
    }
  }

  /**
    Reset replaces the list by the snapshot; from its batch a consumer that held the other subnets of the
    old list comes to hold exactly the other subnets of the new one.
   */
  lemma ResetTracks(m: Mode, own: Lease, leases: seq<Lease>, snapshot: seq<Lease>, k: Key)
    requires m.HasAll(leases) && m.HasAll(snapshot) && Distinct(m, leases) && Distinct(m, snapshot)
    ensures var batch := ResetBatch(own, leases, snapshot);
      && (k != m.KeyOf(own) ==> Holds(m, k, Lookup(m, leases, k).Some?, batch) == Lookup(m, snapshot, k).Some?)
      && (k == m.KeyOf(own) ==> !Holds(m, k, false, batch))
  {
    hide Lookup, Holds;
    DiffTracks(m, own, leases, snapshot, k);
    var (added, left) := Diff(own, leases, snapshot);
    var held := k != m.KeyOf(own) && Lookup(m, leases, k).Some?;
    HoldsConcat(m, k, held, added, Removals(left));
    HoldsRemovals(m, k, Holds(m, k, held, added), left);
  }

  /** Every removal in the batch of a Reset carries a lease that was stored. */
  lemma ResetRemovesStored(m: Mode, own: Lease, leases: seq<Lease>, snapshot: seq<Lease>, e: Event)
    requires m.HasAll(leases) && m.HasAll(snapshot) && Distinct(m, leases) && Distinct(m, snapshot)
    requires e in ResetBatch(own, leases, snapshot)
    ensures e.Removed? ==> e.lease in leases
    ensures e.Added? ==> e.lease in snapshot && m.KeyOf(e.lease) != m.KeyOf(own)
  {
    DiffTracks(m, own, leases, snapshot, m.KeyOf(e.lease));
  }

  predicate Mentions(m: Mode, batch: seq<Event>, k: Key)
  {
    exists i :: 0 <= i < |batch| && m.KeyOf(batch[i].lease) == k
  }

  /**
    The list is meant to hold the leases of other nodes, but Reset stores the node's own lease too, and
    the next Reset then announces its removal: a batch mentions the own subnet exactly when the list had it.
   */
  lemma ResetMentionsOwnIff(m: Mode, own: Lease, leases: seq<Lease>, snapshot: seq<Lease>)
    requires m.HasAll(leases) && m.HasAll(snapshot) && Distinct(m, leases) && Distinct(m, snapshot)
    ensures Mentions(m, ResetBatch(own, leases, snapshot), m.KeyOf(own)) <==> Lookup(m, leases, m.KeyOf(own)).Some?
  {
    hide Lookup;
    var k := m.KeyOf(own);
    var (added, left) := Diff(own, leases, snapshot);
    var batch := added + Removals(left);
    DiffTracks(m, own, leases, snapshot, k);
    if Lookup(m, leases, k).Some? {
      var i :| 0 <= i < |left| && m.KeyOf(left[i]) == k;
      assert batch[|added| + i] == Removed(left[i]);
    } else {
      forall i | 0 <= i < |batch| ensures m.KeyOf(batch[i].lease) != k {
        if i < |added| {
          assert batch[i] == added[i];
          assert added[i] in added;
        } else {
          assert batch[i] == Removed(left[i - |added|]);
        }
      }
    }
  }

  // ---------------------------------------------------------------------------------------------
  // What a consumer knows about the leases themselves

  /** The lease a consumer has for a key after a batch: the one an event added last, or none after a removal. */
  function Known(m: Mode, k: Key, held: Option<Lease>, batch: seq<Event>): Option<Lease>
    decreases |batch|
  {
    if batch == [] then held
    else
      var e := batch[0];
      Known(m, k, if m.KeyOf(e.lease) != k then held else if e.Added? then Some(e.lease) else None, batch[1..])
  }

  lemma KnownNone(m: Mode, k: Key, held: Option<Lease>)
    ensures Known(m, k, held, []) == held
  {
  }

  lemma KnownOne(m: Mode, k: Key, held: Option<Lease>, e: Event, rest: seq<Event>)
    ensures Known(m, k, held, [e] + rest)
      == Known(m, k, if m.KeyOf(e.lease) != k then held else if e.Added? then Some(e.lease) else None, rest)
  {
    assert ([e] + rest)[1..] == rest;
  }

  lemma {:induction false} KnownConcat(m: Mode, k: Key, held: Option<Lease>, a: seq<Event>, b: seq<Event>)
    ensures Known(m, k, held, a + b) == Known(m, k, Known(m, k, held, a), b)
    decreases |a|
  {
    if a == [] {
      assert a + b == b;
    } else {
      assert (a + b)[1..] == a[1..] + b;
      var e := a[0];
      KnownConcat(m, k, if m.KeyOf(e.lease) != k then held else if e.Added? then Some(e.lease) else None, a[1..], b);
    }
  }

  /**
    The batch of an update carries the leases: whatever a consumer had for a foreign subnet that the events
    name, it then has what the list has, attributes included; for others the batch says nothing.
   */
  lemma {:induction false} UpdateCarries(m: Mode, own: Lease, leases: seq<Lease>, events: seq<Event>, k: Key,
                                         held: Option<Lease>)
    requires m.HasAll(leases) && m.HasEvents(events) && Distinct(m, leases)
    ensures var (end, batch) := UpdateAll(own, leases, events);
      && Known(m, k, held, batch) == (if k != m.KeyOf(own) && Mentions(m, events, k) then Lookup(m, end, k) else held)
      && (!Mentions(m, events, k) ==> Lookup(m, end, k) == Lookup(m, leases, k))
    decreases |events|
  {
    hide Lookup, Known, Find;
    if events == [] {
      KnownNone(m, k, held);
    } else {
      var e, rest := events[0], events[1..];
      SameSubnetIsSameKey(m, own, e.lease);
      MentionsFirst(m, events, k);
      if Own(own, e.lease) {
        UpdateCarries(m, own, leases, rest, k, held);
      } else {
        var (after, passed) := Apply(leases, e);
        if e.Added? { WithLookup(m, leases, e.lease, k); } else { WithoutLookup(m, leases, e.lease, k); }
        FindIsKey(m, leases, e.lease);
        var next := if m.KeyOf(e.lease) != k then held else if e.Added? then Some(e.lease) else None;
        UpdateCarries(m, own, after, rest, k, next);
        KnownOne(m, k, held, passed, UpdateAll(own, after, rest).1);
      }
    }
  }

  lemma MentionsFirst(m: Mode, events: seq<Event>, k: Key)
    requires events != []
    ensures Mentions(m, events, k) <==> m.KeyOf(events[0].lease) == k || Mentions(m, events[1..], k)
  {
    if Mentions(m, events[1..], k) {
      var i :| 0 <= i < |events| - 1 && m.KeyOf(events[1..][i].lease) == k;
      assert events[i + 1] == events[1..][i];
    }
    if Mentions(m, events, k) && m.KeyOf(events[0].lease) != k {
      var i :| 0 <= i < |events| && m.KeyOf(events[i].lease) == k;
      assert events[1..][i - 1] == events[i];
    }
  }

  lemma {:induction false} DiffCarries(m: Mode, own: Lease, leases: seq<Lease>, snapshot: seq<Lease>, k: Key,
                                       held: Option<Lease>)
    requires m.HasAll(leases) && m.HasAll(snapshot) && Distinct(m, leases) && Distinct(m, snapshot)
    ensures Known(m, k, held, Diff(own, leases, snapshot).0) ==
      if k != m.KeyOf(own) && Lookup(m, snapshot, k).Some? && Lookup(m, leases, k).None? then Lookup(m, snapshot, k)
      else held
    decreases |snapshot|
  {
    hide Find, Known;
    if snapshot == [] {
      KnownNone(m, k, held);
    } else {
      var nl, rest := snapshot[0], snapshot[1..];
      SameSubnetIsSameKey(m, own, nl);
      assert snapshot == [nl] + rest;
      if Own(own, nl) {
        DiffCarries(m, own, leases, rest, k, held);
      } else {
        WithoutLookup(m, leases, nl, k);
        FindIsKey(m, leases, nl);
        var next := if Lookup(m, leases, k).None? && m.KeyOf(nl) == k then Some(nl) else held;
        DiffCarries(m, own, Without(leases, nl), rest, k, next);
        DiffCarries(m, own, Without(leases, nl), rest, k, held);
        KnownOne(m, k, held, Added(nl), Diff(own, Without(leases, nl), rest).0);
      }
    }
  }

  lemma {:induction false} KnownRemovals(m: Mode, k: Key, held: Option<Lease>, leases: seq<Lease>)
    ensures Known(m, k, held, Removals(leases)) == if Lookup(m, leases, k).Some? then None else held
    decreases |leases|
  {
    if leases != [] {
      assert Removals(leases) == [Removed(leases[0])] + Removals(leases[1..]);
      KnownOne(m, k, held, Removed(leases[0]), Removals(leases[1..]));
      KnownRemovals(m, k, if m.KeyOf(leases[0]) != k then held else None, leases[1..]);
    }
  }

  /** The batch of a Reset: new subnets come with their lease, gone ones go, known ones are left as they are. */
  lemma ResetCarries(m: Mode, own: Lease, leases: seq<Lease>, snapshot: seq<Lease>, k: Key, held: Option<Lease>)
    requires m.HasAll(leases) && m.HasAll(snapshot) && Distinct(m, leases) && Distinct(m, snapshot)
    requires k != m.KeyOf(own)
    ensures Known(m, k, held, ResetBatch(own, leases, snapshot)) ==
      if Lookup(m, leases, k).None? then (if Lookup(m, snapshot, k).Some? then Lookup(m, snapshot, k) else held)
      else if Lookup(m, snapshot, k).None? then None
      else held
  {
    hide Lookup, Known, Diff;
    DiffTracks(m, own, leases, snapshot, k);
    DiffCarries(m, own, leases, snapshot, k, held);
    var (added, left) := Diff(own, leases, snapshot);
    KnownConcat(m, k, held, added, Removals(left));
    KnownRemovals(m, k, Known(m, k, held, added), left);
  }

  /** A snapshot that changes no lease the list has under the key. */
  predicate FreshAt(m: Mode, leases: seq<Lease>, snapshot: seq<Lease>, k: Key)
  {
    Lookup(m, leases, k).None? || Lookup(m, snapshot, k).None? || Lookup(m, leases, k) == Lookup(m, snapshot, k)
  }

  /** After a Reset a consumer that had what the list had for a foreign subnet has what it has now, exactly if so. */
  lemma ResetFreshIff(m: Mode, own: Lease, leases: seq<Lease>, snapshot: seq<Lease>, k: Key)
    requires m.HasAll(leases) && m.HasAll(snapshot) && Distinct(m, leases) && Distinct(m, snapshot)
    requires k != m.KeyOf(own)
    ensures Known(m, k, Lookup(m, leases, k), ResetBatch(own, leases, snapshot)) == Lookup(m, snapshot, k)
       <==> FreshAt(m, leases, snapshot, k)
  {
    hide Lookup, Known, ResetBatch;
    ResetCarries(m, own, leases, snapshot, k, Lookup(m, leases, k));
  }

  // ---------------------------------------------------------------------------------------------
  // Any sequence of calls

  datatype Call = ResetCall(snapshot: seq<Lease>) | UpdateCall(events: seq<Event>)

  predicate CallOk(m: Mode, c: Call)
  {
    match c
    case ResetCall(snapshot) => m.HasAll(snapshot) && Distinct(m, snapshot)
    case UpdateCall(events) => m.HasEvents(events)
  }

  function Perform(own: Lease, leases: seq<Lease>, c: Call): (seq<Lease>, seq<Event>)
  {
    match c
    case ResetCall(snapshot) => (snapshot, ResetBatch(own, leases, snapshot))
    case UpdateCall(events) => UpdateAll(own, leases, events)
  }

  function PerformAll(own: Lease, leases: seq<Lease>, calls: seq<Call>): (seq<Lease>, seq<Event>)
    decreases |calls|
  {
    if calls == [] then (leases, [])
    else
      var (after, batch) := Perform(own, leases, calls[0]);
      var (end, rest) := PerformAll(own, after, calls[1..]);
      (end, batch + rest)
  }

  /**
    Over any sequence of snapshots and updates the list stays free of duplicates, and a consumer that
    folds the emitted events holds a subnet exactly when the list has it and it is not the node's own.
   */
  lemma {:induction false} ConsumerTracksWatcher(m: Mode, own: Lease, leases: seq<Lease>, calls: seq<Call>, k: Key)
    requires m.HasAll(leases) && Distinct(m, leases)
    requires forall i :: 0 <= i < |calls| ==> CallOk(m, calls[i])
    ensures var (end, events) := PerformAll(own, leases, calls);
      && m.HasAll(end) && Distinct(m, end)
      && Holds(m, k, k != m.KeyOf(own) && Lookup(m, leases, k).Some?, events)
         == (k != m.KeyOf(own) && Lookup(m, end, k).Some?)
    decreases |calls|
  {
    hide Lookup, Holds, Distinct, UpdateAll, ResetBatch;
    if calls == [] {
      HoldsNone(m, k, k != m.KeyOf(own) && Lookup(m, leases, k).Some?);
    } else {
      CallTracks(m, own, leases, calls[0], k);
      var (after, batch) := Perform(own, leases, calls[0]);
      ConsumerTracksWatcher(m, own, after, calls[1..], k);
      var (end, rest) := PerformAll(own, after, calls[1..]);
      HoldsConcat(m, k, k != m.KeyOf(own) && Lookup(m, leases, k).Some?, batch, rest);
    }
  }

  lemma CallTracks(m: Mode, own: Lease, leases: seq<Lease>, c: Call, k: Key)
    requires m.HasAll(leases) && Distinct(m, leases) && CallOk(m, c)
    ensures var (end, batch) := Perform(own, leases, c);
      && m.HasAll(end) && Distinct(m, end)
      && Holds(m, k, k != m.KeyOf(own) && Lookup(m, leases, k).Some?, batch)
         == (k != m.KeyOf(own) && Lookup(m, end, k).Some?)
  {
    hide Lookup, Holds;
    match c
    case ResetCall(snapshot) => ResetTracks(m, own, leases, snapshot, k);
    case UpdateCall(events) => UpdateTracks(m, own, leases, events, k);
  }
}
