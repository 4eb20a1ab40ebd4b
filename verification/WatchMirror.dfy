/**
  Mirroring the registry through a watch (watchSubnets, resyncWatch and leasesWatchReset in
  pkg/subnet/etcd/registry.go; WatchLeases in pkg/subnet/etcd/local_manager.go and pkg/subnet/subnet.go),
  as a state machine over a revisioned store.  The store is written by anyone at any time; the watch
  connects, delivers, breaks, falls behind compaction and re-lists; results wait in a channel until the
  lease watcher takes them and emits events to the backend.

  Leases are IPv4-only, as the registry produces them, and a watch response is taken to carry every
  event up to the revision in its header.
 */
module WatchMirror {
  import opened Ip4
  import opened Leases
  import opened LeaseWatcher

  const M := Mode(true, false)

  /** A change to one key of the registry. */
  datatype KvEvent = Put(net: Net, attrs: Attrs) | Delete(net: Net)

  const NO_ATTRS := Attrs(0, "", "")
  const NO_NET6 := Net6(0, 0)

  /** What an entry parses to (kvToIPLease and parseSubnetWatchResponse). */
  function ToLease(net: Net, attrs: Attrs): Lease
  {
    Lease(true, false, net, NO_NET6, attrs)
  }

  function ToEvent(e: KvEvent): Event
  {
    match e
    case Put(net, attrs) => Added(ToLease(net, attrs))
    case Delete(net) => Removed(ToLease(net, NO_ATTRS))
  }

  /** A watch result on its way to the lease watcher: a snapshot, or one event. */
  datatype Result = Snapshot(leases: seq<Lease>) | Incremental(event: Event)

  datatype Connection = Down | Up(cursor: nat)

  /**
    `history[r - 1]` holds the events of revision r.  `emitted` is everything sent to the backend, and
    `sent` the registry events put on the channel since the last snapshot, which was taken at `base`.
   */
  datatype State = State(
    history: seq<seq<KvEvent>>,
    compacted: nat,
    since: nat,
    connection: Connection,
    queue: seq<Result>,
    leases: seq<Lease>,
    emitted: seq<Event>,
    base: nat,
    sent: seq<KvEvent>)

  datatype Action =
    | Write(events: seq<KvEvent>)
    | Compact(revision: nat)
    | Connect
    | Deliver(revision: nat)
    | Disconnect
    | Relist(snapshot: seq<Lease>)
    | Consume

  /** The value of a key after some events. */
  function Folded(k: Net, value: Option<Attrs>, events: seq<KvEvent>): Option<Attrs>
    decreases |events|
  {
    if events == [] then value
    else
      var e := events[0];
      Folded(k, if e.net != k then value else if e.Put? then Some(e.attrs) else None, events[1..])
  }

  /** The value of a key at a revision. */
  function At(history: seq<seq<KvEvent>>, revision: nat, k: Net): Option<Attrs>
    requires revision <= |history|
    decreases revision
  {
    if revision == 0 then None else Folded(k, At(history, revision - 1, k), history[revision - 1])
  }

  /** The events of the revisions after `lo` up to `hi`, in order. */
  function Span(history: seq<seq<KvEvent>>, lo: nat, hi: nat): seq<KvEvent>
    requires lo <= hi <= |history|
    decreases hi
  {
    if lo == hi then [] else Span(history, lo, hi - 1) + history[hi - 1]
  }

  function Results(events: seq<KvEvent>): (r: seq<Result>)
    ensures |r| == |events| && forall i :: 0 <= i < |r| ==> r[i] == Incremental(ToEvent(events[i]))
  {
    seq(|events|, i requires 0 <= i < |events| => Incremental(ToEvent(events[i])))
  }

  function AttrsOf(l: Option<Lease>): Option<Attrs>
  {
    if l.None? then None else Some(l.value.attrs)
  }

  /** getSubnets: one lease for every entry, in any order. */
  ghost predicate ListingAt(history: seq<seq<KvEvent>>, revision: nat, leases: seq<Lease>)
    requires revision <= |history|
  {
    && M.HasAll(leases) && Distinct(M, leases)
    && forall k: Net :: AttrsOf(Lookup(M, leases, Four(k))) == At(history, revision, k)
  }

  function AsCall(r: Result): Call
  {
    match r
    case Snapshot(leases) => ResetCall(leases)
    case Incremental(e) => UpdateCall([e])
  }

  ghost predicate Initial(s: State)
  {
    && s.base <= |s.history| && s.since == s.base + 1 && s.connection == Down
    && |s.queue| == 1 && s.queue[0].Snapshot? && ListingAt(s.history, s.base, s.queue[0].leases)
    && s.leases == [] && s.emitted == [] && s.sent == []
  }

  ghost predicate Next(own: Lease, s: State, a: Action, s': State)
  {
    match a
    case Write(events) => s' == s.(history := s.history + [events])
    case Compact(revision) => s.compacted <= revision <= |s.history| && s' == s.(compacted := revision)
    case Connect => s.connection == Down && s.compacted <= s.since && s' == s.(connection := Up(s.since))
    case Deliver(revision) =>
      && s.connection.Up? && s.connection.cursor <= revision + 1 && revision <= |s.history|
      && s.connection.cursor > 0
      && var events := Span(s.history, s.connection.cursor - 1, revision);
      s' == s.(since := revision + 1, connection := Up(revision + 1),
               queue := s.queue + Results(events), sent := s.sent + events)
    case Disconnect => s.connection.Up? && s' == s.(connection := Down)
    case Relist(snapshot) =>
      && s.since < s.compacted && ListingAt(s.history, |s.history|, snapshot)
      && s' == s.(since := |s.history| + 1, connection := Down, queue := s.queue + [Snapshot(snapshot)],
                  base := |s.history|, sent := [])
    case Consume =>
      && s.queue != []
      && var (leases, batch) := Perform(own, s.leases, AsCall(s.queue[0]));
      s' == s.(queue := s.queue[1..], leases := leases, emitted := s.emitted + batch)
  }

  ghost predicate Run(own: Lease, states: seq<State>, actions: seq<Action>)
  {
    && |states| == |actions| + 1 && Initial(states[0])
    && forall i :: 0 <= i < |actions| ==> Next(own, states[i], actions[i], states[i + 1])
  }

  // ---------------------------------------------------------------------------------------------
  // Draining the channel, one key at a time

  ghost predicate ResultOk(r: Result)
  {
    match r
    case Snapshot(leases) => M.HasAll(leases) && Distinct(M, leases)
    case Incremental(e) => M.Has(e.lease)
  }

  /** The lease stored for a foreign key once the results have been applied. */
  function Drained(k: Net, stored: Option<Lease>, queue: seq<Result>): Option<Lease>
    decreases |queue|
  {
    if queue == [] then stored else Drained(k, Applied(k, stored, queue[0]), queue[1..])
  }

  function Applied(k: Net, stored: Option<Lease>, r: Result): Option<Lease>
  {
    match r
    case Snapshot(leases) => Lookup(M, leases, Four(k))
    case Incremental(e) => if e.lease.subnet != k then stored else if e.Added? then Some(e.lease) else None
  }

  lemma {:induction false} DrainedConcat(k: Net, stored: Option<Lease>, p: seq<Result>, q: seq<Result>)
    ensures Drained(k, stored, p + q) == Drained(k, Drained(k, stored, p), q)
    decreases |p|
  {
    if p == [] {
      assert p + q == q;
    } else {
      assert (p + q)[1..] == p[1..] + q;
      DrainedConcat(k, Applied(k, stored, p[0]), p[1..], q);
    }
  }

  /** Applying delivered events to the mirror is applying them to the registry. */
  lemma {:induction false} DrainedResults(k: Net, stored: Option<Lease>, events: seq<KvEvent>)
    ensures AttrsOf(Drained(k, stored, Results(events))) == Folded(k, AttrsOf(stored), events)
    decreases |events|
  {
    if events != [] {
      assert Results(events)[1..] == Results(events[1..]);
      DrainedResults(k, Applied(k, stored, Results(events)[0]), events[1..]);
    }
  }

  lemma {:induction false} FoldedConcat(k: Net, value: Option<Attrs>, a: seq<KvEvent>, b: seq<KvEvent>)
    ensures Folded(k, value, a + b) == Folded(k, Folded(k, value, a), b)
    decreases |a|
  {
    if a == [] {
      assert a + b == b;
    } else {
      assert (a + b)[1..] == a[1..] + b;
      FoldedConcat(k, if a[0].net != k then value else if a[0].Put? then Some(a[0].attrs) else None, a[1..], b);
    }
  }

  lemma {:induction false} AtSpan(history: seq<seq<KvEvent>>, lo: nat, hi: nat, k: Net)
    requires lo <= hi <= |history|
    ensures At(history, hi, k) == Folded(k, At(history, lo, k), Span(history, lo, hi))
    decreases hi
  {
    if lo < hi {
      AtSpan(history, lo, hi - 1, k);
      FoldedConcat(k, At(history, lo, k), Span(history, lo, hi - 1), history[hi - 1]);
    }
  }

  lemma {:induction false} AtExtended(history: seq<seq<KvEvent>>, events: seq<KvEvent>, revision: nat, k: Net)
    requires revision <= |history|
    ensures At(history + [events], revision, k) == At(history, revision, k)
    decreases revision
  {
    if revision > 0 { AtExtended(history, events, revision - 1, k); }
  }

  lemma {:induction false} SpanConcat(history: seq<seq<KvEvent>>, a: nat, b: nat, c: nat)
    requires a <= b <= c <= |history|
    ensures Span(history, a, b) + Span(history, b, c) == Span(history, a, c)
    decreases c
  {
    if b < c { SpanConcat(history, a, b, c - 1); }
  }

  lemma {:induction false} SpanExtended(history: seq<seq<KvEvent>>, events: seq<KvEvent>, a: nat, b: nat)
    requires a <= b <= |history|
    ensures Span(history + [events], a, b) == Span(history, a, b)
    decreases b
  {
    if a < b { SpanExtended(history, events, a, b - 1); }
  }

  // ---------------------------------------------------------------------------------------------
  // The invariant

  /** The cursor of an open watch is where the client would resume, and nothing was skipped or repeated. */
  ghost predicate Positions(s: State)
  {
    && s.base < s.since <= |s.history| + 1
    && (s.connection.Up? ==> s.connection.cursor == s.since)
    && s.sent == Span(s.history, s.base, s.since - 1)
  }

  ghost predicate Shapes(s: State)
  {
    && M.HasAll(s.leases) && Distinct(M, s.leases)
    && forall i :: 0 <= i < |s.queue| ==> ResultOk(s.queue[i])
  }

  /** Away from the node's own subnet the drained mirror is the registry just before the resume revision. */
  ghost predicate MirrorsAt(own: Lease, s: State, k: Net)
    requires Positions(s)
  {
    k != own.subnet ==> AttrsOf(Drained(k, Lookup(M, s.leases, Four(k)), s.queue)) == At(s.history, s.since - 1, k)
  }

  /** A backend that folds the emitted events knows the mirrored subnets other than the node's own. */
  ghost predicate BackendAt(own: Lease, s: State, k: Net)
  {
    Holds(M, Four(k), false, s.emitted) == (k != own.subnet && Lookup(M, s.leases, Four(k)).Some?)
  }

  ghost predicate Inv(own: Lease, s: State)
  {
    && Positions(s) && Shapes(s)
    && forall k: Net :: MirrorsAt(own, s, k) && BackendAt(own, s, k)
  }

  lemma InitialInv(own: Lease, s: State)
    requires Initial(s)
    ensures Inv(own, s)
  {
    hide Distinct, Lookup;
    forall k: Net
      ensures MirrorsAt(own, s, k) && BackendAt(own, s, k)
    {
      assert s.queue == [Snapshot(s.queue[0].leases)];
      LookupNone(k);
      DrainedSnapshot(k, None, s.queue[0].leases);
      HoldsNone(M, Four(k), false);
    }
    DistinctNone();
  }

  lemma LookupNone(k: Net)
    ensures Lookup(M, [], Four(k)) == None
  {
  }

  lemma DistinctNone()
    ensures Distinct(M, [])
  {
  }

  lemma PositionsPreserved(own: Lease, s: State, a: Action, s': State)
    requires Positions(s) && Next(own, s, a, s')
    ensures Positions(s')
  {
    hide Perform;
    match a
    case Write(events) => SpanExtended(s.history, events, s.base, s.since - 1);
    case Deliver(revision) => SpanConcat(s.history, s.base, s.since - 1, revision);
    case _ =>
  }

  lemma ShapesPreserved(own: Lease, s: State, a: Action, s': State)
    requires Shapes(s) && Next(own, s, a, s')
    ensures Shapes(s')
  {
    hide Perform, Distinct, At, Lookup;
    match a
    case Deliver(revision) =>
      var results := Results(Span(s.history, s.connection.cursor - 1, revision));
      forall i | 0 <= i < |results| ensures ResultOk(results[i]) {}
    case Consume =>
      assert ResultOk(s.queue[0]);
      CallTracks(M, own, s.leases, AsCall(s.queue[0]), Four(own.subnet));
    case _ =>
  }

  /** Taking a result off the channel applies it to the list. */
  lemma ConsumeAppliesHead(own: Lease, leases: seq<Lease>, r: Result, k: Net)
    requires M.HasAll(leases) && Distinct(M, leases) && ResultOk(r) && k != own.subnet
    ensures Lookup(M, Perform(own, leases, AsCall(r)).0, Four(k)) == Drained(k, Lookup(M, leases, Four(k)), [r])
  {
    hide Lookup, Distinct;
    assert [r][1..] == [];
    match r
    case Snapshot(_) =>
    case Incremental(e) =>
      UpdateTracks(M, own, leases, [e], Four(k));
      assert [e][1..] == [];
  }

  lemma MirrorPreserved(own: Lease, s: State, a: Action, s': State, k: Net)
    requires Positions(s) && Shapes(s) && Next(own, s, a, s') && Positions(s')
    requires MirrorsAt(own, s, k)
    ensures MirrorsAt(own, s', k)
  {
    hide Lookup, Distinct, Perform, Drained, At, Folded;
    var stored := Lookup(M, s.leases, Four(k));
    match a
    case Write(events) => AtExtended(s.history, events, s.since - 1, k);
    case Deliver(revision) =>
      var events := Span(s.history, s.since - 1, revision);
      DrainedConcat(k, stored, s.queue, Results(events));
      DrainedResults(k, Drained(k, stored, s.queue), events);
      AtSpan(s.history, s.since - 1, revision, k);
    case Relist(snapshot) =>
      DrainedConcat(k, stored, s.queue, [Snapshot(snapshot)]);
      DrainedSnapshot(k, Drained(k, stored, s.queue), snapshot);
    case Consume =>
      if k != own.subnet {
        assert s.queue == [s.queue[0]] + s.queue[1..];
        assert ResultOk(s.queue[0]);
        DrainedConcat(k, stored, [s.queue[0]], s.queue[1..]);
        ConsumeAppliesHead(own, s.leases, s.queue[0], k);
      }
    case _ =>
  }

  lemma DrainedSnapshot(k: Net, stored: Option<Lease>, snapshot: seq<Lease>)
    ensures Drained(k, stored, [Snapshot(snapshot)]) == Lookup(M, snapshot, Four(k))
  {
    assert [Snapshot(snapshot)][1..] == [];
  }

  lemma BackendPreserved(own: Lease, s: State, a: Action, s': State, k: Net)
    requires Shapes(s) && Next(own, s, a, s') && BackendAt(own, s, k)
    ensures BackendAt(own, s', k)
  {
    hide Lookup, Distinct, Perform, Holds;
    if a.Consume? {
      assert ResultOk(s.queue[0]);
      var c := AsCall(s.queue[0]);
      CallTracks(M, own, s.leases, c, Four(k));
      HoldsConcat(M, Four(k), false, s.emitted, Perform(own, s.leases, c).1);
    }
  }

  lemma InvPreserved(own: Lease, s: State, a: Action, s': State)
    requires Inv(own, s) && Next(own, s, a, s')
    ensures Inv(own, s')
  {
    hide Next, Positions, Shapes, MirrorsAt, BackendAt;
    PositionsPreserved(own, s, a, s');
    ShapesPreserved(own, s, a, s');
    forall k: Net
      ensures MirrorsAt(own, s', k) && BackendAt(own, s', k)
    {
      assert MirrorsAt(own, s, k) && BackendAt(own, s, k);
      MirrorPreserved(own, s, a, s', k);
      BackendPreserved(own, s, a, s', k);
    }
  }

  lemma {:induction false} RunInv(own: Lease, states: seq<State>, actions: seq<Action>, i: nat)
    requires Run(own, states, actions) && i < |states|
    ensures Inv(own, states[i])
  {
    hide Next, Inv;
    if i == 0 {
      InitialInv(own, states[0]);
    } else {
      RunInv(own, states, actions, i - 1);
      InvPreserved(own, states[i - 1], actions[i - 1], states[i]);
    }
  }

  // ---------------------------------------------------------------------------------------------
  // The results

  function Calls(queue: seq<Result>): (r: seq<Call>)
    ensures |r| == |queue| && forall i :: 0 <= i < |r| ==> r[i] == AsCall(queue[i])
  {
    seq(|queue|, i requires 0 <= i < |queue| => AsCall(queue[i]))
  }

  lemma {:induction false} DrainAll(own: Lease, leases: seq<Lease>, queue: seq<Result>, k: Net)
    requires M.HasAll(leases) && Distinct(M, leases) && k != own.subnet
    requires forall i :: 0 <= i < |queue| ==> ResultOk(queue[i])
    ensures Lookup(M, PerformAll(own, leases, Calls(queue)).0, Four(k)) == Drained(k, Lookup(M, leases, Four(k)), queue)
    decreases |queue|
  {
    hide Lookup, Distinct, Perform;
    if queue != [] {
      var c := AsCall(queue[0]);
      assert ResultOk(queue[0]);
      CallTracks(M, own, leases, c, Four(k));
      ConsumeAppliesHead(own, leases, queue[0], k);
      assert Calls(queue)[1..] == Calls(queue[1..]);
      DrainAll(own, Perform(own, leases, c).0, queue[1..], k);
      assert [queue[0]][1..] == [];
    }
  }

  /**
    In every reachable state, once the results in flight have been applied, the watcher's list gives every
    foreign subnet the attributes it has in the registry just before the resume revision, and a backend
    that folded every emitted event knows exactly those subnets.
   */
  lemma MirrorEqualsRegistry(own: Lease, states: seq<State>, actions: seq<Action>, i: nat, k: Net)
    requires Run(own, states, actions) && i < |states|
    ensures var s := states[i];
      && s.base < s.since <= |s.history| + 1
      && var (leases, batch) := PerformAll(own, s.leases, Calls(s.queue));
      && (k != own.subnet ==> AttrsOf(Lookup(M, leases, Four(k))) == At(s.history, s.since - 1, k))
      && Holds(M, Four(k), false, s.emitted + batch)
         == (k != own.subnet && At(s.history, s.since - 1, k).Some?)
  {
    hide Lookup, Distinct, Perform, PerformAll, Holds, Drained, At, Next, ResultOk;
    RunInv(own, states, actions, i);
    var s := states[i];
    assert MirrorsAt(own, s, k) && BackendAt(own, s, k);
    var (leases, batch) := PerformAll(own, s.leases, Calls(s.queue));
    if k != own.subnet { DrainAll(own, s.leases, s.queue, k); }
    QueueCallsOk(s.queue);
    ConsumerTracksWatcher(M, own, s.leases, Calls(s.queue), Four(k));
    HoldsConcat(M, Four(k), false, s.emitted, batch);
  }

  lemma QueueCallsOk(queue: seq<Result>)
    requires forall i :: 0 <= i < |queue| ==> ResultOk(queue[i])
    ensures forall i :: 0 <= i < |queue| ==> CallOk(M, Calls(queue)[i])
  {
    forall i | 0 <= i < |queue| ensures CallOk(M, Calls(queue)[i]) { assert ResultOk(queue[i]); }
  }

  /** The events put on the channel since the last snapshot are the registry's events after it, each once, in order. */
  lemma NothingLostOrRepeated(own: Lease, states: seq<State>, actions: seq<Action>, i: nat)
    requires Run(own, states, actions) && i < |states|
    ensures var s := states[i];
      && s.base < s.since <= |s.history| + 1
      && s.sent == Span(s.history, s.base, s.since - 1)
      && (s.connection.Up? ==> s.connection.cursor == s.since)
  {
    RunInv(own, states, actions, i);
  }

  // ---------------------------------------------------------------------------------------------
  // What the backend knows about the leases themselves

  /** What a backend has folded for a subnet is the lease in the list; nothing for the own subnet. */
  ghost predicate BackendHas(own: Lease, s: State, k: Net)
  {
    k != own.subnet ==> Known(M, Four(k), None, s.emitted) == Lookup(M, s.leases, Four(k))
  }

  /** A step that hands the watcher no snapshot with a changed lease for the subnet. */
  predicate Fresh(s: State, a: Action, k: Net)
  {
    a.Consume? && s.queue != [] && s.queue[0].Snapshot? ==> FreshAt(M, s.leases, s.queue[0].leases, Four(k))
  }

  lemma BackendHasPreserved(own: Lease, s: State, a: Action, s': State, k: Net)
    requires Shapes(s) && Next(own, s, a, s') && BackendHas(own, s, k) && k != own.subnet
    ensures Fresh(s, a, k) <==> BackendHas(own, s', k)
  {
    hide Lookup, Distinct, Known, ResetBatch, UpdateAll, FreshAt;
    if a.Consume? {
      assert ResultOk(s.queue[0]);
      var batch := Perform(own, s.leases, AsCall(s.queue[0])).1;
      KnownConcat(M, Four(k), None, s.emitted, batch);
      match s.queue[0]
      case Snapshot(leases) => ResetFreshIff(M, own, s.leases, leases, Four(k));
      case Incremental(e) => UpdateCarries(M, own, s.leases, [e], Four(k), Lookup(M, s.leases, Four(k)));
    }
  }

  /**
    In every run in which no snapshot changes a lease that the list had for a foreign subnet, a backend that
    folds the events has the lease of the list, and with nothing in flight the attributes of the registry
    just before the resume revision.
   */
  lemma {:induction false} BackendEqualsRegistry(own: Lease, states: seq<State>, actions: seq<Action>, i: nat, k: Net)
    requires Run(own, states, actions) && i < |states| && k != own.subnet
    requires forall j :: 0 <= j < i ==> Fresh(states[j], actions[j], k)
    ensures BackendHas(own, states[i], k)
    ensures states[i].base < states[i].since <= |states[i].history| + 1
    ensures var s := states[i];
      s.queue == [] ==> AttrsOf(Known(M, Four(k), None, s.emitted)) == At(s.history, s.since - 1, k)
  {
    hide Lookup, Distinct, Known, Next, At, Fresh;
    RunInv(own, states, actions, i);
    if i == 0 {
      KnownNone(M, Four(k), None);
      LookupNone(k);
    } else {
      BackendEqualsRegistry(own, states, actions, i - 1, k);
      RunInv(own, states, actions, i - 1);
      BackendHasPreserved(own, states[i - 1], actions[i - 1], states[i], k);
    }
    assert MirrorsAt(own, states[i], k);
  }

  /** Only the first result is a snapshot, and only while the list is empty. */
  ghost predicate OneSnapshot(s: State)
  {
    forall i :: 0 <= i < |s.queue| && s.queue[i].Snapshot? ==> i == 0 && s.leases == []
  }

  /** Until the watch has to list again, every step is fresh. */
  lemma {:induction false} FreshUntilRelist(own: Lease, states: seq<State>, actions: seq<Action>, i: nat, k: Net)
    requires Run(own, states, actions) && i < |states|
    requires forall j :: 0 <= j < i ==> !actions[j].Relist?
    ensures OneSnapshot(states[i])
    ensures i < |actions| ==> Fresh(states[i], actions[i], k)
  {
    hide Lookup, Distinct, Perform, At;
    if i > 0 {
      FreshUntilRelist(own, states, actions, i - 1, k);
      assert Next(own, states[i - 1], actions[i - 1], states[i]);
    }
    LookupNone(k);
  }

  /** So until then a backend with nothing in flight has exactly the registry's attributes of the foreign subnets. */
  lemma BackendUntilRelist(own: Lease, states: seq<State>, actions: seq<Action>, i: nat, k: Net)
    requires Run(own, states, actions) && i < |states| && k != own.subnet && states[i].queue == []
    requires forall j :: 0 <= j < i ==> !actions[j].Relist?
    ensures states[i].base < states[i].since <= |states[i].history| + 1
    ensures AttrsOf(Known(M, Four(k), None, states[i].emitted)) == At(states[i].history, states[i].since - 1, k)
  {
    hide Next, Fresh, Known, At, OneSnapshot;
    forall j | 0 <= j < i ensures Fresh(states[j], actions[j], k) { FreshUntilRelist(own, states, actions, j, k); }
    BackendEqualsRegistry(own, states, actions, i, k);
  }

  // ---------------------------------------------------------------------------------------------
  // The mirror can always catch up

  function Entered(leases: seq<Lease>, e: KvEvent): seq<Lease>
  {
    match e
    case Put(net, attrs) => With(leases, ToLease(net, attrs))
    case Delete(net) => Without(leases, ToLease(net, NO_ATTRS))
  }

  function Listed(leases: seq<Lease>, events: seq<KvEvent>): seq<Lease>
    decreases |events|
  {
    if events == [] then leases else Listed(Entered(leases, events[0]), events[1..])
  }

  lemma {:induction false} ListedIs(leases: seq<Lease>, events: seq<KvEvent>, k: Net)
    requires M.HasAll(leases) && Distinct(M, leases)
    ensures M.HasAll(Listed(leases, events)) && Distinct(M, Listed(leases, events))
    ensures AttrsOf(Lookup(M, Listed(leases, events), Four(k)))
      == Folded(k, AttrsOf(Lookup(M, leases, Four(k))), events)
    decreases |events|
  {
    hide Lookup, Distinct, With, Without;
    if events != [] {
      match events[0] {
        case Put(net, attrs) => WithLookup(M, leases, ToLease(net, attrs), Four(k));
        case Delete(net) => WithoutLookup(M, leases, ToLease(net, NO_ATTRS), Four(k));
      }
      ListedIs(Entered(leases, events[0]), events[1..], k);
    }
  }

  /** Every registry can be listed. */
  lemma {:induction false} ListingExists(history: seq<seq<KvEvent>>, revision: nat) returns (leases: seq<Lease>)
    requires revision <= |history|
    ensures ListingAt(history, revision, leases)
  {
    hide Lookup, Distinct, Listed;
    if revision == 0 {
      leases := [];
      DistinctNone();
      forall k: Net ensures Lookup(M, [], Four(k)) == None { LookupNone(k); }
    } else {
      var before := ListingExists(history, revision - 1);
      leases := Listed(before, history[revision - 1]);
      forall k: Net
        ensures M.HasAll(leases) && Distinct(M, leases)
        ensures AttrsOf(Lookup(M, leases, Four(k))) == At(history, revision, k)
      {
        ListedIs(before, history[revision - 1], k);
      }
      ListedIs(before, history[revision - 1], Net(0, 0));
    }
  }

  /** Steps of watch and watcher alone, after which nothing is in flight and the watch is at the newest revision. */
  ghost predicate Leads(own: Lease, s: State, t: State, states: seq<State>, actions: seq<Action>)
  {
    && |states| == |actions| + 1 && states[0] == s && states[|actions|] == t
    && (forall i :: 0 <= i < |actions| ==> Next(own, states[i], actions[i], states[i + 1]))
    && (forall i :: 0 <= i < |actions| ==> !actions[i].Write? && !actions[i].Compact?)
  }

  ghost predicate Reaches(own: Lease, s: State, t: State)
  {
    exists states, actions :: Leads(own, s, t, states, actions)
  }

  lemma ReachesItself(own: Lease, s: State)
    ensures Reaches(own, s, s)
  {
    assert Leads(own, s, s, [s], []);
  }

  lemma StepThenReaches(own: Lease, s: State, a: Action, s': State, t: State)
    requires Next(own, s, a, s') && !a.Write? && !a.Compact? && Reaches(own, s', t)
    ensures Reaches(own, s, t)
  {
    hide Next;
    var states, actions :| Leads(own, s', t, states, actions);
    var longer, more := [s] + states, [a] + actions;
    forall i | 0 <= i < |more|
      ensures Next(own, longer[i], more[i], longer[i + 1]) && !more[i].Write? && !more[i].Compact?
    {
      if i > 0 { assert longer[i] == states[i - 1] && more[i] == actions[i - 1]; }
    }
    assert Leads(own, s, t, longer, more);
  }

  lemma {:induction false} CanDrain(own: Lease, s: State) returns (t: State)
    ensures Reaches(own, s, t) && t.queue == [] && t.history == s.history && t.since == s.since
    decreases |s.queue|
  {
    hide Perform, Reaches;
    if s.queue == [] {
      t := s;
      ReachesItself(own, s);
    } else {
      var (leases, batch) := Perform(own, s.leases, AsCall(s.queue[0]));
      var s' := s.(queue := s.queue[1..], leases := leases, emitted := s.emitted + batch);
      t := CanDrain(own, s');
      StepThenReaches(own, s, Consume, s', t);
    }
  }

  lemma CanDeliver(own: Lease, s: State) returns (t: State)
    requires Positions(s) && s.connection.Up?
    ensures Reaches(own, s, t) && t.queue == [] && t.history == s.history && t.since == |s.history| + 1
  {
    hide Reaches, Span;
    var events := Span(s.history, s.connection.cursor - 1, |s.history|);
    var s' := s.(since := |s.history| + 1, connection := Up(|s.history| + 1),
                 queue := s.queue + Results(events), sent := s.sent + events);
    t := CanDrain(own, s');
    StepThenReaches(own, s, Deliver(|s.history|), s', t);
  }

  lemma CanResume(own: Lease, s: State) returns (t: State)
    requires Positions(s)
    ensures Reaches(own, s, t) && t.queue == [] && t.history == s.history && t.since == |s.history| + 1
  {
    hide Reaches, Span, ListingAt;
    if s.connection.Up? {
      t := CanDeliver(own, s);
    } else if s.compacted <= s.since {
      var s' := s.(connection := Up(s.since));
      t := CanDeliver(own, s');
      StepThenReaches(own, s, Connect, s', t);
    } else {
      var snapshot := ListingExists(s.history, |s.history|);
      var s' := s.(since := |s.history| + 1, connection := Down, queue := s.queue + [Snapshot(snapshot)],
                   base := |s.history|, sent := []);
      t := CanDrain(own, s');
      StepThenReaches(own, s, Relist(snapshot), s', t);
    }
  }

  lemma {:induction false} ReachesInv(own: Lease, s: State, t: State, states: seq<State>, actions: seq<Action>)
    requires Inv(own, s) && Leads(own, s, t, states, actions)
    ensures Inv(own, t)
    decreases |actions|
  {
    hide Next, Inv;
    if |actions| > 0 {
      InvPreserved(own, s, actions[0], states[1]);
      var later, rest := states[1..], actions[1..];
      forall i | 0 <= i < |rest|
        ensures Next(own, later[i], rest[i], later[i + 1]) && !rest[i].Write? && !rest[i].Compact?
      {
        assert actions[i + 1] == rest[i] && later[i] == states[i + 1] && later[i + 1] == states[i + 2];
      }
      ReachesInv(own, states[1], t, later, rest);
    }
  }

  /** List and backend are the registry as it stands, the own subnet apart. */
  ghost predicate CaughtUp(own: Lease, t: State)
  {
    && t.queue == []
    && forall k: Net ::
      && (k != own.subnet ==> AttrsOf(Lookup(M, t.leases, Four(k))) == At(t.history, |t.history|, k))
      && Holds(M, Four(k), false, t.emitted) == (k != own.subnet && At(t.history, |t.history|, k).Some?)
  }

  /**
    From every state of every run, connected or not and however much has been compacted, the watch can go on
    by itself until list and backend are the registry as it stands.
   */
  lemma CanCatchUp(own: Lease, states: seq<State>, actions: seq<Action>, i: nat)
    requires Run(own, states, actions) && i < |states|
    ensures exists t :: Reaches(own, states[i], t) && t.history == states[i].history && CaughtUp(own, t)
  {
    hide Next, Lookup, Holds, At, Span;
    var s := states[i];
    RunInv(own, states, actions, i);
    var t := CanResume(own, s);
    var path, steps :| Leads(own, s, t, path, steps);
    ReachesInv(own, s, t, path, steps);
    forall k: Net
      ensures k != own.subnet ==> AttrsOf(Lookup(M, t.leases, Four(k))) == At(t.history, |t.history|, k)
      ensures Holds(M, Four(k), false, t.emitted) == (k != own.subnet && At(t.history, |t.history|, k).Some?)
    {
      assert MirrorsAt(own, t, k) && BackendAt(own, t, k);
      assert Drained(k, Lookup(M, t.leases, Four(k)), t.queue) == Lookup(M, t.leases, Four(k));
    }
    assert CaughtUp(own, t);
  }
}
