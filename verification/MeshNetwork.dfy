/**
  The event loop of the mesh backend (pkg/backend/cloudflaremesh/network_linux.go): batches of lease
  events update the set of desired networks and are applied to the host at once, a periodic tick
  reconciles the host with that set, but prunes only once the set can be trusted, and the end of the loop
  cleans up.
 */
module MeshNetwork {
  import opened Ip4
  import opened Leases
  import opened LeaseWatcher
  import opened MeshRoutes

  const BACKEND_NAME := "cloudflare-mesh"

  /** A minute, in nanoseconds. */
  const PRUNE_GRACE: int := 60_000_000_000

  predicate Ours(e: Event)
  {
    e.lease.attrs.backendType == BACKEND_NAME
  }

  /** The events of this backend are about blocks without host bits. */
  predicate Proper(batch: seq<Event>)
  {
    forall i :: 0 <= i < |batch| && Ours(batch[i]) ==> batch[i].lease.subnet.Canonical()
  }

  /** The networks wanted after an event: those of this backend, added or removed. */
  function Wanted(desired: set<Cidr>, e: Event): set<Cidr>
    requires Ours(e) ==> e.lease.subnet.Canonical()
  {
    if !Ours(e) then desired
    else if e.Added? then desired + {e.lease.subnet}
    else desired - {e.lease.subnet}
  }

  function WantedAfter(desired: set<Cidr>, batch: seq<Event>): set<Cidr>
    requires Proper(batch)
  {
    if batch == [] then desired else Wanted(WantedAfter(desired, batch[..|batch| - 1]), batch[|batch| - 1])
  }

  predicate Names(e: Event, d: Net)
  {
    Ours(e) && e.lease.subnet == d
  }

  /** Whether a batch of this backend's events mentions a network. */
  predicate Named(batch: seq<Event>, d: Net)
  {
    exists i :: 0 <= i < |batch| && Names(batch[i], d)
  }

  /** What the host holds for a network after events that met no error. */
  function ViewAfter(v: View, batch: seq<Event>, d: Cidr, link: nat): View
  {
    if batch == [] then v
    else
      var before, e := ViewAfter(v, batch[..|batch| - 1], d, link), batch[|batch| - 1];
      if !Names(e, d) then before else if e.Added? then Full(before, link) else Cleared(before)
  }

  datatype Input = Batch(events: seq<Event>) | Tick(now: int)

  predicate AllProper(inputs: seq<Input>)
  {
    forall i :: 0 <= i < |inputs| && inputs[i].Batch? ==> Proper(inputs[i].events)
  }

  /** The fold of all the events received so far. */
  function Leased(inputs: seq<Input>): set<Cidr>
    requires AllProper(inputs)
  {
    if inputs == [] then {}
    else
      var before, last := Leased(inputs[..|inputs| - 1]), inputs[|inputs| - 1];
      if last.Batch? then WantedAfter(before, last.events) else before
  }

  predicate Heard(inputs: seq<Input>)
  {
    exists i :: 0 <= i < |inputs| && inputs[i].Batch?
  }

  predicate EverNamed(inputs: seq<Input>, d: Net)
  {
    exists i :: 0 <= i < |inputs| && inputs[i].Batch? && Named(inputs[i].events, d)
  }

  /** The link is there, and the chain has a rule of somebody else's for the SNAT rules to come after. */
  predicate Anchored(p: Params, h: Host)
  {
    h.link.Some? && Others(p, ChainOf(h)) != []
  }

  /** Neither a route nor a policy rule. */
  /** Away from the mesh network, only desired networks have routes and policy rules. */
  ghost predicate NothingElse(p: Params, h: Host, desired: set<Cidr>)
  {
    forall d: Cidr :: d !in desired && d != p.meshCidr ==> Bare(ViewOf(p, h, d))
  }

  predicate Bare(v: View)
  {
    v.route.None? && !v.rule
  }

  /** Host and desired set agree: desired networks are complete, and those that were taken back are bare. */
  ghost predicate InStep(p: Params, h: Host, desired: set<Cidr>, inputs: seq<Input>)
  {
    forall d: Cidr ::
      && (d in desired ==> h.link.Some? && IsFull(ViewOf(p, h, d), h.link.value))
      && (d !in desired && EverNamed(inputs, d) ==> Bare(ViewOf(p, h, d)))
  }

  class Network {
    const routes: RouteManager
    var desired: set<Cidr>
    var synced: bool
    var prunableAt: int

    constructor (routes: RouteManager, start: int)
      ensures this.routes == routes && desired == {} && !synced && prunableAt == start + PRUNE_GRACE
    {
      this.routes, desired, synced, prunableAt := routes, {}, false, start + PRUNE_GRACE;
    }

    /**
      The desired set follows the events whether or not the host calls succeed, and only named networks
      are touched; when no call fails each network is what the events make of it.
     */
    method HandleEvents(batch: seq<Event>)
      requires Proper(batch)
      modifies this, routes.kernel
      ensures desired == WantedAfter(old(desired), batch) && synced && prunableAt == old(prunableAt)
      ensures SameRest(routes.p, old(routes.kernel.host), routes.kernel.host)
      ensures forall d: Cidr :: !Named(batch, d) ==>
        ViewOf(routes.p, routes.kernel.host, d) == ViewOf(routes.p, old(routes.kernel.host), d)
      ensures !routes.kernel.faulty && Anchored(routes.p, old(routes.kernel.host)) ==>
        Followed(routes.p, old(routes.kernel.host), routes.kernel.host, batch)
      ensures old(routes.kernel.faulty) ==> routes.kernel.faulty
    {
      hide ViewOf, SameRest, Anchored, Followed;
      ghost var p, h0 := routes.p, routes.kernel.host;
      SameRestReflexive(p, h0);
      FollowedNone(p, h0);
      for n := 0 to |batch|
        invariant desired == WantedAfter(old(desired), batch[..n]) && prunableAt == old(prunableAt)
        invariant SameRest(p, h0, routes.kernel.host)
        invariant forall d: Cidr :: !Named(batch[..n], d) ==> ViewOf(p, routes.kernel.host, d) == ViewOf(p, h0, d)
        invariant !routes.kernel.faulty && Anchored(p, h0) ==> Followed(p, h0, routes.kernel.host, batch[..n])
        invariant old(routes.kernel.faulty) ==> routes.kernel.faulty
      {
        var e := batch[n];
        ghost var h := routes.kernel.host;
        assert batch[..n + 1][..n] == batch[..n];
        NamedMore(batch, n);
        AnchoredKept(p, h0, h);
        if Ours(e) {
          var ok;
          if e.Added? {
            desired := desired + {e.lease.subnet};
            ok := routes.Ensure(e.lease.subnet);
          } else {
            desired := desired - {e.lease.subnet};
            ok := routes.Remove(e.lease.subnet);
          }
          SameRestTransitive(p, h0, h, routes.kernel.host);
          if ok && Followed(p, h0, h, batch[..n]) { FollowedMore(p, h0, h, routes.kernel.host, batch, n); }
        } else if Followed(p, h0, h, batch[..n]) {
          FollowedOther(p, h0, h, batch, n);
        }
      }
      assert batch[..|batch|] == batch;
      synced := true;
    }

    /**
      A tick prunes only after a batch has come in or the grace minute is over.  It never takes anything
      from a desired network, and while it does not prune it changes no other network either; when it
      prunes without errors every network ends up as the desired set says.
     */
    method Reconcile(now: int) returns (pruned: bool, ok: bool)
      modifies routes.kernel
      ensures pruned <==> synced || now >= prunableAt
      ensures SameRest(routes.p, old(routes.kernel.host), routes.kernel.host)
      ensures forall d: Cidr :: d in desired ==>
        var v, v' := ViewOf(routes.p, old(routes.kernel.host), d), ViewOf(routes.p, routes.kernel.host, d);
        Gained(v, v', routes.kernel.host.link)
      ensures forall d: Cidr :: d !in desired ==>
        var v, v' := ViewOf(routes.p, old(routes.kernel.host), d), ViewOf(routes.p, routes.kernel.host, d);
        if pruned then Lost(v, v') else v' == v
      ensures pruned && ok ==> forall d: Cidr ::
        var v, v' := ViewOf(routes.p, old(routes.kernel.host), d), ViewOf(routes.p, routes.kernel.host, d);
        v' == Target(routes.p, desired, routes.kernel.host.link, d, v)
      ensures !routes.kernel.faulty && (desired == {} || CanEnsure(old(routes.kernel.host))) ==> ok
      ensures old(routes.kernel.faulty) ==> routes.kernel.faulty
    {
      hide ViewOf, SameRest, Gained, Lost, Full;
      if !synced && now < prunableAt {
        ok := routes.EnsureAll(desired);
        return false, ok;
      }
      ok := routes.Reconcile(desired);
      return true, ok;
    }

    /**
      Any run of batches and ticks from the start: the desired set is the fold of the events received,
      every tick that pruned came after a batch or after the grace minute, and when no call fails the host
      is in step with the desired set.
     */
    method Loop(start: int, inputs: seq<Input>) returns (pruned: seq<bool>)
      requires desired == {} && !synced && prunableAt == start + PRUNE_GRACE && AllProper(inputs)
      modifies this, routes.kernel
      ensures desired == Leased(inputs)
      ensures SameRest(routes.p, old(routes.kernel.host), routes.kernel.host)
      ensures |pruned| == |inputs|
      ensures forall i :: 0 <= i < |inputs| ==>
        (pruned[i] <==> inputs[i].Tick? && (Heard(inputs[..i]) || inputs[i].now >= start + 60_000_000_000))
      ensures !routes.kernel.faulty && Anchored(routes.p, old(routes.kernel.host)) ==>
        InStep(routes.p, routes.kernel.host, desired, inputs)
      ensures !routes.kernel.faulty && Anchored(routes.p, old(routes.kernel.host)) && true in pruned ==>
        NothingElse(routes.p, routes.kernel.host, desired)
    {
      hide SameRest, Heard, ViewOf, Anchored, InStep, Followed, Gained, Lost, NothingElse;
      ghost var p, h0 := routes.p, routes.kernel.host;
      SameRestReflexive(p, h0);
      NothingHeard(p, h0);
      pruned := [];
      for n := 0 to |inputs|
        invariant AllProper(inputs[..n])
        invariant desired == Leased(inputs[..n]) && prunableAt == start + PRUNE_GRACE && |pruned| == n
        invariant synced <==> Heard(inputs[..n])
        invariant SameRest(p, h0, routes.kernel.host)
        invariant forall i :: 0 <= i < n ==>
          (pruned[i] <==> inputs[i].Tick? && (Heard(inputs[..i]) || inputs[i].now >= start + 60_000_000_000))
        invariant !routes.kernel.faulty && Anchored(p, h0) ==> InStep(p, routes.kernel.host, desired, inputs[..n])
        invariant !routes.kernel.faulty && Anchored(p, h0) && true in pruned ==>
          NothingElse(p, routes.kernel.host, desired)
      {
        var done := false;
        ghost var h, before := routes.kernel.host, desired;
        AnchoredKept(p, h0, h);
        assert inputs[..n + 1][..n] == inputs[..n];
        HeardMore(inputs, n);
        match inputs[n] {
          case Batch(events) =>
            HandleEvents(events);
            SameRestLink(p, h, routes.kernel.host);
            if InStep(p, h, before, inputs[..n]) && Followed(p, h, routes.kernel.host, events) && Anchored(p, h) {
              BatchInStep(p, h, routes.kernel.host, before, inputs, n);
              BatchAddsNothing(p, h, routes.kernel.host, before, inputs[..n], events);
            }
          case Tick(now) =>
            var ok;
            done, ok := Reconcile(now);
            SameRestLink(p, h, routes.kernel.host);
            if InStep(p, h, before, inputs[..n]) {
              TickInStep(p, h, routes.kernel.host, desired, inputs, n, done);
            }
            TickAddsNothing(p, h, routes.kernel.host, desired, done, ok);
        }
        SameRestTransitive(p, h0, h, routes.kernel.host);
        pruned := pruned + [done];
      }
      assert inputs[..|inputs|] == inputs;
    }

    /** The loop and the cleanup deferred to its end: without errors the host is as it was before flannel. */
    method Run(start: int, inputs: seq<Input>) returns (pruned: seq<bool>)
      requires desired == {} && !synced && prunableAt == start + PRUNE_GRACE && AllProper(inputs)
      modifies this, routes.kernel
      ensures desired == Leased(inputs) && |pruned| == |inputs|
      ensures forall i :: 0 <= i < |inputs| ==>
        (pruned[i] <==> inputs[i].Tick? && (Heard(inputs[..i]) || inputs[i].now >= start + 60_000_000_000))
      ensures SameOutside(routes.p, old(routes.kernel.host), routes.kernel.host)
      ensures !routes.kernel.faulty ==> Clean(routes.p, routes.kernel.host)
    {
      hide SameRest, SameOutside, Heard, Clean;
      ghost var h0 := routes.kernel.host;
      pruned := Loop(start, inputs);
      ghost var h := routes.kernel.host;
      OutsideOfRest(routes.p, h0, h);
      var ok := routes.Cleanup();
      OutsideTransitive(routes.p, h0, h, routes.kernel.host);
    }
  }

  // ---------------------------------------------------------------------------------------------
  // Batches

  /** Every network is what the events make of it. */
  ghost predicate Followed(p: Params, h: Host, h': Host, batch: seq<Event>)
  {
    h.link.Some? && forall d: Cidr :: ViewOf(p, h', d) == ViewAfter(ViewOf(p, h, d), batch, d, h.link.value)
  }

  lemma FollowedNone(p: Params, h: Host)
    ensures Anchored(p, h) ==> Followed(p, h, h, [])
  {
  }

  lemma FollowedOther(p: Params, h0: Host, h: Host, batch: seq<Event>, n: nat)
    requires n < |batch| && !Ours(batch[n]) && Followed(p, h0, h, batch[..n])
    ensures Followed(p, h0, h, batch[..n + 1])
  {
    hide ViewOf;
    assert batch[..n + 1][..n] == batch[..n];
  }

  lemma FollowedMore(p: Params, h0: Host, h: Host, h': Host, batch: seq<Event>, n: nat)
    requires n < |batch| && Ours(batch[n]) && batch[n].lease.subnet.Canonical() && Followed(p, h0, h, batch[..n])
    requires OnlyFor(p, h, h', batch[n].lease.subnet) && h'.link == h0.link
    requires var v, v' := ViewOf(p, h, batch[n].lease.subnet), ViewOf(p, h', batch[n].lease.subnet);
      if batch[n].Added? then v' == Full(v, h0.link.value) else v' == Cleared(v)
    ensures Followed(p, h0, h', batch[..n + 1])
  {
    hide ViewOf, SameRest, Full, Cleared;
    assert batch[..n + 1][..n] == batch[..n];
  }

  lemma AnchoredKept(p: Params, h: Host, h': Host)
    requires SameRest(p, h, h')
    ensures Anchored(p, h') <==> Anchored(p, h)
    ensures Anchored(p, h) ==> CanEnsure(h') && h'.link == h.link
  {
  }

  lemma NamedMore(batch: seq<Event>, n: nat)
    requires n < |batch|
    ensures forall d: Net :: Named(batch[..n + 1], d) <==> Named(batch[..n], d) || Names(batch[n], d)
  {
    forall d: Net | Named(batch[..n], d) ensures Named(batch[..n + 1], d) {
      var i :| 0 <= i < n && Names(batch[..n][i], d);
      assert batch[..n + 1][i] == batch[i];
    }
    assert batch[..n + 1][n] == batch[n];
  }

  /** A network is wanted exactly when the last event of this backend that names it added it. */
  lemma {:induction false} WantedByLastEvent(desired: set<Cidr>, batch: seq<Event>, d: Cidr)
    requires Proper(batch)
    ensures d in WantedAfter(desired, batch) <==> if Named(batch, d) then LastAdds(batch, d) else d in desired
  {
    if batch != [] {
      var n := |batch| - 1;
      var front := batch[..n];
      WantedByLastEvent(desired, front, d);
      NamedMore(batch, n);
      assert batch[..n + 1] == batch;
      LastAddsMore(batch, d);
    }
  }

  predicate LastAdds(batch: seq<Event>, d: Net)
  {
    exists i :: 0 <= i < |batch| && AddsLast(batch, i, d)
  }

  /** The event adds the network, and no later one names it. */
  predicate AddsLast(batch: seq<Event>, i: nat, d: Net)
    requires i < |batch|
  {
    && batch[i].Added? && batch[i].lease.subnet == d && batch[i].lease.attrs.backendType == "cloudflare-mesh"
    && forall j :: i < j < |batch| && batch[j].lease.subnet == d ==>
         batch[j].lease.attrs.backendType != "cloudflare-mesh"
  }

  lemma LastAddsMore(batch: seq<Event>, d: Net)
    requires batch != []
    ensures var n := |batch| - 1;
      LastAdds(batch, d) <==> if Names(batch[n], d) then batch[n].Added? else LastAdds(batch[..n], d)
  {
    var n := |batch| - 1;
    var front := batch[..n];
    if Names(batch[n], d) {
      assert batch[n].Added? ==> AddsLast(batch, n, d);
    } else {
      forall i | 0 <= i < n ensures AddsLast(batch, i, d) <==> AddsLast(front, i, d) {
        assert forall j :: 0 <= j < n ==> front[j] == batch[j];
      }
    }
  }

  /** After events without errors a wanted network is complete, and one that was taken back is bare. */
  lemma {:induction false} EventsInStep(v: View, desired: set<Cidr>, batch: seq<Event>, d: Cidr, link: nat)
    requires Proper(batch) && (d in desired ==> IsFull(v, link))
    ensures d in WantedAfter(desired, batch) ==> IsFull(ViewAfter(v, batch, d, link), link)
    ensures d !in WantedAfter(desired, batch) && (Named(batch, d) || Bare(v)) ==> Bare(ViewAfter(v, batch, d, link))
  {
    if batch != [] {
      var n := |batch| - 1;
      EventsInStep(v, desired, batch[..n], d, link);
      NamedMore(batch, n);
      assert batch[..n + 1] == batch;
    }
  }

  // ---------------------------------------------------------------------------------------------
  // The loop

  lemma NothingHeard(p: Params, h: Host)
    ensures !Heard([]) && InStep(p, h, {}, [])
  {
  }

  lemma HeardMore(inputs: seq<Input>, n: nat)
    requires n < |inputs|
    ensures Heard(inputs[..n + 1]) <==> Heard(inputs[..n]) || inputs[n].Batch?
  {
    if Heard(inputs[..n]) {
      var i :| 0 <= i < n && inputs[..n][i].Batch?;
      assert inputs[..n + 1][i] == inputs[i];
    }
    assert inputs[..n + 1][n] == inputs[n];
  }

  lemma EverNamedMore(inputs: seq<Input>, n: nat, d: Net)
    requires n < |inputs|
    ensures EverNamed(inputs[..n + 1], d) <==>
      EverNamed(inputs[..n], d) || (inputs[n].Batch? && Named(inputs[n].events, d))
  {
    hide Named;
    if EverNamed(inputs[..n], d) {
      var i :| 0 <= i < n && inputs[..n][i].Batch? && Named(inputs[..n][i].events, d);
      assert inputs[..n + 1][i] == inputs[i];
    }
    assert inputs[..n + 1][n] == inputs[n];
  }

  lemma BatchInStep(p: Params, h: Host, h': Host, desired: set<Cidr>, inputs: seq<Input>, n: nat)
    requires n < |inputs| && inputs[n].Batch? && Proper(inputs[n].events)
    requires InStep(p, h, desired, inputs[..n]) && Followed(p, h, h', inputs[n].events) && h'.link == h.link
    ensures InStep(p, h', WantedAfter(desired, inputs[n].events), inputs[..n + 1])
  {
    hide ViewOf, EverNamed, Named, WantedAfter, ViewAfter, IsFull, Bare;
    forall d: Cidr
      ensures d in WantedAfter(desired, inputs[n].events) ==> IsFull(ViewOf(p, h', d), h.link.value)
      ensures d !in WantedAfter(desired, inputs[n].events) && EverNamed(inputs[..n + 1], d) ==> Bare(ViewOf(p, h', d))
    {
      EverNamedMore(inputs, n, d);
      EventsInStep(ViewOf(p, h, d), desired, inputs[n].events, d, h.link.value);
      WantedUnlessNamed(desired, inputs[n].events, d);
    }
  }

  lemma WantedUnlessNamed(desired: set<Cidr>, batch: seq<Event>, d: Cidr)
    requires Proper(batch)
    ensures !Named(batch, d) ==> (d in WantedAfter(desired, batch) <==> d in desired)
  {
    hide WantedAfter, Named, LastAdds;
    WantedByLastEvent(desired, batch, d);
  }

  lemma TickInStep(p: Params, h: Host, h': Host, desired: set<Cidr>, inputs: seq<Input>, n: nat, pruned: bool)
    requires n < |inputs| && inputs[n].Tick? && InStep(p, h, desired, inputs[..n]) && h'.link == h.link
    requires forall d: Cidr :: d in desired ==> Gained(ViewOf(p, h, d), ViewOf(p, h', d), h'.link)
    requires forall d: Cidr :: d !in desired ==>
      var v, v' := ViewOf(p, h, d), ViewOf(p, h', d); if pruned then Lost(v, v') else v' == v
    ensures InStep(p, h', desired, inputs[..n + 1])
  {
    hide ViewOf, EverNamed;
    forall d: Cidr
      ensures d in desired ==> h'.link.Some? && IsFull(ViewOf(p, h', d), h'.link.value)
      ensures d !in desired && EverNamed(inputs[..n + 1], d) ==> Bare(ViewOf(p, h', d))
    {
      EverNamedMore(inputs, n, d);
    }
  }

  lemma BatchAddsNothing(p: Params, h: Host, h': Host, desired: set<Cidr>, inputs: seq<Input>, events: seq<Event>)
    requires Proper(events) && InStep(p, h, desired, inputs) && Followed(p, h, h', events)
    ensures NothingElse(p, h, desired) ==> NothingElse(p, h', WantedAfter(desired, events))
  {
    hide ViewOf, EverNamed, Named, WantedAfter, ViewAfter, IsFull, Bare;
    if NothingElse(p, h, desired) {
      forall d: Cidr | d !in WantedAfter(desired, events) && d != p.meshCidr
        ensures Bare(ViewOf(p, h', d))
      {
        EventsInStep(ViewOf(p, h, d), desired, events, d, h.link.value);
        WantedUnlessNamed(desired, events, d);
      }
    }
  }

  lemma TickAddsNothing(p: Params, h: Host, h': Host, desired: set<Cidr>, pruned: bool, ok: bool)
    requires forall d: Cidr :: d !in desired ==>
      var v, v' := ViewOf(p, h, d), ViewOf(p, h', d); if pruned then Lost(v, v') else v' == v
    requires pruned && ok ==> forall d: Cidr ::
      var v, v' := ViewOf(p, h, d), ViewOf(p, h', d); v' == Target(p, desired, h'.link, d, v)
    ensures NothingElse(p, h, desired) || (pruned && ok) ==> NothingElse(p, h', desired)
  {
    hide ViewOf;
  }
}
