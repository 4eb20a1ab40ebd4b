/**
  Acquiring leases from a shared registry (tryAcquireLease and RenewLease in
  pkg/subnet/etcd/local_manager.go, over createSubnet, updateSubnet and deleteSubnet in
  pkg/subnet/etcd/registry.go), as a state machine over any number of nodes.  A node is identified by
  its public address; every step is one registry operation, so any interleaving is a run.

  The registry is keyed by text, as in etcd.  Only creation is a transaction: updates and deletions are
  unconditional, and the listing a node decides on may be stale and incomplete.
 */
module LeaseProtocol {
  import opened Ip4
  import opened NetworkConfig
  import opened SubnetKey
  import opened Allocator
  import opened Leases

  /** What all nodes share: the registry prefix and the range of an accepted configuration. */
  datatype Setup = Setup(prefix: string, min: Addr, max: Addr, len: PrefixLen) {
    predicate Valid()
    {
      0 < len <= 30 && Aligned(min, len) && Aligned(max, len)
    }

    /** The block an entry is read as. */
    function Parse(k: string): Key
    {
      ParseSubnetKey(prefix + SUBNETS + k)
    }

    /** A block of the configured length with no host bits. */
    predicate IsBlock(b: Net)
    {
      b.len == len && b.Canonical()
    }
  }

  /** Every configuration that is accepted, masked or not, gives a valid setup. */
  lemma AcceptedConfigIsValid(prefix: string, network: Net, subnetLen: nat, min: Addr, max: Addr)
    requires FirstProblem(network, subnetLen, min, max).None?
    ensures var len := EffectiveLen(network, subnetLen).0;
      Setup(prefix, FilledMin(network, len, min), FilledMax(network, len, max), len).Valid()
  {
  }

  type Node = Addr

  /** How far a node is: nothing asked yet, leases listed, no lease of its own left, or a lease acquired. */
  datatype Phase = Idle | Deciding(leases: seq<Lease>) | Choosing(leases: seq<Lease>) | Holding(lease: Net)

  /** `previous` is the subnet remembered from an earlier run, or the empty block. */
  datatype NodeState = NodeState(previous: Net, phase: Phase)

  datatype State = State(store: map<string, Attrs>, nodes: map<Node, NodeState>)

  /**
    How a write that took effect ended for its node: with an answer, with an error after which the entry
    is still there, or with an error after which the grant of the entry was revoked and the entry with it.
   */
  datatype Outcome = Answered | Unanswered | Revoked

  /** Operations a node or the registry performs; an operation without effect is no step. */
  datatype Action =
    | List(node: Node, leases: seq<Lease>)
    | Proceed(node: Node)
    | Reuse(node: Node, attrs: Attrs, outcome: Outcome)
    | DeleteOwn(node: Node, answered: bool)
    | Create(node: Node, sn: Net, scanned: nat, attrs: Attrs, outcome: Outcome)
    | LoseRace(node: Node, sn: Net, scanned: nat)
    | GiveUp(node: Node)
    | Renew(node: Node, attrs: Attrs, outcome: Outcome)
    | Restart(node: Node, previous: Net)
    | Expire(key: string)

  /** The first lease of a listing that is in the node's name. */
  predicate FirstOwn(leases: seq<Lease>, node: Node, i: nat)
    requires i < |leases|
  {
    leases[i].attrs.publicIP == node && forall j :: 0 <= j < i ==> leases[j].attrs.publicIP != node
  }

  /** findLeaseByIP: the first lease with the node's public address. */
  function FindByIp(leases: seq<Lease>, node: Node): (r: Option<Net>)
    ensures r.None? <==> forall i :: 0 <= i < |leases| ==> leases[i].attrs.publicIP != node
    ensures r.Some? ==> exists i :: 0 <= i < |leases| && FirstOwn(leases, node, i) && leases[i].subnet == r.value
  {
    if leases == [] then None
    else if leases[0].attrs.publicIP == node then Some(leases[0].subnet)
    else FindByIp(leases[1..], node)
  }

  function Subnets(leases: seq<Lease>): seq<Net>
  {
    seq(|leases|, i requires 0 <= i < |leases| => leases[i].subnet)
  }

  /** A listing may leave entries out, but every lease in it was parsed from an entry. */
  ghost predicate ListedFrom(r: Setup, store: map<string, Attrs>, leases: seq<Lease>)
  {
    forall i :: 0 <= i < |leases| ==> exists k :: EntryOf(r, store, k, leases[i])
  }

  predicate EntryOf(r: Setup, store: map<string, Attrs>, k: string, l: Lease)
  {
    k in store && r.Parse(k) == V4(l.subnet) && store[k] == l.attrs
  }

  predicate PreviousUsable(r: Setup, previous: Net, leases: seq<Lease>)
  {
    !previous.Empty() && previous !in Subnets(leases) && Compatible(r.min, r.max, r.len, previous)
  }

  /** The previous subnet if it can be used again, otherwise whatever the scan may pick. */
  ghost predicate MayChoose(r: Setup, previous: Net, leases: seq<Lease>, sn: Net, scanned: nat)
  {
    if PreviousUsable(r, previous, leases) then sn == previous
    else sn.len == r.len && CollectedBy(r, Subnets(leases), sn.ip, scanned)
  }

  /** The allocator's scan has the address among its candidates after n iterations. */
  predicate CollectedBy(r: Setup, leases: seq<Net>, a: Addr, n: nat)
  {
    a in After(Scan(Net(r.min, r.len), []), r.max, leases, n).available
  }

  function Set(s: State, node: Node, phase: Phase): State
    requires node in s.nodes
  {
    s.(nodes := s.nodes[node := s.nodes[node].(phase := phase)])
  }

  /** The store after a write of a block's entry. */
  function Written(store: map<string, Attrs>, b: Net, attrs: Attrs, outcome: Outcome): map<string, Attrs>
  {
    if outcome.Revoked? then store - {MakeSubnetKey(b)} else store[MakeSubnetKey(b) := attrs]
  }

  ghost predicate Next(r: Setup, s: State, a: Action, s': State)
  {
    match a
    case List(n, leases) =>
      && n in s.nodes && s.nodes[n].phase == Idle && ListedFrom(r, s.store, leases)
      && s' == Set(s, n, Deciding(leases))
    case Proceed(n) =>
      && n in s.nodes && s.nodes[n].phase.Deciding? && FindByIp(s.nodes[n].phase.leases, n) == None
      && s' == Set(s, n, Choosing(s.nodes[n].phase.leases))
    case Reuse(n, attrs, outcome) =>
      && n in s.nodes && s.nodes[n].phase.Deciding? && attrs.publicIP == n
      && var own := FindByIp(s.nodes[n].phase.leases, n);
      && own.Some? && Compatible(r.min, r.max, r.len, own.value)
      && var phase := if outcome.Answered? then Holding(own.value) else Idle;
      && s' == Set(s, n, phase).(store := Written(s.store, own.value, attrs, outcome))
    case DeleteOwn(n, answered) =>
      && n in s.nodes && s.nodes[n].phase.Deciding?
      && var own := FindByIp(s.nodes[n].phase.leases, n);
      && own.Some? && !Compatible(r.min, r.max, r.len, own.value)
      && var phase := if answered then Choosing(s.nodes[n].phase.leases) else Idle;
      && s' == Set(s, n, phase).(store := s.store - {MakeSubnetKey(own.value)})
    case Create(n, sn, scanned, attrs, outcome) =>
      && n in s.nodes && s.nodes[n].phase.Choosing? && attrs.publicIP == n
      && MayChoose(r, s.nodes[n].previous, s.nodes[n].phase.leases, sn, scanned)
      && MakeSubnetKey(sn) !in s.store
      && var phase := if outcome.Answered? then Holding(sn) else Idle;
      && s' == Set(s, n, phase).(store := Written(s.store, sn, attrs, outcome))
    case LoseRace(n, sn, scanned) =>
      && n in s.nodes && s.nodes[n].phase.Choosing?
      && MayChoose(r, s.nodes[n].previous, s.nodes[n].phase.leases, sn, scanned)
      && MakeSubnetKey(sn) in s.store
      && s' == Set(s, n, Idle)
    case GiveUp(n) =>
      && n in s.nodes && !s.nodes[n].phase.Holding?
      && s' == Set(s, n, Idle)
    case Renew(n, attrs, outcome) =>
      && n in s.nodes && s.nodes[n].phase.Holding? && attrs.publicIP == n
      && s' == s.(store := Written(s.store, s.nodes[n].phase.lease, attrs, outcome))
    case Restart(n, previous) =>
      && n in s.nodes && previous.Canonical()
      && s' == s.(nodes := s.nodes[n := NodeState(previous, Idle)])
    case Expire(k) =>
      s' == s.(store := s.store - {k})
  }

  ghost predicate Run(r: Setup, states: seq<State>, actions: seq<Action>)
  {
    && |states| == |actions| + 1
    && forall i :: 0 <= i < |actions| ==> Next(r, states[i], actions[i], states[i + 1])
  }

  // ---------------------------------------------------------------------------------------------
  // What the steps of a node amount to

  /** The node goes back to the start, with whatever previous subnet. */
  predicate StartsOver(a: Action)
  {
    a.GiveUp? || a.Restart?
  }

  /**
    A node whose listing holds a lease in its own name takes the first of them: it writes its entry if the
    block lies in the range, and deletes it if not.  It has no way on to another block before that.
   */
  lemma OwnLeaseComesFirst(r: Setup, s: State, a: Action, s': State, i: nat)
    requires Next(r, s, a, s') && !a.Expire? && a.node in s.nodes && s.nodes[a.node].phase.Deciding? && !StartsOver(a)
    requires i < |s.nodes[a.node].phase.leases| && FirstOwn(s.nodes[a.node].phase.leases, a.node, i)
    ensures var b := s.nodes[a.node].phase.leases[i].subnet; var key := MakeSubnetKey(b);
      if r.min <= b.ip <= r.max && b.len == r.len then
        && a.Reuse? && a.attrs.publicIP == a.node
        && s'.nodes[a.node].phase == (if a.outcome.Answered? then Holding(b) else Idle)
        && s'.store == (if a.outcome.Revoked? then s.store - {key} else s.store[key := a.attrs])
      else
        && a.DeleteOwn? && s'.store == s.store - {key}
        && (s'.nodes[a.node].phase == Idle || s'.nodes[a.node].phase == Choosing(s.nodes[a.node].phase.leases))
  {
    hide MakeSubnetKey, ParseSubnetKey, MayChoose, ListedFrom;
    FirstIsFound(s.nodes[a.node].phase.leases, a.node, i);
  }

  /** A node whose listing holds none goes on to choose, with that listing. */
  lemma NoLeaseMeansChoosing(r: Setup, s: State, a: Action, s': State)
    requires Next(r, s, a, s') && !a.Expire? && a.node in s.nodes && s.nodes[a.node].phase.Deciding? && !StartsOver(a)
    requires forall l :: l in s.nodes[a.node].phase.leases ==> l.attrs.publicIP != a.node
    ensures s'.store == s.store && s'.nodes[a.node].phase == Choosing(s.nodes[a.node].phase.leases)
  {
    hide MakeSubnetKey, ParseSubnetKey, MayChoose, ListedFrom;
  }

  /** The previous subnet is taken when there is one, it lies in the range and the listing does not have it. */
  predicate TakesPrevious(r: Setup, ns: NodeState)
    requires ns.phase.Choosing?
  {
    && ns.previous != Net(0, 0) && r.min <= ns.previous.ip <= r.max && ns.previous.len == r.len
    && forall i :: 0 <= i < |ns.phase.leases| ==> ns.phase.leases[i].subnet != ns.previous
  }

  /**
    A node that has come to choose creates an entry under a key that was free, for its previous subnet if it
    takes that, and otherwise for an aligned block that overlaps no lease of its listing; when the answer
    comes it holds the block.  Or it finds the key taken and starts over, leaving the registry alone.
   */
  lemma ChoosingCreates(r: Setup, s: State, a: Action, s': State)
    requires r.Valid() && Next(r, s, a, s') && !a.Expire? && a.node in s.nodes && s.nodes[a.node].phase.Choosing?
    requires !StartsOver(a)
    ensures a.Create? || a.LoseRace?
    ensures var ns := s.nodes[a.node]; var key := MakeSubnetKey(a.sn);
      && (TakesPrevious(r, ns) ==> a.sn == ns.previous)
      && (!TakesPrevious(r, ns) ==>
            && a.sn.Canonical() && a.sn.len == r.len
            && forall i :: 0 <= i < |ns.phase.leases| ==> !a.sn.Overlaps(ns.phase.leases[i].subnet))
      && (a.Create? <==> key !in s.store)
      && (a.LoseRace? ==> s'.store == s.store && s'.nodes[a.node].phase == Idle)
      && (a.Create? ==>
            && a.attrs.publicIP == a.node
            && s'.store == (if a.outcome.Revoked? then s.store else s.store[key := a.attrs])
            && s'.nodes[a.node].phase == (if a.outcome.Answered? then Holding(a.sn) else Idle))
  {
    hide MakeSubnetKey, ParseSubnetKey, ListedFrom, RunStart, After;
    var ns := s.nodes[a.node];
    assert TakesPrevious(r, ns) <==> PreviousUsable(r, ns.previous, ns.phase.leases) by { Previous(r, ns); }
    if !TakesPrevious(r, ns) {
      CollectedAligned(r.min, r.max, r.len, Subnets(ns.phase.leases), [], a.scanned);
      FreeOfListing(a.sn, ns.phase.leases);
    }
    hide Taken, PreviousUsable, TakesPrevious;
    assert a.Create? ==> s.store - {MakeSubnetKey(a.sn)} == s.store;
  }

  lemma Previous(r: Setup, ns: NodeState)
    requires ns.phase.Choosing?
    ensures TakesPrevious(r, ns) <==> PreviousUsable(r, ns.previous, ns.phase.leases)
  {
    var listed := Subnets(ns.phase.leases);
    assert forall i :: 0 <= i < |listed| ==> listed[i] == ns.phase.leases[i].subnet;
  }

  lemma FreeOfListing(b: Net, leases: seq<Lease>)
    ensures !Taken(b, Subnets(leases)) ==> forall i :: 0 <= i < |leases| ==> !b.Overlaps(leases[i].subnet)
  {
    if !Taken(b, Subnets(leases)) {
      forall i | 0 <= i < |leases| ensures !b.Overlaps(leases[i].subnet) {
        assert Subnets(leases)[i] == leases[i].subnet;
      }
    }
  }

  /** A holder's only registry operation is to write the entry of its block again. */
  lemma HolderRenews(r: Setup, s: State, a: Action, s': State)
    requires Next(r, s, a, s') && !a.Expire? && a.node in s.nodes && s.nodes[a.node].phase.Holding? && !StartsOver(a)
    ensures a.Renew? && a.attrs.publicIP == a.node && s'.nodes == s.nodes
    ensures var key := MakeSubnetKey(s.nodes[a.node].phase.lease);
      s'.store == if a.outcome.Revoked? then s.store - {key} else s.store[key := a.attrs]
  {
    hide MakeSubnetKey, ParseSubnetKey, ListedFrom, MayChoose;
  }

  ghost predicate CanStep(r: Setup, s: State, a: Action)
  {
    exists t :: Next(r, s, a, t)
  }

  /**
    Each of these steps is open whenever it is the node's turn for it, whatever becomes of the answer: reusing
    or deleting the first own lease, going on without one, and writing the entry of a held block again.
   */
  lemma NodesGoOn(r: Setup, s: State, n: Node, i: nat, attrs: Attrs, outcome: Outcome)
    requires n in s.nodes && attrs.publicIP == n
    ensures var phase := s.nodes[n].phase;
      && (phase.Deciding? && (forall l :: l in phase.leases ==> l.attrs.publicIP != n) ==> CanStep(r, s, Proceed(n)))
      && (phase.Deciding? && i < |phase.leases| && FirstOwn(phase.leases, n, i) ==>
            var b := phase.leases[i].subnet;
            CanStep(r, s, if r.min <= b.ip <= r.max && b.len == r.len then Reuse(n, attrs, outcome)
                          else DeleteOwn(n, outcome.Answered?)))
      && (phase.Holding? ==> CanStep(r, s, Renew(n, attrs, outcome)))
  {
    hide MakeSubnetKey, ParseSubnetKey, MayChoose, ListedFrom;
    var phase := s.nodes[n].phase;
    if phase.Holding? {
      assert Next(r, s, Renew(n, attrs, outcome), s.(store := Written(s.store, phase.lease, attrs, outcome)));
    } else if phase.Deciding? {
      if i < |phase.leases| && FirstOwn(phase.leases, n, i) {
        var b := phase.leases[i].subnet;
        FirstIsFound(phase.leases, n, i);
        var held := if outcome.Answered? then Holding(b) else Idle;
        var next := if outcome.Answered? then Choosing(phase.leases) else Idle;
        assert Compatible(r.min, r.max, r.len, b) ==>
          Next(r, s, Reuse(n, attrs, outcome), Set(s, n, held).(store := Written(s.store, b, attrs, outcome)));
        assert !Compatible(r.min, r.max, r.len, b) ==>
          Next(r, s, DeleteOwn(n, outcome.Answered?), Set(s, n, next).(store := s.store - {MakeSubnetKey(b)}));
      } else if forall l :: l in phase.leases ==> l.attrs.publicIP != n {
        assert Next(r, s, Proceed(n), Set(s, n, Choosing(phase.leases)));
      }
    }
  }

  lemma FirstIsFound(leases: seq<Lease>, n: Node, i: nat)
    requires i < |leases| && FirstOwn(leases, n, i)
    ensures FindByIp(leases, n) == Some(leases[i].subnet)
  {
    var found := FindByIp(leases, n);
    assert found.Some? by { assert leases[i].attrs.publicIP == n; }
    var j :| 0 <= j < |leases| && FirstOwn(leases, n, j) && leases[j].subnet == found.value;
  }

  // ---------------------------------------------------------------------------------------------
  // Every entry is a block, under its own key

  ghost predicate EntryOk(r: Setup, k: string)
  {
    var key := r.Parse(k);
    key.V4? && r.IsBlock(key.net) && k == MakeSubnetKey(key.net)
  }

  ghost predicate LeasesOk(r: Setup, leases: seq<Lease>)
  {
    forall i :: 0 <= i < |leases| ==> r.IsBlock(leases[i].subnet)
  }

  ghost predicate NodeOk(r: Setup, ns: NodeState)
  {
    && ns.previous.Canonical()
    && match ns.phase
       case Idle => true
       case Deciding(leases) => LeasesOk(r, leases)
       case Choosing(leases) => LeasesOk(r, leases)
       case Holding(b) => r.IsBlock(b)
  }

  ghost predicate OnlyBlocks(r: Setup, s: State)
  {
    && (forall k :: k in s.store ==> EntryOk(r, k))
    && (forall n :: n in s.nodes ==> NodeOk(r, s.nodes[n]))
  }

  /** Entries under different keys are disjoint blocks. */
  ghost predicate RegistryDisjoint(r: Setup, s: State)
  {
    forall j, k :: j in s.store && k in s.store && j != k ==>
      var m, n := r.Parse(j), r.Parse(k);
      m.V4? && n.V4? && !m.net.Overlaps(n.net)
  }

  lemma KeyOfBlock(r: Setup, b: Net)
    requires r.Valid() && r.IsBlock(b)
    ensures EntryOk(r, MakeSubnetKey(b)) && r.Parse(MakeSubnetKey(b)) == V4(b)
  {
    hide ParseSubnetKey, MakeSubnetKey;
    KeyRoundTrip(r.prefix, b);
  }

  lemma ChoiceIsBlock(r: Setup, previous: Net, leases: seq<Lease>, sn: Net, scanned: nat)
    requires r.Valid() && previous.Canonical() && MayChoose(r, previous, leases, sn, scanned)
    ensures r.IsBlock(sn)
  {
    hide RunStart, After, Taken;
    if !PreviousUsable(r, previous, leases) {
      CollectedAligned(r.min, r.max, r.len, Subnets(leases), [], scanned);
    }
  }

  lemma ListingOk(r: Setup, s: State, leases: seq<Lease>)
    requires OnlyBlocks(r, s) && ListedFrom(r, s.store, leases)
    ensures LeasesOk(r, leases)
    ensures forall i :: 0 <= i < |leases| ==>
      MakeSubnetKey(leases[i].subnet) in s.store && s.store[MakeSubnetKey(leases[i].subnet)] == leases[i].attrs
  {
    hide ParseSubnetKey, MakeSubnetKey;
    forall i | 0 <= i < |leases|
      ensures r.IsBlock(leases[i].subnet)
      ensures MakeSubnetKey(leases[i].subnet) in s.store && s.store[MakeSubnetKey(leases[i].subnet)] == leases[i].attrs
    {
      var k :| EntryOf(r, s.store, k, leases[i]);
      assert EntryOk(r, k);
    }
  }

  lemma BlocksPreserved(r: Setup, s: State, a: Action, s': State)
    requires r.Valid() && OnlyBlocks(r, s) && Next(r, s, a, s')
    ensures OnlyBlocks(r, s')
  {
    hide ParseSubnetKey, MakeSubnetKey, RunStart, MayChoose, Compatible, EntryOk, ListedFrom;
    match a
    case List(n, leases) => ListingOk(r, s, leases);
    case Reuse(n, _, _) => KeyOfBlock(r, FindByIp(s.nodes[n].phase.leases, n).value);
    case Create(n, sn, scanned, _, _) =>
      ChoiceIsBlock(r, s.nodes[n].previous, s.nodes[n].phase.leases, sn, scanned);
      KeyOfBlock(r, sn);
    case Renew(n, _, _) => KeyOfBlock(r, s.nodes[n].phase.lease);
    case _ =>
  }

  lemma BlocksAreDisjoint(r: Setup, s: State)
    requires OnlyBlocks(r, s)
    ensures RegistryDisjoint(r, s)
  {
    hide ParseSubnetKey, MakeSubnetKey;
    forall j, k | j in s.store && k in s.store && j != k
      ensures var m, n := r.Parse(j), r.Parse(k);
              m.V4? && n.V4? && !m.net.Overlaps(n.net)
    {
      assert EntryOk(r, j) && EntryOk(r, k);
      AlignedOverlapIsEqual(r.Parse(j).net, r.Parse(k).net);
    }
  }

  /**
    However the nodes interleave, and whatever expires when, the registry never holds overlapping blocks,
    provided it started with blocks of the configured length under their own keys.
   */
  lemma {:induction false} RegistryStaysDisjoint(r: Setup, states: seq<State>, actions: seq<Action>, i: nat)
    requires r.Valid() && Run(r, states, actions) && OnlyBlocks(r, states[0]) && i < |states|
    ensures OnlyBlocks(r, states[i]) && RegistryDisjoint(r, states[i])
  {
    if i > 0 {
      RegistryStaysDisjoint(r, states, actions, i - 1);
      BlocksPreserved(r, states[i - 1], actions[i - 1], states[i]);
    }
    BlocksAreDisjoint(r, states[i]);
  }

  // ---------------------------------------------------------------------------------------------
  // No two nodes hold overlapping leases

  /** The block whose entry a node takes to be its own: the one it holds, or is about to reuse or delete. */
  function Relied(s: State, n: Node): Option<Net>
    requires n in s.nodes
  {
    match s.nodes[n].phase
    case Holding(b) => Some(b)
    case Deciding(leases) => FindByIp(leases, n)
    case _ => None
  }

  /** The range stops short of the top block, so that no scan leaves it. */
  predicate ShortOfTop(r: Setup)
  {
    r.max + Pow2(32 - r.len) < 0x1_0000_0000
  }

  /** The blocks whose entries matter: those of the range, and all blocks where a scan may leave it. */
  predicate Guarded(r: Setup, b: Net)
  {
    ShortOfTop(r) ==> Compatible(r.min, r.max, r.len, b)
  }

  ghost predicate OwnsReliedOn(r: Setup, s: State, n: Node)
    requires n in s.nodes
  {
    var b := Relied(s, n);
    b.Some? && Guarded(r, b.value) ==>
      MakeSubnetKey(b.value) in s.store && s.store[MakeSubnetKey(b.value)].publicIP == n
  }

  ghost predicate Owned(r: Setup, s: State)
  {
    forall n :: n in s.nodes ==> OwnsReliedOn(r, s, n)
  }

  /** Holders of blocks that do not matter hold different ones. */
  ghost predicate OutsideDistinct(r: Setup, s: State)
  {
    forall m, n :: m in s.nodes && n in s.nodes && m != n && s.nodes[m].phase.Holding? && s.nodes[n].phase.Holding? ==>
      Guarded(r, s.nodes[m].phase.lease) || s.nodes[m].phase.lease != s.nodes[n].phase.lease
  }

  ghost predicate Kept(r: Setup, s: State)
  {
    OnlyBlocks(r, s) && Owned(r, s) && OutsideDistinct(r, s)
  }

  /** An entry a node relies on. */
  ghost predicate ReliedOn(r: Setup, s: State, key: string)
  {
    exists n :: n in s.nodes && ReliesOn(r, s, n, key)
  }

  predicate ReliesOn(r: Setup, s: State, n: Node, key: string)
    requires n in s.nodes
  {
    Relied(s, n).Some? && Guarded(r, Relied(s, n).value) && MakeSubnetKey(Relied(s, n).value) == key
  }

  /** No entry that matters is lost under a node that relies on it: neither expired nor revoked after a renewal. */
  ghost predicate Harmless(r: Setup, s: State, a: Action)
  {
    && (a.Expire? ==> !ReliedOn(r, s, a.key))
    && (a.Renew? && a.outcome.Revoked? && a.node in s.nodes && s.nodes[a.node].phase.Holding? ==>
          !Guarded(r, s.nodes[a.node].phase.lease))
  }

  ghost predicate HoldersDisjoint(s: State)
  {
    forall m, n :: m in s.nodes && n in s.nodes && m != n && s.nodes[m].phase.Holding? && s.nodes[n].phase.Holding? ==>
      !s.nodes[m].phase.lease.Overlaps(s.nodes[n].phase.lease)
  }

  /** Whatever is chosen matters. */
  lemma ChoiceIsGuarded(r: Setup, previous: Net, leases: seq<Lease>, sn: Net, scanned: nat)
    requires r.Valid() && MayChoose(r, previous, leases, sn, scanned)
    ensures Guarded(r, sn)
  {
    hide RunStart, After, Pow2;
    if ShortOfTop(r) && !PreviousUsable(r, previous, leases) {
      CollectsWithin(r.min, r.min, r.max, r.len, Subnets(leases), [], scanned);
    }
  }

  /** The block a node's own step is about. */
  function Subject(s: State, a: Action): Option<Net>
    requires !a.Expire? && a.node in s.nodes
  {
    match a
    case Reuse(_, _, _) => Relied(s, a.node)
    case DeleteOwn(_, _) => Relied(s, a.node)
    case Renew(_, _, _) => Relied(s, a.node)
    case Create(_, sn, _, _, _) => Some(sn)
    case _ => None
  }

  /** A step of a node touches no entry that another node relies on. */
  lemma TouchesNoOther(r: Setup, s: State, a: Action, s': State, n: Node)
    requires r.Valid() && OnlyBlocks(r, s) && Owned(r, s) && Next(r, s, a, s') && !a.Expire? && n != a.node
    requires n in s.nodes && Relied(s, n).Some? && Guarded(r, Relied(s, n).value) && Subject(s, a).Some?
    ensures MakeSubnetKey(Subject(s, a).value) != MakeSubnetKey(Relied(s, n).value)
  {
    hide ParseSubnetKey, MakeSubnetKey, RunStart, MayChoose, Compatible, ListedFrom, Guarded;
    var b, c := Relied(s, n).value, Subject(s, a).value;
    assert OwnsReliedOn(r, s, n) && OwnsReliedOn(r, s, a.node);
    if !a.Create? && !Guarded(r, c) {
      assert NodeOk(r, s.nodes[n]) && NodeOk(r, s.nodes[a.node]);
      KeysAreDistinct(b, c);
    }
  }

  lemma OwnedPreserved(r: Setup, s: State, a: Action, s': State)
    requires r.Valid() && OnlyBlocks(r, s) && Owned(r, s) && Next(r, s, a, s') && Harmless(r, s, a)
    ensures Owned(r, s')
  {
    hide ParseSubnetKey, MakeSubnetKey, RunStart, MayChoose, Compatible, OnlyBlocks, ListedFrom, Guarded;
    forall n | n in s'.nodes
      ensures OwnsReliedOn(r, s', n)
    {
      assert n in s.nodes ==> OwnsReliedOn(r, s, n);
      if a.Expire? {
        assert Relied(s', n) == Relied(s, n);
        assert Relied(s, n).Some? && Guarded(r, Relied(s, n).value) ==>
          !ReliesOn(r, s, n, a.key) && MakeSubnetKey(Relied(s, n).value) != a.key;
      } else if n == a.node {
        OwnStepKeeps(r, s, a, s');
      } else {
        OthersKeepTheirs(r, s, a, s', n);
      }
    }
  }

  lemma OwnStepKeeps(r: Setup, s: State, a: Action, s': State)
    requires r.Valid() && OnlyBlocks(r, s) && Owned(r, s) && Next(r, s, a, s') && Harmless(r, s, a) && !a.Expire?
    ensures a.node in s'.nodes && OwnsReliedOn(r, s', a.node)
  {
    hide ParseSubnetKey, MakeSubnetKey, RunStart, MayChoose, Compatible, OnlyBlocks, ListedFrom, Guarded;
    assert OwnsReliedOn(r, s, a.node);
    match a
    case List(_, leases) => ListingOk(r, s, leases);
    case _ =>
  }

  /** A step of one node leaves the entries other nodes rely on in place. */
  lemma OthersKeepTheirs(r: Setup, s: State, a: Action, s': State, n: Node)
    requires r.Valid() && OnlyBlocks(r, s) && Owned(r, s) && Next(r, s, a, s') && !a.Expire?
    requires n in s'.nodes && n != a.node
    ensures n in s.nodes && Relied(s', n) == Relied(s, n) && OwnsReliedOn(r, s', n)
  {
    hide ParseSubnetKey, MakeSubnetKey, RunStart, MayChoose, Compatible, OnlyBlocks, ListedFrom, Guarded;
    assert n in s.nodes && OwnsReliedOn(r, s, n) && s'.nodes[n] == s.nodes[n];
    if Relied(s, n).Some? && Guarded(r, Relied(s, n).value) && Subject(s, a).Some? {
      TouchesNoOther(r, s, a, s', n);
    }
  }

  /** Only blocks that matter are newly held. */
  lemma OutsidePreserved(r: Setup, s: State, a: Action, s': State)
    requires r.Valid() && OutsideDistinct(r, s) && Next(r, s, a, s')
    ensures OutsideDistinct(r, s')
  {
    hide ParseSubnetKey, MakeSubnetKey, RunStart, MayChoose, ListedFrom;
    forall n | n in s'.nodes && s'.nodes[n].phase.Holding?
      ensures n in s.nodes && (s'.nodes[n].phase == s.nodes[n].phase || Guarded(r, s'.nodes[n].phase.lease))
    {
      if a.Create? && n == a.node {
        ChoiceIsGuarded(r, s.nodes[n].previous, s.nodes[n].phase.leases, a.sn, a.scanned);
      }
    }
    hide Next, Guarded;
  }

  lemma KeptPreserved(r: Setup, s: State, a: Action, s': State)
    requires r.Valid() && Kept(r, s) && Next(r, s, a, s') && Harmless(r, s, a)
    ensures Kept(r, s')
  {
    hide OnlyBlocks, Owned, OutsideDistinct, Next, Harmless;
    BlocksPreserved(r, s, a, s');
    OwnedPreserved(r, s, a, s');
    OutsidePreserved(r, s, a, s');
  }

  lemma KeptIsDisjoint(r: Setup, s: State)
    requires r.Valid() && Kept(r, s)
    ensures HoldersDisjoint(s)
  {
    hide ParseSubnetKey, MakeSubnetKey, Guarded;
    forall m, n | m in s.nodes && n in s.nodes && m != n && s.nodes[m].phase.Holding? && s.nodes[n].phase.Holding?
      ensures !s.nodes[m].phase.lease.Overlaps(s.nodes[n].phase.lease)
    {
      assert OwnsReliedOn(r, s, m) && OwnsReliedOn(r, s, n);
      assert NodeOk(r, s.nodes[m]) && NodeOk(r, s.nodes[n]);
      AlignedOverlapIsEqual(s.nodes[m].phase.lease, s.nodes[n].phase.lease);
    }
  }

  /**
    In every run in which no entry that matters is lost under a node that relies on it, no two nodes ever
    hold overlapping leases, and every holder's lease that matters is registered in its own name.
   */
  lemma {:induction false} LeasesStayExclusive(r: Setup, states: seq<State>, actions: seq<Action>, i: nat)
    requires r.Valid() && Run(r, states, actions) && i < |states| && Kept(r, states[0])
    requires forall j :: 0 <= j < |actions| ==> Harmless(r, states[j], actions[j])
    ensures Kept(r, states[i]) && HoldersDisjoint(states[i])
  {
    hide Kept, Harmless, Next, HoldersDisjoint;
    if i > 0 {
      LeasesStayExclusive(r, states, actions, i - 1);
      KeptPreserved(r, states[i - 1], actions[i - 1], states[i]);
    }
    KeptIsDisjoint(r, states[i]);
  }

  // ---------------------------------------------------------------------------------------------
  // The condition is needed

  /** No step of the run loses an entry. */
  predicate LosesNothing(actions: seq<Action>)
  {
    forall i :: 0 <= i < |actions| ==> !actions[i].Expire? && !actions[i].Renew?
  }

  /** A node that starts again can acquire a block it may choose whose entry is gone, whatever the others hold. */
  lemma NewcomerAcquires(r: Setup, s: State, b: Net, n: Node, previous: Net, scanned: nat)
    returns (states: seq<State>, actions: seq<Action>)
    requires r.Valid() && r.IsBlock(b) && previous.Canonical() && MayChoose(r, previous, [], b, scanned)
    requires n in s.nodes && MakeSubnetKey(b) !in s.store
    ensures Run(r, states, actions) && states[0] == s && LosesNothing(actions)
    ensures var t := states[|states| - 1];
      && n in t.nodes && t.nodes[n].phase == Holding(b)
      && (forall m :: m in s.nodes && m != n ==> m in t.nodes && t.nodes[m] == s.nodes[m])
  {
    hide MakeSubnetKey, ParseSubnetKey, RunStart, MayChoose;
    var attrs := Attrs(n, "", "");
    var s1 := s.(nodes := s.nodes[n := NodeState(previous, Idle)]);
    var s2 := Set(s1, n, Deciding([]));
    var s3 := Set(s2, n, Choosing([]));
    var s4 := Set(s3, n, Holding(b)).(store := s.store[MakeSubnetKey(b) := attrs]);
    states := [s, s1, s2, s3, s4];
    actions := [Restart(n, previous), List(n, []), Proceed(n), Create(n, b, scanned, attrs, Answered)];
  }

  /** A run and one that starts where it ends. */
  lemma RunJoin(r: Setup, states: seq<State>, actions: seq<Action>, states': seq<State>, actions': seq<Action>)
    requires Run(r, states, actions) && Run(r, states', actions') && states'[0] == states[|states| - 1]
    ensures Run(r, states + states'[1..], actions + actions')
    ensures (states + states'[1..])[|states + states'[1..]| - 1] == states'[|states'| - 1]
  {
    hide Next;
    var all, acts := states + states'[1..], actions + actions';
    forall i | 0 <= i < |acts| ensures Next(r, all[i], acts[i], all[i + 1]) {
      if i >= |actions| {
        var j := i - |actions|;
        assert all[i] == states'[j] && all[i + 1] == states'[j + 1] && acts[i] == actions'[j];
      }
    }
  }

  lemma BothHold(s: State, b: Net, m: Node, n: Node)
    requires m in s.nodes && n in s.nodes && m != n && s.nodes[m].phase == s.nodes[n].phase == Holding(b)
      && b.Canonical()
    ensures !HoldersDisjoint(s)
  {
    AlignedOverlapIsEqual(b, b);
    assert s.nodes[m].phase.lease.Overlaps(s.nodes[n].phase.lease);
  }

  /**
    From every state in which a node relies on a block of the range whose entry is gone, as its holder or
    about to reuse it, steps that lose nothing lead to two nodes holding that block, whichever the second is.
   */
  lemma LostEntryShares(r: Setup, s: State, b: Net, m: Node, n: Node)
    returns (states: seq<State>, actions: seq<Action>)
    requires r.Valid() && OnlyBlocks(r, s) && m in s.nodes && n in s.nodes && m != n
    requires Relied(s, m) == Some(b) && Compatible(r.min, r.max, r.len, b) && MakeSubnetKey(b) !in s.store
    ensures Run(r, states, actions) && states[0] == s && LosesNothing(actions)
    ensures !HoldersDisjoint(states[|states| - 1])
  {
    hide MakeSubnetKey, ParseSubnetKey, RunStart, HoldersDisjoint, CollectedBy;
    assert r.IsBlock(b) by { assert NodeOk(r, s.nodes[m]); }
    assert PreviousUsable(r, b, []);
    states, actions := NewcomerAcquires(r, s, b, n, b, 0);
    if s.nodes[m].phase.Deciding? {
      var t, attrs := states[|states| - 1], Attrs(m, "", "");
      var t' := Set(t, m, Holding(b)).(store := t.store[MakeSubnetKey(b) := attrs]);
      RunJoin(r, states, actions, [t, t'], [Reuse(m, attrs, Answered)]);
      assert [t, t'][1..] == [t'];
      states, actions := states + [t'], actions + [Reuse(m, attrs, Answered)];
    }
    BothHold(states[|states| - 1], b, m, n);
  }

  /** A run of harmless steps. */
  ghost predicate HarmlessRun(r: Setup, states: seq<State>, actions: seq<Action>)
  {
    Run(r, states, actions) && forall j :: 0 <= j < |actions| ==> Harmless(r, states[j], actions[j])
  }

  /** No run that goes on without harm from a state ends with overlapping leases. */
  ghost predicate SafeFrom(r: Setup, s: State)
  {
    forall states, actions :: HarmlessRun(r, states, actions) && states[0] == s ==>
      HoldersDisjoint(states[|states| - 1])
  }

  /** For a range short of the top: a step is safe, whatever harmless steps follow, exactly when it is harmless. */
  lemma SafeStepIff(r: Setup, s: State, a: Action, s': State)
    requires r.Valid() && ShortOfTop(r) && Kept(r, s) && Next(r, s, a, s')
    requires forall m :: m in s.nodes ==> exists n :: n in s.nodes && n != m
    ensures SafeFrom(r, s') <==> Harmless(r, s, a)
  {
    hide Kept, Next, Harmless, SafeFrom, Compatible;
    if Harmless(r, s, a) { HarmlessIsSafe(r, s, a, s'); } else { HarmShares(r, s, a, s'); }
  }

  lemma HarmlessIsSafe(r: Setup, s: State, a: Action, s': State)
    requires r.Valid() && Kept(r, s) && Next(r, s, a, s') && Harmless(r, s, a)
    ensures SafeFrom(r, s')
  {
    hide Kept, Next, Harmless, HoldersDisjoint;
    KeptPreserved(r, s, a, s');
    forall states, actions | HarmlessRun(r, states, actions) && states[0] == s'
      ensures HoldersDisjoint(states[|states| - 1])
    {
      LeasesStayExclusive(r, states, actions, |states| - 1);
    }
  }

  /** A harmful step leaves a node relying on a block of the range whose entry is gone. */
  lemma HarmLosesEntry(r: Setup, s: State, a: Action, s': State) returns (m: Node, b: Net)
    requires ShortOfTop(r) && Next(r, s, a, s') && !Harmless(r, s, a)
    ensures m in s'.nodes && s'.nodes == s.nodes && Relied(s', m) == Some(b)
    ensures Compatible(r.min, r.max, r.len, b) && MakeSubnetKey(b) !in s'.store
  {
    hide MakeSubnetKey, ParseSubnetKey, Compatible, ListedFrom, MayChoose, ShortOfTop;
    if a.Expire? {
      m :| m in s.nodes && ReliesOn(r, s, m, a.key);
    } else {
      m := a.node;
    }
    b := Relied(s, m).value;
  }

  lemma HarmShares(r: Setup, s: State, a: Action, s': State)
    requires r.Valid() && ShortOfTop(r) && Kept(r, s) && Next(r, s, a, s') && !Harmless(r, s, a)
    requires forall m :: m in s.nodes ==> exists n :: n in s.nodes && n != m
    ensures !SafeFrom(r, s')
  {
    hide MakeSubnetKey, ParseSubnetKey, HoldersDisjoint, Run, OnlyBlocks, Owned, OutsideDistinct, Next, Compatible;
    hide Relied, Harmless, ShortOfTop, HarmlessRun;
    BlocksPreserved(r, s, a, s');
    var m, b := HarmLosesEntry(r, s, a, s');
    var n :| n in s.nodes && n != m;
    var states, actions := LostEntryShares(r, s', b, m, n);
    LosesNothingIsHarmless(r, states, actions);
  }

  lemma LosesNothingIsHarmless(r: Setup, states: seq<State>, actions: seq<Action>)
    requires Run(r, states, actions) && LosesNothing(actions)
    ensures HarmlessRun(r, states, actions)
  {
    hide Next;
  }

  /** A renewal whose answer is lost and whose grant is then revoked is such a loss, without any expiry. */
  lemma RevokedRenewalShares(r: Setup, s: State, b: Net, m: Node, n: Node)
    returns (states: seq<State>, actions: seq<Action>)
    requires r.Valid() && OnlyBlocks(r, s) && m in s.nodes && n in s.nodes && m != n
    requires s.nodes[m].phase == Holding(b) && Compatible(r.min, r.max, r.len, b)
    ensures Run(r, states, actions) && states[0] == s && forall i :: 0 <= i < |actions| ==> !actions[i].Expire?
    ensures !HoldersDisjoint(states[|states| - 1])
  {
    hide MakeSubnetKey, ParseSubnetKey, RunStart, HoldersDisjoint, Compatible;
    var attrs := Attrs(m, "", "");
    var s' := s.(store := s.store - {MakeSubnetKey(b)});
    var a := Renew(m, attrs, Revoked);
    assert Next(r, s, a, s');
    BlocksPreserved(r, s, a, s');
    var states', actions' := LostEntryShares(r, s', b, m, n);
    RunJoin(r, [s, s'], [a], states', actions');
    states, actions := [s, s'] + states'[1..], [a] + actions';
  }

  /** With a range of fewer than 100 blocks up to the top, a scan of an empty listing comes to block zero. */
  lemma ScanFindsZero(r: Setup) returns (scanned: nat)
    requires r.Valid() && !ShortOfTop(r) && r.min <= r.max && r.max + Pow2(32 - r.len) == 0x1_0000_0000
    requires |FreeFrom(r.min, r.max, r.len, [])| < LIMIT
    ensures CollectedBy(r, [], 0, scanned)
  {
    hide Pow2, RunStart, FreeFrom, Taken, Blocks, After;
    var s, free := Scan(Net(r.min, r.len), []), FreeFrom(r.min, r.max, r.len, []);
    ScanWraps(r.min, r.max, r.len, [], []);
    var lap := |Blocks(r.min, r.max, Pow2(32 - r.len))|;
    assert [] + free == free;
    AfterLast(s, r.max, [], lap);
    scanned := lap + 1;
    assert !Taken(Net(0, r.len), []) by { NothingTaken(Net(0, r.len)); }
    assert 0 in Step(Scan(Net(0, r.len), free), []).available;
  }

  lemma NothingTaken(b: Net)
    ensures !Taken(b, [])
  {
  }

  /**
    Where the range ends at the top, entries outside it matter too: the expiry of the entry for a block that
    a scan of an empty listing comes to, block zero for one, and that a node holds or is about to delete,
    can be followed by steps that lose nothing after which two nodes hold that block.
   */
  lemma OutsideExpiryShares(r: Setup, s: State, b: Net, scanned: nat, m: Node, n: Node, k: Node)
    returns (states: seq<State>, actions: seq<Action>)
    requires r.Valid() && OnlyBlocks(r, s) && m in s.nodes && n in s.nodes && k in s.nodes && m != n && k != m && k != n
    requires Relied(s, m) == Some(b) && !Compatible(r.min, r.max, r.len, b) && CollectedBy(r, [], b.ip, scanned)
    ensures Run(r, states, actions) && |actions| > 0 && states[0] == s
    ensures actions[0] == Expire(MakeSubnetKey(b)) && LosesNothing(actions[1..])
    ensures !HoldersDisjoint(states[|states| - 1])
  {
    hide MakeSubnetKey, ParseSubnetKey, RunStart, HoldersDisjoint, CollectedBy, Compatible, Next, LosesNothing;
    assert r.IsBlock(b) by { assert NodeOk(r, s.nodes[m]); }
    var none := Net(0, 0);
    ScannedChoice(r, b, scanned);
    hide MayChoose, OnlyBlocks, Run;
    states, actions := ExpiryThenNewcomer(r, s, b, n, none, scanned);
    var t := states[|states| - 1];
    if s.nodes[m].phase.Holding? {
      BothHold(t, b, m, n);
    } else {
      var states2, actions2 := SecondNewcomer(r, t, b, m, k, none, scanned);
      BothHold(states2[|states2| - 1], b, n, k);
      LoseNothingTogether(actions, actions2);
      RunJoin(r, states, actions, states2, actions2);
      states, actions := states + states2[1..], actions + actions2;
    }
  }

  lemma ScannedChoice(r: Setup, b: Net, scanned: nat)
    requires r.IsBlock(b) && CollectedBy(r, [], b.ip, scanned)
    ensures Net(0, 0).Canonical() && MayChoose(r, Net(0, 0), [], b, scanned)
  {
    hide CollectedBy;
    assert Net(0, 0).Canonical() by { WholeSpace(); }
    assert Subnets([]) == [];
  }

  lemma LoseNothingTogether(actions: seq<Action>, actions': seq<Action>)
    requires |actions| > 0 && LosesNothing(actions[1..]) && LosesNothing(actions')
    ensures LosesNothing((actions + actions')[1..])
  {
    assert (actions + actions')[1..] == actions[1..] + actions';
  }

  /** The expiry of an entry, and a node that acquires its block. */
  lemma ExpiryThenNewcomer(r: Setup, s: State, b: Net, n: Node, previous: Net, scanned: nat)
    returns (states: seq<State>, actions: seq<Action>)
    requires r.Valid() && r.IsBlock(b) && previous.Canonical() && MayChoose(r, previous, [], b, scanned) && n in s.nodes
    ensures Run(r, states, actions) && |actions| > 0 && |states| > 0 && states[0] == s
    ensures actions[0] == Expire(MakeSubnetKey(b)) && LosesNothing(actions[1..])
    ensures var t := states[|states| - 1];
      && n in t.nodes && t.nodes[n].phase == Holding(b)
      && (forall m :: m in s.nodes && m != n ==> m in t.nodes && t.nodes[m] == s.nodes[m])
  {
    hide MakeSubnetKey, ParseSubnetKey, RunStart, MayChoose;
    var s1 := s.(store := s.store - {MakeSubnetKey(b)});
    var states1, actions1 := NewcomerAcquires(r, s1, b, n, previous, scanned);
    assert Next(r, s, Expire(MakeSubnetKey(b)), s1);
    hide Next;
    RunJoin(r, [s, s1], [Expire(MakeSubnetKey(b))], states1, actions1);
    states, actions := [s, s1] + states1[1..], [Expire(MakeSubnetKey(b))] + actions1;
    assert actions[1..] == actions1;
  }

  /** A node that deletes what it took to be its own entry lets another one acquire the block. */
  lemma SecondNewcomer(r: Setup, t: State, b: Net, m: Node, k: Node, previous: Net, scanned: nat)
    returns (states: seq<State>, actions: seq<Action>)
    requires r.Valid() && r.IsBlock(b) && previous.Canonical() && MayChoose(r, previous, [], b, scanned)
    requires m in t.nodes && k in t.nodes && m != k && t.nodes[m].phase.Deciding?
    requires FindByIp(t.nodes[m].phase.leases, m) == Some(b) && !Compatible(r.min, r.max, r.len, b)
    ensures Run(r, states, actions) && states[0] == t && LosesNothing(actions)
    ensures var u := states[|states| - 1];
      && k in u.nodes && u.nodes[k].phase == Holding(b)
      && (forall n :: n in t.nodes && n != k && n != m ==> n in u.nodes && u.nodes[n] == t.nodes[n])
  {
    hide MakeSubnetKey, ParseSubnetKey, RunStart, MayChoose, Compatible;
    var t1 := Set(t, m, Choosing(t.nodes[m].phase.leases)).(store := t.store - {MakeSubnetKey(b)});
    var states1, actions1 := NewcomerAcquires(r, t1, b, k, previous, scanned);
    assert Next(r, t, DeleteOwn(m, true), t1);
    RunJoin(r, [t, t1], [DeleteOwn(m, true)], states1, actions1);
    states, actions := [t, t1] + states1[1..], [DeleteOwn(m, true)] + actions1;
  }
}
