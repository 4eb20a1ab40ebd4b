/**
  The route manager of the mesh backend (Ensure, Remove, Reconcile and Cleanup in
  pkg/backend/cloudflaremesh/routes_linux.go) over a model of the host tables it drives: routes keyed by
  table and destination, policy rules, and the SNAT chain.  Any call may fail without effect.

  Networks are blocks without host bits: those are the blocks flannel leases, and the only ones the kernel
  and iptables list.  What the manager does is stated network by network: a view of the three tables for
  one destination, and the rest of the host, which no operation touches.
 */
module MeshRoutes {
  import opened Ip4
  import opened Lists

  /** A block without host bits. */
  type Cidr = n: Net | n.Canonical() witness Net(0, 32)

  const MESH_RULE_PRIORITY: int := 109

  const REMOTE_RULE_PRIORITY: int := 110

  datatype RouteKey = RouteKey(table: int, dst: Option<Cidr>)

  datatype Rule = Rule(table: int, priority: int, dst: Option<Cidr>)

  /** A rule of the SNAT chain: one carrying the backend's comment, or anything else. */
  datatype ChainRule = Snat(cluster: Cidr, dst: Cidr, linkName: string, source: Addr) | Foreign(text: string)

  /** `routes` gives the link index; `chain` is absent until the traffic manager has created it. */
  datatype Host = Host(routes: map<RouteKey, nat>, rules: set<Rule>, chain: Option<seq<ChainRule>>, link: Option<nat>)

  /** The fixed parameters of a manager. */
  datatype Params = Params(table: int, meshCidr: Cidr, cluster: Cidr, linkName: string, source: Addr) {
    function Key(d: Cidr): RouteKey
    {
      RouteKey(table, Some(d))
    }

    function RuleFor(d: Cidr): Rule
    {
      Rule(table, REMOTE_RULE_PRIORITY, Some(d))
    }

    /** hostSNATRule. */
    function SnatFor(d: Cidr): ChainRule
    {
      Snat(cluster, d, linkName, source)
    }

    predicate OwnKey(k: RouteKey)
    {
      k.table == table && k.dst.Some?
    }

    predicate OwnRule(r: Rule)
    {
      r.table == table && r.priority == REMOTE_RULE_PRIORITY && r.dst.Some?
    }

    /** The policy rules Cleanup removes. */
    predicate Managed(r: Rule)
    {
      r.table == table && (r.priority == MESH_RULE_PRIORITY || r.priority == REMOTE_RULE_PRIORITY)
    }

    predicate OwnSnat(r: ChainRule)
    {
      r.Snat? && r == SnatFor(r.dst)
    }
  }

  /** What the host holds for one destination: the link of its route, its policy rule, its SNAT rules. */
  datatype View = View(route: Option<nat>, rule: bool, snat: nat)

  function ChainOf(h: Host): seq<ChainRule>
  {
    if h.chain.Some? then h.chain.value else []
  }

  function ViewOf(p: Params, h: Host, d: Cidr): View
  {
    View(
      if p.Key(d) in h.routes then Some(h.routes[p.Key(d)]) else None,
      p.RuleFor(d) in h.rules,
      multiset(ChainOf(h))[p.SnatFor(d)])
  }

  /** The rules of a chain that are not this manager's, in order. */
  function Others(p: Params, chain: seq<ChainRule>): seq<ChainRule>
  {
    if chain == [] then []
    else (if p.OwnSnat(chain[0]) then [] else [chain[0]]) + Others(p, chain[1..])
  }

  /** Everything else on the host: other routes and rules, and the rest of the chain in its order. */
  ghost predicate SameRest(p: Params, h: Host, h': Host)
  {
    && (forall k :: !p.OwnKey(k) ==> (k in h'.routes <==> k in h.routes))
    && (forall k :: !p.OwnKey(k) && k in h.routes && k in h'.routes ==> h'.routes[k] == h.routes[k])
    && (forall r :: !p.OwnRule(r) ==> (r in h'.rules <==> r in h.rules))
    && h'.chain.Some? == h.chain.Some? && Others(p, ChainOf(h')) == Others(p, ChainOf(h))
    && h'.link == h.link
  }

  /** Nothing changed but the view of one destination. */
  ghost predicate OnlyFor(p: Params, h: Host, h': Host, n: Cidr)
  {
    SameRest(p, h, h') && forall d: Cidr :: d != n ==> ViewOf(p, h', d) == ViewOf(p, h, d)
  }

  /** What Ensure is for. */
  function Full(v: View, link: nat): View
  {
    View(Some(link), true, if v.snat == 0 then 1 else v.snat)
  }

  /** What Remove is for: one SNAT rule is deleted, so duplicates outlive it. */
  function Cleared(v: View): View
  {
    View(None, false, if v.snat == 0 then 0 else v.snat - 1)
  }

  /** Part of the way from a view to its full form. */
  predicate Gained(v: View, v': View, link: Option<nat>)
  {
    && (v'.route == v.route || (link.Some? && v'.route == link))
    && (v.rule ==> v'.rule)
    && (v'.snat == v.snat || (v.snat == 0 && v'.snat == 1))
  }

  /** Part of the way from a view to its cleared form. */
  predicate Lost(v: View, v': View)
  {
    && (v'.route == v.route || v'.route.None?)
    && (v'.rule ==> v.rule)
    && (v'.snat == v.snat || v'.snat + 1 == v.snat)
  }

  // ---------------------------------------------------------------------------------------------
  // The host calls

  class Kernel {
    var host: Host
    var faulty: bool

    constructor (h: Host)
      ensures host == h && !faulty
    {
      host, faulty := h, false;
    }

    /** Whether a call fails for reasons of its own is up to the host; faulty says that one has. */
    method Fails() returns (fail: bool)
      modifies `faulty
      ensures faulty == (old(faulty) || fail)
    {
      fail := *;
      faulty := faulty || fail;
    }

    method RouteReplace(k: RouteKey, link: nat) returns (ok: bool)
      modifies this
      ensures faulty == (old(faulty) || !ok)
      ensures host == if ok then old(host).(routes := old(host).routes[k := link]) else old(host)
    {
      var fail := Fails();
      if !fail { host := host.(routes := host.routes[k := link]); }
      return !fail;
    }

    /** A missing route (ESRCH) is not an error to the caller. */
    method RouteDel(k: RouteKey) returns (ok: bool)
      modifies this
      ensures faulty == (old(faulty) || !ok)
      ensures host == if ok then old(host).(routes := old(host).routes - {k}) else old(host)
    {
      var fail := Fails();
      if !fail { host := host.(routes := host.routes - {k}); }
      return !fail;
    }

    /** A rule that is already there (EEXIST) is not an error to the caller. */
    method RuleAdd(r: Rule) returns (ok: bool)
      modifies this
      ensures faulty == (old(faulty) || !ok)
      ensures host == if ok then old(host).(rules := old(host).rules + {r}) else old(host)
    {
      var fail := Fails();
      if !fail { host := host.(rules := host.rules + {r}); }
      return !fail;
    }

    /** A missing rule (ENOENT) is not an error to the caller. */
    method RuleDel(r: Rule) returns (ok: bool)
      modifies this
      ensures faulty == (old(faulty) || !ok)
      ensures host == if ok then old(host).(rules := old(host).rules - {r}) else old(host)
    {
      var fail := Fails();
      if !fail { host := host.(rules := host.rules - {r}); }
      return !fail;
    }

    method Exists(r: ChainRule) returns (exists_: bool, ok: bool)
      modifies `faulty
      ensures faulty == (old(faulty) || !ok)
      ensures ok ==> (exists_ <==> r in ChainOf(host))
    {
      var fail := Fails();
      return r in ChainOf(host), !fail;
    }

    /** Inserting at position 2 needs a chain with a first rule. */
    method InsertSecond(r: ChainRule) returns (ok: bool)
      modifies this
      ensures ok ==> old(host).chain.Some? && old(host).chain.value != []
      ensures (old(faulty) ==> faulty) && (!ok ==> faulty || ChainOf(old(host)) == [])
      ensures host == if ok then old(host).(chain := Some(Inserted(old(host).chain.value, r))) else old(host)
    {
      var fail := Fails();
      if fail || host.chain.None? || host.chain.value == [] { return false; }
      host := host.(chain := Some(Inserted(host.chain.value, r)));
      return true;
    }

    /** Deleting takes out the first equal rule and fails if there is none. */
    method Delete(r: ChainRule) returns (ok: bool)
      modifies this
      ensures ok ==> r in ChainOf(old(host))
      ensures (old(faulty) ==> faulty) && (!ok ==> faulty || r !in ChainOf(old(host)))
      ensures host == if ok then old(host).(chain := Some(DropFirst(ChainOf(old(host)), r))) else old(host)
    {
      var fail := Fails();
      if fail || r !in ChainOf(host) { return false; }
      host := host.(chain := Some(DropFirst(ChainOf(host), r)));
      return true;
    }
  }

  function Inserted(chain: seq<ChainRule>, r: ChainRule): seq<ChainRule>
    requires chain != []
  {
    [chain[0], r] + chain[1..]
  }

  // ---------------------------------------------------------------------------------------------
  // The manager

  class RouteManager {
    const p: Params
    const kernel: Kernel

    constructor (p: Params, kernel: Kernel)
      ensures this.p == p && this.kernel == kernel
    {
      this.p, this.kernel := p, kernel;
    }

    /** Ensure adds the route, the policy rule and the SNAT rule of one network, stopping at the first error. */
    method Ensure(n: Cidr) returns (ok: bool)
      modifies kernel
      ensures OnlyFor(p, old(kernel.host), kernel.host, n)
      ensures Gained(ViewOf(p, old(kernel.host), n), ViewOf(p, kernel.host, n), kernel.host.link)
      ensures ok ==> kernel.host.link.Some?
      ensures ok ==> ViewOf(p, kernel.host, n) == Full(ViewOf(p, old(kernel.host), n), kernel.host.link.value)
      ensures ok ==> Installed(p, kernel.host, n)
      ensures kernel.host.link.Some? && IsFull(ViewOf(p, old(kernel.host), n), kernel.host.link.value) ==>
        kernel.host == old(kernel.host)
      ensures !kernel.faulty && CanEnsure(old(kernel.host)) ==> ok && CanEnsure(kernel.host)
      ensures old(kernel.faulty) ==> kernel.faulty
    {
      hide ViewOf, SameRest, Installed;
      SameHost(p, kernel.host, n);
      var fail := kernel.Fails();
      if fail || kernel.host.link.None? { return false; }
      var link := kernel.host.link.value;
      ghost var h0 := kernel.host;
      ok := kernel.RouteReplace(p.Key(n), link);
      RouteStep(p, h0, kernel.host, n);
      if !ok { return; }
      ghost var h1 := kernel.host;
      ok := kernel.RuleAdd(p.RuleFor(n));
      RuleStep(p, h1, kernel.host, n);
      OnlyForTransitive(p, h0, h1, kernel.host, n);
      if !ok { return; }
      ghost var h2 := kernel.host;
      ok := EnsureHostSnat(n);
      OnlyForTransitive(p, h0, h2, kernel.host, n);
      SameRestLink(p, h0, kernel.host);
      FullMeans(p, kernel.host, n);
    }

    method EnsureHostSnat(n: Cidr) returns (ok: bool)
      modifies kernel
      ensures OnlyFor(p, old(kernel.host), kernel.host, n)
      ensures var v, v' := ViewOf(p, old(kernel.host), n), ViewOf(p, kernel.host, n);
        && v'.route == v.route && v'.rule == v.rule
        && (v'.snat == v.snat || (v.snat == 0 && v'.snat == 1)) && (ok ==> v'.snat > 0)
        && (v.snat > 0 ==> kernel.host == old(kernel.host))
      ensures kernel.host != old(kernel.host) ==> InSecondPlace(p, ChainOf(old(kernel.host)), ChainOf(kernel.host), n)
      ensures !kernel.faulty && CanEnsure(old(kernel.host)) ==> ok && CanEnsure(kernel.host)
      ensures old(kernel.faulty) ==> kernel.faulty
    {
      hide SameRest;
      ghost var h := kernel.host;
      SameHost(p, h, n);
      var present;
      present, ok := kernel.Exists(p.SnatFor(n));
      if !ok || present { return; }
      ok := kernel.InsertSecond(p.SnatFor(n));
      if ok { InsertStep(p, h, kernel.host, n); }
    }

    /** Remove takes out whatever is there for one network, going on after errors. */
    method Remove(n: Cidr) returns (ok: bool)
      modifies kernel
      ensures OnlyFor(p, old(kernel.host), kernel.host, n)
      ensures Lost(ViewOf(p, old(kernel.host), n), ViewOf(p, kernel.host, n))
      ensures ok ==> ViewOf(p, kernel.host, n) == Cleared(ViewOf(p, old(kernel.host), n))
      ensures ok && ViewOf(p, old(kernel.host), n).snat <= 1 ==> Absent(p, kernel.host, n)
      ensures ViewOf(p, old(kernel.host), n) == View(None, false, 0) ==> kernel.host == old(kernel.host)
      ensures (!kernel.faulty ==> ok) && (old(kernel.faulty) ==> kernel.faulty)
    {
      hide ViewOf, SameRest, Absent;
      ghost var h0 := kernel.host;
      SameHost(p, h0, n);
      ViewParts(p, h0, n);
      var noRoute := kernel.Fails();
      if !noRoute && p.Key(n) in kernel.host.routes {
        var deleted := kernel.RouteDel(p.Key(n));
        noRoute := !deleted;
      }
      ghost var h1 := kernel.host;
      RouteStep(p, h0, h1, n);
      ViewParts(p, h1, n);
      var noRule := kernel.Fails();
      if !noRule && p.RuleFor(n) in kernel.host.rules {
        var deleted := kernel.RuleDel(p.RuleFor(n));
        noRule := !deleted;
      }
      ghost var h2 := kernel.host;
      RuleStep(p, h1, h2, n);
      ViewParts(p, h2, n);
      OnlyForTransitive(p, h0, h1, h2, n);
      ok := RemoveHostSnat(n);
      OnlyForTransitive(p, h0, h2, kernel.host, n);
      ok := ok && !noRoute && !noRule;
      EmptyMeans(p, kernel.host, n);
    }

    method RemoveHostSnat(n: Cidr) returns (ok: bool)
      modifies kernel
      ensures OnlyFor(p, old(kernel.host), kernel.host, n)
      ensures var v, v' := ViewOf(p, old(kernel.host), n), ViewOf(p, kernel.host, n);
        && v'.route == v.route && v'.rule == v.rule
        && (v'.snat == v.snat || v'.snat + 1 == v.snat) && (ok && v.snat > 0 ==> v'.snat + 1 == v.snat)
        && (v.snat == 0 ==> kernel.host == old(kernel.host))
      ensures (!kernel.faulty ==> ok) && (old(kernel.faulty) ==> kernel.faulty)
    {
      hide SameRest;
      ghost var h := kernel.host;
      SameHost(p, h, n);
      var present;
      present, ok := kernel.Exists(p.SnatFor(n));
      if !ok || !present { return; }
      ok := kernel.Delete(p.SnatFor(n));
      if ok { DeleteStep(p, h, kernel.host, n); }
    }

    /** Every destination with state on the host that is neither desired nor the mesh network itself. */
    method StaleDestinations(desired: set<Cidr>) returns (stale: set<Cidr>, ok: bool)
      modifies kernel`faulty
      ensures kernel.faulty == (old(kernel.faulty) || !ok)
      ensures p.meshCidr !in stale && stale !! desired
      ensures ok ==>
        forall d: Cidr :: d != p.meshCidr && d !in desired && ViewOf(p, kernel.host, d) != View(None, false, 0) ==>
          d in stale
    {
      var fail := kernel.Fails();
      if fail { return {}, false; }
      var found := FoundOn(p, kernel.host);
      stale := found - {p.meshCidr} - desired;
      ok := true;
      forall d: Cidr | ViewOf(p, kernel.host, d) != View(None, false, 0) ensures d in found {
        FoundIsComplete(p, kernel.host, d);
      }
    }

    /**
      Reconcile ensures every desired network and removes every stale one.  Without errors each network
      ends up as its target says, the rest of the host untouched; with errors no desired network loses
      anything and no other network gains anything; a host that is settled does not change.
     */
    method Reconcile(desired: set<Cidr>) returns (ok: bool)
      modifies kernel
      ensures SameRest(p, old(kernel.host), kernel.host)
      ensures forall d: Cidr :: d in desired ==>
        Gained(ViewOf(p, old(kernel.host), d), ViewOf(p, kernel.host, d), kernel.host.link)
      ensures forall d: Cidr :: d !in desired ==> Lost(ViewOf(p, old(kernel.host), d), ViewOf(p, kernel.host, d))
      ensures ok ==>
        forall d: Cidr ::
          ViewOf(p, kernel.host, d) == Target(p, desired, kernel.host.link, d, ViewOf(p, old(kernel.host), d))
      ensures ok && desired != {} ==> kernel.host.link.Some?
      ensures ok ==> forall d: Cidr :: d in desired ==> Installed(p, kernel.host, d)
      ensures Settled(p, desired, old(kernel.host)) ==> kernel.host == old(kernel.host)
      ensures !kernel.faulty && (desired == {} || CanEnsure(old(kernel.host))) ==> ok
      ensures old(kernel.faulty) ==> kernel.faulty
    {
      hide ViewOf, SameRest, Gained, Lost, Full, Installed, IsFull;
      ghost var h0 := kernel.host;
      ok := EnsureAll(desired);
      ghost var h1 := kernel.host;
      var stale, listed := StaleDestinations(desired);
      if !listed {
        forall d: Cidr ensures d !in desired ==> Lost(ViewOf(p, h0, d), ViewOf(p, h1, d)) {
          LostReflexive(ViewOf(p, h0, d));
        }
        return false;
      }
      var removed := RemoveAll(stale);
      ok := ok && removed;
      SameRestTransitive(p, h0, h1, kernel.host);
      forall d: Cidr | ok && d in desired ensures Installed(p, kernel.host, d) {
        FullIsFull(ViewOf(p, h0, d), kernel.host.link.value);
        FullMeans(p, kernel.host, d);
      }
      forall d: Cidr ensures Lost(ViewOf(p, h1, d), ViewOf(p, h1, d)) { LostReflexive(ViewOf(p, h1, d)); }
    }

    /**
      Two runs in a row: when the first meets no error and no network it removed had its SNAT rule twice,
      the second changes nothing.
     */
    method ReconcileTwice(desired: set<Cidr>) returns (first: bool, second: bool, ghost between: Host)
      modifies kernel
      ensures first ==> forall d: Cidr ::
        ViewOf(p, between, d) == Target(p, desired, between.link, d, ViewOf(p, old(kernel.host), d))
      ensures first
        && (forall d: Cidr :: d !in desired && d != p.meshCidr ==> ViewOf(p, old(kernel.host), d).snat <= 1)
        ==> kernel.host == between
    {
      hide ViewOf, SameRest, Gained, Lost, Full, Settled, Target;
      first := Reconcile(desired);
      between := kernel.host;
      if first { SettledAfterReconcileIff(p, desired, old(kernel.host), between); }
      second := Reconcile(desired);
    }

    /**
      Cleanup goes on after errors; without any, nothing the manager could have installed is left, not even
      a SNAT rule that was there twice.
     */
    method Cleanup() returns (ok: bool)
      modifies kernel
      ensures SameOutside(p, old(kernel.host), kernel.host)
      ensures ok ==> Clean(p, kernel.host)
      ensures !kernel.faulty ==> ok
    {
      hide SameOutside, Clean, SnatDestinations;
      ghost var h0 := kernel.host;
      var listed := kernel.Fails();
      ok := !listed;
      if ok { ok := CleanSnat(); } else { OutsideReflexive(p, h0); }
      ghost var h1 := kernel.host;
      var routes := CleanRoutes();
      ghost var h2 := kernel.host;
      var rules := CleanRules();
      OutsideTransitive(p, h0, h1, h2);
      OutsideTransitive(p, h0, h2, kernel.host);
      if ok && routes && rules {
        SameChainSnat(p, h1, kernel.host);
        CleanParts(p, kernel.host);
      }
      ok := ok && routes && rules;
    }

    /** One removal for each rule that carries the comment. */
    method CleanSnat() returns (ok: bool)
      modifies kernel
      ensures SameOutside(p, old(kernel.host), kernel.host)
      ensures ok ==> forall d: Cidr :: ViewOf(p, kernel.host, d).snat == 0
      ensures (!kernel.faulty ==> ok) && (old(kernel.faulty) ==> kernel.faulty)
    {
      hide SameOutside, SnatDestinations, ViewOf, SameRest;
      ghost var h0 := kernel.host;
      OutsideReflexive(p, h0);
      var list := SnatDestinations(ChainOf(kernel.host));
      ok := true;
      for i := 0 to |list|
        invariant SameOutside(p, h0, kernel.host)
        invariant ok ==> Taken(p, h0, kernel.host, multiset(list[..i]))
        invariant (!kernel.faulty ==> ok) && (old(kernel.faulty) ==> kernel.faulty)
      {
        ghost var h := kernel.host;
        var done := RemoveHostSnat(list[i]);
        if ok && done { TakenMore(p, h0, h, kernel.host, multiset(list[..i]), list[i]); }
        ok := ok && done;
        OutsideOfRest(p, h, kernel.host);
        OutsideTransitive(p, h0, h, kernel.host);
        assert list[..i + 1] == list[..i] + [list[i]];
      }
      assert list[..|list|] == list;
      forall d: Cidr ensures ViewOf(p, h0, d).snat <= multiset(list)[d] { ListedAsOften(p, h0, d); }
    }

    method CleanRoutes() returns (ok: bool)
      modifies kernel
      ensures SameOutside(p, old(kernel.host), kernel.host) && kernel.host.chain == old(kernel.host.chain)
        && kernel.host.rules == old(kernel.host.rules)
      ensures ok ==> forall k :: k in kernel.host.routes ==> k.table != p.table
      ensures (!kernel.faulty ==> ok) && (old(kernel.faulty) ==> kernel.faulty)
    {
      hide Others;
      ghost var h0 := kernel.host;
      ok := true;
      var unlisted := kernel.Fails();
      if unlisted { return false; }
      var todo := set k | k in kernel.host.routes && k.table == p.table;
      while todo != {}
        invariant forall k :: k in todo ==> k.table == p.table
        invariant kernel.host == h0.(routes := kernel.host.routes)
        invariant forall k: RouteKey :: k.table != p.table ==> (k in kernel.host.routes <==> k in h0.routes)
        invariant forall k :: k in kernel.host.routes ==> k in h0.routes && kernel.host.routes[k] == h0.routes[k]
        invariant ok ==> forall k :: k in kernel.host.routes && k.table == p.table ==> k in todo
        invariant (!kernel.faulty ==> ok) && (old(kernel.faulty) ==> kernel.faulty)
        decreases todo
      {
        var k :| k in todo;
        var done := kernel.RouteDel(k);
        ok := ok && done;
        todo := todo - {k};
      }
    }

    method CleanRules() returns (ok: bool)
      modifies kernel
      ensures SameOutside(p, old(kernel.host), kernel.host) && kernel.host.chain == old(kernel.host.chain)
        && kernel.host.routes == old(kernel.host.routes)
      ensures ok ==> forall r :: r in kernel.host.rules ==> !p.Managed(r)
      ensures (!kernel.faulty ==> ok) && (old(kernel.faulty) ==> kernel.faulty)
    {
      hide Others;
      ghost var h0 := kernel.host;
      ok := true;
      var unlisted := kernel.Fails();
      if unlisted { return false; }
      var todo := set r | r in kernel.host.rules && p.Managed(r);
      while todo != {}
        invariant forall r :: r in todo ==> p.Managed(r)
        invariant kernel.host == h0.(rules := kernel.host.rules)
        invariant forall r :: !p.Managed(r) ==> (r in kernel.host.rules <==> r in h0.rules)
        invariant ok ==> forall r :: r in kernel.host.rules && p.Managed(r) ==> r in todo
        invariant (!kernel.faulty ==> ok) && (old(kernel.faulty) ==> kernel.faulty)
        decreases todo
      {
        var r :| r in todo;
        var done := kernel.RuleDel(r);
        ok := ok && done;
        todo := todo - {r};
      }
    }

    method EnsureAll(desired: set<Cidr>) returns (ok: bool)
      modifies kernel
      ensures SameRest(p, old(kernel.host), kernel.host)
      ensures forall d: Cidr :: d !in desired ==> ViewOf(p, kernel.host, d) == ViewOf(p, old(kernel.host), d)
      ensures forall d: Cidr :: d in desired ==>
        Gained(ViewOf(p, old(kernel.host), d), ViewOf(p, kernel.host, d), kernel.host.link)
      ensures ok ==> (desired != {} ==> kernel.host.link.Some?) && forall d: Cidr :: d in desired ==>
        ViewOf(p, kernel.host, d) == Full(ViewOf(p, old(kernel.host), d), kernel.host.link.value)
      ensures Settled(p, desired, old(kernel.host)) ==> kernel.host == old(kernel.host)
      ensures !kernel.faulty && (desired == {} || CanEnsure(old(kernel.host))) ==> ok
      ensures old(kernel.faulty) ==> kernel.faulty
    {
      hide ViewOf, SameRest, Gained, Full;
      ghost var h0 := kernel.host;
      SameRestReflexive(p, h0);
      ok := true;
      var todo := desired;
      while todo != {}
        invariant todo <= desired
        invariant SameRest(p, h0, kernel.host) && kernel.host.link == h0.link
        invariant forall d: Cidr :: d !in desired - todo ==> ViewOf(p, kernel.host, d) == ViewOf(p, h0, d)
        invariant forall d: Cidr :: d in desired - todo ==> Gained(ViewOf(p, h0, d), ViewOf(p, kernel.host, d), h0.link)
        invariant ok && todo != desired ==> h0.link.Some?
        invariant ok && h0.link.Some? ==> forall d: Cidr :: d in desired - todo ==>
          ViewOf(p, kernel.host, d) == Full(ViewOf(p, h0, d), h0.link.value)
        invariant Settled(p, desired, h0) ==> kernel.host == h0
        invariant !kernel.faulty && (desired == {} || CanEnsure(h0)) ==>
          ok && (desired != {} ==> CanEnsure(kernel.host))
        invariant old(kernel.faulty) ==> kernel.faulty
        decreases todo
      {
        var n :| n in todo;
        ghost var h := kernel.host;
        var done := Ensure(n);
        SameRestTransitive(p, h0, h, kernel.host);
        SameRestLink(p, h, kernel.host);
        if Settled(p, desired, h0) { SettledIsFull(p, desired, h0, n); }
        ok := ok && done;
        todo := todo - {n};
      }
    }

    method RemoveAll(stale: set<Cidr>) returns (ok: bool)
      modifies kernel
      ensures SameRest(p, old(kernel.host), kernel.host) && kernel.host.link == old(kernel.host).link
      ensures forall d: Cidr :: d !in stale ==> ViewOf(p, kernel.host, d) == ViewOf(p, old(kernel.host), d)
      ensures forall d: Cidr :: d in stale ==> Lost(ViewOf(p, old(kernel.host), d), ViewOf(p, kernel.host, d))
      ensures ok ==> forall d: Cidr :: d in stale ==>
        ViewOf(p, kernel.host, d) == Cleared(ViewOf(p, old(kernel.host), d))
      ensures (forall d: Cidr :: d in stale ==> ViewOf(p, old(kernel.host), d) == View(None, false, 0)) ==>
        kernel.host == old(kernel.host)
      ensures (!kernel.faulty ==> ok) && (old(kernel.faulty) ==> kernel.faulty)
    {
      hide ViewOf, SameRest, Lost, Cleared;
      ghost var h0 := kernel.host;
      SameRestReflexive(p, h0);
      ok := true;
      var todo := stale;
      while todo != {}
        invariant todo <= stale
        invariant SameRest(p, h0, kernel.host) && kernel.host.link == h0.link
        invariant forall d: Cidr :: d !in stale - todo ==> ViewOf(p, kernel.host, d) == ViewOf(p, h0, d)
        invariant forall d: Cidr :: d in stale - todo ==> Lost(ViewOf(p, h0, d), ViewOf(p, kernel.host, d))
        invariant ok ==> forall d: Cidr :: d in stale - todo ==> ViewOf(p, kernel.host, d) == Cleared(ViewOf(p, h0, d))
        invariant (forall d: Cidr :: d in stale ==> ViewOf(p, h0, d) == View(None, false, 0)) ==> kernel.host == h0
        invariant (!kernel.faulty ==> ok) && (old(kernel.faulty) ==> kernel.faulty)
        decreases todo
      {
        var n :| n in todo;
        ghost var h := kernel.host;
        var done := Remove(n);
        SameRestTransitive(p, h0, h, kernel.host);
        SameRestLink(p, h, kernel.host);
        ok := ok && done;
        todo := todo - {n};
      }
    }
  }

  /** The destination of every rule that carries the comment, as often as it comes. */
  function SnatDestinations(chain: seq<ChainRule>): seq<Cidr>
  {
    if chain == [] then []
    else (if chain[0].Snat? then [chain[0].dst] else []) + SnatDestinations(chain[1..])
  }

  function Left(have: nat, taken: nat): nat
  {
    if taken < have then have - taken else 0
  }

  /** What is left of the SNAT rules when so many of each have been taken. */
  ghost predicate Taken(p: Params, h: Host, h': Host, taken: multiset<Cidr>)
  {
    forall d: Cidr :: ViewOf(p, h', d).snat <= Left(ViewOf(p, h, d).snat, taken[d])
  }

  lemma TakenMore(p: Params, h0: Host, h: Host, h': Host, taken: multiset<Cidr>, n: Cidr)
    requires Taken(p, h0, h, taken) && OnlyFor(p, h, h', n)
    requires ViewOf(p, h', n).snat == Left(ViewOf(p, h, n).snat, 1)
    ensures Taken(p, h0, h', taken + multiset{n})
  {
    hide ViewOf, SameRest;
  }

  lemma SameChainSnat(p: Params, h: Host, h': Host)
    requires h'.chain == h.chain
    ensures forall d: Cidr :: ViewOf(p, h', d).snat == ViewOf(p, h, d).snat
  {
  }

  /** Nothing of the manager is left. */
  ghost predicate Clean(p: Params, h: Host)
  {
    && (forall k :: k in h.routes ==> k.table != p.table)
    && (forall r :: r in h.rules && r.table == p.table ==> r.priority != 109 && r.priority != 110)
    && (forall r :: r in ChainOf(h) ==> !p.OwnSnat(r))
  }

  /** Other tables, other rules and the rest of the chain are as they were. */
  ghost predicate SameOutside(p: Params, h: Host, h': Host)
  {
    && (forall k: RouteKey :: k.table != p.table ==> (k in h'.routes <==> k in h.routes))
    && (forall k: RouteKey :: k.table != p.table && k in h.routes && k in h'.routes ==> h'.routes[k] == h.routes[k])
    && (forall r :: !p.Managed(r) ==> (r in h'.rules <==> r in h.rules))
    && h'.chain.Some? == h.chain.Some? && Others(p, ChainOf(h')) == Others(p, ChainOf(h))
    && h'.link == h.link
  }

  lemma OutsideReflexive(p: Params, h: Host)
    ensures SameOutside(p, h, h)
  {
  }

  lemma OutsideTransitive(p: Params, h: Host, h': Host, h'': Host)
    requires SameOutside(p, h, h') && SameOutside(p, h', h'')
    ensures SameOutside(p, h, h'')
  {
  }

  lemma OutsideOfRest(p: Params, h: Host, h': Host)
    requires SameRest(p, h, h')
    ensures SameOutside(p, h, h')
  {
    hide Others;
  }

  lemma {:induction false} DestinationsCount(p: Params, chain: seq<ChainRule>, d: Cidr)
    ensures multiset(chain)[p.SnatFor(d)] <= multiset(SnatDestinations(chain))[d]
  {
    if chain != [] {
      DestinationsCount(p, chain[1..], d);
      assert chain == [chain[0]] + chain[1..];
    }
  }

  lemma ListedAsOften(p: Params, h: Host, d: Cidr)
    ensures ViewOf(p, h, d).snat <= multiset(SnatDestinations(ChainOf(h)))[d]
  {
    DestinationsCount(p, ChainOf(h), d);
  }

  lemma CleanParts(p: Params, h: Host)
    requires forall k :: k in h.routes ==> k.table != p.table
    requires forall r :: r in h.rules ==> !p.Managed(r)
    requires forall d: Cidr :: ViewOf(p, h, d).snat == 0
    ensures Clean(p, h)
  {
    forall r | r in ChainOf(h) ensures !p.OwnSnat(r) {
      if r.Snat? { assert ViewOf(p, h, r.dst).snat == 0; }
    }
  }

  /** The link is there, and the chain has the first rule that the SNAT rules come after. */
  predicate CanEnsure(h: Host)
  {
    h.link.Some? && ChainOf(h) != []
  }

  predicate IsFull(v: View, link: nat)
  {
    v == Full(v, link)
  }

  /** What an error-free Reconcile makes of the view of a network. */
  function Target(p: Params, desired: set<Cidr>, link: Option<nat>, d: Cidr, v: View): View
  {
    if d in desired then (if link.Some? then Full(v, link.value) else v)
    else if d == p.meshCidr then v
    else Cleared(v)
  }

  /** Every desired network is complete and no other one, the mesh network aside, has anything. */
  ghost predicate Settled(p: Params, desired: set<Cidr>, h: Host)
  {
    && (forall d: Cidr :: d in desired ==> h.link.Some? && IsFull(ViewOf(p, h, d), h.link.value))
    && (forall d: Cidr :: d !in desired && d != p.meshCidr ==> ViewOf(p, h, d) == View(None, false, 0))
  }

  /**
    After an error-free Reconcile the host is settled, so that running it again changes nothing, exactly
    when no network it removed had more than one SNAT rule.
   */
  lemma SettledAfterReconcileIff(p: Params, desired: set<Cidr>, h: Host, h': Host)
    requires desired != {} ==> h'.link.Some?
    requires forall d: Cidr :: ViewOf(p, h', d) == Target(p, desired, h'.link, d, ViewOf(p, h, d))
    ensures Settled(p, desired, h') <==>
      forall d: Cidr :: d !in desired && d != p.meshCidr ==> ViewOf(p, h, d).snat <= 1
  {
    hide ViewOf;
    if forall d: Cidr :: d !in desired && d != p.meshCidr ==> ViewOf(p, h, d).snat <= 1 {
      forall d: Cidr | d !in desired && d != p.meshCidr ensures ViewOf(p, h', d) == View(None, false, 0) {
        assert ViewOf(p, h, d).snat <= 1;
      }
    } else {
      var d: Cidr :| d !in desired && d != p.meshCidr && ViewOf(p, h, d).snat > 1;
      assert ViewOf(p, h', d) == Cleared(ViewOf(p, h, d));
    }
  }

  /** A commented SNAT rule for a network that is neither desired nor the mesh network. */
  predicate StaleSnat(p: Params, desired: set<Cidr>, r: ChainRule)
  {
    r.Snat? && r.dst !in desired && r.dst != p.meshCidr
  }

  lemma {:induction false} OthersHas(p: Params, chain: seq<ChainRule>, r: ChainRule)
    ensures r in Others(p, chain) <==> r in chain && !p.OwnSnat(r)
  {
    if chain != [] {
      OthersHas(p, chain[1..], r);
      assert chain == [chain[0]] + chain[1..];
    }
  }

  /** Which stale SNAT rules are left: those made with other parameters, and those that were there twice. */
  lemma StaleSnatLeft(p: Params, desired: set<Cidr>, h: Host, h': Host, r: ChainRule)
    requires SameRest(p, h, h') && StaleSnat(p, desired, r)
    requires forall d: Cidr :: ViewOf(p, h', d) == Target(p, desired, h'.link, d, ViewOf(p, h, d))
    ensures r in ChainOf(h') <==> r in ChainOf(h) && (!p.OwnSnat(r) || multiset(ChainOf(h))[r] > 1)
  {
    OthersHas(p, ChainOf(h), r);
    OthersHas(p, ChainOf(h'), r);
    assert ViewOf(p, h', r.dst) == Cleared(ViewOf(p, h, r.dst));
    hide Others;
  }

  /**
    An error-free Reconcile leaves no commented rule of a stale network exactly when each of them was made
    with the manager's parameters and was there once.
   */
  lemma NoStaleSnatIff(p: Params, desired: set<Cidr>, h: Host, h': Host)
    requires SameRest(p, h, h')
    requires forall d: Cidr :: ViewOf(p, h', d) == Target(p, desired, h'.link, d, ViewOf(p, h, d))
    ensures (forall r :: r in ChainOf(h') ==> !StaleSnat(p, desired, r)) <==>
      forall r :: r in ChainOf(h) && StaleSnat(p, desired, r) ==> p.OwnSnat(r) && multiset(ChainOf(h))[r] == 1
  {
    forall r | StaleSnat(p, desired, r)
      ensures r in ChainOf(h') <==> r in ChainOf(h) && (!p.OwnSnat(r) || multiset(ChainOf(h))[r] > 1)
    {
      StaleSnatLeft(p, desired, h, h', r);
    }
    hide ViewOf, SameRest, StaleSnat;
  }

  lemma SettledIsFull(p: Params, desired: set<Cidr>, h: Host, n: Cidr)
    requires Settled(p, desired, h) && n in desired
    ensures h.link.Some? && IsFull(ViewOf(p, h, n), h.link.value)
  {
  }

  // ---------------------------------------------------------------------------------------------
  // Single changes of the host

  lemma LostReflexive(v: View)
    ensures Lost(v, v)
  {
  }

  lemma SameRestReflexive(p: Params, h: Host)
    ensures SameRest(p, h, h)
  {
  }

  lemma SameRestLink(p: Params, h: Host, h': Host)
    requires SameRest(p, h, h')
    ensures h'.link == h.link
  {
  }

  lemma SameHost(p: Params, h: Host, n: Cidr)
    ensures OnlyFor(p, h, h, n)
  {
  }

  lemma SameRestTransitive(p: Params, h: Host, h': Host, h'': Host)
    requires SameRest(p, h, h') && SameRest(p, h', h'')
    ensures SameRest(p, h, h'')
  {
  }

  lemma OnlyForTransitive(p: Params, h: Host, h': Host, h'': Host, n: Cidr)
    requires OnlyFor(p, h, h', n) && OnlyFor(p, h', h'', n)
    ensures OnlyFor(p, h, h'', n)
  {
    hide ViewOf, SameRest;
    SameRestTransitive(p, h, h', h'');
  }

  lemma ViewParts(p: Params, h: Host, n: Cidr)
    ensures var v := ViewOf(p, h, n);
      && (v.route.Some? <==> p.Key(n) in h.routes)
      && (v.rule <==> p.RuleFor(n) in h.rules)
  {
  }

  lemma RouteStep(p: Params, h: Host, h': Host, n: Cidr)
    requires h'.rules == h.rules && h'.chain == h.chain && h'.link == h.link
    requires h'.routes == h.routes || h'.routes == h.routes - {p.Key(n)}
      || (h.link.Some? && h'.routes == h.routes[p.Key(n) := h.link.value])
    ensures OnlyFor(p, h, h', n)
    ensures var v, v' := ViewOf(p, h, n), ViewOf(p, h', n);
      && v'.rule == v.rule && v'.snat == v.snat
      && (h'.routes == h.routes ==> v'.route == v.route)
      && (h'.routes == h.routes - {p.Key(n)} ==> v'.route == None)
      && (h.link.Some? && h'.routes == h.routes[p.Key(n) := h.link.value] ==> v'.route == h.link)
      && (v.route == h.link && h.link.Some? && h'.routes == h.routes[p.Key(n) := h.link.value] ==> h' == h)
  {
    hide Others;
    assert ChainOf(h') == ChainOf(h);
  }

  lemma RuleStep(p: Params, h: Host, h': Host, n: Cidr)
    requires h'.routes == h.routes && h'.chain == h.chain && h'.link == h.link
    requires h'.rules == h.rules || h'.rules == h.rules + {p.RuleFor(n)} || h'.rules == h.rules - {p.RuleFor(n)}
    ensures OnlyFor(p, h, h', n)
    ensures var v, v' := ViewOf(p, h, n), ViewOf(p, h', n);
      && v'.route == v.route && v'.snat == v.snat
      && (h'.rules == h.rules ==> v'.rule == v.rule)
      && (h'.rules == h.rules + {p.RuleFor(n)} ==> v'.rule)
      && (h'.rules == h.rules - {p.RuleFor(n)} ==> !v'.rule)
      && (v.rule && h'.rules == h.rules + {p.RuleFor(n)} ==> h' == h)
  {
    hide Others;
    assert ChainOf(h') == ChainOf(h);
  }

  lemma InsertStep(p: Params, h: Host, h': Host, n: Cidr)
    requires h.chain.Some? && h.chain.value != [] && h' == h.(chain := Some(Inserted(h.chain.value, p.SnatFor(n))))
    ensures OnlyFor(p, h, h', n)
    ensures ViewOf(p, h', n) == ViewOf(p, h, n).(snat := ViewOf(p, h, n).snat + 1)
  {
    hide Inserted, Others;
    InsertedFacts(p, h.chain.value, p.SnatFor(n));
    assert ChainOf(h) == h.chain.value && ChainOf(h') == Inserted(h.chain.value, p.SnatFor(n));
  }

  lemma InsertedFacts(p: Params, chain: seq<ChainRule>, r: ChainRule)
    requires chain != [] && p.OwnSnat(r)
    ensures multiset(Inserted(chain, r)) == multiset(chain) + multiset{r}
    ensures Others(p, Inserted(chain, r)) == Others(p, chain)
  {
    var after := Inserted(chain, r);
    assert chain == [chain[0]] + chain[1..];
    assert after[1..] == [r] + chain[1..] && after[1..][1..] == chain[1..];
    assert Others(p, after[1..]) == Others(p, chain[1..]);
  }

  lemma DeleteStep(p: Params, h: Host, h': Host, n: Cidr)
    requires p.SnatFor(n) in ChainOf(h) && h' == h.(chain := Some(DropFirst(ChainOf(h), p.SnatFor(n))))
    ensures OnlyFor(p, h, h', n)
    ensures ViewOf(p, h, n).snat > 0 && ViewOf(p, h', n) == ViewOf(p, h, n).(snat := ViewOf(p, h, n).snat - 1)
  {
    hide DropFirst, Others;
    DropFirstFacts(p, ChainOf(h), p.SnatFor(n));
  }

  lemma {:induction false} DropFirstFacts(p: Params, chain: seq<ChainRule>, r: ChainRule)
    requires r in chain && p.OwnSnat(r)
    ensures multiset(chain) == multiset(DropFirst(chain, r)) + multiset{r}
    ensures Others(p, DropFirst(chain, r)) == Others(p, chain)
    decreases |chain|
  {
    assert chain == [chain[0]] + chain[1..];
    if chain[0] != r {
      DropFirstFacts(p, chain[1..], r);
      var after := DropFirst(chain, r);
      assert after[1..] == DropFirst(chain[1..], r);
    }
  }

  /** The destinations listed from the routes, the policy rules and the commented SNAT rules. */
  function FoundOn(p: Params, h: Host): set<Cidr>
  {
    (set k | k in h.routes && p.OwnKey(k) :: k.dst.value)
    + (set r | r in h.rules && p.OwnRule(r) :: r.dst.value)
    + (set r | r in ChainOf(h) && r.Snat? :: r.dst)
  }

  lemma FoundIsComplete(p: Params, h: Host, d: Cidr)
    requires ViewOf(p, h, d) != View(None, false, 0)
    ensures d in FoundOn(p, h)
  {
    if p.Key(d) in h.routes {
      assert p.OwnKey(p.Key(d)) && p.Key(d).dst.value == d;
    } else if p.RuleFor(d) in h.rules {
      assert p.OwnRule(p.RuleFor(d)) && p.RuleFor(d).dst.value == d;
    } else {
      assert p.SnatFor(d) in ChainOf(h) && p.SnatFor(d).dst == d;
    }
  }

  // ---------------------------------------------------------------------------------------------
  // What the entries mean

  /** What a complete network has on the host, entry by entry. */
  predicate Installed(p: Params, h: Host, d: Cidr)
  {
    && RouteKey(p.table, Some(d)) in h.routes && h.link == Some(h.routes[RouteKey(p.table, Some(d))])
    && Rule(p.table, 110, Some(d)) in h.rules
    && Snat(p.cluster, d, p.linkName, p.source) in ChainOf(h)
  }

  lemma FullMeans(p: Params, h: Host, d: Cidr)
    requires h.link.Some?
    ensures IsFull(ViewOf(p, h, d), h.link.value) <==> Installed(p, h, d)
  {
  }

  lemma FullIsFull(v: View, link: nat)
    ensures IsFull(Full(v, link), link)
  {
  }

  /** None of that. */
  predicate Absent(p: Params, h: Host, d: Cidr)
  {
    && RouteKey(p.table, Some(d)) !in h.routes && Rule(p.table, 110, Some(d)) !in h.rules
    && Snat(p.cluster, d, p.linkName, p.source) !in ChainOf(h)
  }

  lemma EmptyMeans(p: Params, h: Host, d: Cidr)
    ensures ViewOf(p, h, d) == View(None, false, 0) <==> Absent(p, h, d)
  {
  }

  /** The SNAT rule of a network has come in behind the first rule of the chain, before all others. */
  predicate InSecondPlace(p: Params, before: seq<ChainRule>, after: seq<ChainRule>, d: Cidr)
  {
    before != [] && after == [before[0], Snat(p.cluster, d, p.linkName, p.source)] + before[1..]
  }

  /** A packet that leaves the host: where it comes from, whether that is a local address, where it goes and how. */
  datatype Packet = Packet(src: Addr, local: bool, dst: Addr, link: string)

  /**
    Whether a rule of the chain decides a packet.  An SNAT rule does for packets from local addresses outside
    its cluster network to its destination over its link; what a rule of somebody else does is up to it.
   */
  predicate Decides(r: ChainRule, pkt: Packet, others: (string, Packet) -> bool)
  {
    match r
    case Snat(cluster, dst, linkName, _) =>
      !cluster.Contains(pkt.src) && dst.Contains(pkt.dst) && pkt.local && pkt.link == linkName
    case Foreign(text) => others(text, pkt)
  }

  /** The first rule of the chain that decides a packet. */
  function Decider(chain: seq<ChainRule>, pkt: Packet, others: (string, Packet) -> bool): Option<ChainRule>
  {
    if chain == [] then None
    else if Decides(chain[0], pkt, others) then Some(chain[0])
    else Decider(chain[1..], pkt, others)
  }

  /** The source address a packet leaves with, as far as the chain has to do with it. */
  function SourceAfter(chain: seq<ChainRule>, pkt: Packet, others: (string, Packet) -> bool): Addr
  {
    var r := Decider(chain, pkt, others);
    if r.Some? && r.value.Snat? then r.value.source else pkt.src
  }

  /** A rule that nobody but this manager makes: its cluster network, its link, its source address. */
  predicate Made(p: Params, r: ChainRule)
  {
    r.Snat? && r.cluster == p.cluster && r.linkName == p.linkName && r.source == p.source
  }

  lemma {:induction false} DeciderIs(chain: seq<ChainRule>, pkt: Packet, others: (string, Packet) -> bool)
    ensures var r := Decider(chain, pkt, others);
      && (r.None? <==> forall x :: x in chain ==> !Decides(x, pkt, others))
      && (r.Some? ==> r.value in chain && Decides(r.value, pkt, others))
  {
    if chain != [] {
      DeciderIs(chain[1..], pkt, others);
      assert chain == [chain[0]] + chain[1..];
    }
  }

  /**
    For an installed network: a packet from a local address outside the cluster network to an address of the
    network over the mesh link leaves with the manager's source address, unless a rule of others decides it.
   */
  lemma InstalledRewrites(p: Params, h: Host, d: Cidr, pkt: Packet, others: (string, Packet) -> bool)
    requires Installed(p, h, d)
    requires pkt.local && !p.cluster.Contains(pkt.src) && d.Contains(pkt.dst) && pkt.link == p.linkName
    ensures Decider(ChainOf(h), pkt, others).Some?
    ensures Made(p, Decider(ChainOf(h), pkt, others).value) ==> SourceAfter(ChainOf(h), pkt, others) == p.source
    ensures (forall r :: r in ChainOf(h) && !Made(p, r) ==> !Decides(r, pkt, others)) ==>
      SourceAfter(ChainOf(h), pkt, others) == p.source
  {
    DeciderIs(ChainOf(h), pkt, others);
    var r := Snat(p.cluster, d, p.linkName, p.source);
    assert Decides(r, pkt, others) && r in ChainOf(h);
  }

  /** Right after that, only the first rule of the chain comes before it. */
  lemma SecondPlaceRewrites(p: Params, before: seq<ChainRule>, after: seq<ChainRule>, d: Cidr, pkt: Packet,
                            others: (string, Packet) -> bool)
    requires InSecondPlace(p, before, after, d) && !Decides(before[0], pkt, others)
    requires pkt.local && !p.cluster.Contains(pkt.src) && d.Contains(pkt.dst) && pkt.link == p.linkName
    ensures SourceAfter(after, pkt, others) == p.source
  {
    var r, tail := Snat(p.cluster, d, p.linkName, p.source), after[1..];
    assert after[0] == before[0] && tail[0] == r;
    assert Decides(r, pkt, others);
    hide Decides, InSecondPlace;
    assert Decider(tail, pkt, others) == Some(r);
    assert Decider(after, pkt, others) == Decider(tail, pkt, others);
  }

  /** The manager's rules leave all other packets alone, whatever the host holds. */
  lemma OthersUntouched(p: Params, h: Host, pkt: Packet, others: (string, Packet) -> bool)
    requires !pkt.local || p.cluster.Contains(pkt.src) || pkt.link != p.linkName
      || forall d: Cidr :: ViewOf(p, h, d).snat > 0 ==> !d.Contains(pkt.dst)
    ensures forall r :: r in ChainOf(h) && Made(p, r) ==> !Decides(r, pkt, others)
  {
    forall r | r in ChainOf(h) && Made(p, r) ensures !Decides(r, pkt, others) {
      assert r == Snat(p.cluster, r.dst, p.linkName, p.source);
      assert ViewOf(p, h, r.dst).snat > 0 by { assert multiset(ChainOf(h))[p.SnatFor(r.dst)] > 0; }
    }
  }
}
