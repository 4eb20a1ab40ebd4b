/**
  Installing and removing flannel's iptables rules in one iptables-restore run
  (pkg/trafficmngr/iptables/iptables.go and iptables_restore.go): a rule that exists is deleted and then
  appended again, so that all of them end up together and in order behind the rules of others.

  iptables-restore is modelled as its manual describes it for --noflush: the tables of the payload are
  committed one after the other, each as a whole, and a command that cannot be carried out ends the run.
 */
module IptablesBootstrap {
  import opened Ip4
  import opened Lists

  type Spec = seq<string>

  datatype ChainId = ChainId(table: string, name: string)

  /** A rule to append to a chain; every rule of the source has the action -A. */
  datatype Rule = Rule(table: string, chain: string, spec: Spec) {
    function Id(): ChainId
    {
      ChainId(table, chain)
    }
  }

  datatype Command = Delete(chain: ChainId, spec: Spec) | Append(chain: ChainId, spec: Spec)

  type Chains = map<ChainId, seq<Spec>>

  type Tables = map<string, seq<Command>>

  const FORWARD_CHAIN := "FLANNEL-FWD"

  const POSTROUTING_CHAIN := "FLANNEL-POSTRTG"

  // One chain.

  function Step(chain: seq<Spec>, cmd: Command): Option<seq<Spec>>
  {
    match cmd
    case Append(_, spec) => Some(chain + [spec])
    case Delete(_, spec) => if spec in chain then Some(DropFirst(chain, spec)) else None
  }

  function Play(chain: seq<Spec>, cmds: seq<Command>): Option<seq<Spec>>
  {
    if cmds == [] then Some(chain)
    else
      match Play(chain, cmds[..|cmds| - 1])
      case None => None
      case Some(before) => Step(before, cmds[|cmds| - 1])
  }

  /** The chain without the first occurrence of each of the rules. */
  function Without(chain: seq<Spec>, mine: seq<Spec>): seq<Spec>
  {
    if mine == [] then chain else DropFirst(Without(chain, mine[..|mine| - 1]), mine[|mine| - 1])
  }

  /** The rules of others, in their order. */
  function Foreign(chain: seq<Spec>, mine: seq<Spec>): seq<Spec>
  {
    if chain == [] then []
    else (if chain[0] in mine then [] else [chain[0]]) + Foreign(chain[1..], mine)
  }

  predicate Distinct(specs: seq<Spec>)
  {
    forall i, j :: 0 <= i < j < |specs| ==> specs[i] != specs[j]
  }

  /** No rule of the list occurs twice in the chain. */
  predicate NoneTwice(chain: seq<Spec>, mine: seq<Spec>)
  {
    forall i, j :: 0 <= i < j < |chain| && chain[i] == chain[j] ==> chain[i] !in mine
  }

  // All chains.

  function Exec(chains: Chains, cmd: Command): Option<Chains>
  {
    if cmd.chain !in chains then None
    else
      match Step(chains[cmd.chain], cmd)
      case None => None
      case Some(chain) => Some(chains[cmd.chain := chain])
  }

  function ExecAll(chains: Chains, cmds: seq<Command>): Option<Chains>
  {
    if cmds == [] then Some(chains)
    else
      match ExecAll(chains, cmds[..|cmds| - 1])
      case None => None
      case Some(before) => Exec(before, cmds[|cmds| - 1])
  }

  function OfChain(cmds: seq<Command>, c: ChainId): seq<Command>
  {
    if cmds == [] then []
    else
      var last := cmds[|cmds| - 1];
      OfChain(cmds[..|cmds| - 1], c) + if last.chain == c then [last] else []
  }

  function OfTable(cmds: seq<Command>, t: string): seq<Command>
  {
    if cmds == [] then []
    else
      var last := cmds[|cmds| - 1];
      OfTable(cmds[..|cmds| - 1], t) + if last.chain.table == t then [last] else []
  }

  // The rules of a list.

  function LastWord(spec: Spec): string
    requires spec != []
  {
    spec[|spec| - 1]
  }

  predicate Mentions(r: Rule, chain: string)
    requires r.spec != []
  {
    r.chain == chain || LastWord(r.spec) == chain
  }

  /** The flannel chain a rule needs. */
  function Needs(r: Rule): Option<ChainId>
  {
    if r.spec == [] then None
    else if Mentions(r, FORWARD_CHAIN) then Some(ChainId(r.table, FORWARD_CHAIN))
    else if Mentions(r, POSTROUTING_CHAIN) then Some(ChainId(r.table, POSTROUTING_CHAIN))
    else None
  }

  function Opened(chains: Chains, rules: seq<Rule>): Chains
  {
    if rules == [] then chains
    else
      var before := Opened(chains, rules[..|rules| - 1]);
      match Needs(rules[|rules| - 1])
      case None => before
      case Some(c) => if c in before then before else before[c := []]
  }

  predicate Has(chains: Chains, r: Rule)
  {
    r.Id() in chains && r.spec in chains[r.Id()]
  }

  /** What is built for one rule. */
  function Entry(present: bool, r: Rule, append: bool): seq<Command>
  {
    (if present then [Delete(r.Id(), r.spec)] else []) + (if append then [Append(r.Id(), r.spec)] else [])
  }

  function Built(chains: Chains, rules: seq<Rule>, append: bool): seq<Command>
  {
    if rules == [] then []
    else
      var last := rules[|rules| - 1];
      Built(chains, rules[..|rules| - 1], append) + Entry(Has(chains, last), last, append)
  }

  /** The rules a list has for one chain. */
  function Mine(rules: seq<Rule>, c: ChainId): seq<Spec>
  {
    if rules == [] then []
    else
      var last := rules[|rules| - 1];
      Mine(rules[..|rules| - 1], c) + if last.Id() == c then [last.spec] else []
  }

  /** A list without repetitions in which every rule says something. */
  predicate ProperList(rules: seq<Rule>)
  {
    && (forall r :: r in rules ==> r.spec != [])
    && (forall i, j :: 0 <= i < j < |rules| ==> rules[i] != rules[j])
  }

  predicate Grouped(tables: Tables, cmds: seq<Command>)
  {
    && (forall t :: t in tables ==> tables[t] == OfTable(cmds, t))
    && (forall cmd :: cmd in cmds ==> cmd.chain.table in tables)
  }

  // Lemmas about one chain.

  lemma {:induction false} WithoutKeeps(chain: seq<Spec>, mine: seq<Spec>, other: Spec)
    requires other !in mine
    ensures other in Without(chain, mine) <==> other in chain
  {
    if mine != [] {
      WithoutKeeps(chain, mine[..|mine| - 1], other);
      DropFirstKeeps(Without(chain, mine[..|mine| - 1]), mine[|mine| - 1], other);
    }
  }

  /** The commands for one chain. */
  function ChainCommands(c: ChainId, chain: seq<Spec>, mine: seq<Spec>, append: bool): seq<Command>
  {
    if mine == [] then []
    else
      var last := mine[|mine| - 1];
      ChainCommands(c, chain, mine[..|mine| - 1], append) + Entry(last in chain, Rule(c.table, c.name, last), append)
  }

  lemma PlayJoin(chain: seq<Spec>, a: seq<Command>, b: seq<Command>)
    ensures Play(chain, a + b) == match Play(chain, a) case None => None case Some(x) => Play(x, b)
  {
    if b == [] {
      assert a + b == a;
    } else {
      assert (a + b)[..|a + b| - 1] == a + b[..|b| - 1];
      PlayJoin(chain, a, b[..|b| - 1]);
    }
  }

  /** Playing the commands: the first occurrence of each rule goes, and the rules come last, in list order. */
  lemma {:induction false} PlayedChain(c: ChainId, chain: seq<Spec>, mine: seq<Spec>, append: bool)
    requires Distinct(mine)
    ensures Play(chain, ChainCommands(c, chain, mine, append))
      == Some(Without(chain, mine) + if append then mine else [])
  {
    if mine == [] {
      assert chain + [] == chain;
    } else {
      var front, last := mine[..|mine| - 1], mine[|mine| - 1];
      PlayedChain(c, chain, front, append);
      assert last !in front;
      PlayJoin(chain, ChainCommands(c, chain, front, append),
        Entry(last in chain, Rule(c.table, c.name, last), append));
      PlayedEntry(c, chain, front, last, append);
      assert mine == front + [last];
      hide Play, Without, Entry;
    }
  }

  lemma PlayedEntry(c: ChainId, chain: seq<Spec>, front: seq<Spec>, last: Spec, append: bool)
    requires last !in front
    ensures
      Play(Without(chain, front) + (if append then front else []),
           Entry(last in chain, Rule(c.table, c.name, last), append))
      == Some(DropFirst(Without(chain, front), last) + if append then front + [last] else [])
  {
    hide Without, DropFirst, Play, Step;
    var kept, done := Without(chain, front), if append then front else [];
    var mid := DropFirst(kept, last) + done;
    var dels := if last in chain then [Delete(c, last)] else [];
    var apps := if append then [Append(c, last)] else [];
    WithoutKeeps(chain, front, last);
    PlayedDelete(c, kept, done, last, dels);
    PlayedAppend(c, mid, last, apps);
    PlayJoin(kept + done, dels, apps);
    assert Entry(last in chain, Rule(c.table, c.name, last), append) == dels + apps;
    assert mid + [last] == DropFirst(kept, last) + (done + [last]);
  }

  lemma PlayedDelete(c: ChainId, kept: seq<Spec>, done: seq<Spec>, last: Spec, dels: seq<Command>)
    requires dels == if last in kept then [Delete(c, last)] else []
    ensures Play(kept + done, dels) == Some(DropFirst(kept, last) + done)
  {
    hide DropFirst, Play;
    if last in kept {
      DropFirstJoin(kept, done, last);
      PlayOne(kept + done, Delete(c, last));
    } else {
      DropFirstAbsent(kept, last);
      PlayNone(kept + done);
    }
  }

  lemma PlayedAppend(c: ChainId, chain: seq<Spec>, last: Spec, apps: seq<Command>)
    requires apps == [Append(c, last)] || apps == []
    ensures Play(chain, apps) == Some(if apps == [] then chain else chain + [last])
  {
    hide Play;
    PlayOne(chain, Append(c, last));
    PlayNone(chain);
  }

  lemma PlayNone(chain: seq<Spec>)
    ensures Play(chain, []) == Some(chain)
  {
  }

  lemma PlayOne(chain: seq<Spec>, cmd: Command)
    ensures Play(chain, [cmd]) == Step(chain, cmd)
  {
    assert [cmd][..0] == [];
    assert Play(chain, []) == Some(chain);
  }

  lemma {:induction false} WithoutCounts(chain: seq<Spec>, mine: seq<Spec>)
    ensures multiset(Without(chain, mine)) == multiset(chain) - multiset(mine)
  {
    if mine != [] {
      var front, last := mine[..|mine| - 1], mine[|mine| - 1];
      WithoutCounts(chain, front);
      DropFirstCounts(Without(chain, front), last);
      assert mine == front + [last];
      MinusMore(multiset(chain), multiset(front), last);
      hide DropFirst;
    }
  }

  lemma MinusMore(a: multiset<Spec>, b: multiset<Spec>, x: Spec)
    ensures a - b - multiset{x} == a - (b + multiset{x})
  {
  }

  lemma {:induction false} ForeignHas(chain: seq<Spec>, mine: seq<Spec>, spec: Spec)
    ensures spec in Foreign(chain, mine) <==> spec in chain && spec !in mine
  {
    if chain != [] {
      ForeignHas(chain[1..], mine, spec);
      assert chain == [chain[0]] + chain[1..];
    }
  }

  lemma {:induction false} ForeignJoin(a: seq<Spec>, b: seq<Spec>, mine: seq<Spec>)
    ensures Foreign(a + b, mine) == Foreign(a, mine) + Foreign(b, mine)
  {
    if a == [] {
      assert a + b == b;
    } else {
      assert (a + b)[1..] == a[1..] + b;
      ForeignJoin(a[1..], b, mine);
    }
  }

  lemma {:induction false} NoneForeign(chain: seq<Spec>, mine: seq<Spec>)
    requires forall x :: x in chain ==> x in mine
    ensures Foreign(chain, mine) == []
  {
    if chain != [] {
      assert chain == [chain[0]] + chain[1..];
      NoneForeign(chain[1..], mine);
    }
  }

  lemma {:induction false} AllForeign(chain: seq<Spec>, mine: seq<Spec>)
    requires forall x :: x in chain ==> x !in mine
    ensures Foreign(chain, mine) == chain
  {
    if chain != [] {
      assert chain == [chain[0]] + chain[1..];
      AllForeign(chain[1..], mine);
    }
  }

  lemma {:induction false} ForeignStep(chain: seq<Spec>, front: seq<Spec>, last: Spec)
    requires last !in front && NoneTwice(chain, [last])
    ensures DropFirst(Foreign(chain, front), last) == Foreign(chain, front + [last])
  {
    if chain != [] {
      var rest := chain[1..];
      assert NoneTwice(rest, [last]);
      ForeignStep(rest, front, last);
      assert chain[0] !in front ==> Foreign(chain, front)[1..] == Foreign(rest, front);
      assert chain[0] in front ==> Foreign(chain, front) == Foreign(rest, front);
      assert chain[0] in front + [last] ==> Foreign(chain, front + [last]) == Foreign(rest, front + [last]);
      if chain[0] == last {
        assert forall k :: 0 <= k < |rest| ==> rest[k] == chain[k + 1];
        SameForeign(rest, front, last);
      }
    }
  }

  lemma {:induction false} SameForeign(chain: seq<Spec>, front: seq<Spec>, last: Spec)
    requires last !in chain
    ensures Foreign(chain, front + [last]) == Foreign(chain, front)
  {
    if chain != [] {
      assert chain == [chain[0]] + chain[1..];
      SameForeign(chain[1..], front, last);
    }
  }

  lemma {:induction false} WithoutIsForeign(chain: seq<Spec>, mine: seq<Spec>)
    requires Distinct(mine) && NoneTwice(chain, mine)
    ensures Without(chain, mine) == Foreign(chain, mine)
  {
    if mine == [] {
      AllForeign(chain, []);
    } else {
      var front, last := mine[..|mine| - 1], mine[|mine| - 1];
      assert mine == front + [last];
      WithoutIsForeign(chain, front);
      ForeignStep(chain, front, last);
    }
  }

  lemma OnceCounted(mine: seq<Spec>, spec: Spec)
    requires Distinct(mine) && spec in mine
    ensures multiset(mine)[spec] == 1
  {
    var k :| 0 <= k < |mine| && mine[k] == spec;
    assert mine == mine[..k] + [spec] + mine[k + 1..];
    assert spec !in mine[..k] && spec !in mine[k + 1..];
  }

  lemma TwiceCounted(chain: seq<Spec>, i: nat, j: nat)
    requires i < j < |chain| && chain[i] == chain[j]
    ensures multiset(chain)[chain[i]] >= 2
  {
    assert chain == chain[..i] + [chain[i]] + chain[i + 1..j] + [chain[j]] + chain[j + 1..];
  }

  /** Deleting each rule once leaves just the rules of others exactly when no rule is there twice. */
  lemma WithoutIsForeignIff(chain: seq<Spec>, mine: seq<Spec>)
    requires Distinct(mine)
    ensures Without(chain, mine) == Foreign(chain, mine) <==> NoneTwice(chain, mine)
  {
    if NoneTwice(chain, mine) {
      WithoutIsForeign(chain, mine);
    } else {
      var i, j :| 0 <= i < j < |chain| && chain[i] == chain[j] && chain[i] in mine;
      TwiceCounted(chain, i, j);
      OnceCounted(mine, chain[i]);
      WithoutCounts(chain, mine);
      assert chain[i] in multiset(Without(chain, mine));
      ForeignHas(chain, mine, chain[i]);
    }
  }

  /** A rule that is there twice is not rid of by deleting it once. */
  lemma DuplicateStays(spec: Spec)
    ensures Without([spec, spec], [spec]) == [spec] && Foreign([spec, spec], [spec]) == []
  {
    assert Without([spec, spec], []) == [spec, spec] && [spec][..0] == [];
    assert [spec, spec][1..] == [spec];
    NoneForeign([spec, spec], [spec]);
  }

  /** A chain that has been set up stays as it is, and what is not flannel's in it is what was not before. */
  lemma SetUpAgain(chain: seq<Spec>, mine: seq<Spec>)
    requires Distinct(mine)
    ensures var after := Foreign(chain, mine) + mine;
      NoneTwice(after, mine) && Foreign(after, mine) == Foreign(chain, mine)
  {
    hide Foreign;
    var others := Foreign(chain, mine);
    var after := others + mine;
    forall x ensures x in others ==> x !in mine { ForeignHas(chain, mine, x); }
    ForeignJoin(others, mine, mine);
    AllForeign(others, mine);
    NoneForeign(mine, mine);
    assert forall k :: |others| <= k < |after| ==> after[k] == mine[k - |others|];
    forall i, j | 0 <= i < j < |after| && after[i] == after[j] ensures after[i] !in mine {
      if i < |others| { assert after[i] in others; }
    }
  }

  // Lemmas about all chains.

  predicate Known(chains: Chains, cmds: seq<Command>)
  {
    forall cmd :: cmd in cmds ==> cmd.chain in chains
  }

  /** The outcome of a run of commands, chain by chain. */
  ghost predicate Carried(chains: Chains, cmds: seq<Command>, r: Option<Chains>)
  {
    && (r.Some? <==> Known(chains, cmds) && forall c :: c in chains ==> Play(chains[c], OfChain(cmds, c)).Some?)
    && (r.Some? ==>
          && r.value.Keys == chains.Keys
          && forall c :: c in chains ==> Play(chains[c], OfChain(cmds, c)) == Some(r.value[c]))
  }

  /** Commands to different chains do not meet: each chain sees its own, in their order. */
  lemma {:induction false} ExecAllIsPlay(chains: Chains, cmds: seq<Command>)
    ensures Carried(chains, cmds, ExecAll(chains, cmds))
  {
    if cmds != [] {
      var front, last := cmds[..|cmds| - 1], cmds[|cmds| - 1];
      assert cmds == front + [last];
      ExecAllIsPlay(chains, front);
      CarriedMore(chains, front, ExecAll(chains, front), last);
      hide Carried, Exec;
    }
  }

  lemma CarriedMore(chains: Chains, cmds: seq<Command>, r: Option<Chains>, cmd: Command)
    requires Carried(chains, cmds, r)
    ensures Carried(chains, cmds + [cmd], if r.None? then None else Exec(r.value, cmd))
  {
    hide Play, Step, OfChain;
    assert Known(chains, cmds + [cmd]) <==> Known(chains, cmds) && cmd.chain in chains by {
      KnownMore(chains, cmds, cmd);
    }
    forall c | c in chains
      ensures Play(chains[c], OfChain(cmds + [cmd], c)) == Next(Play(chains[c], OfChain(cmds, c)), cmd, c)
    {
      OfChainMore(cmds, cmd, c);
      PlayMore(chains[c], OfChain(cmds, c), cmd);
    }
    hide Known;
  }

  lemma KnownMore(chains: Chains, cmds: seq<Command>, cmd: Command)
    ensures Known(chains, cmds + [cmd]) <==> Known(chains, cmds) && cmd.chain in chains
  {
    assert forall x :: x in cmds ==> x in cmds + [cmd];
    assert cmd in cmds + [cmd];
  }

  /** What a chain is after one more command, which may be for another chain. */
  function Next(before: Option<seq<Spec>>, cmd: Command, c: ChainId): Option<seq<Spec>>
  {
    if cmd.chain != c || before.None? then before else Step(before.value, cmd)
  }

  lemma PlayMore(chain: seq<Spec>, cmds: seq<Command>, cmd: Command)
    ensures Play(chain, cmds + [cmd]) == if Play(chain, cmds).None? then None else Step(Play(chain, cmds).value, cmd)
  {
    assert (cmds + [cmd])[..|cmds + [cmd]| - 1] == cmds;
  }

  lemma OfChainMore(cmds: seq<Command>, cmd: Command, c: ChainId)
    ensures OfChain(cmds + [cmd], c) == if cmd.chain == c then OfChain(cmds, c) + [cmd] else OfChain(cmds, c)
  {
    assert (cmds + [cmd])[..|cmds + [cmd]| - 1] == cmds;
  }

  lemma {:induction false} OfChainOfTable(cmds: seq<Command>, t: string, c: ChainId)
    ensures OfChain(OfTable(cmds, t), c) == if c.table == t then OfChain(cmds, c) else []
  {
    if cmds != [] {
      var front, last := cmds[..|cmds| - 1], cmds[|cmds| - 1];
      OfChainOfTable(front, t, c);
      assert cmds == front + [last];
      OfChainMore(front, last, c);
      OfChainMore(OfTable(front, t), last, c);
      assert OfTable(cmds, t) == if last.chain.table == t then OfTable(front, t) + [last] else OfTable(front, t);
    }
  }

  lemma {:induction false} OfChainJoin(a: seq<Command>, b: seq<Command>, c: ChainId)
    ensures OfChain(a + b, c) == OfChain(a, c) + OfChain(b, c)
  {
    if b == [] {
      assert a + b == a;
    } else {
      assert (a + b)[..|a + b| - 1] == a + b[..|b| - 1];
      OfChainJoin(a, b[..|b| - 1], c);
    }
  }

  function At(chains: Chains, c: ChainId): seq<Spec>
  {
    if c in chains then chains[c] else []
  }

  lemma OfChainEntry(present: bool, r: Rule, append: bool, c: ChainId)
    ensures OfChain(Entry(present, r, append), c) == if r.Id() == c then Entry(present, r, append) else []
  {
    var del, app := Delete(r.Id(), r.spec), Append(r.Id(), r.spec);
    assert [del][..0] == [] && [app][..0] == [] && [del, app][..1] == [del];
    assert OfChain([], c) == [];
  }

  lemma {:induction false} BuiltForChain(chains: Chains, rules: seq<Rule>, append: bool, c: ChainId)
    ensures OfChain(Built(chains, rules, append), c) == ChainCommands(c, At(chains, c), Mine(rules, c), append)
  {
    if rules != [] {
      var front, last := rules[..|rules| - 1], rules[|rules| - 1];
      BuiltForChain(chains, front, append, c);
      var entry := Entry(Has(chains, last), last, append);
      OfChainJoin(Built(chains, front, append), entry, c);
      OfChainEntry(Has(chains, last), last, append, c);
      assert last.Id() != c ==> Mine(rules, c) == Mine(front, c);
      if last.Id() == c {
        var mine := Mine(front, c) + [last.spec];
        assert mine[..|mine| - 1] == Mine(front, c) && Mine(rules, c) == mine;
        assert Rule(c.table, c.name, last.spec) == last;
      }
      hide OfChain, Entry, Mine;
    }
  }

  lemma {:induction false} MineHas(rules: seq<Rule>, c: ChainId, spec: Spec)
    ensures spec in Mine(rules, c) <==> Rule(c.table, c.name, spec) in rules
  {
    if rules != [] {
      assert rules == rules[..|rules| - 1] + [rules[|rules| - 1]];
      MineHas(rules[..|rules| - 1], c, spec);
    }
  }

  lemma {:induction false} MineDistinct(rules: seq<Rule>, c: ChainId)
    requires ProperList(rules)
    ensures Distinct(Mine(rules, c))
  {
    if rules != [] {
      var front, last := rules[..|rules| - 1], rules[|rules| - 1];
      assert ProperList(front);
      MineDistinct(front, c);
      if last.Id() == c {
        MineHas(front, c, last.spec);
        assert last !in front;
      }
    }
  }

  /** The commands a payload has for one chain. */
  function For(tables: Tables, c: ChainId): seq<Command>
  {
    if c.table in tables then OfChain(tables[c.table], c) else []
  }

  /** The commands under a table are commands to chains of that table. */
  predicate Sorted(tables: Tables)
  {
    forall t, cmd :: t in tables && cmd in tables[t] ==> cmd.chain.table == t
  }

  predicate Executable(chains: Chains, tables: Tables)
  {
    && (forall t :: t in tables ==> Known(chains, tables[t]))
    && (forall c :: c in chains ==> Play(chains[c], For(tables, c)).Some?)
  }

  /** Which tables have been committed. */
  predicate Committed(before: Chains, now: Chains, tables: Tables, done: set<string>)
  {
    && now.Keys == before.Keys
    && forall c :: c in before ==>
         if c.table in done then Play(before[c], For(tables, c)) == Some(now[c]) else now[c] == before[c]
  }

  lemma {:induction false} OtherTable(cmds: seq<Command>, t: string, c: ChainId)
    requires (forall cmd :: cmd in cmds ==> cmd.chain.table == t) && c.table != t
    ensures OfChain(cmds, c) == []
  {
    if cmds != [] {
      OtherTable(cmds[..|cmds| - 1], t, c);
    }
  }

  lemma TableCommitted(before: Chains, now: Chains, tables: Tables, done: set<string>, t: string)
    requires Sorted(tables) && Committed(before, now, tables, done) && t in tables && t !in done
    ensures ExecAll(now, tables[t]).Some? ==> Committed(before, ExecAll(now, tables[t]).value, tables, done + {t})
    ensures Executable(before, tables) ==> ExecAll(now, tables[t]).Some?
  {
    ExecAllIsPlay(now, tables[t]);
    forall c | c in before
      ensures c.table == t ==> now[c] == before[c] && OfChain(tables[t], c) == For(tables, c)
      ensures c.table != t ==> Play(now[c], OfChain(tables[t], c)) == Some(now[c])
    {
      if c.table != t { OtherTable(tables[t], t, c); }
    }
    hide ExecAll, Play, OfChain, For;
  }

  /** The iptables and iptables-restore commands; faulty says that some call has failed for reasons of its own. */
  class Iptables {
    var chains: Chains
    var faulty: bool

    method Fails() returns (failed: bool)
      modifies `faulty
      ensures faulty == (old(faulty) || failed)
    {
      failed := *;
      faulty := faulty || failed;
    }

    method ChainExists(c: ChainId) returns (r: Option<bool>)
      modifies `faulty
      ensures r.None? ==> faulty
      ensures r.Some? ==> faulty == old(faulty) && r.value == (c in chains)
    {
      var failed := Fails();
      r := if failed then None else Some(c in chains);
    }

    method ClearChain(c: ChainId) returns (ok: bool)
      modifies this
      ensures ok ==> faulty == old(faulty) && chains == old(chains)[c := []]
      ensures !ok ==> faulty && chains == old(chains)
    {
      var failed := Fails();
      if !failed { chains := chains[c := []]; }
      ok := !failed;
    }

    method Exists(rule: Rule) returns (r: Option<bool>)
      modifies `faulty
      ensures r.None? ==> faulty
      ensures r.Some? ==> faulty == old(faulty) && r.value == Has(chains, rule)
    {
      var failed := Fails();
      r := if failed then None else Some(Has(chains, rule));
    }

    /** Tables are emitted in any order; the result does not depend on it. */
    method ApplyWithoutFlush(tables: Tables) returns (ok: bool)
      requires Sorted(tables)
      modifies this
      ensures ok ==> Committed(old(chains), chains, tables, tables.Keys)
      ensures exists done :: done <= tables.Keys && Committed(old(chains), chains, tables, done)
      ensures !faulty && Executable(old(chains), tables) ==> ok
      ensures old(faulty) ==> faulty
    {
      hide Executable, Committed, ExecAll, Sorted;
      var todo := tables.Keys;
      ghost var done: set<string> := {};
      assert Committed(chains, chains, tables, {}) by { NothingCommitted(chains, tables); }
      while todo != {}
        invariant todo <= tables.Keys && done == tables.Keys - todo
        invariant Committed(old(chains), chains, tables, done)
        invariant old(faulty) ==> faulty
      {
        var t :| t in todo;
        TableCommitted(old(chains), chains, tables, done, t);
        var failed := Fails();
        if failed {
          return false;
        }
        match ExecAll(chains, tables[t]) {
          case None => return false;
          case Some(after) => chains := after;
        }
        todo := todo - {t};
        done := done + {t};
      }
      assert done == tables.Keys;
      return true;
    }

    /** The flannel chain a rule needs is created when it is missing. */
    method OpenChain(rule: Rule) returns (ok: bool)
      requires rule.spec != []
      modifies this
      ensures old(faulty) ==> faulty
      ensures ok ==> faulty == old(faulty) && chains == Opened(old(chains), [rule])
      ensures !ok ==> faulty && chains == old(chains)
    {
      ghost var before := chains;
      assert Opened(before, [rule][..0]) == before;
      var name;
      if Mentions(rule, FORWARD_CHAIN) {
        name := FORWARD_CHAIN;
      } else if Mentions(rule, POSTROUTING_CHAIN) {
        name := POSTROUTING_CHAIN;
      } else {
        return true;
      }
      var there := ChainExists(ChainId(rule.table, name));
      if there.None? {
        return false;
      }
      ok := true;
      if !there.value {
        ok := ClearChain(ChainId(rule.table, name));
      }
    }

    method CleanAndBuild(rules: seq<Rule>) returns (tables: Option<Tables>)
      requires forall r :: r in rules ==> r.spec != []
      modifies this
      ensures old(faulty) ==> faulty
      ensures tables.Some? ==>
        chains == Opened(old(chains), rules) && Grouped(tables.value, Built(old(chains), rules, true))
      ensures tables.None? ==> faulty && exists n :: 0 <= n <= |rules| && chains == Opened(old(chains), rules[..n])
    {
      hide Opened, Built, Grouped, Has;
      ghost var before := chains;
      var built: Tables := map[];
      assert chains == Opened(before, rules[..0]) && Grouped(built, Built(before, rules[..0], true)) by {
        NothingBuilt(before);
      }
      for n := 0 to |rules|
        invariant old(faulty) ==> faulty
        invariant chains == Opened(before, rules[..n])
        invariant Grouped(built, Built(before, rules[..n], true))
      {
        var rule := rules[n];
        BuiltMore(before, rules, n, true);
        var ok := OpenChain(rule);
        if !ok {
          assert 0 <= n <= |rules| && chains == Opened(before, rules[..n]);
          return None;
        }
        HasOpened(before, rules[..n + 1], rule);
        var there := Exists(rule);
        if there.None? {
          assert 0 <= n + 1 <= |rules| && chains == Opened(before, rules[..n + 1]);
          return None;
        }
        ghost var cmds := Built(before, rules[..n], true);
        if there.value {
          GroupedAdded(built, cmds, Delete(rule.Id(), rule.spec));
          built, cmds := Added(built, Delete(rule.Id(), rule.spec)), cmds + [Delete(rule.Id(), rule.spec)];
        }
        GroupedAdded(built, cmds, Append(rule.Id(), rule.spec));
        built, cmds := Added(built, Append(rule.Id(), rule.spec)), cmds + [Append(rule.Id(), rule.spec)];
        assert cmds == Built(before, rules[..n], true) + Entry(there.value, rule, true);
      }
      assert rules[..|rules|] == rules;
      return Some(built);
    }

    /**
      After a run without errors every chain holds what it held, less the first occurrence of each rule of
      the list, followed by the rules of the list in order.  A run that fails leaves every chain either like
      that or as it was.
     */
    method Bootstrap(rules: seq<Rule>) returns (ok: bool)
      requires forall r :: r in rules ==> r.spec != []
      modifies this
      ensures ok && ProperList(rules) ==> chains == Bootstrapped(old(chains), rules)
      ensures ProperList(rules) ==> forall c :: c in chains ==>
        chains[c] == At(old(chains), c)
          || (c in Bootstrapped(old(chains), rules) && chains[c] == Bootstrapped(old(chains), rules)[c])
      ensures ProperList(rules) && !faulty && (forall r :: r in rules ==> r.Id() in Opened(old(chains), rules)) ==> ok
    {
      hide Opened, Built, Grouped, Bootstrapped, Committed, Executable, ProperList, Sorted;
      ghost var before := chains;
      var tables := CleanAndBuild(rules);
      if tables.None? {
        forall c | c in chains ensures chains[c] == At(before, c) {
          var n :| 0 <= n <= |rules| && chains == Opened(before, rules[..n]);
          OpenedAt(before, rules[..n], c);
        }
        return false;
      }
      ghost var ready := chains;
      forall c { OpenedAt(before, rules, c); }
      SortedWhenGrouped(tables.value, Built(before, rules, true));
      ok := ApplyWithoutFlush(tables.value);
      if ProperList(rules) {
        PayloadBootstraps(before, rules, tables.value, ready, chains);
        if forall r :: r in rules ==> r.Id() in ready {
          PayloadExecutable(before, rules, true, tables.value, ready);
        }
      }
    }

    /**
      Teardown takes the first occurrence of each rule of the list out of its chain and changes nothing else;
      rules whose flannel chain is missing are passed over.
     */
    method Teardown(rules: seq<Rule>) returns (ok: bool)
      requires forall r :: r in rules ==> r.spec != []
      modifies this
      ensures ok && ProperList(rules) ==> chains == TornDown(old(chains), Reachable(old(chains), rules))
      ensures ProperList(rules) ==> chains.Keys == old(chains).Keys && forall c :: c in chains ==>
        chains[c] == old(chains)[c] || chains[c] == TornDown(old(chains), Reachable(old(chains), rules))[c]
      ensures ProperList(rules) && !faulty ==> ok
    {
      hide Built, Grouped, TornDown, Committed, Executable, ProperList, Sorted, Has, Reachable;
      ghost var before := chains;
      var built: Tables := map[];
      ghost var kept: seq<Rule> := [];
      assert Grouped(built, Built(before, kept, false)) && kept == Reachable(before, rules[..0]) by {
        NothingBuilt(before);
        NoneReachable(before);
      }
      for n := 0 to |rules|
        invariant old(faulty) ==> faulty
        invariant chains == before && kept == Reachable(before, rules[..n])
        invariant Grouped(built, Built(before, kept, false))
      {
        var rule := rules[n];
        ReachableMore(before, rules, n);
        var skip, failed := Skipped(rule);
        if failed {
          return false;
        }
        if !skip {
          var there := Exists(rule);
          if there.None? {
            return false;
          }
          BuiltOne(before, kept, rule);
          if there.value {
            var cmd := Delete(rule.Id(), rule.spec);
            GroupedAdded(built, Built(before, kept, false), cmd);
            built := Added(built, cmd);
          }
          kept := kept + [rule];
        }
      }
      assert rules[..|rules|] == rules;
      SortedWhenGrouped(built, Built(before, kept, false));
      ok := ApplyWithoutFlush(built);
      if ProperList(rules) {
        ReachableProper(before, rules);
        PayloadTearsDown(before, kept, built, chains);
        PayloadExecutable(before, kept, false, built, before);
      }
    }

    /** A rule whose flannel chain is missing is passed over. */
    method Skipped(rule: Rule) returns (skip: bool, failed: bool)
      requires rule.spec != []
      modifies `faulty
      ensures old(faulty) ==> faulty
      ensures failed ==> faulty
      ensures !failed ==> faulty == old(faulty) && skip == (Needs(rule).Some? && Needs(rule).value !in chains)
    {
      var name;
      if Mentions(rule, FORWARD_CHAIN) {
        name := FORWARD_CHAIN;
      } else if Mentions(rule, POSTROUTING_CHAIN) {
        name := POSTROUTING_CHAIN;
      } else {
        return false, false;
      }
      var there := ChainExists(ChainId(rule.table, name));
      if there.None? {
        return false, true;
      }
      return !there.value, false;
    }
  }

  function Bootstrapped(chains: Chains, rules: seq<Rule>): Chains
  {
    var ready := Opened(chains, rules);
    map c | c in ready :: Without(ready[c], Mine(rules, c)) + Mine(rules, c)
  }

  function TornDown(chains: Chains, rules: seq<Rule>): Chains
  {
    map c | c in chains :: Without(chains[c], Mine(rules, c))
  }

  /** No rule in a chain jumps to a flannel chain that does not exist; the kernel refuses such rules. */
  predicate JumpsResolve(chains: Chains, rules: seq<Rule>)
  {
    forall r :: r in rules && Has(chains, r) && Needs(r).Some? ==> Needs(r).value in chains
  }

  /** The rules of a list whose flannel chain exists. */
  function Reachable(chains: Chains, rules: seq<Rule>): seq<Rule>
  {
    if rules == [] then []
    else
      var last := rules[|rules| - 1];
      Reachable(chains, rules[..|rules| - 1]) + if Needs(last).Some? && Needs(last).value !in chains then [] else [last]
  }

  lemma NoneReachable(chains: Chains)
    ensures Reachable(chains, []) == []
  {
  }

  lemma ReachableMore(chains: Chains, rules: seq<Rule>, n: nat)
    requires n < |rules|
    ensures Reachable(chains, rules[..n + 1]) ==
      if Needs(rules[n]).Some? && Needs(rules[n]).value !in chains then Reachable(chains, rules[..n])
      else Reachable(chains, rules[..n]) + [rules[n]]
  {
    assert rules[..n + 1][..n] == rules[..n];
  }

  lemma BuiltOne(chains: Chains, rules: seq<Rule>, r: Rule)
    ensures Built(chains, rules + [r], false)
      == if Has(chains, r) then Built(chains, rules, false) + [Delete(r.Id(), r.spec)] else Built(chains, rules, false)
  {
    assert (rules + [r])[..|rules + [r]| - 1] == rules;
  }

  lemma {:induction false} ReachableHas(chains: Chains, rules: seq<Rule>, r: Rule)
    ensures r in Reachable(chains, rules) ==> r in rules
  {
    if rules != [] {
      assert rules == rules[..|rules| - 1] + [rules[|rules| - 1]];
      ReachableHas(chains, rules[..|rules| - 1], r);
    }
  }

  lemma {:induction false} ReachableProper(chains: Chains, rules: seq<Rule>)
    requires ProperList(rules)
    ensures ProperList(Reachable(chains, rules))
  {
    if rules != [] {
      var front, last := rules[..|rules| - 1], rules[|rules| - 1];
      assert ProperList(front) && last !in front && last in rules;
      ReachableProper(chains, front);
      ReachableHas(chains, front, last);
    }
  }

  lemma WithoutMore(chain: seq<Spec>, mine: seq<Spec>, spec: Spec)
    ensures Without(chain, mine + [spec]) == DropFirst(Without(chain, mine), spec)
    ensures spec !in chain ==> Without(chain, mine + [spec]) == Without(chain, mine)
  {
    assert (mine + [spec])[..|mine + [spec]| - 1] == mine;
    if spec !in chain {
      WithoutCounts(chain, mine);
      assert spec !in multiset(Without(chain, mine));
      DropFirstAbsent(Without(chain, mine), spec);
    }
  }

  /** Where no rule jumps to a missing chain, nothing that is passed over is there. */
  lemma {:induction false} ReachableSuffices(chains: Chains, rules: seq<Rule>, c: ChainId)
    requires JumpsResolve(chains, rules) && c in chains
    ensures Without(chains[c], Mine(Reachable(chains, rules), c)) == Without(chains[c], Mine(rules, c))
  {
    hide Without, Mine, Needs, DropFirst;
    if rules != [] {
      var front, last := rules[..|rules| - 1], rules[|rules| - 1];
      assert rules == front + [last] && last in rules;
      assert JumpsResolve(chains, front);
      ReachableSuffices(chains, front, c);
      MineMore(front, last, c);
      if last.Id() == c { WithoutMore(chains[c], Mine(front, c), last.spec); }
      if Needs(last).Some? && Needs(last).value !in chains {
        assert Reachable(chains, rules) == Reachable(chains, front);
      } else {
        assert Reachable(chains, rules) == Reachable(chains, front) + [last];
        MineMore(Reachable(chains, front), last, c);
        if last.Id() == c { WithoutMore(chains[c], Mine(Reachable(chains, front), c), last.spec); }
      }
      hide Reachable;
    }
  }

  lemma MineMore(rules: seq<Rule>, r: Rule, c: ChainId)
    ensures Mine(rules + [r], c) == if r.Id() == c then Mine(rules, c) + [r.spec] else Mine(rules, c)
  {
    assert (rules + [r])[..|rules + [r]| - 1] == rules;
  }

  /** Then teardown takes out every rule of the list. */
  lemma TeardownReachesAll(chains: Chains, rules: seq<Rule>)
    requires JumpsResolve(chains, rules)
    ensures TornDown(chains, Reachable(chains, rules)) == TornDown(chains, rules)
  {
    hide Without, Mine, Reachable, JumpsResolve;
    forall c | c in chains
      ensures Without(chains[c], Mine(Reachable(chains, rules), c)) == Without(chains[c], Mine(rules, c))
    {
      ReachableSuffices(chains, rules, c);
    }
  }

  lemma NothingCommitted(chains: Chains, tables: Tables)
    ensures Committed(chains, chains, tables, {})
  {
  }

  lemma NothingBuilt(chains: Chains)
    ensures Opened(chains, []) == chains
    ensures forall append :: Grouped(map[], Built(chains, [], append))
  {
  }

  lemma BuiltMore(chains: Chains, rules: seq<Rule>, n: nat, append: bool)
    requires n < |rules|
    ensures Opened(chains, rules[..n + 1]) == Opened(Opened(chains, rules[..n]), [rules[n]])
    ensures Built(chains, rules[..n + 1], append)
      == Built(chains, rules[..n], append) + Entry(Has(chains, rules[n]), rules[n], append)
  {
    assert rules[..n + 1][..n] == rules[..n];
    assert [rules[n]][..0] == [];
    assert Opened(Opened(chains, rules[..n]), []) == Opened(chains, rules[..n]);
  }

  lemma {:induction false} OpenedAt(chains: Chains, rules: seq<Rule>, c: ChainId)
    ensures c in chains ==> c in Opened(chains, rules)
    ensures At(Opened(chains, rules), c) == At(chains, c)
  {
    if rules != [] { OpenedAt(chains, rules[..|rules| - 1], c); }
  }

  lemma HasOpened(chains: Chains, rules: seq<Rule>, r: Rule)
    ensures Has(Opened(chains, rules), r) == Has(chains, r)
  {
    OpenedAt(chains, rules, r.Id());
  }

  lemma {:induction false} OfTableNone(cmds: seq<Command>, t: string)
    requires forall cmd :: cmd in cmds ==> cmd.chain.table != t
    ensures OfTable(cmds, t) == []
  {
    if cmds != [] { OfTableNone(cmds[..|cmds| - 1], t); }
  }

  lemma {:induction false} OfTableHas(cmds: seq<Command>, t: string, cmd: Command)
    ensures cmd in OfTable(cmds, t) <==> cmd in cmds && cmd.chain.table == t
  {
    if cmds != [] {
      assert cmds == cmds[..|cmds| - 1] + [cmds[|cmds| - 1]];
      OfTableHas(cmds[..|cmds| - 1], t, cmd);
    }
  }

  lemma GroupedAdded(tables: Tables, cmds: seq<Command>, cmd: Command)
    requires Grouped(tables, cmds)
    ensures Grouped(Added(tables, cmd), cmds + [cmd])
  {
    var t, more := cmd.chain.table, cmds + [cmd];
    assert more[..|more| - 1] == cmds;
    if t !in tables { OfTableNone(cmds, t); }
  }

  lemma SortedWhenGrouped(tables: Tables, cmds: seq<Command>)
    requires Grouped(tables, cmds)
    ensures Sorted(tables)
  {
    forall t, cmd | t in tables && cmd in tables[t] ensures cmd.chain.table == t { OfTableHas(cmds, t, cmd); }
  }

  /** What the payload has for a chain is what was built for it. */
  lemma ForChain(chains: Chains, rules: seq<Rule>, append: bool, tables: Tables, c: ChainId)
    requires Grouped(tables, Built(chains, rules, append))
    ensures For(tables, c) == ChainCommands(c, At(chains, c), Mine(rules, c), append)
  {
    var cmds := Built(chains, rules, append);
    BuiltForChain(chains, rules, append, c);
    OfChainOfTable(cmds, c.table, c);
    if c.table !in tables {
      OfTableNone(cmds, c.table);
      assert OfChain([], c) == [];
    }
    hide Built, ChainCommands, Mine, OfTable;
  }

  lemma PlayedPayload(chains: Chains, rules: seq<Rule>, append: bool, tables: Tables, c: ChainId)
    requires ProperList(rules) && Grouped(tables, Built(chains, rules, append))
    ensures Play(At(chains, c), For(tables, c))
      == Some(Without(At(chains, c), Mine(rules, c)) + if append then Mine(rules, c) else [])
  {
    hide *;
    ForChain(chains, rules, append, tables, c);
    MineDistinct(rules, c);
    PlayedChain(c, At(chains, c), Mine(rules, c), append);
  }

  lemma PayloadBootstraps(chains: Chains, rules: seq<Rule>, tables: Tables, ready: Chains, now: Chains)
    requires ProperList(rules) && Grouped(tables, Built(chains, rules, true)) && ready == Opened(chains, rules)
    ensures Committed(ready, now, tables, tables.Keys) ==> now == Bootstrapped(chains, rules)
    ensures (exists done :: done <= tables.Keys && Committed(ready, now, tables, done)) ==> forall c :: c in now ==>
      now[c] == At(chains, c) || (c in Bootstrapped(chains, rules) && now[c] == Bootstrapped(chains, rules)[c])
  {
    hide Play, Grouped, Built, Without, Mine, Opened, ProperList, For;
    forall c | c in ready
      ensures ready[c] == At(chains, c)
      ensures Play(ready[c], For(tables, c)) == Some(Bootstrapped(chains, rules)[c])
      ensures c.table !in tables ==> ready[c] == Bootstrapped(chains, rules)[c]
    {
      OpenedAt(chains, rules, c);
      PlayedPayload(chains, rules, true, tables, c);
      if c.table !in tables { NoCommands(ready[c], tables, c); }
    }
  }

  lemma NoCommands(chain: seq<Spec>, tables: Tables, c: ChainId)
    requires c.table !in tables
    ensures Play(chain, For(tables, c)) == Some(chain)
  {
  }

  lemma PayloadTearsDown(chains: Chains, rules: seq<Rule>, tables: Tables, now: Chains)
    requires ProperList(rules) && Grouped(tables, Built(chains, rules, false))
    ensures Committed(chains, now, tables, tables.Keys) ==> now == TornDown(chains, rules)
    ensures (exists done :: done <= tables.Keys && Committed(chains, now, tables, done)) ==>
      now.Keys == chains.Keys && forall c :: c in now ==> now[c] == chains[c] || now[c] == TornDown(chains, rules)[c]
  {
    hide Play, Grouped, Built, Without, Mine, ProperList, For;
    forall c | c in chains
      ensures Play(chains[c], For(tables, c)) == Some(TornDown(chains, rules)[c])
      ensures c.table !in tables ==> chains[c] == TornDown(chains, rules)[c]
    {
      PlayedPayload(chains, rules, false, tables, c);
      assert Without(chains[c], Mine(rules, c)) + [] == Without(chains[c], Mine(rules, c));
      if c.table !in tables { NoCommands(chains[c], tables, c); }
    }
  }

  lemma {:induction false} BuiltKnown(chains: Chains, rules: seq<Rule>, append: bool, cmd: Command)
    requires cmd in Built(chains, rules, append)
    ensures exists r :: r in rules && r.Id() == cmd.chain && (append || Has(chains, r))
  {
    var last := rules[|rules| - 1];
    if cmd in Entry(Has(chains, last), last, append) {
      assert last in rules;
    } else {
      BuiltKnown(chains, rules[..|rules| - 1], append, cmd);
      var r :| r in rules[..|rules| - 1] && r.Id() == cmd.chain && (append || Has(chains, r));
      assert r in rules;
    }
  }

  lemma PayloadExecutable(chains: Chains, rules: seq<Rule>, append: bool, tables: Tables, ready: Chains)
    requires ProperList(rules) && Grouped(tables, Built(chains, rules, append))
    requires forall c :: c in ready ==> ready[c] == At(chains, c)
    requires chains.Keys <= ready.Keys
    requires append ==> forall r :: r in rules ==> r.Id() in ready
    ensures Executable(ready, tables)
  {
    hide Play, Built, Without, Mine, ProperList, For;
    forall t, cmd | t in tables && cmd in tables[t] ensures cmd.chain in ready {
      OfTableHas(Built(chains, rules, append), t, cmd);
      BuiltKnown(chains, rules, append, cmd);
      var r :| r in rules && r.Id() == cmd.chain && (append || Has(chains, r));
      assert append || r.Id() in chains.Keys;
    }
    forall c | c in ready ensures Play(ready[c], For(tables, c)).Some? {
      PlayedPayload(chains, rules, append, tables, c);
    }
  }

  /** One more line for a table. */
  function Added(tables: Tables, cmd: Command): Tables
  {
    var t := cmd.chain.table;
    tables[t := (if t in tables then tables[t] else []) + [cmd]]
  }

  // What the runs come to.

  predicate NoDuplicates(chains: Chains, rules: seq<Rule>)
  {
    forall c :: c in chains ==> NoneTwice(chains[c], Mine(rules, c))
  }

  /** The chains as they should be: the rules of others in their old order, then flannel's in list order. */
  function InOrder(chains: Chains, rules: seq<Rule>): Chains
  {
    var ready := Opened(chains, rules);
    map c | c in ready :: Foreign(ready[c], Mine(rules, c)) + Mine(rules, c)
  }

  /** A bootstrap puts the chains in order exactly when none of them held a flannel rule twice. */
  lemma BootstrapOrdersIff(chains: Chains, rules: seq<Rule>)
    requires ProperList(rules)
    ensures Bootstrapped(chains, rules) == InOrder(chains, rules) <==> NoDuplicates(chains, rules)
  {
    var ready := Opened(chains, rules);
    hide Opened, Without, Foreign, Mine, ProperList, NoneTwice;
    forall c | c in ready
      ensures Bootstrapped(chains, rules)[c] == InOrder(chains, rules)[c] <==> NoneTwice(ready[c], Mine(rules, c))
      ensures if c in chains then ready[c] == chains[c] else NoneTwice(ready[c], Mine(rules, c))
    {
      OpenedAt(chains, rules, c);
      MineDistinct(rules, c);
      WithoutIsForeignIff(ready[c], Mine(rules, c));
      SameTail(Without(ready[c], Mine(rules, c)), Foreign(ready[c], Mine(rules, c)), Mine(rules, c));
      EmptyNoneTwice(Mine(rules, c));
    }
    forall c | c in chains ensures c in ready { OpenedAt(chains, rules, c); }
  }

  lemma EmptyNoneTwice(mine: seq<Spec>)
    ensures NoneTwice([], mine)
  {
  }

  lemma SameTail(a: seq<Spec>, b: seq<Spec>, tail: seq<Spec>)
    ensures a + tail == b + tail <==> a == b
  {
    if a + tail == b + tail {
      assert a == (a + tail)[..|a|] && b == (b + tail)[..|b|];
    }
  }

  lemma {:induction false} OpenedTwice(chains: Chains, rules: seq<Rule>, all: Chains)
    requires forall c :: c in Opened(chains, rules) ==> c in all
    ensures Opened(all, rules) == all
  {
    if rules != [] {
      var front := rules[..|rules| - 1];
      assert forall c :: c in Opened(chains, front) ==> c in Opened(chains, rules);
      OpenedTwice(chains, front, all);
    }
  }

  /** Running the bootstrap on chains in order changes nothing. */
  lemma BootstrapTwice(chains: Chains, rules: seq<Rule>)
    requires ProperList(rules)
    ensures var done := InOrder(chains, rules); NoDuplicates(done, rules) && Bootstrapped(done, rules) == done
  {
    var ready, done := Opened(chains, rules), InOrder(chains, rules);
    OpenedTwice(chains, rules, done);
    hide Opened, Without, Foreign, Mine, ProperList, NoneTwice;
    forall c | c in done
      ensures NoneTwice(done[c], Mine(rules, c)) && Without(done[c], Mine(rules, c)) + Mine(rules, c) == done[c]
    {
      MineDistinct(rules, c);
      SetUpAgain(ready[c], Mine(rules, c));
      WithoutIsForeignIff(done[c], Mine(rules, c));
    }
  }

  /** Teardown after a bootstrap leaves just the rules of others; the flannel chains stay. */
  lemma TeardownUndoesBootstrap(chains: Chains, rules: seq<Rule>)
    requires ProperList(rules)
    ensures var done := InOrder(chains, rules);
      && JumpsResolve(done, rules)
      && TornDown(done, rules) == map c | c in Opened(chains, rules) ::
        Foreign(Opened(chains, rules)[c], Mine(rules, c))
  {
    var ready, done := Opened(chains, rules), InOrder(chains, rules);
    forall r | r in rules && Needs(r).Some? ensures Needs(r).value in done { OpenedNeeds(chains, rules, r); }
    hide Opened, Without, Foreign, Mine, ProperList, NoneTwice, Needs;
    forall c | c in done ensures Without(done[c], Mine(rules, c)) == Foreign(ready[c], Mine(rules, c)) {
      MineDistinct(rules, c);
      SetUpAgain(ready[c], Mine(rules, c));
      WithoutIsForeignIff(done[c], Mine(rules, c));
    }
  }

  lemma {:induction false} OpenedNeeds(chains: Chains, rules: seq<Rule>, r: Rule)
    requires r in rules && Needs(r).Some?
    ensures Needs(r).value in Opened(chains, rules)
  {
    var front, last := rules[..|rules| - 1], rules[|rules| - 1];
    if r != last { OpenedNeeds(chains, front, r); }
  }

  // The lists of the source.

  function Masq(more: Spec, target: Spec): Rule
  {
    Rule("nat", POSTROUTING_CHAIN, more + ["-m", "comment", "--comment", "flanneld masq", "-j"] + target)
  }

  function MasqRules(cluster: string, pod: string, random: bool): seq<Rule>
  {
    var masquerade := ["MASQUERADE"] + if random then ["--random-fully"] else [];
    [ Rule("nat", "POSTROUTING", ["-m", "comment", "--comment", "flanneld masq", "-j", POSTROUTING_CHAIN]),
      Masq(["-m", "mark", "--mark", "0x4000/0x4000"], ["RETURN"]),
      Masq(["-s", pod, "-d", cluster], ["RETURN"]),
      Masq(["-s", cluster, "-d", pod], ["RETURN"]),
      Masq(["!", "-s", cluster, "-d", pod], ["RETURN"]),
      Masq(["-s", cluster, "!", "-d", "224.0.0.0/4"], masquerade),
      Masq(["!", "-s", cluster, "-d", cluster], masquerade) ]
  }

  function ForwardRules(network: string): seq<Rule>
  {
    [ Rule("filter", "FORWARD", ["-m", "comment", "--comment", "flanneld forward", "-j", FORWARD_CHAIN]),
      Rule("filter", FORWARD_CHAIN, ["-s", network, "-m", "comment", "--comment", "flanneld forward", "-j", "ACCEPT"]),
      Rule("filter", FORWARD_CHAIN, ["-d", network, "-m", "comment", "--comment", "flanneld forward", "-j", "ACCEPT"]) ]
  }

  lemma ForwardRulesAreProper(network: string)
    ensures ProperList(ForwardRules(network))
  {
    var rules := ForwardRules(network);
    assert rules[0].chain != rules[1].chain;
    assert rules[1].spec[0] == "-s" && rules[2].spec[0] == "-d" && "-s"[1] != "-d"[1];
  }

  /** The masquerading rules are all different unless the node's subnet is the whole network. */
  lemma MasqRulesAreProperIff(cluster: string, pod: string, random: bool)
    ensures ProperList(MasqRules(cluster, pod, random)) <==> cluster != pod
  {
    var rules := MasqRules(cluster, pod, random);
    assert |"-m"| == 2 && |"!"| == 1;
    assert rules[1].spec[0] == "-m" && rules[2].spec[0] == "-s" && rules[3].spec[0] == "-s" && rules[4].spec[0] == "!"
      && rules[5].spec[0] == "-s" && rules[6].spec[0] == "!";
    assert "-m"[1] != "-s"[1];
    assert |rules[0].chain| != |rules[1].chain|;
    assert rules[2].spec[1] == pod && rules[3].spec[1] == cluster && rules[2].spec[3] == cluster
      && rules[3].spec[3] == pod;
    assert rules[2].spec[2] == "-d" == rules[3].spec[2] && rules[5].spec[2] == "!";
    assert rules[4].spec[4] == pod && rules[6].spec[4] == cluster;
    assert cluster == pod ==> rules[2] == rules[3];
  }

  /** The rules of a list for one chain keep the order of the list. */
  lemma {:induction false} MineInListOrder(rules: seq<Rule>, c: ChainId, i: nat, j: nat)
    requires i < j < |rules| && rules[i].Id() == rules[j].Id() == c
    ensures var mine := Mine(rules, c);
      exists p, q :: 0 <= p < q < |mine| && mine[p] == rules[i].spec && mine[q] == rules[j].spec
  {
    var front, last := rules[..|rules| - 1], rules[|rules| - 1];
    assert front + [last] == rules;
    MineMore(front, last, c);
    if j == |rules| - 1 {
      MineHas(front, c, rules[i].spec);
      assert rules[i] == front[i] && rules[i] == Rule(c.table, c.name, rules[i].spec);
      var p :| 0 <= p < |Mine(front, c)| && Mine(front, c)[p] == rules[i].spec;
      assert Mine(rules, c)[p] == rules[i].spec && Mine(rules, c)[|Mine(front, c)|] == rules[j].spec;
    } else {
      MineInListOrder(front, c, i, j);
      var mine := Mine(front, c);
      var p, q :| 0 <= p < q < |mine| && mine[p] == rules[i].spec && mine[q] == rules[j].spec;
      assert Mine(rules, c)[p] == rules[i].spec && Mine(rules, c)[q] == rules[j].spec;
    }
  }

  /** Where the built-in chains exist, a bootstrap finds every chain of flannel's lists or creates it. */
  lemma ChainsAreThere(chains: Chains, cluster: string, pod: string, random: bool)
    ensures ChainId("nat", "POSTROUTING") in chains ==>
      forall r :: r in MasqRules(cluster, pod, random) ==> r.Id() in Opened(chains, MasqRules(cluster, pod, random))
    ensures ChainId("filter", "FORWARD") in chains ==>
      forall r :: r in ForwardRules(cluster) ==> r.Id() in Opened(chains, ForwardRules(cluster))
  {
    hide Opened, Mine;
    if ChainId("nat", "POSTROUTING") in chains {
      forall r | r in MasqRules(cluster, pod, random)
        ensures r.Id() in Opened(chains, MasqRules(cluster, pod, random))
      {
        ChainIsThere(chains, MasqRules(cluster, pod, random), r, "nat", "POSTROUTING", POSTROUTING_CHAIN);
      }
    }
    if ChainId("filter", "FORWARD") in chains {
      forall r | r in ForwardRules(cluster) ensures r.Id() in Opened(chains, ForwardRules(cluster)) {
        ChainIsThere(chains, ForwardRules(cluster), r, "filter", "FORWARD", FORWARD_CHAIN);
      }
    }
  }

  lemma ChainIsThere(chains: Chains, rules: seq<Rule>, r: Rule, table: string, builtIn: string, own: string)
    requires r in rules && r.spec != [] && r.table == table && ChainId(table, builtIn) in chains
    requires r.chain == builtIn || r.chain == own
    requires own == FORWARD_CHAIN || (own == POSTROUTING_CHAIN && LastWord(r.spec) != FORWARD_CHAIN)
    ensures r.Id() in Opened(chains, rules)
  {
    hide Opened;
    OpenedAt(chains, rules, r.Id());
    if r.chain == own {
      assert |FORWARD_CHAIN| != |POSTROUTING_CHAIN|;
      OpenedNeeds(chains, rules, r);
    }
  }
}
