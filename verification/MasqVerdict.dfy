/**
  What flannel's iptables rules do to packets (masqRules and forwardRules in
  pkg/trafficmngr/iptables/iptables.go): a reader for the words of a rule, the verdict of a chain, and the
  verdicts of the two chains of flannel.  What a network's text stands for is left to the caller.
 */
module MasqVerdict {
  import opened Ip4
  import opened IptablesBootstrap

  datatype Packet = Packet(src: Addr, dst: Addr, marks: set<string>)

  type Nets = (string, Addr) -> bool

  /**
    The target of a rule for a packet, if it matches: sources and destinations, possibly negated, and marks
    have to agree, modules and comments do not count.
   */
  function Target(words: Spec, negated: bool, pkt: Packet, nets: Nets): Option<string>
    decreases |words|
  {
    if |words| < 2 then None
    else
      var w, rest := words[0], words[2..];
      if w == "!" then Target(words[1..], !negated, pkt, nets)
      else if w == "-s" then if nets(words[1], pkt.src) != negated then Target(rest, false, pkt, nets) else None
      else if w == "-d" then if nets(words[1], pkt.dst) != negated then Target(rest, false, pkt, nets) else None
      else if w == "--mark" then if (words[1] in pkt.marks) != negated then Target(rest, false, pkt, nets) else None
      else if w == "-m" || w == "--comment" then Target(rest, false, pkt, nets)
      else if w == "-j" then Some(words[1])
      else None
  }

  /** The target of the first rule that matches. */
  function Verdict(chain: seq<Spec>, pkt: Packet, nets: Nets): Option<string>
  {
    if chain == [] then None
    else
      var t := Target(chain[0], false, pkt, nets);
      if t.Some? then t else Verdict(chain[1..], pkt, nets)
  }

  // Reading one match at a time.

  lemma Not(rest: Spec, negated: bool, pkt: Packet, nets: Nets)
    requires rest != []
    ensures Target(["!"] + rest, negated, pkt, nets) == Target(rest, !negated, pkt, nets)
  {
    assert (["!"] + rest)[1..] == rest;
  }

  lemma From(net: string, rest: Spec, negated: bool, pkt: Packet, nets: Nets)
    ensures Target(["-s", net] + rest, negated, pkt, nets)
      == if nets(net, pkt.src) != negated then Target(rest, false, pkt, nets) else None
  {
    assert (["-s", net] + rest)[2..] == rest;
  }

  lemma Going(net: string, rest: Spec, negated: bool, pkt: Packet, nets: Nets)
    ensures Target(["-d", net] + rest, negated, pkt, nets)
      == if nets(net, pkt.dst) != negated then Target(rest, false, pkt, nets) else None
  {
    assert (["-d", net] + rest)[2..] == rest;
    assert "-d"[1] != "-s"[1];
  }

  lemma Marked(mark: string, rest: Spec, pkt: Packet, nets: Nets)
    ensures Target(["--mark", mark] + rest, false, pkt, nets)
      == if mark in pkt.marks then Target(rest, false, pkt, nets) else None
  {
    assert (["--mark", mark] + rest)[2..] == rest;
    assert |"--mark"| == 6;
  }

  lemma Module(name: string, rest: Spec, pkt: Packet, nets: Nets)
    ensures Target(["-m", name] + rest, false, pkt, nets) == Target(rest, false, pkt, nets)
  {
    assert (["-m", name] + rest)[2..] == rest;
    assert "-m"[1] != "-s"[1] && "-m"[1] != "-d"[1] && |"-m"| == 2 && |"--mark"| == 6;
  }

  lemma Comment(text: string, rest: Spec, pkt: Packet, nets: Nets)
    ensures Target(["--comment", text] + rest, false, pkt, nets) == Target(rest, false, pkt, nets)
  {
    assert (["--comment", text] + rest)[2..] == rest;
    assert |"--comment"| == 9 && |"--mark"| == 6;
  }

  lemma Jump(target: Spec, pkt: Packet, nets: Nets)
    requires target != []
    ensures Target(["-j"] + target, false, pkt, nets) == Some(target[0])
  {
    assert "-j"[1] != "-s"[1] && "-j"[1] != "-d"[1] && "-j"[1] != "-m"[1];
    assert |"-j"| == 2 && |"--comment"| == 9 && |"--mark"| == 6;
  }

  /** The end that all of flannel's rules have. */
  function Ending(comment: string, target: Spec): Spec
  {
    ["-m", "comment", "--comment", comment, "-j"] + target
  }

  lemma EndingJumps(comment: string, target: Spec, pkt: Packet, nets: Nets)
    requires target != []
    ensures Target(Ending(comment, target), false, pkt, nets) == Some(target[0])
  {
    hide Target;
    var jump := ["-j"] + target;
    Jump(target, pkt, nets);
    Comment(comment, jump, pkt, nets);
    Module("comment", ["--comment", comment] + jump, pkt, nets);
    assert Ending(comment, target) == ["-m", "comment"] + (["--comment", comment] + jump);
  }

  /** A rule on source and destination. */
  lemma Between(src: string, notSrc: bool, dst: string, notDst: bool, comment: string, target: Spec, spec: Spec,
                pkt: Packet, nets: Nets)
    requires target != []
    requires spec == (if notSrc then ["!"] else []) + ["-s", src] + (if notDst then ["!"] else []) + ["-d", dst]
      + Ending(comment, target)
    ensures Target(spec, false, pkt, nets) ==
      if nets(src, pkt.src) != notSrc && nets(dst, pkt.dst) != notDst then Some(target[0]) else None
  {
    hide Target, Ending;
    var end := Ending(comment, target);
    EndingJumps(comment, target, pkt, nets);
    var going := ["-d", dst] + end;
    Going(dst, end, notDst, pkt, nets);
    var second := (if notDst then ["!"] else []) + going;
    if notDst { Not(going, false, pkt, nets); } else { assert second == going; }
    var first := ["-s", src] + second;
    From(src, second, notSrc, pkt, nets);
    if notSrc { Not(first, false, pkt, nets); assert spec == ["!"] + first; } else { assert spec == first; }
  }

  // The rules of the lists.

  lemma VerdictFirst(spec: Spec, rest: seq<Spec>, pkt: Packet, nets: Nets)
    ensures Verdict([spec] + rest, pkt, nets)
      == if Target(spec, false, pkt, nets).Some? then Target(spec, false, pkt, nets) else Verdict(rest, pkt, nets)
  {
    assert ([spec] + rest)[1..] == rest;
  }

  /** The rules for packets of kube-proxy, and for packets inside the overlay network or to this node's pods. */
  lemma ReturnTargets(cluster: string, pod: string, random: bool, pkt: Packet, nets: Nets)
    ensures var rules := MasqRules(cluster, pod, random);
      && Target(rules[1].spec, false, pkt, nets) == (if "0x4000/0x4000" in pkt.marks then Some("RETURN") else None)
      && Target(rules[2].spec, false, pkt, nets)
         == (if nets(pod, pkt.src) && nets(cluster, pkt.dst) then Some("RETURN") else None)
      && Target(rules[3].spec, false, pkt, nets)
         == (if nets(cluster, pkt.src) && nets(pod, pkt.dst) then Some("RETURN") else None)
      && Target(rules[4].spec, false, pkt, nets)
         == (if !nets(cluster, pkt.src) && nets(pod, pkt.dst) then Some("RETURN") else None)
  {
    hide Target;
    var rules, end := MasqRules(cluster, pod, random), Ending("flanneld masq", ["RETURN"]);
    EndingJumps("flanneld masq", ["RETURN"], pkt, nets);
    Marked("0x4000/0x4000", end, pkt, nets);
    Module("mark", ["--mark", "0x4000/0x4000"] + end, pkt, nets);
    assert rules[1].spec == ["-m", "mark"] + (["--mark", "0x4000/0x4000"] + end);
    Between(pod, false, cluster, false, "flanneld masq", ["RETURN"], rules[2].spec, pkt, nets);
    Between(cluster, false, pod, false, "flanneld masq", ["RETURN"], rules[3].spec, pkt, nets);
    Between(cluster, true, pod, false, "flanneld masq", ["RETURN"], rules[4].spec, pkt, nets);
  }

  /** The rules that masquerade. */
  lemma MasqueradeTargets(cluster: string, pod: string, random: bool, pkt: Packet, nets: Nets)
    ensures var rules := MasqRules(cluster, pod, random);
      && Target(rules[5].spec, false, pkt, nets)
         == (if nets(cluster, pkt.src) && !nets("224.0.0.0/4", pkt.dst) then Some("MASQUERADE") else None)
      && Target(rules[6].spec, false, pkt, nets)
         == (if !nets(cluster, pkt.src) && nets(cluster, pkt.dst) then Some("MASQUERADE") else None)
  {
    hide Target;
    var rules := MasqRules(cluster, pod, random);
    var target := ["MASQUERADE"] + if random then ["--random-fully"] else [];
    Between(cluster, false, "224.0.0.0/4", true, "flanneld masq", target, rules[5].spec, pkt, nets);
    Between(cluster, true, cluster, false, "flanneld masq", target, rules[6].spec, pkt, nets);
  }

  /** A list whose rules, but for the first, are all for one chain. */
  lemma {:induction false} MineOfRest(rules: seq<Rule>, c: ChainId)
    requires rules != [] && rules[0].Id() != c && forall i :: 1 <= i < |rules| ==> rules[i].Id() == c
    ensures |Mine(rules, c)| == |rules| - 1
    ensures forall i :: 1 <= i < |rules| ==> Mine(rules, c)[i - 1] == rules[i].spec
  {
    var n := |rules| - 1;
    if n > 0 { MineOfRest(rules[..n], c); }
  }

  /** Flannel's postrouting chain is the list without the jump to it. */
  lemma MasqChain(cluster: string, pod: string, random: bool)
    ensures var rules := MasqRules(cluster, pod, random);
      Mine(rules, ChainId("nat", "FLANNEL-POSTRTG"))
        == [rules[1].spec, rules[2].spec, rules[3].spec, rules[4].spec, rules[5].spec, rules[6].spec]
  {
    var rules, c := MasqRules(cluster, pod, random), ChainId("nat", "FLANNEL-POSTRTG");
    assert |"POSTROUTING"| != |"FLANNEL-POSTRTG"| && rules[0].Id() != c && |rules| == 7;
    forall i | 1 <= i < 7 ensures rules[i].Id() == c { MasqIsInChain(cluster, pod, random, i); }
    hide MasqRules, Mine, Masq;
    MineOfRest(rules, c);
  }

  lemma MasqIsInChain(cluster: string, pod: string, random: bool, i: nat)
    requires 1 <= i < 7
    ensures MasqRules(cluster, pod, random)[i].Id() == ChainId("nat", "FLANNEL-POSTRTG")
  {
  }

  /** Packets that flannel's postrouting chain sends back as they are. */
  predicate Returned(cluster: string, pod: string, pkt: Packet, nets: Nets)
  {
    || "0x4000/0x4000" in pkt.marks
    || (nets(pod, pkt.src) && nets(cluster, pkt.dst))
    || nets(pod, pkt.dst)
  }

  /** Packets that leave the cluster, multicast apart, and packets of others that enter it. */
  predicate Crosses(cluster: string, pkt: Packet, nets: Nets)
  {
    if nets(cluster, pkt.src) then !nets("224.0.0.0/4", pkt.dst) else nets(cluster, pkt.dst)
  }

  /**
    What flannel's postrouting chain does: packets marked by kube-proxy, from this node's pods inside the
    cluster, or to this node's pods are left alone; of the others those that cross the border are masqueraded.
   */
  lemma MasqVerdicts(cluster: string, pod: string, random: bool, pkt: Packet, nets: Nets)
    ensures Verdict(Mine(MasqRules(cluster, pod, random), ChainId("nat", "FLANNEL-POSTRTG")), pkt, nets) ==
      if Returned(cluster, pod, pkt, nets) then Some("RETURN")
      else if Crosses(cluster, pkt, nets) then Some("MASQUERADE")
      else None
  {
    MasqChain(cluster, pod, random);
    ReturnTargets(cluster, pod, random, pkt, nets);
    MasqueradeTargets(cluster, pod, random, pkt, nets);
    var rules := MasqRules(cluster, pod, random);
    assert |rules| == 7;
    hide Target, Mine, MasqRules, Masq;
    SixVerdicts(rules[1].spec, rules[2].spec, rules[3].spec, rules[4].spec, rules[5].spec, rules[6].spec, pkt, nets);
  }

  lemma SixVerdicts(a: Spec, b: Spec, c: Spec, d: Spec, e: Spec, f: Spec, pkt: Packet, nets: Nets)
    ensures Verdict([a, b, c, d, e, f], pkt, nets) ==
      if Target(a, false, pkt, nets).Some? then Target(a, false, pkt, nets)
      else if Target(b, false, pkt, nets).Some? then Target(b, false, pkt, nets)
      else if Target(c, false, pkt, nets).Some? then Target(c, false, pkt, nets)
      else if Target(d, false, pkt, nets).Some? then Target(d, false, pkt, nets)
      else if Target(e, false, pkt, nets).Some? then Target(e, false, pkt, nets)
      else Target(f, false, pkt, nets)
  {
    hide Target, Verdict;
    VerdictFirst(a, [b, c, d, e, f], pkt, nets);
    VerdictFirst(b, [c, d, e, f], pkt, nets);
    VerdictFirst(c, [d, e, f], pkt, nets);
    VerdictFirst(d, [e, f], pkt, nets);
    VerdictFirst(e, [f], pkt, nets);
    VerdictFirst(f, [], pkt, nets);
    assert [a] + [b, c, d, e, f] == [a, b, c, d, e, f] && [b] + [c, d, e, f] == [b, c, d, e, f];
    assert [c] + [d, e, f] == [c, d, e, f] && [d] + [e, f] == [d, e, f] && [e] + [f] == [e, f] && [f] + [] == [f];
    assert Verdict([], pkt, nets) == None by { NoVerdict(pkt, nets); }
  }

  lemma NoVerdict(pkt: Packet, nets: Nets)
    ensures Verdict([], pkt, nets) == None
  {
  }

  lemma ForwardChain(network: string)
    ensures var rules := ForwardRules(network);
      Mine(rules, ChainId("filter", "FLANNEL-FWD")) == [rules[1].spec, rules[2].spec]
  {
    var rules, c := ForwardRules(network), ChainId("filter", "FLANNEL-FWD");
    assert |"FORWARD"| != |"FLANNEL-FWD"| && rules[0].Id() != c && rules[1].Id() == c && rules[2].Id() == c;
    assert |rules| == 3;
    hide ForwardRules, Mine;
    MineOfRest(rules, c);
  }

  /** Flannel's forwarding chain accepts what comes from its network or goes there, and decides nothing else. */
  lemma ForwardVerdicts(network: string, pkt: Packet, nets: Nets)
    ensures Verdict(Mine(ForwardRules(network), ChainId("filter", "FLANNEL-FWD")), pkt, nets) ==
      if nets(network, pkt.src) || nets(network, pkt.dst) then Some("ACCEPT") else None
  {
    ForwardChain(network);
    var rules, end := ForwardRules(network), Ending("flanneld forward", ["ACCEPT"]);
    hide Target, Verdict, Mine;
    EndingJumps("flanneld forward", ["ACCEPT"], pkt, nets);
    From(network, end, false, pkt, nets);
    Going(network, end, false, pkt, nets);
    assert rules[1].spec == ["-s", network] + end && rules[2].spec == ["-d", network] + end;
    var a, b := rules[1].spec, rules[2].spec;
    hide ForwardRules, Ending;
    VerdictFirst(a, [b], pkt, nets);
    VerdictFirst(b, [], pkt, nets);
    assert [a] + [b] == [a, b] && [b] + [] == [b];
    NoVerdict(pkt, nets);
  }

  /** Whatever comes into the postrouting chain is sent to flannel's, and into the forward chain to its own. */
  lemma JumpsToFlannel(cluster: string, pod: string, random: bool, pkt: Packet, nets: Nets)
    ensures var rule := MasqRules(cluster, pod, random)[0];
      rule.Id() == ChainId("nat", "POSTROUTING") && Target(rule.spec, false, pkt, nets) == Some("FLANNEL-POSTRTG")
    ensures var rule := ForwardRules(cluster)[0];
      rule.Id() == ChainId("filter", "FORWARD") && Target(rule.spec, false, pkt, nets) == Some("FLANNEL-FWD")
  {
    hide Target, Masq;
    EndingJumps("flanneld masq", ["FLANNEL-POSTRTG"], pkt, nets);
    EndingJumps("flanneld forward", ["FLANNEL-FWD"], pkt, nets);
    assert MasqRules(cluster, pod, random)[0].spec == Ending("flanneld masq", ["FLANNEL-POSTRTG"]);
    assert ForwardRules(cluster)[0].spec == Ending("flanneld forward", ["FLANNEL-FWD"]);
  }
}
