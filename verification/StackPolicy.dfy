/** From a stack's configuration to the traffic its tables let through: rule
    validation, rule resolution, and the composition with the daemon. */
module StackPolicy {
  import opened Common
  import opened NftMachine
  import opened NftCompile
  import opened NftTable
  import opened NftRuns
  import opened PortMappings

  /** config.Rule: `ports` empty means every port, `proto` empty means tcp. */
  datatype ConfigRule = ConfigRule(from: string, to: string, ports: seq<int>, proto: string)

  datatype RuleKey = RuleKey(from: string, to: string, proto: string, port: int)

  function PortsOrAll(r: ConfigRule): seq<int> {
    if r.ports == [] then [0] else r.ports
  }

  // ---- validateRules ----

  predicate PortValid(port: int) {
    port == 0 || 1 <= port <= 65535
  }

  predicate RuleValid(r: ConfigRule, services: set<string>) {
    && r.from in services && r.to in services && r.from != r.to
    && (r.proto == "" || r.proto == "tcp" || r.proto == "udp")
    && forall p :: p in PortsOrAll(r) ==> PortValid(p)
  }

  function RuleKeys(r: ConfigRule): (keys: seq<RuleKey>)
    ensures |keys| == |PortsOrAll(r)|
  {
    seq(|PortsOrAll(r)|, i requires 0 <= i < |PortsOrAll(r)| => RuleKey(r.from, r.to, r.proto, PortsOrAll(r)[i]))
  }

  function AllKeys(rules: seq<ConfigRule>): seq<RuleKey> {
    if rules == [] then [] else AllKeys(rules[..|rules| - 1]) + RuleKeys(rules[|rules| - 1])
  }

  ghost predicate RulesValid(rules: seq<ConfigRule>, services: set<string>) {
    (forall r :: r in rules ==> RuleValid(r, services)) && Distinct(AllKeys(rules))
  }

  lemma {:induction false} KeysPrefix(rules: seq<ConfigRule>, i: nat)
    requires i < |rules|
    ensures AllKeys(rules[..i + 1]) == AllKeys(rules[..i]) + RuleKeys(rules[i])
    ensures AllKeys(rules[..i + 1]) <= AllKeys(rules)
    decreases |rules| - i
  {
    assert rules[..i + 1][..i] == rules[..i];
    if i + 1 < |rules| {
      KeysPrefix(rules, i + 1);
    } else {
      assert rules[..i + 1] == rules;
    }
  }

  /** No two keys alike, and none of them among `before`. */
  predicate FreshKeys(keys: seq<RuleKey>, before: set<RuleKey>) {
    Distinct(keys) && forall k :: k in keys ==> k !in before
  }

  lemma FreshAppended(keys: seq<RuleKey>, more: seq<RuleKey>)
    ensures Distinct(keys + more) <==> Distinct(keys) && FreshKeys(more, Items(keys))
    ensures Items(keys + more) == Items(keys) + Items(more)
  {
    var all := keys + more;
    assert forall i :: 0 <= i < |keys| ==> all[i] == keys[i] && keys[i] in Items(keys);
    assert forall j :: 0 <= j < |more| ==> all[|keys| + j] == more[j] && more[j] in more;
    if Distinct(keys) && FreshKeys(more, Items(keys)) {
      forall i, j | 0 <= i < j < |all| ensures all[i] != all[j] {
        if j >= |keys| {
          assert all[j] == more[j - |keys|];
          if i >= |keys| { assert all[i] == more[i - |keys|]; }
        }
      }
    }
  }

  /** The same traffic is not declared twice: no port twice in one rule, and no port
      in two rules of the same ends and protocol. */
  ghost predicate NoRepeats(rules: seq<ConfigRule>) {
    && (forall r :: r in rules ==> Distinct(r.ports))
    && (forall i, j :: 0 <= i < j < |rules| ==> !Overlap(rules[i], rules[j]))
  }

  ghost predicate Overlap(q: ConfigRule, r: ConfigRule) {
    && q.from == r.from && q.to == r.to && q.proto == r.proto
    && ((q.ports == [] && r.ports == []) || (q.ports == [] && 0 in r.ports) || (r.ports == [] && 0 in q.ports)
        || exists p :: p in q.ports && p in r.ports)
  }

  lemma KeysOfRule(r: ConfigRule)
    ensures forall k :: k in RuleKeys(r) <==> k.from == r.from && k.to == r.to && k.proto == r.proto && k.port in PortsOrAll(r)
    ensures Distinct(RuleKeys(r)) <==> Distinct(r.ports)
  {
    var keys, ports := RuleKeys(r), PortsOrAll(r);
    forall p | p in ports ensures RuleKey(r.from, r.to, r.proto, p) in keys {
      var i :| 0 <= i < |ports| && ports[i] == p;
      assert keys[i] == RuleKey(r.from, r.to, r.proto, p);
    }
    forall k | k in keys ensures k.port in ports {
      var i :| 0 <= i < |keys| && keys[i] == k;
      assert ports[i] == k.port;
    }
    assert forall i, j :: 0 <= i < j < |keys| ==> (keys[i] == keys[j] <==> ports[i] == ports[j]);
  }

  lemma OverlapShares(q: ConfigRule, r: ConfigRule)
    ensures Overlap(q, r) <==> exists k :: k in RuleKeys(q) && k in RuleKeys(r)
  {
    hide RuleKeys;
    KeysOfRule(q);
    KeysOfRule(r);
    if Overlap(q, r) {
      var p: int :| p in PortsOrAll(q) && p in PortsOrAll(r);
      assert RuleKey(q.from, q.to, q.proto, p) in RuleKeys(q);
    }
  }

  lemma {:induction false} KeysOfRules(rules: seq<ConfigRule>)
    ensures forall k :: k in AllKeys(rules) <==> exists r :: r in rules && k in RuleKeys(r)
  {
    if rules == [] {
    } else {
      hide RuleKeys;
      var init, last := rules[..|rules| - 1], rules[|rules| - 1];
      KeysOfRules(init);
      assert forall r :: r in rules <==> r in init || r == last;
    }
  }

  lemma FreshIs(init: seq<ConfigRule>, last: ConfigRule)
    ensures FreshKeys(RuleKeys(last), Items(AllKeys(init))) <==> Distinct(last.ports) && forall q :: q in init ==> !Overlap(q, last)
  {
    KeysOfRules(init);
    KeysOfRule(last);
    hide RuleKeys, Overlap, AllKeys, Distinct;
    forall q ensures Overlap(q, last) <==> exists k :: k in RuleKeys(q) && k in RuleKeys(last) { OverlapShares(q, last); }
  }

  /** What the validator's table of seen keys means. */
  lemma {:induction false} KeysDistinct(rules: seq<ConfigRule>)
    ensures Distinct(AllKeys(rules)) <==> NoRepeats(rules)
  {
    if rules == [] {
    } else {
      var init, last := rules[..|rules| - 1], rules[|rules| - 1];
      assert rules == init + [last] && AllKeys(rules) == AllKeys(init) + RuleKeys(last);
      hide RuleKeys, Overlap, AllKeys, Distinct, FreshKeys, NoRepeats, Items;
      FreshAppended(AllKeys(init), RuleKeys(last));
      FreshIs(init, last);
      KeysDistinct(init);
      RepeatsLast(init, last);
    }
  }

  lemma RepeatsLast(init: seq<ConfigRule>, last: ConfigRule)
    ensures NoRepeats(init + [last]) <==> NoRepeats(init) && Distinct(last.ports) && forall q :: q in init ==> !Overlap(q, last)
  {
    hide Overlap, Distinct;
    var rules := init + [last];
    assert forall i :: 0 <= i < |init| ==> rules[i] == init[i];
    assert rules[|init|] == last && last in rules;
    if NoRepeats(rules) {
      assert forall r :: r in init ==> r in rules;
      forall q | q in init ensures !Overlap(q, last) {
        var i :| 0 <= i < |init| && init[i] == q;
        assert !Overlap(rules[i], rules[|init|]);
      }
      forall i, j | 0 <= i < j < |init| ensures !Overlap(init[i], init[j]) { assert !Overlap(rules[i], rules[j]); }
    }
  }

  method ValidateRules(rules: seq<ConfigRule>, services: set<string>) returns (ok: bool)
    ensures ok <==> RulesValid(rules, services)
    ensures ok <==> (forall r :: r in rules ==> RuleValid(r, services)) && NoRepeats(rules)
  {
    KeysDistinct(rules);
    hide NoRepeats;
    var seen: set<RuleKey> := {};
    for i := 0 to |rules|
      invariant RulesValid(rules[..i], services)
      invariant seen == Items(AllKeys(rules[..i]))
    {
      var r := rules[i];
      assert rules[..i + 1] == rules[..i] + [r] && r in rules;
      KeysPrefix(rules, i);
      FreshAppended(AllKeys(rules[..i]), RuleKeys(r));
      if r.from !in services || r.to !in services || r.from == r.to ||
         (r.proto != "" && r.proto != "tcp" && r.proto != "udp") {
        return false;
      }
      var fine;
      fine, seen := SeePorts(r, seen);
      if !fine {
        assert Distinct(AllKeys(rules)) ==> Distinct(AllKeys(rules[..i + 1]));
        return false;
      }
    }
    assert rules[..|rules|] == rules;
    return true;
  }

  /** The inner loop: the ports of one rule. */
  method SeePorts(r: ConfigRule, before: set<RuleKey>) returns (fine: bool, seen: set<RuleKey>)
    ensures fine <==> (forall p :: p in PortsOrAll(r) ==> PortValid(p)) && FreshKeys(RuleKeys(r), before)
    ensures fine ==> seen == before + Items(RuleKeys(r))
  {
    seen := before;
    var ports := r.ports;
    if |ports| == 0 {
      ports := [0];
    }
    ghost var keys := RuleKeys(r);
    for k := 0 to |ports|
      invariant forall p :: p in ports[..k] ==> PortValid(p)
      invariant FreshKeys(keys[..k], before)
      invariant seen == before + Items(keys[..k])
    {
      var port := ports[k];
      assert ports[..k + 1] == ports[..k] + [port] && port in ports;
      var key := RuleKey(r.from, r.to, r.proto, port);
      assert key == keys[k] && keys[..k + 1] == keys[..k] + [key];
      if port != 0 && (port < MIN_PORT || port > MAX_PORT) {
        return false, seen;
      }
      if key in seen {
        return false, seen;
      }
      seen := seen + {key};
    }
    assert ports[..|ports|] == ports && keys[..|ports|] == keys;
    return true, seen;
  }

  // ---- ruleSpecs ----

  /** A missing service reads as the empty address. */
  function AddrOf(addrs: map<string, string>, svc: string): string {
    if svc in addrs then addrs[svc] else ""
  }

  function Resolve(addrs: map<string, string>, r: ConfigRule, port: int): RuleSpec {
    RuleSpec(AddrOf(addrs, r.from), AddrOf(addrs, r.to), if r.proto == "" then "tcp" else r.proto, port)
  }

  function ResolveAll(addrs: map<string, string>, r: ConfigRule, ports: seq<int>): seq<RuleSpec> {
    seq(|ports|, i requires 0 <= i < |ports| => Resolve(addrs, r, ports[i]))
  }

  function RuleSpecsOf(addrs: map<string, string>, rules: seq<ConfigRule>): seq<RuleSpec> {
    if rules == [] then []
    else
      var r := rules[|rules| - 1];
      RuleSpecsOf(addrs, rules[..|rules| - 1]) + ResolveAll(addrs, r, PortsOrAll(r))
  }

  lemma RuleSpecsSnoc(addrs: map<string, string>, rules: seq<ConfigRule>, r: ConfigRule)
    ensures RuleSpecsOf(addrs, rules + [r]) == RuleSpecsOf(addrs, rules) + ResolveAll(addrs, r, PortsOrAll(r))
  {
    assert (rules + [r])[..|rules|] == rules;
  }

  lemma NoRuleSpecs(addrs: map<string, string>)
    ensures RuleSpecsOf(addrs, []) == []
  {
  }

  lemma ResolveSnoc(addrs: map<string, string>, r: ConfigRule, ports: seq<int>, p: int)
    ensures ResolveAll(addrs, r, ports + [p]) == ResolveAll(addrs, r, ports) + [Resolve(addrs, r, p)]
    ensures ResolveAll(addrs, r, []) == []
  {
  }

  method RuleSpecs(addrs: map<string, string>, rules: seq<ConfigRule>) returns (specs: seq<RuleSpec>)
    ensures specs == RuleSpecsOf(addrs, rules)
  {
    hide RuleSpecsOf, ResolveAll;
    specs := [];
    assert specs == RuleSpecsOf(addrs, []) by { NoRuleSpecs(addrs); }
    for i := 0 to |rules|
      invariant specs == RuleSpecsOf(addrs, rules[..i])
    {
      var r := rules[i];
      RuleSpecsSnoc(addrs, rules[..i], r);
      assert rules[..i + 1] == rules[..i] + [r];
      var proto := r.proto;
      if proto == "" {
        proto := "tcp";
      }
      var ports := r.ports;
      if |ports| == 0 {
        ports := [0];
      }
      ghost var before := specs;
      ResolveSnoc(addrs, r, [], 0);
      for k := 0 to |ports|
        invariant specs == before + ResolveAll(addrs, r, ports[..k])
      {
        specs := specs + [RuleSpec(AddrOf(addrs, r.from), AddrOf(addrs, r.to), proto, ports[k])];
        ResolveSnoc(addrs, r, ports[..k], ports[k]);
        assert ports[..k + 1] == ports[..k] + [ports[k]];
      }
      assert ports[..|ports|] == ports;
    }
    assert rules[..|rules|] == rules;
  }

  lemma {:induction false} RuleSpecsMembers(addrs: map<string, string>, rules: seq<ConfigRule>)
    ensures forall s :: s in RuleSpecsOf(addrs, rules) <==>
                        exists r, p :: r in rules && p in PortsOrAll(r) && s == Resolve(addrs, r, p)
  {
    if rules == [] {
    } else {
      var init, last := rules[..|rules| - 1], rules[|rules| - 1];
      RuleSpecsMembers(addrs, init);
      var mine := ResolveAll(addrs, last, PortsOrAll(last));
      forall p | p in PortsOrAll(last) ensures Resolve(addrs, last, p) in mine {
        var i :| 0 <= i < |PortsOrAll(last)| && PortsOrAll(last)[i] == p;
        assert mine[i] == Resolve(addrs, last, p);
      }
      forall s ensures s in RuleSpecsOf(addrs, rules) <==> s in RuleSpecsOf(addrs, init) || s in mine { }
      assert forall r :: r in rules <==> r in init || r == last;
    }
  }

  // ---- the stack's traffic ----

  /** net.ParseIP accepts only hexadecimal digits, ':' and '.'; the rule tags
      need no more than that '>' is not among them. */
  ghost predicate PlainAddresses(h: Host) {
    forall s :: h.parseIP(s).Some? ==> '>' !in s
  }

  /** A declared rule grants the packet: right addresses, right protocol, and a
      listed port, an empty list (or a listed 0) meaning every port. */
  predicate Declares(h: Host, addrs: map<string, string>, r: ConfigRule, pkt: Packet)
    requires IPv6Packet(pkt)
  {
    && h.IPv6(if r.from in addrs then addrs[r.from] else "") == Some(Source(pkt))
    && h.IPv6(if r.to in addrs then addrs[r.to] else "") == Some(Destination(pkt))
    && pkt.l4proto == Some(if r.proto == "udp" then 17 else 6)
    && (r.ports == [] || 0 in r.ports || (DestPort(pkt).Some? && DestPort(pkt).value in r.ports))
  }

  /** TCP to the guest port that the mapping's text names. */
  ghost predicate Reaches(h: Host, mapping: string, addr: string, pkt: Packet)
    requires IPv6Packet(pkt)
  {
    && h.IPv6(addr) == Some(Destination(pkt))
    && pkt.l4proto == Some(6)
    && DestPort(pkt).Some? && exists host :: MapsTo(mapping, host, DestPort(pkt).value)
  }

  lemma DeclaredIsGranted(h: Host, addrs: map<string, string>, r: ConfigRule, pkt: Packet)
    requires IPv6Packet(pkt) && forall p :: p in PortsOrAll(r) ==> PortValid(p)
    ensures Declares(h, addrs, r, pkt) <==> exists p :: p in PortsOrAll(r) && RuleGrants(h, Resolve(addrs, r, p), pkt)
  {
    if Declares(h, addrs, r, pkt) {
      var p: int := if r.ports == [] || 0 in r.ports then 0 else DestPort(pkt).value;
      assert p in PortsOrAll(r) && RuleGrants(h, Resolve(addrs, r, p), pkt);
    }
  }

  /** A validated stack, the service names in order, and the services chosen. */
  datatype Deployment = Deployment(services: Mappings, addrs: map<string, string>, rules: seq<ConfigRule>,
                                   names: seq<string>, selected: set<string>)
  {
    predicate Complete() {
      forall n :: n in names ==> n in services && n in addrs
    }

    function Ports(): Option<seq<PortSpec>>
      requires Complete()
    {
      SpecsOf(names, selected, services, addrs)
    }

    function Rules(): seq<RuleSpec> {
      RuleSpecsOf(addrs, rules)
    }

    /** Validation succeeded and the daemon accepts the specs. */
    ghost predicate Ready(h: Host) {
      && PlainAddresses(h)
      && Complete() && Distinct(names) && (forall n :: n in services ==> n in names)
      && PortsValid(services) && RulesValid(rules, services.Keys)
      && Ports().Some? && PortsOk(h, Ports().value) && Compile(h, Rules())
    }

    /** What one `up` does to the table: EnsureNetworks, ApplyPorts, ApplyRules. */
    function UpOps(): seq<Op>
      requires Complete() && Ports().Some?
    {
      [EnsureForward, ApplyPorts(Ports().value), ApplyRules(Rules())]
    }

    function Specs(): Policy
      requires Complete() && Ports().Some?
    {
      Policy(Items(Ports().value), Endpoints(Ports().value), Items(Rules()))
    }
  }

  lemma ThreeSteps(h: Host, a: Policy, o0: Op, o1: Op, o2: Op)
    ensures PolicyRun(h, a, [o0, o1, o2]) == PolicyStep(h, PolicyStep(h, PolicyStep(h, a, o0), o1), o2)
  {
    assert [o0, o1, o2][..2] == [o0, o1] && [o0, o1][..1] == [o0] && [o0][..0] == [];
    assert PolicyRun(h, a, []) == a;
    assert PolicyRun(h, a, [o0]) == PolicyStep(h, a, o0);
    assert PolicyRun(h, a, [o0, o1]) == PolicyStep(h, PolicyStep(h, a, o0), o1);
  }

  /** The part of `up` that fills the table: EnsureNetworks, ApplyPorts, ApplyRules. */
  method Provision(h: Host, d: Deployment, selected: seq<string>, k: Kernel) returns (ok: bool)
    requires d.Complete() && d.selected == set s | s in selected
    modifies k
    ensures ok ==> d.Ports().Some?
    ensures ok && old(k.Contents()) == EMPTY_TABLE ==> k.Contents() == Run(h, EMPTY_TABLE, d.UpOps())
    ensures old(k.Contents()) == EMPTY_TABLE ==> (ok <==> d.Ports().Some? && PortsOk(h, d.Ports().value) && Compile(h, d.Rules()))
  {
    hide SpecsOf, RuleSpecsOf, PortsOk, Compile, PortsApplied, RulesApplied, RulesOk, Ensured, Run;
    var ports := PortSpecs(d.names, selected, d.services, d.addrs);
    if ports.None? {
      return false;
    }
    k.EnsureForwardChain(h);
    ok := k.ApplyPorts(h, ports.value);
    if !ok {
      return;
    }
    var rules := RuleSpecs(d.addrs, d.rules);
    ok := k.ApplyRules(h, rules);
    ThreeOps(h, EnsureForward, ApplyPorts(ports.value), ApplyRules(rules));
    FreshRulesOk(h, ports.value, rules);
  }

  lemma ThreeOps(h: Host, o0: Op, o1: Op, o2: Op)
    ensures Run(h, EMPTY_TABLE, [o0, o1, o2]) == NftRuns.Step(h, NftRuns.Step(h, NftRuns.Step(h, EMPTY_TABLE, o0), o1), o2)
  {
    hide NftRuns.Step;
    assert [o0, o1, o2][..2] == [o0, o1] && [o0, o1][..1] == [o0] && [o0][..0] == [];
    assert Run(h, EMPTY_TABLE, []) == EMPTY_TABLE;
    assert Run(h, EMPTY_TABLE, [o0]) == NftRuns.Step(h, EMPTY_TABLE, o0);
    assert Run(h, EMPTY_TABLE, [o0, o1]) == NftRuns.Step(h, NftRuns.Step(h, EMPTY_TABLE, o0), o1);
  }

  /** In a table without service rules every rule is compiled. */
  lemma FreshRulesOk(h: Host, ports: seq<PortSpec>, rules: seq<RuleSpec>)
    ensures RulesOk(h, Ensured(h, PortsApplied(h, Ensured(h, EMPTY_TABLE), ports)), rules) <==> Compile(h, rules)
  {
    hide DnatTag, PortTag, RuleTag, EstablishedExprs, PortAcceptExprs, DnatExprs, RuleExprs, DnatRules, Kind, PortRule;
    Kinds();
    var first := EstablishedRule(h);
    var t := PortsApplied(h, Ensured(h, EMPTY_TABLE), ports);
    FirstEnsured(h);
    AbsentMembers(PortRules(h, ports), Tags([first]));
    hide Absent, Tags;
    assert t.forward == [first] || t.forward == [first] + Absent(PortRules(h, ports), Tags([first]));
    forall x | x in t.forward ensures Kind(x.tag) != 2 {
      if x != first { PortRulesKind(h, ports, x); }
    }
    TaggedOnce(t.forward, first);
    assert Ensured(h, t) == t;
    forall r | r in rules ensures RuleTag(r) !in Tags(t.forward) { OtherKind(t.forward, RuleTag(r)); }
  }

  lemma FirstEnsured(h: Host)
    ensures Ensured(h, Pruned(Ensured(h, EMPTY_TABLE))).forward == [EstablishedRule(h)]
  {
    hide EstablishedExprs;
    var first := EstablishedRule(h);
    assert first in [first];
    assert Tags([]) == {} && Tags([first]) == {ESTABLISHED_TAG};
  }

  lemma PortRulesKind(h: Host, ports: seq<PortSpec>, x: Rule)
    requires x in PortRules(h, ports)
    ensures Kind(x.tag) == 1
  {
    hide Kind, PortTag, PortAcceptExprs;
    Kinds();
  }

  lemma TaggedOnce(chain: seq<Rule>, first: Rule)
    requires first in chain
    ensures first.tag in Tags(chain)
  {
  }

  lemma OtherKind(chain: seq<Rule>, tag: string)
    requires forall x :: x in chain ==> Kind(x.tag) != Kind(tag)
    ensures tag !in Tags(chain)
  {
  }

  lemma ResolvedTidy(h: Host, d: Deployment)
    requires d.Ready(h)
    ensures forall r :: r in d.Rules() ==> Tidy(r)
  {
    RuleSpecsMembers(d.addrs, d.rules);
    forall r | r in d.Rules() ensures Tidy(r) {
      assert RuleExprs(h, r).Some? && h.IPv6(r.from).Some?;
      var c, p :| c in d.rules && p in PortsOrAll(c) && r == Resolve(d.addrs, c, p);
    }
  }

  /** After an up from an empty table, the table represents the stack's specs. */
  lemma UpRepresents(h: Host, d: Deployment)
    requires d.Ready(h)
    ensures var t := Run(h, EMPTY_TABLE, d.UpOps());
            t.forward != [] && Represents(h, t, d.Specs())
  {
    hide SpecsOf, RuleSpecsOf, PortsOk, Compile, Represents, PortsValid, RulesValid;
    ResolvedTidy(h, d);
    RunRefines(h, d.UpOps());
    var none := Policy({}, {}, {});
    ThreeSteps(h, none, EnsureForward, ApplyPorts(d.Ports().value), ApplyRules(d.Rules()));
    assert PolicyRun(h, none, d.UpOps()) == d.Specs() by {
      assert {} + Items(d.Ports().value) == Items(d.Ports().value);
      assert {} + Endpoints(d.Ports().value) == Endpoints(d.Ports().value);
      assert {} + Items(d.Rules()) == Items(d.Rules());
    }
  }

  /** The packet is TCP to the address and guest port of a published mapping. */
  ghost predicate Published(h: Host, d: Deployment, pkt: Packet)
    requires IPv6Packet(pkt)
  {
    exists s, i :: s in d.selected && At(d.services, s, i) && s in d.addrs && Reaches(h, d.services[s][i], d.addrs[s], pkt)
  }

  /** Some declared rule grants the packet. */
  ghost predicate Declared(h: Host, d: Deployment, pkt: Packet)
    requires IPv6Packet(pkt)
  {
    exists r :: r in d.rules && Declares(h, d.addrs, r, pkt)
  }

  /** Compilation preserves meaning: the forward chain accepts an IPv6 packet
      exactly when its connection is established or related, a declared rule
      grants it, or it is TCP to a published guest address and port. */
  lemma TrafficIsAsDeclared(h: Host, d: Deployment, pkt: Packet, regs: Registers)
    requires d.Ready(h) && IPv6Packet(pkt)
    ensures var t := Run(h, EMPTY_TABLE, d.UpOps());
            RunChain(h.littleEndian, t.forward, pkt, regs, Drop) ==
            if Established(pkt) || Declared(h, d, pkt) || Published(h, d, pkt) then Accept else Drop
  {
    hide SpecsOf, RuleSpecsOf, Run, RunChain, RulesValid, PortsValid, PortsOk, Compile;
    UpRepresents(h, d);
    var t := Run(h, EMPTY_TABLE, d.UpOps());
    GrantedIsDeclared(h, d, pkt);
    GrantedIsPublished(h, d, pkt);
    PublishedIsGranted(h, d, pkt);
    ForwardMeaning(h, t, d.Specs(), pkt, regs);
  }

  lemma GrantedIsDeclared(h: Host, d: Deployment, pkt: Packet)
    requires d.Ready(h) && IPv6Packet(pkt)
    ensures RuleGranted(h, d.Specs(), pkt) <==> Declared(h, d, pkt)
  {
    hide SpecsOf, RuleSpecsOf, Declares, RuleGrants, PortsValid;
    RuleSpecsMembers(d.addrs, d.rules);
    forall r | r in d.rules { DeclaredIsGranted(h, d.addrs, r, pkt); }
    if r :| r in d.rules && Declares(h, d.addrs, r, pkt) {
      var p :| p in PortsOrAll(r) && RuleGrants(h, Resolve(d.addrs, r, p), pkt);
      assert Resolve(d.addrs, r, p) in d.Specs().rules;
    }
  }

  lemma ReachesIsGrant(h: Host, p: PortSpec, mapping: string, pkt: Packet)
    requires IPv6Packet(pkt) && ParsePort(mapping) == Some((p.hostPort, p.guestPort))
    ensures Reaches(h, mapping, p.guestIP, pkt) <==> PortGrants(h, Endpoint(p), pkt)
  {
    hide MapsTo, ParsePort;
    forall host, guest ensures MapsTo(mapping, host, guest) <==> (host, guest) == (p.hostPort, p.guestPort) {
      ParsePortIs(mapping, host, guest);
    }
    ParsedInRange(mapping);
  }

  lemma ParsedInRange(mapping: string)
    ensures ParsePort(mapping).Some? ==> 1 <= ParsePort(mapping).value.1 <= 65535
  {
    hide PortNumber, Split;
  }

  lemma GrantedIsPublished(h: Host, d: Deployment, pkt: Packet)
    requires d.Ready(h) && IPv6Packet(pkt)
    ensures PortGranted(h, d.Specs(), pkt) ==> Published(h, d, pkt)
  {
    hide SpecsOf, RuleSpecsOf, ParsePort, PortGrants, Reaches;
    SpecsComplete(d.names, d.selected, d.services, d.addrs);
    if p :| p in d.Ports().value && PortGrants(h, Endpoint(p), pkt) {
      var s, i :| s in d.names && s in d.selected && ComesFrom(p, d.services, d.addrs, s, i);
      ReachesIsGrant(h, p, d.services[s][i], pkt);
    }
  }

  lemma PublishedIsGranted(h: Host, d: Deployment, pkt: Packet)
    requires d.Ready(h) && IPv6Packet(pkt)
    ensures Published(h, d, pkt) ==> PortGranted(h, d.Specs(), pkt)
  {
    hide SpecsOf, RuleSpecsOf, ParsePort, PortGrants, Reaches;
    if s, i :| s in d.selected && At(d.services, s, i) && s in d.addrs && Reaches(h, d.services[s][i], d.addrs[s], pkt) {
      var p := SpecAt(h, d, s, i);
      ReachesIsGrant(h, p, d.services[s][i], pkt);
      assert Endpoint(p) in d.Specs().accepts;
    }
  }

  /** Every mapping of a selected service has its spec. */
  lemma SpecAt(h: Host, d: Deployment, s: string, i: int) returns (p: PortSpec)
    requires d.Ready(h) && s in d.selected && At(d.services, s, i)
    ensures p in d.Ports().value && ComesFrom(p, d.services, d.addrs, s, i)
  {
    hide SpecsOf, RuleSpecsOf, RulesValid, ParsePort;
    SelectedParse(d.names, d.selected, d.services, d.addrs, s);
    SpecsComplete(d.names, d.selected, d.services, d.addrs);
    assert d.services[s][i] in d.services[s];
    var m := ParsePort(d.services[s][i]).value;
    p := PortSpec(m.0, d.addrs[s], m.1);
    assert ComesFrom(p, d.services, d.addrs, s, i);
  }

  lemma {:induction false} SelectedParse(names: seq<string>, selected: set<string>, services: Mappings,
                                           addrs: map<string, string>, s: string)
    requires forall n :: n in names ==> n in services && n in addrs
    requires SpecsOf(names, selected, services, addrs).Some? && s in names && s in selected
    ensures Parses(services[s])
  {
    if s != names[|names| - 1] {
      SelectedParse(names[..|names| - 1], selected, services, addrs, s);
    }
  }

  // ---- published ports end to end ----

  /** What destination NAT does to the packet. */
  function Rewrite(pkt: Packet, addr: Addr, port: nat): Packet
    requires IPv6Packet(pkt) && |pkt.transport| >= 4
  {
    pkt.(network := pkt.network[..24] + addr + pkt.network[40..],
         transport := pkt.transport[..2] + BE16(port) + pkt.transport[4..])
  }

  lemma RewrittenGrants(h: Host, p: PortSpec, pkt: Packet, addr: Addr)
    requires IPv6Packet(pkt) && |pkt.transport| >= 4 && pkt.l4proto == Some(6)
    requires h.IPv6(p.guestIP) == Some(addr) && 0 <= p.guestPort < 0x10000
    ensures var pkt' := Rewrite(pkt, addr, p.guestPort);
            IPv6Packet(pkt') && PortGrants(h, Endpoint(p), pkt')
  {
    var pkt' := Rewrite(pkt, addr, p.guestPort);
    assert Destination(pkt') == addr;
    assert pkt'.transport[2..4] == BE16(p.guestPort);
    BE16RoundTrip(p.guestPort);
  }

  /** With validated mappings a host port belongs to one spec only. */
  lemma OneSpecPerHostPort(h: Host, d: Deployment, p: PortSpec, q: PortSpec)
    requires d.Ready(h) && p in d.Ports().value && q in d.Ports().value && p.hostPort == q.hostPort
    ensures p == q
  {
    hide SpecsOf, RuleSpecsOf, RulesValid;
    var specs := d.Ports().value;
    HostPortsDistinct(d.names, d.selected, d.services, d.addrs);
    var x :| 0 <= x < |specs| && specs[x] == p;
    var y :| 0 <= y < |specs| && specs[y] == q;
  }

  lemma PortsInRange(h: Host, d: Deployment)
    requires d.Ready(h)
    ensures forall p :: p in d.Ports().value ==> 0 < p.hostPort < 0x10000 && 0 < p.guestPort < 0x10000
  {
    SpecsComplete(d.names, d.selected, d.services, d.addrs);
  }

  lemma RedirectedTo(h: Host, d: Deployment, p: PortSpec, pkt: Packet, regs: Registers)
    requires d.Ready(h) && p in d.Ports().value && DnatMatches(p, pkt)
    ensures h.IPv6(p.guestIP).Some? && p.guestPort >= 0
    ensures RunChain(h.littleEndian, Run(h, EMPTY_TABLE, d.UpOps()).prerouting, pkt, regs, Accept)
            == Redirect(h.IPv6(p.guestIP).value, p.guestPort)
  {
    hide SpecsOf, RuleSpecsOf, Run, RunChain, Represents, RulesValid, PortsValid, Compile;
    PortsInRange(h, d);
    assert forall q :: q in d.Ports().value ==> q.hostPort % 0x10000 == q.hostPort && q.guestPort % 0x10000 == q.guestPort;
    forall q | q in d.Specs().dnat && q.hostPort % 0x10000 == p.hostPort % 0x10000 ensures q == p {
      OneSpecPerHostPort(h, d, p, q);
    }
    UpRepresents(h, d);
    PreroutingTarget(h, Run(h, EMPTY_TABLE, d.UpOps()), d.Specs(), p, pkt, regs);
  }

  lemma AcceptedAt(h: Host, d: Deployment, p: PortSpec, pkt: Packet, regs: Registers)
    requires d.Ready(h) && p in d.Ports().value && IPv6Packet(pkt) && PortGrants(h, Endpoint(p), pkt)
    ensures RunChain(h.littleEndian, Run(h, EMPTY_TABLE, d.UpOps()).forward, pkt, regs, Drop) == Accept
  {
    hide SpecsOf, RuleSpecsOf, Run, RunChain, Represents, RulesValid, PortsValid, PortsOk, Compile, PortGrants, RuleGranted;
    UpRepresents(h, d);
    assert Endpoint(p) in d.Specs().accepts;
    ForwardMeaning(h, Run(h, EMPTY_TABLE, d.UpOps()), d.Specs(), pkt, regs);
  }

  lemma SpecReachesGuest(h: Host, d: Deployment, p: PortSpec, pkt: Packet, regs: Registers)
    requires d.Ready(h) && p in d.Ports().value && IPv6Packet(pkt)
    requires pkt.l4proto == Some(6) && p.hostPort >= 0 && DestPort(pkt) == Some(p.hostPort)
    ensures h.IPv6(p.guestIP).Some? && p.guestPort >= 0
    ensures var t := Run(h, EMPTY_TABLE, d.UpOps());
            var addr := h.IPv6(p.guestIP).value;
            && RunChain(h.littleEndian, t.prerouting, pkt, regs, Accept) == Redirect(addr, p.guestPort)
            && RunChain(h.littleEndian, t.forward, Rewrite(pkt, addr, p.guestPort), regs, Drop) == Accept
  {
    hide SpecsOf, RuleSpecsOf, Run, RunChain, RulesValid, PortsValid, PortsOk, Compile, PortGrants;
    PortsInRange(h, d);
    RedirectedTo(h, d, p, pkt, regs);
    var addr := h.IPv6(p.guestIP).value;
    RewrittenGrants(h, p, pkt, addr);
    AcceptedAt(h, d, p, Rewrite(pkt, addr, p.guestPort), regs);
  }

  /** A TCP packet for a published host port is redirected to that service's
      address and guest port, and the redirected packet passes the default-deny
      forward chain. */
  lemma PublishedPortReachesGuest(h: Host, d: Deployment, svc: string, i: int, host: int, guest: int, pkt: Packet, regs: Registers)
    requires d.Ready(h) && IPv6Packet(pkt)
    requires svc in d.selected && At(d.services, svc, i)
    requires pkt.l4proto == Some(6) && DestPort(pkt).Some? && DestPort(pkt).value == host
    ensures MapsTo(d.services[svc][i], host, guest) ==>
              && svc in d.addrs && h.IPv6(d.addrs[svc]).Some? && guest >= 0
              && var t := Run(h, EMPTY_TABLE, d.UpOps());
                 var addr := h.IPv6(d.addrs[svc]).value;
                 && RunChain(h.littleEndian, t.prerouting, pkt, regs, Accept) == Redirect(addr, guest)
                 && RunChain(h.littleEndian, t.forward, Rewrite(pkt, addr, guest), regs, Drop) == Accept
  {
    if MapsTo(d.services[svc][i], host, guest) {
      ParsePortIs(d.services[svc][i], host, guest);
      var p := SpecAt(h, d, svc, i);
      SpecReachesGuest(h, d, p, pkt, regs);
    }
  }
}
