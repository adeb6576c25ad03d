/** The daemon's operations on the "microbe" table: rules are added unless
    their tag is already there, and deleted by tag. */
module NftTable {
  import opened Common
  import opened NftMachine
  import opened NftCompile

  /** The rules of the table's chains; a chain that does not exist has none. */
  datatype Table = Table(prerouting: seq<Rule>, forward: seq<Rule>, output: seq<Rule>, postrouting: seq<Rule>)

  const EMPTY_TABLE := Table([], [], [], [])
  const LEGACY_MASQUERADE := "microbe-masq-loopback"

  // ---- specification: chains as sequences keyed by tag ----

  function Tags(rules: seq<Rule>): set<string> {
    set r | r in rules :: r.tag
  }

  /** The rules whose tag is not among tags, in order. */
  function Absent(rules: seq<Rule>, tags: set<string>): seq<Rule> {
    if rules == [] then []
    else
      var last := rules[|rules| - 1];
      Absent(rules[..|rules| - 1], tags) + (if last.tag in tags then [] else [last])
  }

  function WithoutPrefix(rules: seq<Rule>, prefix: string): seq<Rule> {
    if rules == [] then []
    else
      var last := rules[|rules| - 1];
      WithoutPrefix(rules[..|rules| - 1], prefix) + (if prefix <= last.tag then [] else [last])
  }

  function AddMissing(chain: seq<Rule>, wanted: seq<Rule>): seq<Rule> {
    chain + Absent(wanted, Tags(chain))
  }

  function OrNothing(es: Option<seq<Expr>>): seq<Expr> {
    if es.Some? then es.value else []
  }

  function DnatRule(h: Host, p: PortSpec): Rule {
    Rule(DnatTag(p), OrNothing(DnatExprs(h, p)))
  }

  function PortRule(h: Host, p: PortSpec): Rule {
    Rule(PortTag(p), OrNothing(PortAcceptExprs(h, p)))
  }

  function ServiceRule(h: Host, r: RuleSpec): Rule {
    Rule(RuleTag(r), OrNothing(RuleExprs(h, r)))
  }

  function EstablishedRule(h: Host): Rule {
    Rule(ESTABLISHED_TAG, EstablishedExprs(h))
  }

  function DnatRules(h: Host, ports: seq<PortSpec>): seq<Rule> {
    seq(|ports|, i requires 0 <= i < |ports| => DnatRule(h, ports[i]))
  }

  function PortRules(h: Host, ports: seq<PortSpec>): seq<Rule> {
    seq(|ports|, i requires 0 <= i < |ports| => PortRule(h, ports[i]))
  }

  function ServiceRules(h: Host, rules: seq<RuleSpec>): seq<Rule> {
    seq(|rules|, i requires 0 <= i < |rules| => ServiceRule(h, rules[i]))
  }

  function WithEstablished(h: Host, forward: seq<Rule>): seq<Rule> {
    if ESTABLISHED_TAG in Tags(forward) then forward else forward + [EstablishedRule(h)]
  }

  function Ensured(h: Host, t: Table): Table {
    t.(forward := WithEstablished(h, t.forward))
  }

  function Pruned(t: Table): Table {
    t.(output := WithoutPrefix(t.output, DNAT_PREFIX), postrouting := Absent(t.postrouting, {LEGACY_MASQUERADE}))
  }

  predicate PortsOk(h: Host, ports: seq<PortSpec>) {
    forall p :: p in ports ==> h.IPv6(p.guestIP).Some?
  }

  /** A rule already present is not compiled again, so only new ones can fail. */
  predicate RulesOk(h: Host, t: Table, rules: seq<RuleSpec>) {
    forall r :: r in rules && RuleTag(r) !in Tags(t.forward) ==> RuleExprs(h, r).Some?
  }

  function PortsApplied(h: Host, t: Table, ports: seq<PortSpec>): Table {
    var t' := Ensured(h, Pruned(t));
    if !PortsOk(h, ports) then t'
    else t'.(prerouting := AddMissing(t'.prerouting, DnatRules(h, ports)),
             forward := AddMissing(t'.forward, PortRules(h, ports)))
  }

  function PortsTornDown(h: Host, t: Table, ports: seq<PortSpec>): Table {
    var t' := Ensured(h, t);
    t'.(prerouting := Absent(t'.prerouting, Tags(DnatRules(h, ports))),
        forward := Absent(t'.forward, Tags(PortRules(h, ports))))
  }

  function RulesApplied(h: Host, t: Table, rules: seq<RuleSpec>): Table {
    var t' := Ensured(h, t);
    if !RulesOk(h, t', rules) then t'
    else t'.(forward := AddMissing(t'.forward, ServiceRules(h, rules)))
  }

  function RulesTornDown(h: Host, t: Table, rules: seq<RuleSpec>): Table {
    var t' := Ensured(h, t);
    t'.(forward := Absent(t'.forward, Tags(ServiceRules(h, rules))))
  }

  /** Which rules of the old host-local access are gone, and which stay. */
  lemma PrunedIs(t: Table)
    ensures forall x :: x in Pruned(t).output <==> x in t.output && !("microbe:" <= x.tag)
    ensures forall x :: x in Pruned(t).postrouting <==> x in t.postrouting && x.tag != "microbe-masq-loopback"
  {
    WithoutIs(t.output, "microbe:");
    AbsentMembers(t.postrouting, {"microbe-masq-loopback"});
  }

  lemma {:induction false} WithoutIs(rules: seq<Rule>, prefix: string)
    ensures forall x :: x in WithoutPrefix(rules, prefix) <==> x in rules && !(prefix <= x.tag)
  {
    if rules == [] {
    } else {
      WithoutIs(rules[..|rules| - 1], prefix);
      assert forall x :: x in rules <==> x in rules[..|rules| - 1] || x == rules[|rules| - 1];
    }
  }

  lemma {:induction false} AbsentMembers(rules: seq<Rule>, tags: set<string>)
    ensures forall x :: x in Absent(rules, tags) <==> x in rules && x.tag !in tags
  {
    if rules == [] {
    } else {
      AbsentMembers(rules[..|rules| - 1], tags);
      assert forall x :: x in rules <==> x in rules[..|rules| - 1] || x == rules[|rules| - 1];
    }
  }

  /** A spec list is accepted exactly when the daemon takes every address in it. */
  lemma PortsOkIs(h: Host, ports: seq<PortSpec>)
    ensures PortsOk(h, ports) <==> forall p :: p in ports ==> TakesAddress(h, p.guestIP)
  {
    hide NoIPv4Form, V4Mapped;
    forall p | p in ports { AcceptedAddresses(h, p.guestIP); }
  }

  predicate NewTag(chain: seq<Rule>, tag: string) {
    forall x :: x in chain ==> x.tag != tag
  }

  lemma RulesOkIs(h: Host, t: Table, rules: seq<RuleSpec>)
    ensures RulesOk(h, Ensured(h, t), rules) <==>
            forall r :: r in rules && NewTag(t.forward, RuleTag(r)) ==> TakesAddress(h, r.from) && TakesAddress(h, r.to)
  {
    hide TakesAddress, EstablishedExprs, RuleExprs, RuleTag, Ensured, Tags, NewTag;
    forall r | r in rules
      ensures RuleTag(r) !in Tags(Ensured(h, t).forward) <==> NewTag(t.forward, RuleTag(r))
      ensures RuleExprs(h, r).Some? <==> TakesAddress(h, r.from) && TakesAddress(h, r.to)
    {
      RuleCompiles(h, r);
      TagInEnsured(h, t, r);
    }
  }

  lemma RuleCompiles(h: Host, r: RuleSpec)
    ensures RuleExprs(h, r).Some? <==> TakesAddress(h, r.from) && TakesAddress(h, r.to)
  {
    hide NoIPv4Form, V4Mapped;
    AcceptedAddresses(h, r.from);
    AcceptedAddresses(h, r.to);
  }

  lemma TagInEnsured(h: Host, t: Table, r: RuleSpec)
    ensures RuleTag(r) !in Tags(Ensured(h, t).forward) <==> NewTag(t.forward, RuleTag(r))
  {
    TagClassesDisjoint(PortSpec(0, "", 0), PortSpec(0, "", 0), r);
    hide RuleTag, DnatTag, PortTag, EstablishedExprs;
    assert RuleTag(r) != ESTABLISHED_TAG;
  }

  /** The established rule is appended exactly when no rule carries its tag. */
  lemma EnsuredForward(h: Host, t: Table)
    ensures Ensured(h, t).forward ==
            if exists x :: x in t.forward && x.tag == "microbe-fwd-established" then t.forward else t.forward + [EstablishedRule(h)]
  {
    hide EstablishedExprs;
  }

  lemma Snoc(rules: seq<Rule>, r: Rule, tags: set<string>)
    ensures Absent(rules + [r], tags) == Absent(rules, tags) + (if r.tag in tags then [] else [r])
    ensures Tags(rules + [r]) == Tags(rules) + {r.tag}
  {
    assert (rules + [r])[..|rules|] == rules;
  }

  lemma TagsHavePrefix(p: PortSpec, r: RuleSpec)
    ensures DNAT_PREFIX <= DnatTag(p) && DnatTag(p) != ""
    ensures PORT_PREFIX <= PortTag(p) && PortTag(p) != ""
    ensures RULE_PREFIX <= RuleTag(r) && RuleTag(r) != ""
  {
  }

  lemma NoTags(h: Host)
    ensures Tags(DnatRules(h, [])) == {} && Tags(PortRules(h, [])) == {} && Tags(ServiceRules(h, [])) == {}
  {
  }

  lemma NoneAbsent(h: Host, pre: set<string>, fwd: set<string>)
    ensures Absent(DnatRules(h, []), pre) == [] && Absent(PortRules(h, []), fwd) == []
  {
  }

  lemma DnatRulesSnoc(h: Host, ports: seq<PortSpec>, i: nat, tags: set<string>)
    requires i < |ports|
    ensures var before, after := DnatRules(h, ports[..i]), DnatRules(h, ports[..i + 1]);
            var tag := DnatTag(ports[i]);
            && Tags(after) == Tags(before) + {tag}
            && Absent(after, tags) == Absent(before, tags) + (if tag in tags then [] else [DnatRule(h, ports[i])])
  {
    hide DnatTag, DnatExprs;
    assert DnatRules(h, ports[..i + 1]) == DnatRules(h, ports[..i]) + [DnatRule(h, ports[i])];
    Snoc(DnatRules(h, ports[..i]), DnatRule(h, ports[i]), tags);
  }

  lemma PortRulesSnoc(h: Host, ports: seq<PortSpec>, i: nat, tags: set<string>)
    requires i < |ports|
    ensures var before, after := PortRules(h, ports[..i]), PortRules(h, ports[..i + 1]);
            var tag := PortTag(ports[i]);
            && Tags(after) == Tags(before) + {tag}
            && Absent(after, tags) == Absent(before, tags) + (if tag in tags then [] else [PortRule(h, ports[i])])
  {
    hide PortTag, PortAcceptExprs;
    assert PortRules(h, ports[..i + 1]) == PortRules(h, ports[..i]) + [PortRule(h, ports[i])];
    Snoc(PortRules(h, ports[..i]), PortRule(h, ports[i]), tags);
  }

  lemma ServiceRulesSnoc(h: Host, rules: seq<RuleSpec>, i: nat, tags: set<string>)
    requires i < |rules|
    ensures var before, after := ServiceRules(h, rules[..i]), ServiceRules(h, rules[..i + 1]);
            var tag := RuleTag(rules[i]);
            && Tags(after) == Tags(before) + {tag}
            && Absent(after, tags) == Absent(before, tags) + (if tag in tags then [] else [ServiceRule(h, rules[i])])
  {
    hide RuleTag, RuleExprs;
    assert ServiceRules(h, rules[..i + 1]) == ServiceRules(h, rules[..i]) + [ServiceRule(h, rules[i])];
    Snoc(ServiceRules(h, rules[..i]), ServiceRule(h, rules[i]), tags);
  }

  // ---- the daemon's code ----

  /** userDataFingerprint: the rule's tag if it carries the prefix, else "". */
  function UserDataFingerprint(tag: string, prefix: string): string {
    if prefix <= tag then tag else ""
  }

  method FingerprintSet(rules: seq<Rule>, prefix: string) returns (have: set<string>)
    ensures forall fp :: fp in have <==> fp in Tags(rules) && prefix <= fp && fp != ""
  {
    have := {};
    for i := 0 to |rules|
      invariant forall fp :: fp in have <==> fp in Tags(rules[..i]) && prefix <= fp && fp != ""
    {
      assert rules[..i + 1] == rules[..i] + [rules[i]];
      var tag := UserDataFingerprint(rules[i].tag, prefix);
      if tag != "" {
        have := have + {tag};
      }
    }
    assert rules[..|rules|] == rules;
  }

  /** The kernel's table, changed in place. Additions and deletions are queued
      and take effect together when they are flushed. */
  class Kernel {
    var prerouting: seq<Rule>
    var forward: seq<Rule>
    var output: seq<Rule>
    var postrouting: seq<Rule>

    constructor ()
      ensures Contents() == EMPTY_TABLE
    {
      prerouting, forward, output, postrouting := [], [], [], [];
    }

    function Contents(): Table
      reads this
    {
      Table(prerouting, forward, output, postrouting)
    }

    method EnsureForwardChain(h: Host)
      modifies this`forward
      ensures Contents() == Ensured(h, old(Contents()))
      ensures forward == if exists x :: x in old(forward) && x.tag == "microbe-fwd-established" then old(forward)
                         else old(forward) + [EstablishedRule(h)]
    {
      EnsuredForward(h, Contents());
      for i := 0 to |forward|
        invariant ESTABLISHED_TAG !in Tags(forward[..i])
        invariant forward == old(forward)
      {
        assert forward[..i + 1] == forward[..i] + [forward[i]];
        if forward[i].tag == ESTABLISHED_TAG {
          return;
        }
      }
      assert forward[..|forward|] == forward;
      forward := forward + [EstablishedRule(h)];
    }

    method PruneLegacyHostLocalNAT()
      modifies this`output, this`postrouting
      ensures Contents() == Pruned(old(Contents()))
      ensures forall x :: x in output <==> x in old(output) && !("microbe:" <= x.tag)
      ensures forall x :: x in postrouting <==> x in old(postrouting) && x.tag != "microbe-masq-loopback"
    {
      PrunedIs(Contents());
      var kept: seq<Rule> := [];
      for i := 0 to |output|
        invariant kept == WithoutPrefix(output[..i], DNAT_PREFIX)
      {
        assert output[..i + 1][..i] == output[..i];
        if UserDataFingerprint(output[i].tag, DNAT_PREFIX) == "" {
          kept := kept + [output[i]];
        }
      }
      assert output[..|output|] == output;
      var kept' := DeleteTagged(postrouting, LEGACY_MASQUERADE, {LEGACY_MASQUERADE});
      output, postrouting := kept, kept';
    }

    /** Delete every rule whose tag has the prefix and is wanted. */
    method DeleteTagged(rules: seq<Rule>, prefix: string, want: set<string>) returns (kept: seq<Rule>)
      requires forall fp :: fp in want ==> prefix <= fp && fp != ""
      ensures kept == Absent(rules, want)
    {
      kept := [];
      for i := 0 to |rules|
        invariant kept == Absent(rules[..i], want)
      {
        assert rules[..i + 1][..i] == rules[..i];
        if UserDataFingerprint(rules[i].tag, prefix) !in want {
          kept := kept + [rules[i]];
        }
      }
      assert rules[..|rules|] == rules;
    }

    method ApplyPorts(h: Host, ports: seq<PortSpec>) returns (ok: bool)
      modifies this
      ensures ok <==> PortsOk(h, ports)
      ensures Contents() == PortsApplied(h, old(Contents()), ports)
      ensures ok <==> forall p :: p in ports ==> TakesAddress(h, p.guestIP)
      ensures !ok ==> prerouting == old(prerouting)
      ensures forall x :: x in output <==> x in old(output) && !("microbe:" <= x.tag)
      ensures forall x :: x in postrouting <==> x in old(postrouting) && x.tag != "microbe-masq-loopback"
    {
      hide DnatTag, PortTag, TakesAddress;
      PortsOkIs(h, ports);
      PrunedIs(Contents());
      var preExisting := prerouting;
      PruneLegacyHostLocalNAT();
      EnsureForwardChain(h);
      var haveInPre := FingerprintSet(preExisting, DNAT_PREFIX);
      var haveInFwd := FingerprintSet(forward, PORT_PREFIX);
      var addPre, addFwd;
      ok, addPre, addFwd := QueuePorts(h, ports, haveInPre, haveInFwd, Tags(prerouting), Tags(forward));
      if ok {
        prerouting, forward := prerouting + addPre, forward + addFwd;
      }
    }

    /** The loop of ApplyPorts: what it queues, or failure on the first spec
        that does not compile. */
    method QueuePorts(h: Host, ports: seq<PortSpec>, haveInPre: set<string>, haveInFwd: set<string>,
                      ghost pre: set<string>, ghost fwd: set<string>)
      returns (ok: bool, addPre: seq<Rule>, addFwd: seq<Rule>)
      requires forall fp :: fp in haveInPre <==> fp in pre && DNAT_PREFIX <= fp && fp != ""
      requires forall fp :: fp in haveInFwd <==> fp in fwd && PORT_PREFIX <= fp && fp != ""
      ensures ok <==> PortsOk(h, ports)
      ensures ok ==> addPre == Absent(DnatRules(h, ports), pre) && addFwd == Absent(PortRules(h, ports), fwd)
    {
      hide DnatTag, PortTag, MatchPayload, MatchProto, BE16, V4Mapped, Tags, Absent, DnatRules, PortRules;
      NoneAbsent(h, pre, fwd);
      addPre, addFwd := [], [];
      for i := 0 to |ports|
        invariant PortsOk(h, ports[..i])
        invariant addPre == Absent(DnatRules(h, ports[..i]), pre)
        invariant addFwd == Absent(PortRules(h, ports[..i]), fwd)
      {
        var port := ports[i];
        assert ports[..i + 1] == ports[..i] + [port] && port in ports;
        TagsHavePrefix(port, RuleSpec("", "", "", 0));
        DnatRulesSnoc(h, ports, i, pre);
        PortRulesSnoc(h, ports, i, fwd);
        var exprs := DnatExprs(h, port);
        if exprs.None? {
          return false, [], [];
        }
        if DnatTag(port) !in haveInPre {
          addPre := addPre + [Rule(DnatTag(port), exprs.value)];
        }
        if PortTag(port) !in haveInFwd {
          var fwdExprs := PortAcceptExprs(h, port);
          if fwdExprs.None? {
            return false, [], [];
          }
          addFwd := addFwd + [Rule(PortTag(port), fwdExprs.value)];
        }
      }
      assert ports[..|ports|] == ports;
      return true, addPre, addFwd;
    }

    method TeardownPorts(h: Host, ports: seq<PortSpec>)
      modifies this
      ensures Contents() == PortsTornDown(h, old(Contents()), ports)
    {
      hide DnatTag, PortTag, RuleTag, Tags, Absent, WithEstablished, DnatRules, PortRules;
      NoTags(h);
      var want: set<string>, wantFwd: set<string> := {}, {};
      for i := 0 to |ports|
        invariant Contents() == old(Contents())
        invariant want == Tags(DnatRules(h, ports[..i])) && wantFwd == Tags(PortRules(h, ports[..i]))
        invariant forall fp :: fp in want ==> DNAT_PREFIX <= fp && fp != ""
        invariant forall fp :: fp in wantFwd ==> PORT_PREFIX <= fp && fp != ""
      {
        TagsHavePrefix(ports[i], RuleSpec("", "", "", 0));
        DnatRulesSnoc(h, ports, i, {});
        PortRulesSnoc(h, ports, i, {});
        want := want + {DnatTag(ports[i])};
        wantFwd := wantFwd + {PortTag(ports[i])};
      }
      assert ports[..|ports|] == ports;
      var keptPre := DeleteTagged(prerouting, DNAT_PREFIX, want);
      EnsureForwardChain(h);
      var keptFwd := DeleteTagged(forward, PORT_PREFIX, wantFwd);
      prerouting, forward := keptPre, keptFwd;
    }

    method ApplyRules(h: Host, rules: seq<RuleSpec>) returns (ok: bool)
      modifies this
      ensures ok <==> RulesOk(h, Ensured(h, old(Contents())), rules)
      ensures Contents() == RulesApplied(h, old(Contents()), rules)
      ensures ok <==> forall r :: r in rules && NewTag(old(forward), RuleTag(r)) ==> TakesAddress(h, r.from) && TakesAddress(h, r.to)
    {
      hide DnatTag, PortTag, RuleTag, RuleExprs, TakesAddress;
      RulesOkIs(h, Contents(), rules);
      EnsureForwardChain(h);
      var have := FingerprintSet(forward, RULE_PREFIX);
      var add: seq<Rule> := [];
      for i := 0 to |rules|
        invariant Contents() == Ensured(h, old(Contents()))
        invariant RulesOk(h, Contents(), rules[..i])
        invariant add == Absent(ServiceRules(h, rules[..i]), Tags(forward))
      {
        var r := rules[i];
        assert rules[..i + 1] == rules[..i] + [r];
        TagsHavePrefix(PortSpec(0, "", 0), r);
        ServiceRulesSnoc(h, rules, i, Tags(forward));
        if RuleTag(r) !in have {
          var exprs := RuleExprs(h, r);
          if exprs.None? {
            assert r in rules;
            return false;
          }
          add := add + [Rule(RuleTag(r), exprs.value)];
        }
      }
      assert rules[..|rules|] == rules;
      forward := forward + add;
      return true;
    }

    method TeardownRules(h: Host, rules: seq<RuleSpec>)
      modifies this
      ensures Contents() == RulesTornDown(h, old(Contents()), rules)
    {
      hide DnatTag, PortTag, RuleTag, RuleExprs;
      EnsureForwardChain(h);
      var want: set<string> := {};
      for i := 0 to |rules|
        invariant Contents() == Ensured(h, old(Contents()))
        invariant want == Tags(ServiceRules(h, rules[..i]))
        invariant forall fp :: fp in want ==> RULE_PREFIX <= fp && fp != ""
      {
        TagsHavePrefix(PortSpec(0, "", 0), rules[i]);
        ServiceRulesSnoc(h, rules, i, {});
        want := want + {RuleTag(rules[i])};
      }
      assert rules[..|rules|] == rules;
      var kept := DeleteTagged(forward, RULE_PREFIX, want);
      forward := kept;
    }
  }
}
