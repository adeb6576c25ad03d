/** Runs of the daemon's table operations: they implement set union and
    difference of specs, and the chains they build mean what the specs say. */
module NftRuns {
  import opened Common
  import opened NftMachine
  import opened NftCompile
  import opened NftTable

  datatype Op =
    | ApplyPorts(ports: seq<PortSpec>)
    | TeardownPorts(ports: seq<PortSpec>)
    | ApplyRules(rules: seq<RuleSpec>)
    | TeardownRules(rules: seq<RuleSpec>)
    | EnsureForward

  /** The table after one call; what Kernel's methods are proved to do. */
  function Step(h: Host, t: Table, op: Op): Table {
    match op
    case ApplyPorts(ps) => PortsApplied(h, t, ps)
    case TeardownPorts(ps) => PortsTornDown(h, t, ps)
    case ApplyRules(rs) => RulesApplied(h, t, rs)
    case TeardownRules(rs) => RulesTornDown(h, t, rs)
    case EnsureForward => Ensured(h, t)
  }

  function Run(h: Host, t: Table, ops: seq<Op>): Table {
    if ops == [] then t else Step(h, Run(h, t, ops[..|ops| - 1]), ops[|ops| - 1])
  }

  // ---- the simple form: sets of specs ----

  /** `accepts` holds published endpoints, that is port specs with host port 0. */
  datatype Policy = Policy(dnat: set<PortSpec>, accepts: set<PortSpec>, rules: set<RuleSpec>)

  function Endpoint(p: PortSpec): PortSpec {
    p.(hostPort := 0)
  }

  function Endpoints(ports: seq<PortSpec>): set<PortSpec> {
    set p | p in ports :: Endpoint(p)
  }

  predicate Compile(h: Host, rules: seq<RuleSpec>) {
    forall r :: r in rules ==> RuleExprs(h, r).Some?
  }

  function PolicyStep(h: Host, a: Policy, op: Op): Policy {
    match op
    case ApplyPorts(ps) =>
      if PortsOk(h, ps) then a.(dnat := a.dnat + Items(ps), accepts := a.accepts + Endpoints(ps)) else a
    case TeardownPorts(ps) =>
      a.(dnat := a.dnat - Items(ps), accepts := a.accepts - Endpoints(ps))
    case ApplyRules(rs) =>
      if Compile(h, rs) then a.(rules := a.rules + Items(rs)) else a
    case TeardownRules(rs) =>
      a.(rules := a.rules - Items(rs))
    case EnsureForward => a
  }

  function PolicyRun(h: Host, a: Policy, ops: seq<Op>): Policy {
    if ops == [] then a else PolicyStep(h, PolicyRun(h, a, ops[..|ops| - 1]), ops[|ops| - 1])
  }

  predicate TidyOp(op: Op) {
    (op.ApplyRules? || op.TeardownRules?) ==> forall r :: r in op.rules ==> Tidy(r)
  }

  // ---- tags as keys ----

  lemma AbsentOne(r: Rule, tags: set<string>)
    ensures Absent([r], tags) == if r.tag in tags then [] else [r]
  {
    assert [r][..0] == [] && Absent([], tags) == [];
  }

  lemma AbsentLast(rules: seq<Rule>, tags: set<string>)
    requires rules != []
    ensures Absent(rules, tags) == Absent(rules[..|rules| - 1], tags) + Absent([rules[|rules| - 1]], tags)
  {
    AbsentOne(rules[|rules| - 1], tags);
  }

  lemma {:induction false} AbsentConcat(c: seq<Rule>, d: seq<Rule>, tags: set<string>)
    ensures Absent(c + d, tags) == Absent(c, tags) + Absent(d, tags)
  {
    if d == [] {
      assert c + d == c;
    } else {
      var init := d[..|d| - 1];
      AbsentLast(d, tags);
      AbsentLast(c + d, tags);
      hide Absent;
      AbsentConcat(c, init, tags);
      assert (c + d)[..|c + d| - 1] == c + init && (c + d)[|c + d| - 1] == d[|d| - 1];
    }
  }

  lemma AbsentInit(c: seq<Rule>, tags: set<string>) returns (init: seq<Rule>, last: Rule)
    requires c != []
    ensures c == init + [last] && |init| < |c| && last in c && forall r :: r in init ==> r in c
    ensures Absent(c, tags) == Absent(init, tags) + (if last.tag in tags then [] else [last])
  {
    init, last := c[..|c| - 1], c[|c| - 1];
  }

  lemma {:induction false} AbsentNone(c: seq<Rule>, tags: set<string>)
    requires forall r :: r in c ==> r.tag !in tags
    ensures Absent(c, tags) == c
    decreases |c|
  {
    if c == [] {
    } else {
      hide Absent;
      var init, last := AbsentInit(c, tags);
      AbsentNone(init, tags);
    }
  }

  lemma {:induction false} AbsentAll(c: seq<Rule>, tags: set<string>)
    requires forall r :: r in c ==> r.tag in tags
    ensures Absent(c, tags) == []
  {
    if c == [] {
    } else {
      AbsentAll(c[..|c| - 1], tags);
    }
  }

  ghost predicate Keyed(rules: set<Rule>) {
    forall x, y :: x in rules && y in rules && x.tag == y.tag ==> x == y
  }

  /** Where tags are keys, adding by tag is union and deleting by tag difference. */
  lemma KeyedChains(c: seq<Rule>, w: seq<Rule>)
    requires Keyed(Items(c) + Items(w))
    ensures Items(AddMissing(c, w)) == Items(c) + Items(w)
    ensures Items(Absent(c, Tags(w))) == Items(c) - Items(w)
  {
    AbsentMembers(w, Tags(c));
    AbsentMembers(c, Tags(w));
    forall q, r | q in c && r in w && q.tag == r.tag ensures q == r {
      assert q in Items(c) && r in Items(w);
    }
    assert forall r :: r in w ==> r in c || r.tag !in Tags(c);
    assert forall r :: r in c ==> r in w || r.tag !in Tags(w);
  }

  // ---- representation ----

  function DnatSet(h: Host, s: set<PortSpec>): set<Rule> {
    set p | p in s :: DnatRule(h, p)
  }

  function PortSet(h: Host, s: set<PortSpec>): set<Rule> {
    set p | p in s :: PortRule(h, p)
  }

  function ServiceSet(h: Host, s: set<RuleSpec>): set<Rule> {
    set r | r in s :: ServiceRule(h, r)
  }

  ghost predicate WellFormed(h: Host, a: Policy) {
    && (forall p :: p in a.dnat ==> h.IPv6(p.guestIP).Some?)
    && (forall p :: p in a.accepts ==> h.IPv6(p.guestIP).Some? && p == Endpoint(p))
    && (forall r :: r in a.rules ==> RuleExprs(h, r).Some? && Tidy(r))
  }

  /** A chain that starts with `first`, has its tag nowhere else, and otherwise
      holds exactly the rules in `rest`. */
  ghost predicate Holds(c: seq<Rule>, first: Rule, rest: set<Rule>) {
    c != [] && c[0] == first && first.tag !in Tags(c[1..]) && Items(c) == {first} + rest
  }

  function Granted(h: Host, a: Policy): set<Rule> {
    PortSet(h, a.accepts) + ServiceSet(h, a.rules)
  }

  /** The chains hold exactly the compiled specs of the policy, and the
      established rule is the first of the forward chain and its only one. */
  ghost predicate Represents(h: Host, t: Table, a: Policy) {
    && WellFormed(h, a)
    && Items(t.prerouting) == DnatSet(h, a.dnat)
    && if t.forward == [] then a.accepts == {} && a.rules == {}
       else Holds(t.forward, EstablishedRule(h), Granted(h, a))
  }

  ghost predicate IsDnatRule(h: Host, x: Rule) {
    exists p :: x == DnatRule(h, p)
  }

  ghost predicate IsForwardRule(h: Host, x: Rule) {
    || x == EstablishedRule(h)
    || (exists p: PortSpec :: x == PortRule(h, p) && p == Endpoint(p))
    || (exists r :: x == ServiceRule(h, r) && Tidy(r))
  }

  lemma DnatKeyed(h: Host, rules: set<Rule>)
    requires forall x :: x in rules ==> IsDnatRule(h, x)
    ensures Keyed(rules)
  {
    forall x, y | x in rules && y in rules && x.tag == y.tag ensures x == y {
      var p :| x == DnatRule(h, p);
      var q :| y == DnatRule(h, q);
      DnatTagInjective(p, q);
    }
  }

  lemma ForwardKeyed(h: Host, rules: set<Rule>)
    requires forall x :: x in rules ==> IsForwardRule(h, x)
    ensures Keyed(rules)
  {
    forall x, y | x in rules && y in rules && x.tag == y.tag ensures x == y {
      SameForwardTag(h, x, y);
    }
  }

  /** Which kind of forward rule a tag belongs to. */
  function Kind(tag: string): nat {
    if |tag| <= 12 then 0 else if tag[8] == 'p' then 1 else if tag[12] == 's' then 2 else 3
  }

  lemma Kinds()
    ensures Kind(ESTABLISHED_TAG) == 3
    ensures forall p :: Kind(PortTag(p)) == 1
    ensures forall r :: Kind(RuleTag(r)) == 2
  {
    forall p ensures Kind(PortTag(p)) == 1 {
      assert PortTag(p)[8] == 'p';
    }
    forall r ensures Kind(RuleTag(r)) == 2 {
      assert RuleTag(r)[8] == 'f' && RuleTag(r)[12] == 's';
    }
  }

  lemma SameForwardTag(h: Host, x: Rule, y: Rule)
    requires IsForwardRule(h, x) && IsForwardRule(h, y) && x.tag == y.tag
    ensures x == y
  {
    Kinds();
    if Kind(x.tag) == 1 {
      var p: PortSpec :| x == PortRule(h, p) && p == Endpoint(p);
      var q: PortSpec :| y == PortRule(h, q) && q == Endpoint(q);
      PortTagInjective(p, q);
    } else if Kind(x.tag) == 2 {
      var r :| x == ServiceRule(h, r) && Tidy(r);
      var s :| y == ServiceRule(h, s) && Tidy(s);
      RuleTagInjective(r, s);
    }
  }

  /** The classes of forward rules do not meet. */
  lemma ClassesDisjoint(h: Host, s: set<PortSpec>, q: set<RuleSpec>)
    ensures PortSet(h, s) !! ServiceSet(h, q)
    ensures EstablishedRule(h) !in PortSet(h, s) && EstablishedRule(h) !in ServiceSet(h, q)
  {
    Kinds();
    assert forall x :: x in PortSet(h, s) ==> Kind(x.tag) == 1;
    assert forall x :: x in ServiceSet(h, q) ==> Kind(x.tag) == 2;
    assert Kind(EstablishedRule(h).tag) == 3;
  }

  lemma PortRulesItems(h: Host, ports: seq<PortSpec>)
    ensures Items(DnatRules(h, ports)) == DnatSet(h, Items(ports))
    ensures Items(PortRules(h, ports)) == PortSet(h, Endpoints(ports))
  {
    var d, q := DnatRules(h, ports), PortRules(h, ports);
    forall p | p in ports ensures DnatRule(h, p) in d && PortRule(h, Endpoint(p)) in q {
      var i :| 0 <= i < |ports| && ports[i] == p;
      assert d[i] == DnatRule(h, p) && q[i] == PortRule(h, Endpoint(p));
    }
    forall x | x in q ensures x in PortSet(h, Endpoints(ports)) {
      var i :| 0 <= i < |ports| && q[i] == x;
      assert Endpoint(ports[i]) in Endpoints(ports) && x == PortRule(h, Endpoint(ports[i]));
    }
  }

  lemma ServiceRulesItems(h: Host, rules: seq<RuleSpec>)
    ensures Items(ServiceRules(h, rules)) == ServiceSet(h, Items(rules))
  {
    var s := ServiceRules(h, rules);
    forall r | r in rules ensures ServiceRule(h, r) in s {
      var i :| 0 <= i < |rules| && rules[i] == r;
      assert s[i] == ServiceRule(h, r);
    }
  }

  lemma DnatSetDifference(h: Host, s: set<PortSpec>, d: set<PortSpec>)
    ensures DnatSet(h, s - d) == DnatSet(h, s) - DnatSet(h, d)
    ensures DnatSet(h, s + d) == DnatSet(h, s) + DnatSet(h, d)
  {
    forall p, q | p in s && q in d && DnatRule(h, p) == DnatRule(h, q) ensures p == q {
      DnatTagInjective(p, q);
    }
  }

  lemma PortSetDifference(h: Host, s: set<PortSpec>, d: set<PortSpec>)
    requires forall p :: p in s || p in d ==> p == Endpoint(p)
    ensures PortSet(h, s - d) == PortSet(h, s) - PortSet(h, d)
    ensures PortSet(h, s + d) == PortSet(h, s) + PortSet(h, d)
  {
    forall p, q | p in s && q in d && PortRule(h, p) == PortRule(h, q) ensures p == q {
      PortTagInjective(p, q);
    }
  }

  lemma ServiceSetDifference(h: Host, s: set<RuleSpec>, d: set<RuleSpec>)
    requires forall r :: r in s || r in d ==> Tidy(r)
    ensures ServiceSet(h, s - d) == ServiceSet(h, s) - ServiceSet(h, d)
    ensures ServiceSet(h, s + d) == ServiceSet(h, s) + ServiceSet(h, d)
  {
    forall p, q | p in s && q in d && ServiceRule(h, p) == ServiceRule(h, q) ensures p == q {
      RuleTagInjective(p, q);
    }
  }

  // ---- one step refines set union and difference ----

  lemma OthersTagged(c: seq<Rule>, first: Rule, w: seq<Rule>)
    requires first in c && Keyed(Items(c) + Items(w)) && first !in Items(w)
    ensures first.tag !in Tags(w)
  {
    var all := Items(c) + Items(w);
    assert first in all && forall x :: x in w ==> x in all;
  }

  /** Adding or deleting rules other than the first keeps it first and unique. */
  lemma HoldsAdded(c: seq<Rule>, first: Rule, rest: set<Rule>, w: seq<Rule>)
    requires Holds(c, first, rest) && Keyed(Items(c) + Items(w)) && first !in Items(w)
    ensures Holds(AddMissing(c, w), first, rest + Items(w))
  {
    hide Keyed;
    KeyedChains(c, w);
    OthersTagged(c, first, w);
    AbsentMembers(w, Tags(c));
    assert AddMissing(c, w)[1..] == c[1..] + Absent(w, Tags(c));
  }

  lemma AbsentTags(c: seq<Rule>, tags: set<string>)
    ensures Tags(Absent(c, tags)) == Tags(c) - tags
  {
    AbsentMembers(c, tags);
  }

  lemma HoldsDeleted(c: seq<Rule>, first: Rule, rest: set<Rule>, w: seq<Rule>)
    requires Holds(c, first, rest) && Keyed(Items(c) + Items(w)) && first !in Items(w)
    ensures Holds(Absent(c, Tags(w)), first, rest - Items(w))
  {
    hide Keyed, Tags;
    KeyedChains(c, w);
    OthersTagged(c, first, w);
    AbsentConcat([first], c[1..], Tags(w));
    assert [first] + c[1..] == c;
    AbsentNone([first], Tags(w));
    AbsentTags(c[1..], Tags(w));
    assert Absent(c, Tags(w))[1..] == Absent(c[1..], Tags(w));
  }

  lemma SetUnionShuffle<T>(p: set<T>, q: set<T>, w: set<T>)
    ensures (p + q) + w == (p + w) + q == p + (q + w)
    ensures q !! w ==> (p + q) - w == (p - w) + q
    ensures p !! w ==> (p + q) - w == p + (q - w)
  {
  }

  lemma EnsuredRepresents(h: Host, t: Table, a: Policy)
    requires Represents(h, t, a)
    ensures Represents(h, Ensured(h, t), a) && Ensured(h, t).forward != []
    ensures t.forward != [] ==> Ensured(h, t) == t
  {
    if t.forward == [] {
      assert Granted(h, a) == {};
    } else {
      assert t.forward[0] in t.forward;
    }
  }

  lemma DnatStep(h: Host, c: seq<Rule>, s: set<PortSpec>, ports: seq<PortSpec>)
    requires Items(c) == DnatSet(h, s)
    ensures Items(AddMissing(c, DnatRules(h, ports))) == DnatSet(h, s + Items(ports))
    ensures Items(Absent(c, Tags(DnatRules(h, ports)))) == DnatSet(h, s - Items(ports))
  {
    PortRulesItems(h, ports);
    DnatKeyed(h, Items(c) + Items(DnatRules(h, ports)));
    KeyedChains(c, DnatRules(h, ports));
    DnatSetDifference(h, s, Items(ports));
  }

  lemma PolicyKeyed(h: Host, s: set<PortSpec>, q: set<RuleSpec>)
    requires (forall p :: p in s ==> p == Endpoint(p)) && (forall r :: r in q ==> Tidy(r))
    ensures Keyed({EstablishedRule(h)} + (PortSet(h, s) + ServiceSet(h, q)))
  {
    hide PortRule, ServiceRule, EstablishedRule, Tidy, Keyed;
    ForwardKeyed(h, {EstablishedRule(h)} + (PortSet(h, s) + ServiceSet(h, q)));
  }

  lemma EndpointsKeyed(h: Host, c: seq<Rule>, a: Policy, ports: seq<PortSpec>)
    requires Holds(c, EstablishedRule(h), Granted(h, a)) && WellFormed(h, a)
    ensures var w := PortRules(h, ports);
            && Items(w) == PortSet(h, Endpoints(ports)) && Keyed(Items(c) + Items(w))
            && EstablishedRule(h) !in Items(w) && ServiceSet(h, a.rules) !! Items(w)
  {
    hide Tags, Keyed, EstablishedRule, PortRules, PortSet, ServiceSet, Tidy;
    var e := Endpoints(ports);
    PortRulesItems(h, ports);
    ClassesDisjoint(h, e, a.rules);
    PortSetDifference(h, a.accepts, e);
    PolicyKeyed(h, a.accepts + e, a.rules);
    assert Items(c) + Items(PortRules(h, ports)) == {EstablishedRule(h)} + (PortSet(h, a.accepts + e) + ServiceSet(h, a.rules));
  }

  lemma EndpointStep(h: Host, c: seq<Rule>, a: Policy, ports: seq<PortSpec>)
    requires WellFormed(h, a) && Holds(c, EstablishedRule(h), Granted(h, a))
    ensures Holds(AddMissing(c, PortRules(h, ports)), EstablishedRule(h), Granted(h, a.(accepts := a.accepts + Endpoints(ports))))
    ensures Holds(Absent(c, Tags(PortRules(h, ports))), EstablishedRule(h), Granted(h, a.(accepts := a.accepts - Endpoints(ports))))
  {
    hide Tidy, Tags, Keyed, EstablishedRule, PortRules, Holds, ServiceSet, PortSet, Absent, AddMissing;
    var first, w, e := EstablishedRule(h), PortRules(h, ports), Endpoints(ports);
    EndpointsKeyed(h, c, a, ports);
    HoldsAdded(c, first, Granted(h, a), w);
    HoldsDeleted(c, first, Granted(h, a), w);
    PortSetDifference(h, a.accepts, e);
    SetUnionShuffle(PortSet(h, a.accepts), ServiceSet(h, a.rules), Items(w));
  }

  lemma ServiceKeyed(h: Host, c: seq<Rule>, a: Policy, rules: seq<RuleSpec>)
    requires Holds(c, EstablishedRule(h), Granted(h, a)) && WellFormed(h, a) && forall r :: r in rules ==> Tidy(r)
    ensures var w := ServiceRules(h, rules);
            && Items(w) == ServiceSet(h, Items(rules)) && Keyed(Items(c) + Items(w))
            && EstablishedRule(h) !in Items(w) && PortSet(h, a.accepts) !! Items(w)
  {
    hide Tidy, Tags, Keyed, EstablishedRule, ServiceRules, PortSet, ServiceSet;
    var q := Items(rules);
    ServiceRulesItems(h, rules);
    ClassesDisjoint(h, a.accepts, q);
    ServiceSetDifference(h, a.rules, q);
    PolicyKeyed(h, a.accepts, a.rules + q);
    assert Items(c) + Items(ServiceRules(h, rules)) == {EstablishedRule(h)} + (PortSet(h, a.accepts) + ServiceSet(h, a.rules + q));
  }

  lemma ServiceStep(h: Host, c: seq<Rule>, a: Policy, rules: seq<RuleSpec>)
    requires WellFormed(h, a) && Holds(c, EstablishedRule(h), Granted(h, a))
    requires forall r :: r in rules ==> Tidy(r)
    ensures Holds(AddMissing(c, ServiceRules(h, rules)), EstablishedRule(h), Granted(h, a.(rules := a.rules + Items(rules))))
    ensures Holds(Absent(c, Tags(ServiceRules(h, rules))), EstablishedRule(h), Granted(h, a.(rules := a.rules - Items(rules))))
  {
    hide Tidy, Tags, Keyed, EstablishedRule, ServiceRules, Holds, ServiceSet, PortSet, Absent, AddMissing;
    var first, w, e := EstablishedRule(h), ServiceRules(h, rules), Items(rules);
    ServiceKeyed(h, c, a, rules);
    HoldsAdded(c, first, Granted(h, a), w);
    HoldsDeleted(c, first, Granted(h, a), w);
    ServiceSetDifference(h, a.rules, e);
    SetUnionShuffle(PortSet(h, a.accepts), ServiceSet(h, a.rules), Items(w));
  }

  /** Skipping rules that are already there never hides a spec that does not compile. */
  lemma OkIsCompile(h: Host, t: Table, a: Policy, rules: seq<RuleSpec>)
    requires WellFormed(h, a) && Holds(t.forward, EstablishedRule(h), Granted(h, a))
    requires forall r :: r in rules ==> Tidy(r)
    ensures RulesOk(h, t, rules) <==> Compile(h, rules)
  {
    Kinds();
    forall r | r in rules && RuleTag(r) in Tags(t.forward) ensures RuleExprs(h, r).Some? {
      var x :| x in t.forward && x.tag == RuleTag(r);
      assert x in Items(t.forward) && Kind(x.tag) == 2;
      var s :| s in a.rules && x == ServiceRule(h, s);
      RuleTagInjective(r, s);
    }
  }

  lemma ApplyPortsRefines(h: Host, t: Table, a: Policy, ports: seq<PortSpec>)
    requires Represents(h, t, a)
    ensures Represents(h, PortsApplied(h, t, ports), PolicyStep(h, a, ApplyPorts(ports)))
  {
    hide DnatSet, PortSet, ServiceSet, AddMissing, Absent, Tags, EstablishedRule, DnatRules, PortRules, ServiceRules;
    EnsuredRepresents(h, t, a);
    var t', a' := PortsApplied(h, t, ports), PolicyStep(h, a, ApplyPorts(ports));
    var c := Ensured(h, t).forward;
    if PortsOk(h, ports) {
      PortsWellFormed(h, a, ports);
      EndpointStep(h, c, a, ports);
      DnatStep(h, t.prerouting, a.dnat, ports);
    }
  }

  lemma PortsWellFormed(h: Host, a: Policy, ports: seq<PortSpec>)
    requires WellFormed(h, a) && PortsOk(h, ports)
    ensures WellFormed(h, PolicyStep(h, a, ApplyPorts(ports)))
  {
  }

  lemma TeardownPortsRefines(h: Host, t: Table, a: Policy, ports: seq<PortSpec>)
    requires Represents(h, t, a)
    ensures Represents(h, PortsTornDown(h, t, ports), PolicyStep(h, a, TeardownPorts(ports)))
  {
    hide DnatSet, PortSet, ServiceSet, AddMissing, Absent, Tags, EstablishedRule, DnatRules, PortRules, ServiceRules;
    EnsuredRepresents(h, t, a);
    EndpointStep(h, Ensured(h, t).forward, a, ports);
    DnatStep(h, t.prerouting, a.dnat, ports);
  }

  lemma ApplyRulesRefines(h: Host, t: Table, a: Policy, rules: seq<RuleSpec>)
    requires Represents(h, t, a) && forall r :: r in rules ==> Tidy(r)
    ensures Represents(h, RulesApplied(h, t, rules), PolicyStep(h, a, ApplyRules(rules)))
  {
    hide DnatSet, PortSet, ServiceSet, AddMissing, Absent, Tags, EstablishedRule, DnatRules, PortRules, ServiceRules;
    EnsuredRepresents(h, t, a);
    OkIsCompile(h, Ensured(h, t), a, rules);
    if Compile(h, rules) {
      ServiceStep(h, Ensured(h, t).forward, a, rules);
    }
  }

  lemma TeardownRulesRefines(h: Host, t: Table, a: Policy, rules: seq<RuleSpec>)
    requires Represents(h, t, a) && forall r :: r in rules ==> Tidy(r)
    ensures Represents(h, RulesTornDown(h, t, rules), PolicyStep(h, a, TeardownRules(rules)))
  {
    hide DnatSet, PortSet, ServiceSet, AddMissing, Absent, Tags, EstablishedRule, DnatRules, PortRules, ServiceRules;
    EnsuredRepresents(h, t, a);
    ServiceStep(h, Ensured(h, t).forward, a, rules);
  }

  lemma StepRefines(h: Host, t: Table, a: Policy, op: Op)
    requires Represents(h, t, a) && TidyOp(op)
    ensures Represents(h, Step(h, t, op), PolicyStep(h, a, op))
    ensures Step(h, t, op).forward != []
  {
    EstablishedKept(h, t, op);
    match op
    case ApplyPorts(ps) => ApplyPortsRefines(h, t, a, ps);
    case TeardownPorts(ps) => TeardownPortsRefines(h, t, a, ps);
    case ApplyRules(rs) => ApplyRulesRefines(h, t, a, rs);
    case TeardownRules(rs) => TeardownRulesRefines(h, t, a, rs);
    case EnsureForward => EnsuredRepresents(h, t, a);
  }

  /** Over any run from an empty table the chains implement the sets. */
  lemma {:induction false} RunRefines(h: Host, ops: seq<Op>)
    requires forall op :: op in ops ==> TidyOp(op)
    ensures Represents(h, Run(h, EMPTY_TABLE, ops), PolicyRun(h, Policy({}, {}, {}), ops))
    ensures ops != [] ==> Run(h, EMPTY_TABLE, ops).forward != []
  {
    if ops == [] {
    } else {
      var n := |ops| - 1;
      RunRefines(h, ops[..n]);
      StepRefines(h, Run(h, EMPTY_TABLE, ops[..n]), PolicyRun(h, Policy({}, {}, {}), ops[..n]), ops[n]);
    }
  }

  // ---- why rule texts must be tidy ----

  /** A spec whose tag is already there is taken for present and never compiled. */
  lemma SharedTagIsSkipped(h: Host, t: Table, s: RuleSpec)
    requires RuleTag(s) in Tags(t.forward) && ESTABLISHED_TAG in Tags(t.forward)
    ensures Step(h, t, ApplyRules([s])) == t
  {
    hide RuleTag, RuleExprs, EstablishedExprs;
    AbsentAll(ServiceRules(h, [s]), Tags(t.forward));
    assert t.forward + [] == t.forward;
  }

  /** Two specs of real addresses: the protocol of the first, which the daemon
      compiles as TCP, makes its tag that of the second, which is then lost. */
  lemma UntidyRuleIsLost(h: Host)
    requires h.IPv6("fd00::1").Some? && h.IPv6("fd00::2").Some? && h.IPv6("fd00::2:3").Some?
    requires h.IPv6("fd00::2") != h.IPv6("fd00::2:3")
    ensures var r, s := RuleSpec("fd00::1", "fd00::2", "3:tcp", 80), RuleSpec("fd00::1", "fd00::2:3", "tcp", 80);
            RuleExprs(h, r).Some? && RuleExprs(h, s).Some? && Tidy(s) && IsLost(h, r, s)
  {
    hide V4Mapped, IsLost;
    var r, s := RuleSpec("fd00::1", "fd00::2", "3:tcp", 80), RuleSpec("fd00::1", "fd00::2:3", "tcp", 80);
    assert r.to + [':'] + r.proto == s.to + [':'] + s.proto;
    LostAfter(h, r, s);
  }

  /** Applied in this order to an empty table, the second rule is not in it. */
  predicate IsLost(h: Host, r: RuleSpec, s: RuleSpec) {
    var t := Step(h, Step(h, EMPTY_TABLE, ApplyRules([r])), ApplyRules([s]));
    ServiceRule(h, r) in t.forward && ServiceRule(h, s) !in t.forward
  }

  /** Exactly when a rule is lost: it shares its tag with one that was there before
      and compiles to something else. */
  lemma LostExactly(h: Host, r: RuleSpec, s: RuleSpec)
    requires RuleExprs(h, r).Some? && RuleExprs(h, s).Some?
    ensures IsLost(h, r, s) <==> Tidied(r) == Tidied(s) && ServiceRule(h, r) != ServiceRule(h, s)
  {
    hide RuleExprs, RuleTag, EstablishedExprs, Tidied, Absent, AddMissing;
    RuleTagsEqual(r, s);
    AppliedToEmpty(h, r);
    var t := Step(h, EMPTY_TABLE, ApplyRules([r]));
    Kinds();
    if RuleTag(r) == RuleTag(s) {
      SharedTagIsSkipped(h, t, s);
    } else {
      FreshIsAdded(h, t, s);
    }
  }

  lemma LostAfter(h: Host, r: RuleSpec, s: RuleSpec)
    requires RuleExprs(h, r).Some? && RuleExprs(h, s).Some? && h.IPv6(r.to) != h.IPv6(s.to) && RuleTag(r) == RuleTag(s)
    ensures IsLost(h, r, s)
  {
    hide RuleExprs, RuleTag, Tidied, IsLost, ServiceRule;
    RuleTagsEqual(r, s);
    DifferentTargets(h, r, s);
    LostExactly(h, r, s);
  }

  lemma FreshIsAdded(h: Host, t: Table, s: RuleSpec)
    requires RuleTag(s) !in Tags(t.forward) && ESTABLISHED_TAG in Tags(t.forward) && RuleExprs(h, s).Some?
    ensures Step(h, t, ApplyRules([s])).forward == t.forward + [ServiceRule(h, s)]
  {
    hide RuleTag, RuleExprs, EstablishedExprs;
    assert ServiceRules(h, [s]) == [ServiceRule(h, s)];
    AbsentNone([ServiceRule(h, s)], Tags(t.forward));
  }

  lemma DifferentTargets(h: Host, r: RuleSpec, s: RuleSpec)
    requires RuleExprs(h, r).Some? && RuleExprs(h, s).Some? && h.IPv6(r.to) != h.IPv6(s.to)
    ensures ServiceRule(h, r) != ServiceRule(h, s)
  {
    hide V4Mapped;
    var x, y := RuleExprs(h, r).value, RuleExprs(h, s).value;
    assert x[3] == Cmp(Eq, 2, h.IPv6(r.to).value) && y[3] == Cmp(Eq, 2, h.IPv6(s.to).value);
  }

  lemma AppliedToEmpty(h: Host, r: RuleSpec)
    requires RuleExprs(h, r).Some?
    ensures Step(h, EMPTY_TABLE, ApplyRules([r])).forward == [EstablishedRule(h), ServiceRule(h, r)]
    ensures RuleTag(r) in Tags([EstablishedRule(h), ServiceRule(h, r)])
    ensures ESTABLISHED_TAG in Tags([EstablishedRule(h), ServiceRule(h, r)])
  {
    hide RuleTag, RuleExprs, EstablishedExprs, Kind;
    Kinds();
    var first, x := EstablishedRule(h), ServiceRule(h, r);
    assert Tags([]) == {} && Tags([first]) == {ESTABLISHED_TAG};
    assert ServiceRules(h, [r]) == [x];
    AbsentNone([x], {ESTABLISHED_TAG});
    assert first in [first, x] && x in [first, x];
    assert [first] + [x] == [first, x] && [] + [first] == [first];
  }

  // ---- repeating and undoing ----

  lemma {:induction false} WithoutPrefixIdempotent(c: seq<Rule>, prefix: string)
    ensures WithoutPrefix(WithoutPrefix(c, prefix), prefix) == WithoutPrefix(c, prefix)
  {
    if c == [] {
    } else {
      var last := c[|c| - 1];
      var d := WithoutPrefix(c[..|c| - 1], prefix);
      WithoutPrefixIdempotent(c[..|c| - 1], prefix);
      assert (d + [last])[..|d|] == d;
      assert d + [] == d;
    }
  }

  lemma ReAddingNothing(c: seq<Rule>, w: seq<Rule>)
    ensures AddMissing(AddMissing(c, w), w) == AddMissing(c, w)
    ensures Absent(Absent(c, Tags(w)), Tags(w)) == Absent(c, Tags(w))
    ensures forall r :: r in w ==> r.tag in Tags(AddMissing(c, w))
  {
    var d := AddMissing(c, w);
    AbsentMembers(w, Tags(c));
    forall r | r in w ensures r.tag in Tags(d) {
      if r.tag in Tags(c) {
        var q :| q in c && q.tag == r.tag;
        assert q in d;
      } else {
        assert r in d;
      }
    }
    AbsentAll(w, Tags(d));
    AbsentMembers(c, Tags(w));
    AbsentNone(Absent(c, Tags(w)), Tags(w));
  }

  /** Repeating any call changes nothing, on every table. */
  lemma StepIdempotent(h: Host, t: Table, op: Op)
    ensures Step(h, Step(h, t, op), op) == Step(h, t, op)
  {
    hide AddMissing, Absent, PortRules, DnatRules, EstablishedExprs, WithoutPrefix, RuleTag, RuleExprs;
    var t' := Step(h, t, op);
    assert ESTABLISHED_TAG in Tags(Ensured(h, t).forward) by {
      if ESTABLISHED_TAG !in Tags(t.forward) {
        assert EstablishedRule(h) in Ensured(h, t).forward;
      }
    }
    EstablishedKept(h, t, op);
    assert Ensured(h, t') == t';
    match op
    case ApplyPorts(ps) =>
      WithoutPrefixIdempotent(t.output, DNAT_PREFIX);
      AbsentMembers(t.postrouting, {LEGACY_MASQUERADE});
      AbsentNone(Absent(t.postrouting, {LEGACY_MASQUERADE}), {LEGACY_MASQUERADE});
      assert Pruned(t') == t';
      ReAddingNothing(t.prerouting, DnatRules(h, ps));
      ReAddingNothing(Ensured(h, t).forward, PortRules(h, ps));
    case TeardownPorts(ps) =>
      ReAddingNothing(t.prerouting, DnatRules(h, ps));
      ReAddingNothing(Ensured(h, t).forward, PortRules(h, ps));
    case ApplyRules(rs) =>
      ReAddingNothing(Ensured(h, t).forward, ServiceRules(h, rs));
      if RulesOk(h, Ensured(h, t), rs) {
        forall r | r in rs ensures RuleTag(r) in Tags(t'.forward) {
          var i :| 0 <= i < |rs| && rs[i] == r;
          assert ServiceRules(h, rs)[i] in ServiceRules(h, rs);
        }
      }
    case TeardownRules(rs) =>
      ReAddingNothing(Ensured(h, t).forward, ServiceRules(h, rs));
    case EnsureForward =>
  }

  lemma {:induction false} KindsOf(h: Host, ports: seq<PortSpec>, rules: seq<RuleSpec>)
    ensures ESTABLISHED_TAG !in Tags(PortRules(h, ports)) && ESTABLISHED_TAG !in Tags(ServiceRules(h, rules))
  {
    Kinds();
    assert forall tag :: tag in Tags(PortRules(h, ports)) ==> Kind(tag) == 1;
    assert forall tag :: tag in Tags(ServiceRules(h, rules)) ==> Kind(tag) == 2;
  }

  lemma TagKept(c: seq<Rule>, w: seq<Rule>, tag: string)
    requires tag in Tags(c)
    ensures tag in Tags(AddMissing(c, w)) && (tag !in Tags(w) ==> tag in Tags(Absent(c, Tags(w))))
  {
    hide Absent;
    var x :| x in c && x.tag == tag;
    assert x in AddMissing(c, w);
    AbsentTags(c, Tags(w));
  }

  lemma EnsuredHasTag(h: Host, t: Table)
    ensures ESTABLISHED_TAG in Tags(Ensured(h, t).forward)
  {
    hide EstablishedExprs;
    if ESTABLISHED_TAG !in Tags(t.forward) {
      assert EstablishedRule(h) in Ensured(h, t).forward;
    }
  }

  lemma EstablishedKept(h: Host, t: Table, op: Op)
    ensures ESTABLISHED_TAG in Tags(Step(h, t, op).forward)
  {
    hide Tags, Absent, AddMissing, WithEstablished, PortRules, ServiceRules, DnatRules, WithoutPrefix;
    var c := Ensured(h, t).forward;
    EnsuredHasTag(h, t);
    match op
    case ApplyPorts(ps) =>
      TagKept(c, PortRules(h, ps), ESTABLISHED_TAG);
    case TeardownPorts(ps) =>
      KindsOf(h, ps, []);
      TagKept(c, PortRules(h, ps), ESTABLISHED_TAG);
    case ApplyRules(rs) =>
      TagKept(c, ServiceRules(h, rs), ESTABLISHED_TAG);
    case TeardownRules(rs) =>
      KindsOf(h, [], rs);
      TagKept(c, ServiceRules(h, rs), ESTABLISHED_TAG);
    case EnsureForward =>
  }

  lemma DeleteAdded(c: seq<Rule>, w: seq<Rule>)
    requires Tags(w) !! Tags(c)
    ensures Absent(AddMissing(c, w), Tags(w)) == c
  {
    AbsentNone(w, Tags(c));
    AbsentConcat(c, w, Tags(w));
    AbsentNone(c, Tags(w));
    AbsentAll(w, Tags(w));
  }

  /** Tearing down specs that were not there before puts every chain back as it
      was, in content and in order. */
  lemma TeardownRestoresPorts(h: Host, t: Table, ports: seq<PortSpec>)
    requires PortsOk(h, ports)
    requires Tags(DnatRules(h, ports)) !! Tags(t.prerouting) && Tags(PortRules(h, ports)) !! Tags(t.forward)
    ensures Step(h, Step(h, t, ApplyPorts(ports)), TeardownPorts(ports)) == Ensured(h, Pruned(t))
  {
    hide AddMissing, Absent, PortRules, DnatRules, WithoutPrefix, PortTag, DnatTag;
    var c := Ensured(h, t).forward;
    KindsOf(h, ports, []);
    assert Tags(PortRules(h, ports)) !! Tags(c);
    DeleteAdded(t.prerouting, DnatRules(h, ports));
    DeleteAdded(c, PortRules(h, ports));
    EstablishedKept(h, t, ApplyPorts(ports));
  }

  lemma TeardownRestoresRules(h: Host, t: Table, rules: seq<RuleSpec>)
    requires Compile(h, rules)
    requires Tags(ServiceRules(h, rules)) !! Tags(t.forward)
    ensures Step(h, Step(h, t, ApplyRules(rules)), TeardownRules(rules)) == Ensured(h, t)
  {
    hide AddMissing, Absent, RuleTag, RuleExprs, WithoutPrefix;
    var c := Ensured(h, t).forward;
    KindsOf(h, [], rules);
    assert Tags(ServiceRules(h, rules)) !! Tags(c);
    DeleteAdded(c, ServiceRules(h, rules));
    EstablishedKept(h, t, ApplyRules(rules));
  }

  // ---- what the chains mean ----

  lemma ForwardRuleDecides(h: Host, a: Policy, x: Rule, pkt: Packet)
    requires WellFormed(h, a) && IPv6Packet(pkt)
    requires x in {EstablishedRule(h)} + Granted(h, a)
    ensures x == EstablishedRule(h) ==> Decides(h.littleEndian, x, pkt, Established(pkt))
    ensures forall p :: p in a.accepts && x == PortRule(h, p) ==> Decides(h.littleEndian, x, pkt, PortGrants(h, p, pkt))
    ensures forall r :: r in a.rules && x == ServiceRule(h, r) ==> Decides(h.littleEndian, x, pkt, RuleGrants(h, r, pkt))
  {
    forall regs | x == EstablishedRule(h) { EstablishedMeaning(h, pkt, regs); }
    forall p, regs | p in a.accepts && x == PortRule(h, p) { PortAcceptMeaning(h, p, pkt, regs); }
    forall r, regs | r in a.rules && x == ServiceRule(h, r) { RuleExprsMeaning(h, r, pkt, regs); }
  }

  ghost predicate PortGranted(h: Host, a: Policy, pkt: Packet)
    requires IPv6Packet(pkt)
  {
    exists p :: p in a.accepts && PortGrants(h, p, pkt)
  }

  ghost predicate RuleGranted(h: Host, a: Policy, pkt: Packet)
    requires IPv6Packet(pkt)
  {
    exists r :: r in a.rules && RuleGrants(h, r, pkt)
  }

  /** The forward chain accepts a packet exactly when its connection is
      established or related, or a rule or published endpoint grants it; every
      other packet is dropped. */
  lemma ForwardMeaning(h: Host, t: Table, a: Policy, pkt: Packet, regs: Registers)
    requires Represents(h, t, a) && t.forward != [] && IPv6Packet(pkt)
    ensures RunChain(h.littleEndian, t.forward, pkt, regs, Drop) ==
            if Established(pkt) || PortGranted(h, a, pkt) || RuleGranted(h, a, pkt) then Accept else Drop
  {
    hide Exec, RunChain, PortGrants, RuleGrants, Established, PortRule, ServiceRule, EstablishedRule;
    var le := h.littleEndian;
    var all := {EstablishedRule(h)} + Granted(h, a);
    forall x | x in t.forward ensures x in all && (Decides(le, x, pkt, true) || Decides(le, x, pkt, false)) {
      assert x in Items(t.forward);
      ForwardRuleDecides(h, a, x, pkt);
    }
    ChainAccepts(le, t.forward, pkt, regs);
    forall x | x in all ensures x in t.forward {
      assert x in Items(t.forward);
    }
    if Established(pkt) {
      ForwardRuleDecides(h, a, EstablishedRule(h), pkt);
    }
    if p :| p in a.accepts && PortGrants(h, p, pkt) {
      ForwardRuleDecides(h, a, PortRule(h, p), pkt);
    }
    if r :| r in a.rules && RuleGrants(h, r, pkt) {
      ForwardRuleDecides(h, a, ServiceRule(h, r), pkt);
    }
    if x :| x in t.forward && Decides(le, x, pkt, true) {
      ForwardRuleDecides(h, a, x, pkt);
      assert forall b :: Decides(le, x, pkt, b) ==> b by { NotBoth(le, x, pkt); }
    }
  }

  /** Safety over runs: after any calls on an initially empty table, the forward
      chain lets through exactly what the set of applied and not yet removed
      specs grants, and established traffic. */
  lemma RunMeaning(h: Host, ops: seq<Op>, pkt: Packet, regs: Registers)
    requires ops != [] && (forall op :: op in ops ==> TidyOp(op)) && IPv6Packet(pkt)
    ensures var a := PolicyRun(h, Policy({}, {}, {}), ops);
            RunChain(h.littleEndian, Run(h, EMPTY_TABLE, ops).forward, pkt, regs, Drop) ==
            if Established(pkt) || PortGranted(h, a, pkt) || RuleGranted(h, a, pkt) then Accept else Drop
  {
    RunRefines(h, ops);
    ForwardMeaning(h, Run(h, EMPTY_TABLE, ops), PolicyRun(h, Policy({}, {}, {}), ops), pkt, regs);
  }

  lemma NotBoth(le: bool, x: Rule, pkt: Packet)
    ensures !(Decides(le, x, pkt, true) && Decides(le, x, pkt, false))
  {
    var regs: Registers := map[];
    var flow := Exec(le, x.exprs, pkt, regs);
  }

  function Target(h: Host, p: PortSpec): Verdict
    requires h.IPv6(p.guestIP).Some?
  {
    Redirect(h.IPv6(p.guestIP).value, p.guestPort % 0x10000)
  }

  /** The prerouting chain redirects a packet exactly when it is TCP to some
      published host port, and to the target of such a port. */
  lemma {:induction false} PreroutingMeaning(h: Host, c: seq<Rule>, s: set<PortSpec>, pkt: Packet, regs: Registers)
    requires forall p :: p in s ==> h.IPv6(p.guestIP).Some?
    requires Items(c) == DnatSet(h, s)
    ensures var v := RunChain(h.littleEndian, c, pkt, regs, Accept);
            if exists p :: p in s && DnatMatches(p, pkt)
            then exists p :: p in s && DnatMatches(p, pkt) && v == Target(h, p)
            else v == Accept
    decreases |c|
  {
    hide DnatTag, DnatMatches, Exec;
    if c == [] {
      assert forall p :: p in s ==> DnatRule(h, p) in DnatSet(h, s);
    } else {
      assert c[0] in Items(c);
      var p :| p in s && c[0] == DnatRule(h, p);
      DnatMeaning(h, p, pkt, regs);
      if !DnatMatches(p, pkt) {
        var rest := set q | q in s && DnatRule(h, q) in c[1..];
        assert Items(c[1..]) == DnatSet(h, rest) by {
          forall x | x in c[1..] ensures x in DnatSet(h, rest) {
            assert x in Items(c);
          }
        }
        var flow := Exec(h.littleEndian, c[0].exprs, pkt, regs);
        PreroutingMeaning(h, c[1..], rest, pkt, flow.regs);
        forall q | q in s && DnatMatches(q, pkt) ensures q in rest {
          assert DnatRule(h, q) in Items(c);
          if DnatRule(h, q) == c[0] { DnatTagInjective(p, q); }
        }
      }
    }
  }

  /** With distinct host ports, a packet for a host port goes to that spec's target. */
  lemma PreroutingTarget(h: Host, t: Table, a: Policy, p: PortSpec, pkt: Packet, regs: Registers)
    requires Represents(h, t, a) && p in a.dnat && DnatMatches(p, pkt)
    requires forall q :: q in a.dnat && q.hostPort % 0x10000 == p.hostPort % 0x10000 ==> q == p
    ensures RunChain(h.littleEndian, t.prerouting, pkt, regs, Accept) == Target(h, p)
  {
    PreroutingMeaning(h, t.prerouting, a.dnat, pkt, regs);
  }
}
