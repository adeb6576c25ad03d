/** "host:guest" port mappings: the validator's reading of them, the
    lifecycle's reading of them, and the port specs they become. */
module PortMappings {
  import opened Common
  import opened Decimal
  import opened NftCompile

  const MIN_PORT := 1
  const MAX_PORT := 65535

  // ---- strings.Split on one character ----

  function Split(s: string, c: char): (fields: seq<string>)
    ensures |fields| > 0
    decreases |s|
  {
    var i := Index(s, c);
    if i.None? then [s] else [s[..i.value]] + Split(s[i.value + 1..], c)
  }

  // ---- the two readers ----

  function PortNumber(s: string): (r: Option<int>)
    ensures r.Some? ==> 1 <= r.value <= 65535
  {
    var n := Atoi(s);
    if n.Some? && MIN_PORT <= n.value <= MAX_PORT then n else None
  }

  /** parsePort: exactly "host:guest". */
  function ParsePort(mapping: string): (r: Option<(int, int)>)
    ensures r.Some? ==> 1 <= r.value.0 <= 65535 && 1 <= r.value.1 <= 65535
  {
    var parts := Split(mapping, ':');
    if |parts| != 2 then None
    else
      var host := PortNumber(parts[0]);
      var guest := PortNumber(parts[1]);
      if host.None? || guest.None? then None else Some((host.value, guest.value))
  }

  /** hostPort: also accepts an address in front and a protocol behind, and
      gives the host port without leading zeros, or "". */
  function HostPort(mapping: string): string {
    var slash := Index(mapping, '/');
    var host := if slash.Some? then mapping[..slash.value] else mapping;
    var fields := Split(host, ':');
    var field := if |fields| == 2 then fields[0] else if |fields| == 3 then fields[1] else "";
    var port := PortNumber(field);
    if port.Some? then Itoa(port.value) else ""
  }

  // ---- what the texts mean ----

  lemma IndexIs(s: string, a: string, c: char, b: string)
    requires c !in a && s == a + [c] + b
    ensures Index(s, c) == Some(|a|) && s[..|a|] == a && s[|a| + 1..] == b
  {
    assert s[|a|] == c;
    var i := Index(s, c).value;
    assert s == s[..i] + [c] + s[i + 1..];
    FirstSeparator(a, b, s[..i], s[i + 1..], c);
  }

  lemma SplitOne(a: string, c: char)
    requires c !in a
    ensures Split(a, c) == [a]
  {
  }

  lemma SplitTwo(a: string, b: string, c: char)
    requires c !in a && c !in b
    ensures Split(a + [c] + b, c) == [a, b]
  {
    IndexIs(a + [c] + b, a, c, b);
    SplitOne(b, c);
  }

  lemma SplitThree(a: string, b: string, d: string, c: char)
    requires c !in a && c !in b && c !in d
    ensures Split(a + [c] + b + [c] + d, c) == [a, b, d]
  {
    var rest := b + [c] + d;
    assert a + [c] + b + [c] + d == a + [c] + rest;
    IndexIs(a + [c] + rest, a, c, rest);
    SplitTwo(b, d, c);
  }

  function Join(fields: seq<string>, c: char): string {
    if fields == [] then "" else if |fields| == 1 then fields[0] else fields[0] + [c] + Join(fields[1..], c)
  }

  lemma JoinCons(f: string, fields: seq<string>, c: char)
    requires fields != []
    ensures Join([f] + fields, c) == f + [c] + Join(fields, c)
  {
    assert ([f] + fields)[1..] == fields;
  }

  lemma SplitCons(s: string, c: char) returns (first: string, rest: string)
    requires c in s
    ensures Split(s, c) == [first] + Split(rest, c) && s == first + [c] + rest && c !in first && |rest| < |s|
  {
    hide Index;
    var i := Index(s, c).value;
    first, rest := s[..i], s[i + 1..];
    Cut(s, i);
  }

  lemma Cut(s: string, i: nat)
    requires i < |s|
    ensures s == s[..i] + [s[i]] + s[i + 1..]
  {
  }

  /** The fields are the text between the separators. */
  lemma {:induction false} SplitJoins(s: string, c: char)
    ensures Join(Split(s, c), c) == s && forall f :: f in Split(s, c) ==> c !in f
    decreases |s|
  {
    if c !in s {
      SplitOne(s, c);
    } else {
      hide Split, Join;
      var first, rest := SplitCons(s, c);
      SplitJoins(rest, c);
      JoinCons(first, Split(rest, c), c);
    }
  }

  predicate IsPort(n: int) {
    1 <= n <= 65535
  }

  /** The mapping's text is "host:guest". */
  ghost predicate MapsTo(mapping: string, host: int, guest: int) {
    IsPort(host) && IsPort(guest) &&
    exists a, b :: mapping == a + ":" + b && Atoi(a) == Some(host) && Atoi(b) == Some(guest)
  }

  lemma NoColon(s: string)
    requires Atoi(s).Some?
    ensures ':' !in s && '/' !in s
  {
  }

  /** Exactly the texts parsePort accepts, and what it reads in them. */
  lemma ParsePortIs(mapping: string, host: int, guest: int)
    ensures ParsePort(mapping) == Some((host, guest)) <==> MapsTo(mapping, host, guest)
  {
    hide Atoi;
    if a, b :| mapping == a + ":" + b && Atoi(a) == Some(host) && Atoi(b) == Some(guest) && IsPort(host) && IsPort(guest) {
      NoColon(a);
      NoColon(b);
      SplitTwo(a, b, ':');
    }
    if ParsePort(mapping) == Some((host, guest)) {
      var parts := Split(mapping, ':');
      SplitJoins(mapping, ':');
      assert mapping == parts[0] + ":" + parts[1] by { assert Join(parts[1..], ':') == parts[1]; }
    }
  }

  /** In particular every pair of ports is read back from its own text. */
  lemma PortsReadBack(host: int, guest: int)
    requires IsPort(host) && IsPort(guest)
    ensures ParsePort(Itoa(host) + ":" + Itoa(guest)) == Some((host, guest))
  {
    AtoiItoa(host);
    AtoiItoa(guest);
    ParsePortIs(Itoa(host) + ":" + Itoa(guest), host, guest);
  }

  /** The forms the validator accepts: a host port and a guest, perhaps behind an
      address, perhaps followed by a protocol. */
  ghost predicate HostForm(mapping: string, field: string) {
    exists body, tail: string ::
      mapping == body + tail && '/' !in body && (tail == "" || tail[0] == '/') && HostField(body, field)
  }

  ghost predicate HostField(body: string, field: string) {
    || (exists b :: ':' !in field && ':' !in b && body == field + ":" + b)
    || (exists ip, b :: ':' !in ip && ':' !in field && ':' !in b && body == ip + ":" + field + ":" + b)
  }

  function FieldOf(fields: seq<string>): Option<string> {
    if |fields| == 2 then Some(fields[0]) else if |fields| == 3 then Some(fields[1]) else None
  }

  lemma FormField(body: string, field: string)
    requires HostField(body, field)
    ensures FieldOf(Split(body, ':')) == Some(field)
  {
    hide Split;
    if b :| ':' !in field && ':' !in b && body == field + ":" + b {
      SplitTwo(field, b, ':');
    } else {
      var ip, b :| ':' !in ip && ':' !in field && ':' !in b && body == ip + ":" + field + ":" + b;
      SplitThree(ip, field, b, ':');
    }
  }

  lemma JoinTwo(a: string, b: string)
    ensures Join([a, b], ':') == a + ":" + b
  {
    assert Join([b], ':') == b;
    JoinCons(a, [b], ':');
    assert [a] + [b] == [a, b];
  }

  lemma JoinThree(a: string, b: string, d: string)
    ensures Join([a, b, d], ':') == a + ":" + b + ":" + d
  {
    JoinTwo(b, d);
    JoinCons(a, [b, d], ':');
    assert [a] + [b, d] == [a, b, d];
    assert a + ":" + (b + ":" + d) == a + ":" + b + ":" + d;
  }

  lemma FieldForms(body: string)
    requires FieldOf(Split(body, ':')).Some?
    ensures HostField(body, FieldOf(Split(body, ':')).value)
  {
    var fields := Split(body, ':');
    SplitJoins(body, ':');
    hide Split, Join;
    if |fields| == 2 {
      assert fields == [fields[0], fields[1]];
      JoinTwo(fields[0], fields[1]);
    } else {
      assert fields == [fields[0], fields[1], fields[2]];
      var ip, field, b := fields[0], fields[1], fields[2];
      JoinThree(ip, field, b);
      assert ip in fields && field in fields && b in fields;
      assert body == ip + ":" + field + ":" + b;
    }
  }

  lemma FieldIs(body: string, field: string)
    ensures HostField(body, field) <==> FieldOf(Split(body, ':')) == Some(field)
  {
    hide Split, HostField, FieldOf;
    if HostField(body, field) { FormField(body, field); }
    if FieldOf(Split(body, ':')).Some? { FieldForms(body); }
  }

  /** The body in front of the first slash. */
  function Body(mapping: string): string {
    var slash := Index(mapping, '/');
    if slash.Some? then mapping[..slash.value] else mapping
  }

  lemma BodyIs(mapping: string, body: string, tail: string)
    ensures mapping == body + tail && '/' !in body && (tail == "" || tail[0] == '/') ==> body == Body(mapping)
    ensures '/' !in Body(mapping) && exists t: string :: mapping == Body(mapping) + t && (t == "" || t[0] == '/')
  {
    if mapping == body + tail && '/' !in body && tail != "" && tail[0] == '/' {
      assert mapping == body + ['/'] + tail[1..];
      IndexIs(mapping, body, '/', tail[1..]);
    } else if mapping == body + tail && tail == "" {
      assert mapping == body;
    }
    var t := mapping[|Body(mapping)|..];
    assert mapping == Body(mapping) + t;
  }

  /** Exactly when the validator reads host port p in a mapping: p is the number in
      its host field. Otherwise the mapping is refused. */
  lemma HostPortIs(mapping: string, p: int)
    requires IsPort(p)
    ensures HostPort(mapping) == Itoa(p) <==> exists field :: HostForm(mapping, field) && Atoi(field) == Some(p)
    ensures HostPort(mapping) != "" ==> exists q :: IsPort(q) && HostPort(mapping) == Itoa(q)
  {
    hide Atoi, HostField, Split;
    var body := Body(mapping);
    BodyIs(mapping, "", "");
    FieldForm(mapping);
    var fields := Split(body, ':');
    var field := if |fields| == 2 then fields[0] else if |fields| == 3 then fields[1] else "";
    NotANumber();
    if HostPort(mapping) == Itoa(p) {
      ItoaNotEmpty(p);
      ItoaInjective(PortNumber(field).value, p);
      FieldIs(body, field);
      assert HostForm(mapping, field);
    }
    if f :| HostForm(mapping, f) && Atoi(f) == Some(p) {
      FieldIs(body, f);
    }
  }

  lemma FieldForm(mapping: string)
    ensures forall f :: HostForm(mapping, f) <==> HostField(Body(mapping), f)
  {
    hide HostField;
    forall f ensures HostForm(mapping, f) <==> HostField(Body(mapping), f) {
      if body, tail: string :| mapping == body + tail && '/' !in body && (tail == "" || tail[0] == '/') && HostField(body, f) {
        BodyIs(mapping, body, tail);
      }
      BodyIs(mapping, "", "");
    }
  }

  lemma NotANumber()
    ensures Atoi("").None?
  {
  }

  lemma ItoaNotEmpty(n: int)
    ensures Itoa(n) != ""
  {
  }

  /** Whatever the lifecycle parses the validator reads as the same host port. */
  lemma ReadersAgree(mapping: string)
    requires ParsePort(mapping).Some?
    ensures HostPort(mapping) == Itoa(ParsePort(mapping).value.0)
  {
    hide Atoi, ParsePort, HostPort, Split;
    var p := ParsePort(mapping).value;
    ParsePortIs(mapping, p.0, p.1);
    var a, b :| mapping == a + ":" + b && Atoi(a) == Some(p.0) && Atoi(b) == Some(p.1);
    NoColon(a);
    NoColon(b);
    HostPortIs(mapping, p.0);
    assert mapping == mapping + "" && '/' !in mapping && HostField(mapping, a);
    assert HostForm(mapping, a);
  }

  // ---- validatePorts ----

  type Mappings = map<string, seq<string>>

  predicate At(services: Mappings, svc: string, i: int) {
    svc in services && 0 <= i < |services[svc]|
  }

  function HostAt(services: Mappings, svc: string, i: int): string
    requires At(services, svc, i)
  {
    HostPort(services[svc][i])
  }

  /** Among the given services every mapping is well formed and no two share a host port. */
  ghost predicate ValidAmong(services: Mappings, done: set<string>) {
    && (forall s, i | s in done && At(services, s, i) :: HostAt(services, s, i) != "")
    && (forall s, i, s', i' | s in done && s' in done && At(services, s, i) && At(services, s', i') && (s, i) != (s', i') ::
          HostAt(services, s, i) != HostAt(services, s', i'))
  }

  ghost predicate PortsValid(services: Mappings) {
    ValidAmong(services, services.Keys)
  }

  ghost predicate Taken(services: Mappings, done: set<string>, host: string) {
    exists s, i :: s in done && At(services, s, i) && HostAt(services, s, i) == host
  }

  /** One more service keeps the validity exactly when its own mappings are
      well formed, distinct, and not taken. */
  lemma OneMoreService(services: Mappings, done: set<string>, svc: string, seen: set<string>)
    requires ValidAmong(services, done) && svc !in done && svc in services
    requires forall h :: h in seen <==> Taken(services, done, h)
    ensures ValidAmong(services, done + {svc}) <==> Fresh(HostsOf(services[svc]), seen)
    ensures forall h :: Taken(services, done + {svc}, h) <==> h in seen || h in HostsOf(services[svc])
  {
    hide HostPort;
    var hosts := HostsOf(services[svc]);
    assert forall i | 0 <= i < |hosts| :: At(services, svc, i) && HostAt(services, svc, i) == hosts[i];
    assert forall s, i, k | s in done && At(services, s, k) :: (s, k) != (svc, i);
  }

  lemma MonotoneValid(services: Mappings, some: set<string>, all: set<string>)
    requires some <= all && ValidAmong(services, all)
    ensures ValidAmong(services, some)
  {
  }

  /** A map is walked in an order the language leaves open. */
  method ValidatePorts(services: Mappings) returns (ok: bool)
    ensures ok <==> PortsValid(services)
  {
    var seen: map<string, string> := map[];
    var rest := services.Keys;
    while rest != {}
      invariant rest <= services.Keys
      invariant ValidAmong(services, services.Keys - rest)
      invariant forall h :: h in seen <==> Taken(services, services.Keys - rest, h)
      decreases rest
    {
      var svc :| svc in rest;
      ghost var done := services.Keys - rest;
      OneMoreService(services, done, svc, seen.Keys);
      var fine;
      fine, seen := SeeHosts(services[svc], svc, seen);
      rest := rest - {svc};
      assert services.Keys - rest == done + {svc};
      if !fine {
        if PortsValid(services) {
          MonotoneValid(services, done + {svc}, services.Keys);
        }
        return false;
      }
    }
    assert services.Keys - rest == services.Keys;
    return true;
  }

  function HostsOf(mappings: seq<string>): (hosts: seq<string>)
    ensures |hosts| == |mappings|
  {
    seq(|mappings|, i requires 0 <= i < |mappings| => HostPort(mappings[i]))
  }

  /** Well-formed host ports, all new and no two alike. */
  ghost predicate Fresh(hosts: seq<string>, before: set<string>) {
    && (forall i | 0 <= i < |hosts| :: hosts[i] != "" && hosts[i] !in before)
    && (forall i, j | 0 <= i < j < |hosts| :: hosts[i] != hosts[j])
  }

  /** The inner loop: the mappings of one service. */
  method SeeHosts(mappings: seq<string>, svc: string, before: map<string, string>)
    returns (fine: bool, seen: map<string, string>)
    ensures fine <==> Fresh(HostsOf(mappings), before.Keys)
    ensures fine ==> forall h :: h in seen <==> h in before || h in HostsOf(mappings)
  {
    hide HostPort;
    seen := before;
    ghost var hosts := HostsOf(mappings);
    for k := 0 to |mappings|
      invariant Fresh(hosts[..k], before.Keys)
      invariant forall h :: h in seen <==> h in before || h in hosts[..k]
    {
      var host := HostPort(mappings[k]);
      assert host == hosts[k];
      assert hosts[..k + 1] == hosts[..k] + [host];
      if host == "" || host in seen {
        return false, seen;
      }
      seen := seen[host := svc];
    }
    assert hosts[..|mappings|] == hosts;
    return true, seen;
  }

  // ---- portSpecs ----

  predicate Parses(mappings: seq<string>) {
    forall m :: m in mappings ==> ParsePort(m).Some?
  }

  function Specs(mappings: seq<string>, addr: string): seq<PortSpec>
    requires Parses(mappings)
  {
    seq(|mappings|, i requires 0 <= i < |mappings| =>
      var p := ParsePort(mappings[i]).value;
      PortSpec(p.0, addr, p.1))
  }

  /** The specs of the selected services among names, service by service. */
  function SpecsOf(names: seq<string>, selected: set<string>, services: Mappings, addrs: map<string, string>): Option<seq<PortSpec>>
    requires forall n :: n in names ==> n in services && n in addrs
  {
    if names == [] then Some([])
    else
      var name := names[|names| - 1];
      var rest := SpecsOf(names[..|names| - 1], selected, services, addrs);
      if rest.None? || name !in selected then rest
      else if Parses(services[name]) then Some(rest.value + Specs(services[name], addrs[name]))
      else None
  }

  method PortSpecs(names: seq<string>, selected: seq<string>, services: Mappings, addrs: map<string, string>)
    returns (specs: Option<seq<PortSpec>>)
    requires forall n :: n in names ==> n in services && n in addrs
    ensures specs == SpecsOf(names, (set s | s in selected), services, addrs)
  {
    hide ParsePort;
    var isSelected := set s | s in selected;
    var out: seq<PortSpec> := [];
    for i := 0 to |names|
      invariant SpecsOf(names[..i], isSelected, services, addrs) == Some(out)
    {
      var name := names[i];
      assert names[..i + 1][..i] == names[..i];
      if name in isSelected {
        var mappings := services[name];
        var before := out;
        for k := 0 to |mappings|
          invariant Parses(mappings[..k]) && out == before + Specs(mappings[..k], addrs[name])
        {
          assert mappings[..k + 1] == mappings[..k] + [mappings[k]];
          var p := ParsePort(mappings[k]);
          if p.None? {
            assert mappings[k] in mappings && !Parses(mappings);
            FailsEarly(names, i + 1, isSelected, services, addrs);
            return None;
          }
          out := out + [PortSpec(p.value.0, addrs[name], p.value.1)];
        }
        assert mappings[..|mappings|] == mappings;
      }
    }
    assert names[..|names|] == names;
    return Some(out);
  }

  /** One mapping that does not parse fails the whole list. */
  lemma {:induction false} FailsEarly(names: seq<string>, k: nat, selected: set<string>, services: Mappings, addrs: map<string, string>)
    requires forall n :: n in names ==> n in services && n in addrs
    requires k <= |names| && SpecsOf(names[..k], selected, services, addrs).None?
    ensures SpecsOf(names, selected, services, addrs).None?
    decreases |names| - k
  {
    if k < |names| {
      assert names[..k + 1][..k] == names[..k];
      FailsEarly(names, k + 1, selected, services, addrs);
    } else {
      assert names[..k] == names;
    }
  }

  ghost predicate ComesFrom(p: PortSpec, services: Mappings, addrs: map<string, string>, s: string, i: int) {
    && At(services, s, i) && s in addrs
    && ParsePort(services[s][i]) == Some((p.hostPort, p.guestPort)) && p.guestIP == addrs[s]
  }

  /** The specs are the selected services' mappings, no more and no fewer. */
  lemma {:induction false} SpecsComplete(names: seq<string>, selected: set<string>, services: Mappings, addrs: map<string, string>)
    requires forall n :: n in names ==> n in services && n in addrs
    requires SpecsOf(names, selected, services, addrs).Some?
    ensures var specs := SpecsOf(names, selected, services, addrs).value;
            forall p :: p in specs <==> exists s, i :: s in names && s in selected && ComesFrom(p, services, addrs, s, i)
  {
    hide ParsePort;
    if names == [] {
    } else {
      var init, name := names[..|names| - 1], names[|names| - 1];
      SpecsComplete(init, selected, services, addrs);
      var specs := SpecsOf(names, selected, services, addrs).value;
      var before := SpecsOf(init, selected, services, addrs).value;
      if name in selected {
        var mine := Specs(services[name], addrs[name]);
        forall p ensures p in mine <==> exists i :: ComesFrom(p, services, addrs, name, i) {
          if p in mine {
            var i :| 0 <= i < |mine| && mine[i] == p;
            assert ComesFrom(p, services, addrs, name, i);
          }
          if i :| ComesFrom(p, services, addrs, name, i) {
            assert mine[i] == p;
          }
        }
        forall p ensures p in specs <==> p in before || p in mine { }
      }
      assert forall s :: s in names <==> s in init || s == name;
    }
  }

  ghost predicate DistinctHosts(specs: seq<PortSpec>) {
    forall i, j :: 0 <= i < j < |specs| ==> specs[i].hostPort != specs[j].hostPort
  }

  /** A spec has the host port that the validator reads in its mapping. */
  lemma HostOfSpec(p: PortSpec, services: Mappings, addrs: map<string, string>, s: string, i: int)
    requires ComesFrom(p, services, addrs, s, i)
    ensures At(services, s, i) && HostAt(services, s, i) == Itoa(p.hostPort)
  {
    ReadersAgree(services[s][i]);
  }

  /** If validation and portSpecs both succeed, all host ports are distinct. */
  lemma {:induction false} HostPortsDistinct(names: seq<string>, selected: set<string>, services: Mappings, addrs: map<string, string>)
    requires forall n :: n in names ==> n in services && n in addrs
    requires Distinct(names)
    requires PortsValid(services)
    requires SpecsOf(names, selected, services, addrs).Some?
    ensures DistinctHosts(SpecsOf(names, selected, services, addrs).value)
  {
    hide ParsePort, HostPort;
    if names == [] {
    } else {
      var init, name := names[..|names| - 1], names[|names| - 1];
      HostPortsDistinct(init, selected, services, addrs);
      SpecsComplete(init, selected, services, addrs);
      if name in selected {
        var before := SpecsOf(init, selected, services, addrs).value;
        var mine := Specs(services[name], addrs[name]);
        forall k | 0 <= k < |mine| ensures ComesFrom(mine[k], services, addrs, name, k) { }
        forall i, j | 0 <= i < j < |mine| ensures mine[i].hostPort != mine[j].hostPort {
          HostOfSpec(mine[i], services, addrs, name, i);
          HostOfSpec(mine[j], services, addrs, name, j);
          assert HostAt(services, name, i) != HostAt(services, name, j);
        }
        forall i, j | 0 <= i < |before| && 0 <= j < |mine| ensures before[i].hostPort != mine[j].hostPort {
          assert before[i] in before;
          var s, k :| s in init && ComesFrom(before[i], services, addrs, s, k);
          HostOfSpec(before[i], services, addrs, s, k);
          HostOfSpec(mine[j], services, addrs, name, j);
          assert s != name && HostAt(services, s, k) != HostAt(services, name, j);
        }
      }
    }
  }
}
