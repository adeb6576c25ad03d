/** Port and rule specs, the expression lists they compile to, the tags the
    rules carry, and what the compiled rules mean for a packet. */
module NftCompile {
  import opened Common
  import opened Decimal
  import opened NftMachine

  /** A published port, as shipped to the daemon. */
  datatype PortSpec = PortSpec(hostPort: int, guestIP: string, guestPort: int)

  /** One resolved service-to-service rule; port 0 is every port. */
  datatype RuleSpec = RuleSpec(from: string, to: string, proto: string, port: int)

  const TCP: Byte := 6
  const UDP: Byte := 17

  /** What the code takes from its surroundings: net.ParseIP (sixteen bytes, an
      IPv4 address in its mapped form) and the machine's byte order. */
  datatype Host = Host(parseIP: string -> Option<Addr>, littleEndian: bool) {
    /** An address the daemon accepts: it parses and has no IPv4 form. */
    function IPv6(s: string): Option<Addr> {
      var a := parseIP(s);
      if a.Some? && !V4Mapped(a.value) then a else None
    }
  }

  predicate V4Mapped(a: Addr) {
    (forall i :: 0 <= i < 10 ==> a[i] == 0) && a[10] == 0xff && a[11] == 0xff
  }

  /** No IPv4 address is meant: the sixteen bytes are not ten zeros, two 0xff and
      four more. */
  ghost predicate NoIPv4Form(a: Addr) {
    forall v4: Bytes :: |v4| == 4 ==> a != [0, 0, 0, 0, 0, 0, 0, 0, 0, 0, 0xff, 0xff] + v4
  }

  /** An address text the daemon takes. */
  ghost predicate TakesAddress(h: Host, s: string) {
    h.parseIP(s).Some? && NoIPv4Form(h.parseIP(s).value)
  }

  /** Exactly the addresses the daemon accepts, and as which bytes. */
  lemma AcceptedAddresses(h: Host, s: string)
    ensures h.IPv6(s) == if TakesAddress(h, s) then h.parseIP(s) else None
  {
    if h.parseIP(s).Some? {
      var a := h.parseIP(s).value;
      if V4Mapped(a) {
        assert a == [0, 0, 0, 0, 0, 0, 0, 0, 0, 0, 0xff, 0xff] + a[12..];
      }
      forall v4: Bytes | |v4| == 4 && a == [0, 0, 0, 0, 0, 0, 0, 0, 0, 0, 0xff, 0xff] + v4 ensures V4Mapped(a) { }
    }
  }

  /** No address of a prefix that microbe generates is refused. */
  lemma UniqueLocalAccepted(h: Host, s: string)
    requires h.parseIP(s).Some? && h.parseIP(s).value[0] == 0xfd
    ensures h.IPv6(s) == h.parseIP(s)
  {
  }

  // ---- compilation ----

  const IPV6_SRC_OFFSET := 8
  const IPV6_DST_OFFSET := 24

  function MatchPayload(reg: nat, base: Base, offset: nat, data: Bytes): seq<Expr> {
    [Payload(reg, base, offset, |data|), Cmp(Eq, reg, data)]
  }

  function MatchProto(reg: nat, proto: Byte): seq<Expr> {
    [MetaL4Proto(reg), Cmp(Eq, reg, [proto])]
  }

  function DnatExprs(h: Host, p: PortSpec): Option<seq<Expr>> {
    var addr := h.IPv6(p.guestIP);
    if addr.None? then None
    else Some(MatchProto(1, TCP)
              + (MatchPayload(1, TransportHeader, 2, BE16(p.hostPort))
                 + [Immediate(1, addr.value), Immediate(2, BE16(p.guestPort)), NatDest(1, 2)]))
  }

  function PortAcceptExprs(h: Host, p: PortSpec): Option<seq<Expr>> {
    var addr := h.IPv6(p.guestIP);
    if addr.None? then None
    else Some(MatchPayload(1, NetworkHeader, IPV6_DST_OFFSET, addr.value)
              + (MatchProto(2, TCP)
                 + (MatchPayload(3, TransportHeader, 2, BE16(p.guestPort)) + [AcceptVerdict])))
  }

  function ProtoNumber(proto: string): Byte {
    if proto == "udp" then UDP else TCP
  }

  function RuleExprs(h: Host, r: RuleSpec): Option<seq<Expr>> {
    var from := h.IPv6(r.from);
    var to := h.IPv6(r.to);
    if from.None? || to.None? then None
    else
      var dport := if r.port != 0 then MatchPayload(4, TransportHeader, 2, BE16(r.port)) else [];
      Some(MatchPayload(1, NetworkHeader, IPV6_SRC_OFFSET, from.value)
           + (MatchPayload(2, NetworkHeader, IPV6_DST_OFFSET, to.value)
              + (MatchProto(3, ProtoNumber(r.proto)) + (dport + [AcceptVerdict]))))
  }

  /** ESTABLISHED is bit 1 and RELATED bit 2 of the connection-tracking state. */
  function EstablishedExprs(h: Host): seq<Expr> {
    [CtState(1),
     Bitwise(1, 1, NativePut32(h.littleEndian, 6), [0, 0, 0, 0]),
     Cmp(Neq, 1, [0, 0, 0, 0]),
     AcceptVerdict]
  }

  // ---- tags ----

  const DNAT_PREFIX := "microbe:"
  const RULE_PREFIX := "microbe-fwd-svc:"
  const PORT_PREFIX := "microbe-port:"
  const ESTABLISHED_TAG := "microbe-fwd-established"

  function DnatTag(p: PortSpec): string {
    DNAT_PREFIX + (Itoa(p.hostPort) + [':'] + (p.guestIP + [':'] + Itoa(p.guestPort)))
  }

  function PortTag(p: PortSpec): string {
    PORT_PREFIX + (p.guestIP + [':'] + Itoa(p.guestPort))
  }

  function RuleTag(r: RuleSpec): string {
    RULE_PREFIX + (r.from + ['>'] + ((r.to + [':'] + r.proto) + [':'] + Itoa(r.port)))
  }

  /** The tags' texts. */
  lemma TagTexts(p: PortSpec, r: RuleSpec)
    ensures DnatTag(p) == "microbe:" + Itoa(p.hostPort) + ":" + p.guestIP + ":" + Itoa(p.guestPort)
    ensures PortTag(p) == "microbe-port:" + p.guestIP + ":" + Itoa(p.guestPort)
    ensures RuleTag(r) == "microbe-fwd-svc:" + r.from + ">" + r.to + ":" + r.proto + ":" + Itoa(r.port)
  {
  }

  lemma StripPrefix(prefix: string, a: string, b: string)
    requires prefix + a == prefix + b
    ensures a == b
  {
    assert a == (prefix + a)[|prefix|..] == (prefix + b)[|prefix|..] == b;
  }

  /** Although addresses contain the separator, a DNAT tag determines its spec. */
  lemma DnatTagInjective(p: PortSpec, q: PortSpec)
    requires DnatTag(p) == DnatTag(q)
    ensures p == q
  {
    var p', q' := p.guestIP + [':'] + Itoa(p.guestPort), q.guestIP + [':'] + Itoa(q.guestPort);
    StripPrefix(DNAT_PREFIX, Itoa(p.hostPort) + [':'] + p', Itoa(q.hostPort) + [':'] + q');
    FirstSeparator(Itoa(p.hostPort), p', Itoa(q.hostPort), q', ':');
    LastSeparator(p.guestIP, Itoa(p.guestPort), q.guestIP, Itoa(q.guestPort), ':');
    ItoaInjective(p.hostPort, q.hostPort);
    ItoaInjective(p.guestPort, q.guestPort);
  }

  /** A forward tag determines the guest address and port, and nothing else of the spec. */
  lemma PortTagInjective(p: PortSpec, q: PortSpec)
    ensures PortTag(p) == PortTag(q) <==> p.guestIP == q.guestIP && p.guestPort == q.guestPort
  {
    if PortTag(p) == PortTag(q) {
      StripPrefix(PORT_PREFIX, p.guestIP + [':'] + Itoa(p.guestPort), q.guestIP + [':'] + Itoa(q.guestPort));
      LastSeparator(p.guestIP, Itoa(p.guestPort), q.guestIP, Itoa(q.guestPort), ':');
      ItoaInjective(p.guestPort, q.guestPort);
    }
  }

  /** The characters a rule tag relies on: no '>' in the source, no ':' in the
      protocol. Every address text and every protocol name meets this. */
  predicate Tidy(r: RuleSpec) {
    '>' !in r.from && ':' !in r.proto
  }

  lemma RuleTagInjective(r: RuleSpec, s: RuleSpec)
    requires Tidy(r) && Tidy(s) && RuleTag(r) == RuleTag(s)
    ensures r == s
  {
    var r1, s1 := r.to + [':'] + r.proto, s.to + [':'] + s.proto;
    var r2, s2 := r1 + [':'] + Itoa(r.port), s1 + [':'] + Itoa(s.port);
    StripPrefix(RULE_PREFIX, r.from + ['>'] + r2, s.from + ['>'] + s2);
    FirstSeparator(r.from, r2, s.from, s2, '>');
    LastSeparator(r1, Itoa(r.port), s1, Itoa(s.port), ':');
    LastSeparator(r.to, r.proto, s.to, s.proto, ':');
    ItoaInjective(r.port, s.port);
  }

  /** What the tag says in front of the port. */
  function RuleText(r: RuleSpec): string {
    r.from + ['>'] + (r.to + [':'] + r.proto)
  }

  lemma TagOfText(r: RuleSpec)
    ensures RuleTag(r) == RULE_PREFIX + (RuleText(r) + [':'] + Itoa(r.port))
  {
    assert r.from + ['>'] + ((r.to + [':'] + r.proto) + [':'] + Itoa(r.port)) == RuleText(r) + [':'] + Itoa(r.port);
  }

  function CutFirst(s: string, c: char): (r: (string, string))
    requires c in s
    ensures s == r.0 + [c] + r.1 && c !in r.0
  {
    var i := Index(s, c).value;
    (s[..i], s[i + 1..])
  }

  function CutLast(s: string, c: char): (r: (string, string))
    requires c in s
    ensures s == r.0 + [c] + r.1 && c !in r.1
  {
    var i := LastIndex(s, c).value;
    (s[..i], s[i + 1..])
  }

  /** What follows the first separator ends in what follows any other. */
  lemma FirstCutLeaves(a: string, b: string, a': string, b': string, c: char)
    requires a + [c] + b == a' + [c] + b' && c !in a
    ensures forall x :: x in b' ==> x in b
  {
    var s := a + [c] + b;
    assert forall i :: 0 <= i < |a| ==> s[i] == a[i] != c;
    assert s == a' + [c] + b' && s[|a'|] == c;
    forall i | 0 <= i < |b'| ensures b'[i] in b {
      assert b'[i] == s[|a'| + 1 + i] == b[|a'| + i - |a|];
    }
  }

  /** The tidy spec with the same tag: cut at the first '>' and the last ':'. */
  function Tidied(r: RuleSpec): (t: RuleSpec)
    ensures Tidy(t) && t.port == r.port && RuleText(t) == RuleText(r)
  {
    var rest := r.to + [':'] + r.proto;
    var first := CutFirst(RuleText(r), '>');
    FirstCutLeaves(first.0, first.1, r.from, rest, '>');
    assert ':' in rest;
    var last := CutLast(first.1, ':');
    RuleSpec(first.0, last.0, last.1, r.port)
  }

  lemma TidiedKeepsTag(r: RuleSpec)
    ensures RuleTag(Tidied(r)) == RuleTag(r) && (Tidied(r) == r <==> Tidy(r))
  {
    hide Tidied, RuleText, RuleTag;
    TagOfText(r);
    TagOfText(Tidied(r));
    if Tidy(r) { RuleTagInjective(r, Tidied(r)); }
  }

  /** Exactly when two specs share a tag: the tag is read back as one tidy spec. */
  lemma RuleTagsEqual(r: RuleSpec, s: RuleSpec)
    ensures RuleTag(r) == RuleTag(s) <==> Tidied(r) == Tidied(s)
  {
    hide Tidied, RuleTag;
    TidiedKeepsTag(r);
    TidiedKeepsTag(s);
    if RuleTag(r) == RuleTag(s) { RuleTagInjective(Tidied(r), Tidied(s)); }
  }

  /** Exactly the specs with such a character share their tag with a tidy one. */
  lemma RuleTagAmbiguous(r: RuleSpec)
    ensures !Tidy(r) <==> exists s :: s != r && Tidy(s) && RuleTag(s) == RuleTag(r)
  {
    hide Tidied, RuleTag;
    TidiedKeepsTag(r);
    forall s | Tidy(s) && Tidy(r) && RuleTag(s) == RuleTag(r) ensures s == r { RuleTagInjective(r, s); }
  }

  /** The four classes of tag never meet, so no teardown of one kind can name
      a rule of another. */
  lemma TagClassesDisjoint(p: PortSpec, q: PortSpec, r: RuleSpec)
    ensures |{DnatTag(p), PortTag(q), RuleTag(r), ESTABLISHED_TAG}| == 4
    ensures DNAT_PREFIX <= DnatTag(p) && PORT_PREFIX <= PortTag(q) && RULE_PREFIX <= RuleTag(r)
  {
    assert DnatTag(p)[7] == ':' && PortTag(q)[7] == '-' && RuleTag(r)[7] == '-' && ESTABLISHED_TAG[7] == '-';
    assert PortTag(q)[8] == 'p' && RuleTag(r)[8] == 'f' && ESTABLISHED_TAG[8] == 'f';
    assert RuleTag(r)[12] == 's' && ESTABLISHED_TAG[12] == 'e';
  }

  // ---- meaning ----

  predicate IPv6Packet(pkt: Packet) {
    |pkt.network| >= 40
  }

  function Source(pkt: Packet): Addr
    requires IPv6Packet(pkt)
  {
    pkt.network[8..24]
  }

  function Destination(pkt: Packet): Addr
    requires IPv6Packet(pkt)
  {
    pkt.network[24..40]
  }

  /** Destination port: bytes 2 and 3 of a TCP or UDP header. */
  function DestPort(pkt: Packet): Option<nat> {
    if |pkt.transport| >= 4 then Some((pkt.transport[2] as int) * 256 + pkt.transport[3]) else None
  }

  predicate Established(pkt: Packet) {
    pkt.ctState / 2 % 2 == 1 || pkt.ctState / 4 % 2 == 1
  }

  /** The packet is the traffic a rule declares. */
  predicate RuleGrants(h: Host, r: RuleSpec, pkt: Packet)
    requires IPv6Packet(pkt)
  {
    && h.IPv6(r.from) == Some(Source(pkt))
    && h.IPv6(r.to) == Some(Destination(pkt))
    && pkt.l4proto == Some(if r.proto == "udp" then 17 else 6)
    && (r.port == 0 || DestPort(pkt) == Some(r.port % 0x10000))
  }

  /** The packet is TCP to the guest address and port behind a published port. */
  predicate PortGrants(h: Host, p: PortSpec, pkt: Packet)
    requires IPv6Packet(pkt)
  {
    && h.IPv6(p.guestIP) == Some(Destination(pkt))
    && pkt.l4proto == Some(6)
    && DestPort(pkt) == Some(p.guestPort % 0x10000)
  }

  /** The packet is TCP to the published host port. */
  predicate DnatMatches(p: PortSpec, pkt: Packet) {
    pkt.l4proto == Some(6) && DestPort(pkt) == Some(p.hostPort % 0x10000)
  }

  lemma DestPortIs(pkt: Packet, n: int)
    ensures 2 + |BE16(n)| <= |pkt.transport| && pkt.transport[2..4] == BE16(n)
            <==> DestPort(pkt) == Some(n % 0x10000)
  {
    if |pkt.transport| >= 4 {
      BE16Inverse(pkt.transport[2..4], n);
    }
  }

  lemma RuleExprsMeaning(h: Host, r: RuleSpec, pkt: Packet, regs: Registers)
    requires RuleExprs(h, r).Some? && IPv6Packet(pkt)
    ensures var flow := Exec(h.littleEndian, RuleExprs(h, r).value, pkt, regs);
            if RuleGrants(h, r, pkt) then flow == Stop(Accept) else flow.Break?
  {
    hide Exec, V4Mapped, FromBE16;
    var le, from, to := h.littleEndian, h.IPv6(r.from).value, h.IPv6(r.to).value;
    var dport := if r.port != 0 then MatchPayload(4, TransportHeader, 2, BE16(r.port)) else [];
    var rest3 := dport + [AcceptVerdict];
    var rest2 := MatchProto(3, ProtoNumber(r.proto)) + rest3;
    var rest1 := MatchPayload(2, NetworkHeader, IPV6_DST_OFFSET, to) + rest2;
    var regs1 := ExecPayloadGuard(le, 1, NetworkHeader, IPV6_SRC_OFFSET, from, rest1, pkt, regs);
    var regs2 := ExecPayloadGuard(le, 2, NetworkHeader, IPV6_DST_OFFSET, to, rest2, pkt, regs1);
    var regs3 := ExecProtoGuard(le, 3, ProtoNumber(r.proto), rest3, pkt, regs2);
    PortOrAccept(le, r.port, pkt, regs3);
  }

  /** The tail of a rule: an optional destination-port test, then accept. */
  lemma PortOrAccept(le: bool, port: int, pkt: Packet, regs: Registers)
    ensures var dport := if port != 0 then MatchPayload(4, TransportHeader, 2, BE16(port)) else [];
            var flow := Exec(le, dport + [AcceptVerdict], pkt, regs);
            if port == 0 || DestPort(pkt) == Some(port % 0x10000) then flow == Stop(Accept) else flow.Break?
  {
    if port != 0 {
      var _ := ExecPayloadGuard(le, 4, TransportHeader, 2, BE16(port), [AcceptVerdict], pkt, regs);
      DestPortIs(pkt, port);
    } else {
      assert [] + [AcceptVerdict] == [AcceptVerdict];
    }
  }

  lemma PortAcceptMeaning(h: Host, p: PortSpec, pkt: Packet, regs: Registers)
    requires PortAcceptExprs(h, p).Some? && IPv6Packet(pkt)
    ensures var flow := Exec(h.littleEndian, PortAcceptExprs(h, p).value, pkt, regs);
            if PortGrants(h, p, pkt) then flow == Stop(Accept) else flow.Break?
  {
    hide Exec, V4Mapped, FromBE16;
    var le, addr := h.littleEndian, h.IPv6(p.guestIP).value;
    var rest2 := MatchPayload(3, TransportHeader, 2, BE16(p.guestPort)) + [AcceptVerdict];
    var regs1 := ExecPayloadGuard(le, 1, NetworkHeader, IPV6_DST_OFFSET, addr, MatchProto(2, TCP) + rest2, pkt, regs);
    var regs2 := ExecProtoGuard(le, 2, TCP, rest2, pkt, regs1);
    var regs3 := ExecPayloadGuard(le, 3, TransportHeader, 2, BE16(p.guestPort), [AcceptVerdict], pkt, regs2);
    DestPortIs(pkt, p.guestPort);
    ExecAccept(le, pkt, regs3);
  }

  lemma DnatMeaning(h: Host, p: PortSpec, pkt: Packet, regs: Registers)
    requires DnatExprs(h, p).Some?
    ensures var flow := Exec(h.littleEndian, DnatExprs(h, p).value, pkt, regs);
            if DnatMatches(p, pkt)
            then flow == Stop(Redirect(h.IPv6(p.guestIP).value, p.guestPort % 0x10000))
            else flow.Break?
  {
    var le, addr := h.littleEndian, h.IPv6(p.guestIP).value;
    var target := [Immediate(1, addr), Immediate(2, BE16(p.guestPort)), NatDest(1, 2)];
    var regs1 := ExecProtoGuard(le, 1, TCP, MatchPayload(1, TransportHeader, 2, BE16(p.hostPort)) + target, pkt, regs);
    var regs2 := ExecPayloadGuard(le, 1, TransportHeader, 2, BE16(p.hostPort), target, pkt, regs1);
    DestPortIs(pkt, p.hostPort);
    RedirectsTo(le, addr, p.guestPort, pkt, regs2);
  }

  lemma RedirectsTo(le: bool, addr: Addr, port: int, pkt: Packet, regs: Registers)
    ensures Exec(le, [Immediate(1, addr), Immediate(2, BE16(port)), NatDest(1, 2)], pkt, regs)
            == Stop(Redirect(addr, port % 0x10000))
  {
    var es := [Immediate(1, addr), Immediate(2, BE16(port)), NatDest(1, 2)];
    var regs1 := Put(regs, 1, addr);
    var regs2 := Put(regs1, 2, BE16(port));
    GetPut(regs, 1, addr);
    GetPut(regs1, 2, BE16(port));
    BE16RoundTrip(port);
    assert Get(regs1, 1)[..16] == Get(regs1, 1);
    assert Get(regs2, 1) == addr && Get(regs2, 2)[..2] == BE16(port);
    assert es[1..] == [Immediate(2, BE16(port)), NatDest(1, 2)];
    assert es[1..][1..] == [NatDest(1, 2)];
    assert Exec(le, es, pkt, regs) == Exec(le, es[1..], pkt, regs1);
    assert Exec(le, es[1..], pkt, regs1) == Exec(le, es[1..][1..], pkt, regs2);
  }

  // The mask 6 keeps bits 1 and 2 of the state's lowest byte and nothing else.

  lemma AndSix(a: nat)
    ensures And(a, 6) != 0 <==> a / 2 % 2 == 1 || a / 4 % 2 == 1
  {
    assert And(a / 2, 3) == a / 2 % 2 + 2 * And(a / 4, 1);
    assert And(a / 4, 1) == a / 4 % 2;
  }

  lemma EvenShift(x: nat, q: nat)
    ensures (x + 2 * q) % 2 == x % 2
  {
  }

  lemma LowByteBits(n: nat)
    ensures n % 256 / 2 % 2 == n / 2 % 2
    ensures n % 256 / 4 % 2 == n / 4 % 2
  {
    var low, q := n % 256, n / 256;
    assert n / 2 == low / 2 + 2 * (64 * q);
    EvenShift(low / 2, 64 * q);
    assert n / 4 == low / 4 + 2 * (32 * q);
    EvenShift(low / 4, 32 * q);
  }

  lemma MaskedBytes(s: Bytes)
    requires |s| == 4
    ensures AndThenXor(s, [6, 0, 0, 0], [0, 0, 0, 0]) == [And(s[0], 6), 0, 0, 0]
    ensures AndThenXor(s, [0, 0, 0, 6], [0, 0, 0, 0]) == [0, 0, 0, And(s[3], 6)]
  {
    assert forall i :: 0 <= i < 4 ==> AndByte(s[i], 0) == 0;
  }

  lemma MaskedState(littleEndian: bool, n: nat)
    ensures var masked := AndThenXor(NativePut32(littleEndian, n), NativePut32(littleEndian, 6), [0, 0, 0, 0]);
            masked != [0, 0, 0, 0] <==> n / 2 % 2 == 1 || n / 4 % 2 == 1
  {
    hide And, AndThenXor;
    var state := NativePut32(littleEndian, n);
    var low := n % 256;
    MaskedBytes(state);
    AndSix(low);
    LowByteBits(n);
    if littleEndian {
      assert NativePut32(littleEndian, 6) == [6, 0, 0, 0];
      assert And(low, 6) == 0 <==> [And(low, 6), 0, 0, 0] == [0, 0, 0, 0];
    } else {
      assert NativePut32(littleEndian, 6) == [0, 0, 0, 6];
      assert And(low, 6) == 0 <==> [0, 0, 0, And(low, 6)] == [0, 0, 0, 0];
    }
  }

  /** Mask register 1 and accept unless nothing is left. */
  lemma MaskAndAccept(le: bool, s: Bytes, mask: Bytes, pkt: Packet, regs: Registers)
    requires |s| == |mask| == 4 && Get(regs, 1)[..4] == s
    ensures var zero := [0, 0, 0, 0];
            var es := [Bitwise(1, 1, mask, zero), Cmp(Neq, 1, zero), AcceptVerdict];
            var flow := Exec(le, es, pkt, regs);
            if AndThenXor(s, mask, zero) != zero then flow == Stop(Accept) else flow.Break?
  {
    var zero := [0, 0, 0, 0];
    var es := [Bitwise(1, 1, mask, zero), Cmp(Neq, 1, zero), AcceptVerdict];
    var masked := AndThenXor(s, mask, zero);
    assert forall i :: 0 <= i < 4 ==> Get(regs, 1)[i] == s[i];
    assert AndThenXor(Get(regs, 1), mask, zero) == masked;
    var regs' := Put(regs, 1, masked);
    GetPut(regs, 1, masked);
    assert Get(regs', 1)[..|zero|] == masked;
    var es1 := [Cmp(Neq, 1, zero), AcceptVerdict];
    assert es[1..] == es1;
    assert Exec(le, es, pkt, regs) == Exec(le, es1, pkt, regs');
    assert es1[1..] == [AcceptVerdict];
    assert Exec(le, [AcceptVerdict], pkt, regs') == Stop(Accept);
    assert Step(le, es1[0], pkt, regs') == if masked != zero then Next(regs') else Break(regs');
  }

  lemma EstablishedMeaning(h: Host, pkt: Packet, regs: Registers)
    ensures var flow := Exec(h.littleEndian, EstablishedExprs(h), pkt, regs);
            if Established(pkt) then flow == Stop(Accept) else flow.Break?
  {
    var le, es := h.littleEndian, EstablishedExprs(h);
    var state, mask := NativePut32(le, pkt.ctState), NativePut32(le, 6);
    var regs' := Put(regs, 1, state);
    GetPut(regs, 1, state);
    assert es[1..] == [Bitwise(1, 1, mask, [0, 0, 0, 0]), Cmp(Neq, 1, [0, 0, 0, 0]), AcceptVerdict];
    MaskAndAccept(le, state, mask, pkt, regs');
    MaskedState(le, pkt.ctState);
  }
}
