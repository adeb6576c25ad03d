/** The part of nftables' register machine that the rule builders use: packets
    as bytes, sixteen-byte registers, expressions, rules and chains. */
module NftMachine {
  import opened Common

  /** What a hook sees of one IPv6 packet. `l4proto` is None, and `transport`
      too short to load from, where the kernel cannot locate a transport header. */
  datatype Packet = Packet(network: Bytes, l4proto: Option<Byte>, transport: Bytes, ctState: nat)

  datatype Base = NetworkHeader | TransportHeader
  datatype CmpOp = Eq | Neq

  datatype Expr =
    | MetaL4Proto(dreg: nat)
    | CtState(dreg: nat)
    | Payload(dreg: nat, base: Base, offset: nat, len: nat)
    | Immediate(dreg: nat, data: Bytes)
    | Bitwise(sreg: nat, dreg: nat, mask: Bytes, xor: Bytes)
    | Cmp(op: CmpOp, sreg: nat, data: Bytes)
    | NatDest(addrReg: nat, portReg: nat)
    | AcceptVerdict

  datatype Rule = Rule(tag: string, exprs: seq<Expr>)

  datatype Verdict = Accept | Drop | Redirect(addr: Bytes, port: nat)

  // ---- registers ----

  type Register = r: Bytes | |r| == 16 witness Zeros(16)
  type Registers = map<nat, Register>

  function Get(regs: Registers, r: nat): Register {
    if r in regs then regs[r] else Zeros(16)
  }

  /** A load fills whole four-byte words, padding the last with zeros. */
  function Put(regs: Registers, r: nat, data: Bytes): Registers {
    var d := if |data| > 16 then data[..16] else data;
    var padded := d + Zeros((4 - |d| % 4) % 4);
    regs[r := padded + Get(regs, r)[|padded|..]]
  }

  lemma GetPut(regs: Registers, r: nat, data: Bytes)
    requires |data| <= 16
    ensures Get(Put(regs, r, data), r)[..|data|] == data
    ensures forall q :: q != r ==> Get(Put(regs, r, data), q) == Get(regs, q)
  {
  }

  // ---- bits ----

  function And(a: nat, b: nat): (r: nat)
    ensures r <= b
    decreases b
  {
    if b == 0 then 0 else a % 2 * (b % 2) + 2 * And(a / 2, b / 2)
  }

  function Xor(a: nat, b: nat): nat
    decreases b
  {
    if b == 0 then a else (a + b) % 2 + 2 * Xor(a / 2, b / 2)
  }

  function Pow2(k: nat): nat {
    if k == 0 then 1 else 2 * Pow2(k - 1)
  }

  lemma {:induction false} XorBound(k: nat, a: nat, b: nat)
    requires a < Pow2(k) && b < Pow2(k)
    ensures Xor(a, b) < Pow2(k)
  {
    if b == 0 {
    } else {
      XorBound(k - 1, a / 2, b / 2);
    }
  }

  function AndByte(a: Byte, b: Byte): Byte {
    And(a, b)
  }

  function XorByte(a: Byte, b: Byte): Byte {
    assert Pow2(8) == 256;
    XorBound(8, a, b);
    Xor(a, b)
  }

  function AndThenXor(s: Bytes, mask: Bytes, xor: Bytes): (r: Bytes)
    requires |mask| <= |s| && |xor| == |mask|
    ensures |r| == |mask|
  {
    seq(|mask|, i requires 0 <= i < |mask| => XorByte(AndByte(s[i], mask[i]), xor[i]))
  }

  /** binaryutil.NativeEndian.PutUint32 on a host of the given byte order. */
  function NativePut32(littleEndian: bool, n: nat): (r: Bytes)
    ensures |r| == 4
  {
    if littleEndian then [n % 256, n / 256 % 256, n / 0x10000 % 256, n / 0x1000000 % 256] else BE32(n)
  }

  // ---- running expressions ----

  datatype Flow = Next(regs: Registers) | Break(regs: Registers) | Stop(verdict: Verdict)

  function Header(pkt: Packet, base: Base): Bytes {
    match base
    case NetworkHeader => pkt.network
    case TransportHeader => pkt.transport
  }

  function Step(littleEndian: bool, e: Expr, pkt: Packet, regs: Registers): Flow {
    match e
    case MetaL4Proto(d) =>
      if pkt.l4proto.Some? then Next(Put(regs, d, [pkt.l4proto.value])) else Break(regs)
    case CtState(d) =>
      Next(Put(regs, d, NativePut32(littleEndian, pkt.ctState)))
    case Payload(d, base, offset, len) =>
      if offset + len <= |Header(pkt, base)| then
        Next(Put(regs, d, Header(pkt, base)[offset..offset + len]))
      else
        Break(regs)
    case Immediate(d, data) =>
      Next(Put(regs, d, data))
    case Bitwise(s, d, mask, xor) =>
      if |mask| <= 16 && |xor| == |mask| then
        Next(Put(regs, d, AndThenXor(Get(regs, s), mask, xor)))
      else
        Break(regs)
    case Cmp(op, s, data) =>
      if |data| <= 16 && (op == Eq) == (Get(regs, s)[..|data|] == data) then Next(regs) else Break(regs)
    case NatDest(a, p) =>
      Stop(Redirect(Get(regs, a), FromBE16(Get(regs, p)[..2])))
    case AcceptVerdict =>
      Stop(Accept)
  }

  function Exec(littleEndian: bool, es: seq<Expr>, pkt: Packet, regs: Registers): Flow {
    if es == [] then Next(regs)
    else
      match Step(littleEndian, es[0], pkt, regs)
      case Next(regs') => Exec(littleEndian, es[1..], pkt, regs')
      case Break(regs') => Break(regs')
      case Stop(v) => Stop(v)
  }

  /** Rules run in order until one gives a verdict; registers are carried from
      one rule to the next, and the chain's policy decides at the end. */
  function RunChain(littleEndian: bool, rules: seq<Rule>, pkt: Packet, regs: Registers, policy: Verdict): Verdict {
    if rules == [] then policy
    else
      match Exec(littleEndian, rules[0].exprs, pkt, regs)
      case Stop(v) => v
      case Next(regs') => RunChain(littleEndian, rules[1..], pkt, regs', policy)
      case Break(regs') => RunChain(littleEndian, rules[1..], pkt, regs', policy)
  }

  /** A load followed by an equality test goes on exactly when the loaded bytes
      are the expected ones. */
  lemma ExecPayloadGuard(le: bool, reg: nat, base: Base, offset: nat, data: Bytes, rest: seq<Expr>, pkt: Packet, regs: Registers)
    returns (after: Registers)
    requires |data| <= 16
    ensures var es := [Payload(reg, base, offset, |data|), Cmp(Eq, reg, data)] + rest;
            var h := Header(pkt, base);
            if offset + |data| <= |h| && h[offset..offset + |data|] == data
            then Exec(le, es, pkt, regs) == Exec(le, rest, pkt, after)
            else Exec(le, es, pkt, regs).Break?
  {
    hide Put, RunChain;
    var es := [Payload(reg, base, offset, |data|), Cmp(Eq, reg, data)] + rest;
    var h := Header(pkt, base);
    assert es[1..] == [Cmp(Eq, reg, data)] + rest;
    assert es[1..][1..] == rest;
    after := Put(regs, reg, data);
    if offset + |data| <= |h| {
      GetPut(regs, reg, h[offset..offset + |data|]);
    }
  }

  lemma ExecProtoGuard(le: bool, reg: nat, proto: Byte, rest: seq<Expr>, pkt: Packet, regs: Registers)
    returns (after: Registers)
    ensures var es := [MetaL4Proto(reg), Cmp(Eq, reg, [proto])] + rest;
            if pkt.l4proto == Some(proto)
            then Exec(le, es, pkt, regs) == Exec(le, rest, pkt, after)
            else Exec(le, es, pkt, regs).Break?
  {
    hide Put, RunChain;
    var es := [MetaL4Proto(reg), Cmp(Eq, reg, [proto])] + rest;
    assert es[1..] == [Cmp(Eq, reg, [proto])] + rest;
    assert es[1..][1..] == rest;
    after := Put(regs, reg, [proto]);
    if pkt.l4proto.Some? {
      GetPut(regs, reg, [pkt.l4proto.value]);
      if pkt.l4proto.value != proto {
        assert [pkt.l4proto.value][0] != [proto][0];
      }
    }
  }

  lemma ExecAccept(le: bool, pkt: Packet, regs: Registers)
    ensures Exec(le, [AcceptVerdict], pkt, regs) == Stop(Accept)
  {
  }

  // ---- chains of accepting rules ----

  /** Whatever the registers hold, the rule accepts pkt if `fires`, else falls through. */
  ghost predicate Decides(le: bool, rule: Rule, pkt: Packet, fires: bool) {
    forall regs :: if fires then Exec(le, rule.exprs, pkt, regs) == Stop(Accept)
                   else Exec(le, rule.exprs, pkt, regs).Break?
  }

  /** A default-deny chain of such rules accepts exactly when some rule fires. */
  lemma {:induction false} ChainAccepts(le: bool, rules: seq<Rule>, pkt: Packet, regs: Registers)
    requires forall r :: r in rules ==> Decides(le, r, pkt, true) || Decides(le, r, pkt, false)
    ensures RunChain(le, rules, pkt, regs, Drop) ==
            if exists r :: r in rules && Decides(le, r, pkt, true) then Accept else Drop
  {
    if rules == [] {
    } else {
      var flow := Exec(le, rules[0].exprs, pkt, regs);
      if !Decides(le, rules[0], pkt, true) {
        assert Decides(le, rules[0], pkt, false);
        ChainAccepts(le, rules[1..], pkt, flow.regs);
        assert forall r :: r in rules <==> r == rules[0] || r in rules[1..];
      }
    }
  }
}
