/** Permanent per-service addresses: static ones win, locked ones are reused,
    the rest are drawn at random from the lock's prefix. */
module Addresses {
  import opened Common
  import opened Sorting

  type PrefixLen = n: nat | n <= 128

  datatype Prefix = Prefix(addr: Addr, bits: PrefixLen, is6: bool)

  /** net/netip's parsing and printing. */
  datatype Codec = Codec(parsePrefix: string -> Option<Prefix>, show: Addr -> string)

  datatype Attach = Attach(name: string, addr: string)

  /** Service name to its attachments. */
  type Config = map<string, seq<Attach>>

  datatype LockState = LockState(prefix: string, services: map<string, string>)

  /** The first address an attachment pins, or "". */
  function StaticAddr(attaches: seq<Attach>): string {
    if attaches == [] then "" else if attaches[0].addr != "" then attaches[0].addr else StaticAddr(attaches[1..])
  }

  /** The first attachment with an address is the i-th. */
  predicate FirstPin(attaches: seq<Attach>, i: int) {
    0 <= i < |attaches| && attaches[i].addr != "" && forall j :: 0 <= j < i ==> attaches[j].addr == ""
  }

  ghost predicate PinnedTo(attaches: seq<Attach>, addr: string) {
    exists i :: FirstPin(attaches, i) && addr == attaches[i].addr
  }

  /** Exactly when an address is pinned, and which. */
  lemma {:induction false} StaticAddrIs(attaches: seq<Attach>)
    ensures StaticAddr(attaches) == "" <==> forall a :: a in attaches ==> a.addr == ""
    ensures forall i :: FirstPin(attaches, i) ==> StaticAddr(attaches) == attaches[i].addr
    ensures StaticAddr(attaches) != "" ==> exists i :: FirstPin(attaches, i)
  {
    if attaches == [] {
    } else if attaches[0].addr != "" {
      assert FirstPin(attaches, 0);
    } else {
      var rest := attaches[1..];
      StaticAddrIs(rest);
      assert forall a :: a in attaches <==> a == attaches[0] || a in rest;
      forall i | FirstPin(attaches, i) ensures StaticAddr(attaches) == attaches[i].addr {
        assert FirstPin(rest, i - 1) && rest[i - 1] == attaches[i];
      }
      if StaticAddr(attaches) != "" {
        var i :| FirstPin(rest, i);
        assert FirstPin(attaches, i + 1);
      }
    }
  }

  lemma PinOf(attaches: seq<Attach>)
    ensures StaticAddr(attaches) == "" <==> forall a :: a in attaches ==> a.addr == ""
    ensures forall x :: PinnedTo(attaches, x) ==> x == StaticAddr(attaches)
    ensures StaticAddr(attaches) != "" ==> PinnedTo(attaches, StaticAddr(attaches))
  {
    StaticAddrIs(attaches);
    hide StaticAddr;
  }

  /** Some attachment of the service has an address. */
  predicate Pinned(cfg: Config, svc: string) {
    svc in cfg && exists a :: a in cfg[svc] && a.addr != ""
  }

  predicate InPrefix(a: Addr, p: Prefix) {
    a[..p.bits / 8] == p.addr[..p.bits / 8]
  }

  /** The k-th bit of a byte, least significant first. */
  function LowBit(b: nat, k: nat): nat {
    if k == 0 then b % 2 else LowBit(b / 2, k - 1)
  }

  /** The i-th bit of an address, most significant first. */
  function Bit(a: Addr, i: nat): nat
    requires i < 128
  {
    LowBit(a[i / 8], 7 - i % 8)
  }

  function Pow2(k: nat): nat {
    if k == 0 then 1 else 2 * Pow2(k - 1)
  }

  /** Numbers below 2^n with the same n bits are the same. */
  lemma {:induction false} SameBits(a: nat, b: nat, n: nat)
    requires a < Pow2(n) && b < Pow2(n) && forall k :: 0 <= k < n ==> LowBit(a, k) == LowBit(b, k)
    ensures a == b
  {
    if n == 0 {
    } else {
      assert LowBit(a, 0) == LowBit(b, 0);
      forall k | 0 <= k < n - 1 ensures LowBit(a / 2, k) == LowBit(b / 2, k) {
        assert LowBit(a, k + 1) == LowBit(b, k + 1);
      }
      SameBits(a / 2, b / 2, n - 1);
    }
  }

  /** Under a prefix that ends at a byte, lying in it is agreeing in its bits. */
  lemma InPrefixIs(a: Addr, p: Prefix)
    requires p.bits % 8 == 0
    ensures InPrefix(a, p) <==> forall i :: 0 <= i < p.bits ==> Bit(a, i) == Bit(p.addr, i)
  {
    var n := p.bits / 8;
    if InPrefix(a, p) {
      forall i | 0 <= i < p.bits ensures Bit(a, i) == Bit(p.addr, i) {
        assert a[..n][i / 8] == p.addr[..n][i / 8];
      }
    }
    if forall i :: 0 <= i < p.bits ==> Bit(a, i) == Bit(p.addr, i) {
      forall j | 0 <= j < n ensures a[j] == p.addr[j] { BitsOfByte(a, p, j); }
    }
  }

  lemma BitsOfByte(a: Addr, p: Prefix, j: nat)
    requires j < p.bits / 8 && forall i :: 0 <= i < p.bits ==> Bit(a, i) == Bit(p.addr, i)
    ensures a[j] == p.addr[j]
  {
    forall k | 0 <= k < 8 ensures LowBit(a[j], k) == LowBit(p.addr[j], k) {
      var i := 8 * j + (7 - k);
      assert i / 8 == j && i % 8 == 7 - k;
      assert Bit(a, i) == Bit(p.addr, i);
    }
    assert Pow2(8) == 256;
    SameBits(a[j], p.addr[j], 8);
  }

  /** An address the planner may generate under this lock: its prefix is IPv6 and
      ends at a byte, where comparing whole bytes is membership. */
  ghost predicate Generated(codec: Codec, prefix: string, addr: string) {
    && codec.parsePrefix(prefix).Some?
    && codec.parsePrefix(prefix).value.is6 && codec.parsePrefix(prefix).value.bits % 8 == 0
    && exists a :: InPrefix(a, codec.parsePrefix(prefix).value) && addr == codec.show(a)
  }

  /** What a successful Plan does to the lock. */
  ghost predicate Planned(codec: Codec, was: LockState, cfg: Config, now: LockState) {
    && now.prefix == was.prefix
    && now.services.Keys == was.services.Keys + cfg.Keys
    && (forall s :: Pinned(cfg, s) ==> PinnedTo(cfg[s], now.services[s]))
    && (forall s :: s in was.services && !Pinned(cfg, s) ==> now.services[s] == was.services[s])
    && (forall s :: s in cfg && s !in was.services && !Pinned(cfg, s) ==> Generated(codec, was.prefix, now.services[s]))
  }

  /** The plan covers exactly these services and agrees with the lock on them. */
  predicate Agree(addrs: map<string, string>, locked: map<string, string>, services: set<string>) {
    addrs.Keys == services && forall s :: s in addrs ==> s in locked && addrs[s] == locked[s]
  }

  /** Some service needs a generated address. */
  predicate SomeNew(cfg: Config, locked: map<string, string>) {
    exists s :: s in cfg && !Pinned(cfg, s) && s !in locked
  }

  class Lock {
    var prefix: string
    var services: map<string, string>

    constructor (s: LockState)
      ensures State() == s
    {
      prefix, services := s.prefix, s.services;
    }

    function State(): LockState
      reads this
    {
      LockState(prefix, services)
    }
  }

  /** crypto/rand: any bytes, or an error. */
  method RandomBytes(n: nat) returns (buf: Bytes, ok: bool)
    ensures |buf| == n
  {
    assert |Zeros(n)| == n;
    buf :| |buf| == n;
    ok := *;
  }

  /** Every bit outside the prefix is random; whole bytes only. */
  method RandomAddr(codec: Codec, prefix: Prefix) returns (addr: Option<string>)
    ensures addr.Some? ==> prefix.is6 && prefix.bits % 8 == 0
    ensures addr.Some? ==> exists random: Bytes ::
              |random| == 16 - prefix.bits / 8 && addr.value == codec.show(prefix.addr[..prefix.bits / 8] + random)
  {
    if !prefix.is6 || prefix.bits % 8 != 0 {
      return None;
    }
    var n := prefix.bits / 8;
    var base := new Byte[16](i requires 0 <= i < 16 => if i < n then prefix.addr[i] else 0);
    var hostBytes := (128 - prefix.bits) / 8;
    var buf, ok := RandomBytes(hostBytes);
    if !ok {
      return None;
    }
    for i := 0 to hostBytes
      invariant base[..n] == prefix.addr[..n] && base[n..n + i] == buf[..i]
    {
      base[16 - hostBytes + i] := buf[i];
    }
    assert base[..] == base[..n] + base[n..n + hostBytes] && buf[..hostBytes] == buf;
    assert base[..] == prefix.addr[..n] + buf;
    return Some(codec.show(base[..]));
  }

  lemma RandomIsGenerated(codec: Codec, text: string, random: Bytes)
    requires codec.parsePrefix(text).Some?
    requires var p := codec.parsePrefix(text).value; p.is6 && p.bits % 8 == 0 && |random| == 16 - p.bits / 8
    ensures var p := codec.parsePrefix(text).value; Generated(codec, text, codec.show(p.addr[..p.bits / 8] + random))
  {
    var p := codec.parsePrefix(text).value;
    var n := p.bits / 8;
    var a: Addr := p.addr[..n] + random;
    assert a[..n] == p.addr[..n];
    assert InPrefix(a, p);
  }

  function Restrict(cfg: Config, done: set<string>): Config {
    map s | s in cfg && s in done :: cfg[s]
  }

  /** One more service, pinned, locked, or given a generated address. */
  lemma PlannedStep(codec: Codec, was: LockState, cfg: Config, done: set<string>, now: LockState, svc: string, addr: string)
    requires Planned(codec, was, Restrict(cfg, done), now) && svc in cfg && svc !in done
    requires if StaticAddr(cfg[svc]) != "" then addr == StaticAddr(cfg[svc])
             else if svc in now.services then addr == now.services[svc]
             else Generated(codec, was.prefix, addr)
    ensures Planned(codec, was, Restrict(cfg, done + {svc}), now.(services := now.services[svc := addr]))
  {
    hide StaticAddr, Generated, PinnedTo, Pinned, Restrict;
    PinOf(cfg[svc]);
    PinnedIs(cfg, svc);
    RestrictMore(cfg, done, svc);
  }

  lemma PinnedIs(cfg: Config, svc: string)
    requires svc in cfg
    ensures Pinned(cfg, svc) <==> StaticAddr(cfg[svc]) != ""
  {
    PinOf(cfg[svc]);
    hide StaticAddr;
  }

  lemma RestrictMore(cfg: Config, done: set<string>, svc: string)
    requires svc in cfg && svc !in done
    ensures var small, big := Restrict(cfg, done), Restrict(cfg, done + {svc});
            && big.Keys == small.Keys + {svc} && svc !in small
            && (forall s :: s in big ==> big[s] == cfg[s]) && (forall s :: s in small ==> small[s] == cfg[s])
            && (forall s :: Pinned(small, s) ==> s in small)
            && (forall s :: Pinned(big, s) <==> Pinned(small, s) || (s == svc && Pinned(cfg, svc)))
  {
  }

  /** The address of one service, and whether the lock had to change for it. */
  method AllocateOne(codec: Codec, attaches: seq<Attach>, svc: string, prefix: Prefix, lock: Lock) returns (addr: Option<string>)
    requires codec.parsePrefix(lock.prefix) == Some(prefix)
    modifies lock`services
    ensures addr.None? ==> lock.services == old(lock.services) && StaticAddr(attaches) == "" && svc !in lock.services
    ensures addr.Some? ==> lock.services == old(lock.services)[svc := addr.value]
    ensures addr.Some? ==>
              if StaticAddr(attaches) != "" then addr.value == StaticAddr(attaches)
              else if svc in old(lock.services) then addr.value == old(lock.services)[svc]
              else Generated(codec, lock.prefix, addr.value)
  {
    var pinned := StaticAddr(attaches);
    if pinned != "" {
      lock.services := lock.services[svc := pinned];
      return Some(pinned);
    }
    if svc in lock.services {
      return Some(lock.services[svc]);
    }
    addr := RandomAddr(codec, prefix);
    if addr.Some? {
      ghost var random: Bytes :|
        |random| == 16 - prefix.bits / 8 && addr.value == codec.show(prefix.addr[..prefix.bits / 8] + random);
      RandomIsGenerated(codec, lock.prefix, random);
      lock.services := lock.services[svc := addr.value];
    }
  }

  /** allocateAddrs, in sorted service order. It fails only for want of a prefix
      or when an address has to be generated; an error leaves a lock that the
      caller does not save. */
  method AllocateAddrs(codec: Codec, cfg: Config, lock: Lock) returns (addrs: Option<map<string, string>>)
    modifies lock
    ensures addrs.None? ==> lock.prefix == "" || codec.parsePrefix(lock.prefix).None? || SomeNew(cfg, old(lock.services))
    ensures addrs.Some? ==> Planned(codec, old(lock.State()), cfg, lock.State())
    ensures addrs.Some? ==> Agree(addrs.value, lock.services, cfg.Keys)
    ensures addrs.Some? ==> forall s, i :: s in cfg && FirstPin(cfg[s], i) ==> addrs.value[s] == cfg[s][i].addr
    ensures addrs.Some? ==> lock.prefix != "" && codec.parsePrefix(lock.prefix).Some?
  {
    hide Planned, Generated, StaticAddr, Sorted, Restrict, Items, Distinct, Agree, SomeNew, FirstPin;
    if lock.prefix == "" || codec.parsePrefix(lock.prefix).None? {
      return None;
    }
    var prefix := codec.parsePrefix(lock.prefix).value;
    var out: map<string, string> := map[];
    ghost var was := lock.State();
    var names := SortedNames(cfg.Keys);
    NothingPlanned(codec, was, cfg);
    for i := 0 to |names|
      invariant Planned(codec, was, Restrict(cfg, Items(names[..i])), lock.State())
      invariant lock.prefix == was.prefix && was.services.Keys <= lock.services.Keys
      invariant Agree(out, lock.services, Items(names[..i]))
    {
      var svc := names[i];
      assert svc in names;
      OneMoreItem(names, i);
      ghost var now := lock.State();
      var addr := AllocateOne(codec, cfg[svc], svc, prefix, lock);
      if addr.None? {
        NewService(cfg, was.services, svc);
        return None;
      }
      AgreeStep(out, now.services, Items(names[..i]), svc, addr.value);
      PlannedStep(codec, was, cfg, Items(names[..i]), now, svc, addr.value);
      out := out[svc := addr.value];
    }
    AllPlanned(cfg, names);
    PinsAgree(codec, was, cfg, lock.State(), out);
    return Some(out);
  }

  lemma NewService(cfg: Config, locked: map<string, string>, svc: string)
    requires svc in cfg && StaticAddr(cfg[svc]) == "" && svc !in locked
    ensures SomeNew(cfg, locked)
  {
    StaticAddrIs(cfg[svc]);
  }

  lemma AgreeStep(addrs: map<string, string>, locked: map<string, string>, done: set<string>, svc: string, addr: string)
    requires Agree(addrs, locked, done)
    ensures Agree(addrs[svc := addr], locked[svc := addr], done + {svc})
  {
  }

  lemma PinsAgree(codec: Codec, was: LockState, cfg: Config, now: LockState, addrs: map<string, string>)
    requires Planned(codec, was, cfg, now) && Agree(addrs, now.services, cfg.Keys)
    ensures forall s, i :: s in cfg && FirstPin(cfg[s], i) ==> addrs[s] == cfg[s][i].addr
  {
    hide Generated;
    forall s, i | s in cfg && FirstPin(cfg[s], i) ensures addrs[s] == cfg[s][i].addr {
      PinOf(cfg[s]);
      assert cfg[s][i] in cfg[s] && PinnedTo(cfg[s], cfg[s][i].addr);
    }
  }

  lemma AllPlanned(cfg: Config, names: seq<string>)
    requires forall s :: s in names <==> s in cfg
    ensures Items(names[..|names|]) == cfg.Keys && Restrict(cfg, cfg.Keys) == cfg
  {
    assert names[..|names|] == names;
  }

  lemma NothingPlanned(codec: Codec, was: LockState, cfg: Config)
    ensures Items<string>([]) == {} && Agree(map[], was.services, {}) && Planned(codec, was, Restrict(cfg, {}), was)
  {
  }

  // ---- over any sequence of successful plans ----

  ghost predicate History(codec: Codec, locks: seq<LockState>, cfgs: seq<Config>) {
    |locks| == |cfgs| + 1 && forall i :: 0 <= i < |cfgs| ==> Planned(codec, locks[i], cfgs[i], locks[i + 1])
  }

  /** A locked address changes only at a plan whose configuration pins it. */
  lemma {:induction false} AddressesArePermanent(codec: Codec, locks: seq<LockState>, cfgs: seq<Config>, svc: string, i: nat, j: nat)
    requires History(codec, locks, cfgs) && i <= j <= |cfgs| && svc in locks[i].services
    requires forall k :: i <= k < j ==> !Pinned(cfgs[k], svc)
    ensures svc in locks[j].services && locks[j].services[svc] == locks[i].services[svc]
    decreases j
  {
    if i == j {
    } else {
      AddressesArePermanent(codec, locks, cfgs, svc, i, j - 1);
      assert Planned(codec, locks[j - 1], cfgs[j - 1], locks[j]);
    }
  }

  /** From an empty lock every address was pinned by some configuration or lies
      in the lock's prefix, which never changes. */
  lemma {:induction false} AddressesHaveASource(codec: Codec, locks: seq<LockState>, cfgs: seq<Config>, svc: string, j: nat)
    requires History(codec, locks, cfgs) && j <= |cfgs| && locks[0].services == map[] && svc in locks[j].services
    ensures locks[j].prefix == locks[0].prefix
    ensures || (exists k, i :: 0 <= k < j && svc in cfgs[k] && FirstPin(cfgs[k][svc], i) && locks[j].services[svc] == cfgs[k][svc][i].addr)
            || Generated(codec, locks[0].prefix, locks[j].services[svc])
    decreases j
  {
    assert Planned(codec, locks[j - 1], cfgs[j - 1], locks[j]);
    PrefixStays(codec, locks, cfgs, j);
    if Pinned(cfgs[j - 1], svc) {
      assert PinnedTo(cfgs[j - 1][svc], locks[j].services[svc]);
    } else if svc in locks[j - 1].services {
      AddressesHaveASource(codec, locks, cfgs, svc, j - 1);
    }
  }

  lemma {:induction false} PrefixStays(codec: Codec, locks: seq<LockState>, cfgs: seq<Config>, j: nat)
    requires History(codec, locks, cfgs) && j <= |cfgs|
    ensures forall i :: 0 <= i <= j ==> locks[i].prefix == locks[0].prefix
  {
    if j == 0 {
    } else {
      assert Planned(codec, locks[j - 1], cfgs[j - 1], locks[j]);
      PrefixStays(codec, locks, cfgs, j - 1);
    }
  }

  /** Planning again with the same configuration changes nothing. */
  lemma PlanningAgain(codec: Codec, was: LockState, cfg: Config, now: LockState, again: LockState)
    requires Planned(codec, was, cfg, now) && Planned(codec, now, cfg, again)
    ensures again == now
  {
    forall s | s in now.services ensures again.services[s] == now.services[s] {
      if Pinned(cfg, s) { PinOf(cfg[s]); }
    }
  }
}
