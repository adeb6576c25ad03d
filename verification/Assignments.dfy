/** MAC addresses and vsock CIDs: assigned by sorted position, so that the order
    in which a map is walked does not matter. */
module Assignments {
  import opened Common
  import opened Sorting

  /** One service's attachment to one network. */
  datatype Pair = Pair(svc: string, net: string)

  predicate PairLess(p: Pair, q: Pair) {
    if p.svc != q.svc then CharsLess(p.svc, q.svc) else CharsLess(p.net, q.net)
  }

  /** By service, and for one service by network. */
  lemma PairLessIs(p: Pair, q: Pair)
    ensures PairLess(p, q) <==> CharsLess(p.svc, q.svc) || (p.svc == q.svc && CharsLess(p.net, q.net))
  {
    CharsTotal(p.svc, q.svc);
  }

  lemma PairOrder()
    ensures StrictOrder(PairLess)
  {
    CharsOrder();
    forall x, y, z | PairLess(x, y) && PairLess(y, z) ensures PairLess(x, z) {
      if x.svc == z.svc && x.svc != y.svc {
        CharsTransitive(x.svc, y.svc, z.svc);
      }
    }
  }

  // ---- MAC addresses ----

  function HexDigit(n: nat): (c: char)
    requires n < 16
  {
    "0123456789abcdef"[n]
  }

  /** The %x verb. */
  function Hex(n: nat): (s: string)
    ensures |s| > 0
  {
    if n < 16 then [HexDigit(n)] else Hex(n / 16) + [HexDigit(n % 16)]
  }

  lemma HexParts(n: nat)
    ensures var s := Hex(n);
            && s[|s| - 1] == HexDigit(n % 16)
            && (|s| > 1 <==> n >= 16)
            && (n >= 16 ==> s[..|s| - 1] == Hex(n / 16))
  {
  }

  lemma HexDigitInjective(a: nat, b: nat)
    requires a < 16 && b < 16 && HexDigit(a) == HexDigit(b)
    ensures a == b
  {
  }

  lemma {:induction false} HexInjective(m: nat, n: nat)
    requires Hex(m) == Hex(n)
    ensures m == n
  {
    hide Hex, HexDigit;
    HexParts(m);
    HexParts(n);
    HexDigitInjective(m % 16, n % 16);
    if m >= 16 {
      HexInjective(m / 16, n / 16);
    } else {
      assert m % 16 == m && n % 16 == n;
    }
  }

  const MAC_PREFIX := "02:00:00:00:00:"

  /** The %02x verb pads to two digits. */
  function LastOctet(n: nat): string {
    if |Hex(n)| < 2 then "0" + Hex(n) else Hex(n)
  }

  function Mac(i: nat): string {
    MAC_PREFIX + LastOctet(i + 1)
  }

  lemma {:induction false} HexNoLeadingZero(n: nat)
    requires n > 0
    ensures Hex(n)[0] != '0'
  {
    if n < 16 {
    } else {
      HexNoLeadingZero(n / 16);
    }
  }

  lemma PaddedInjective(a: string, b: string)
    requires a != [] && b != [] && a[0] != '0' && b[0] != '0'
    requires (if |a| < 2 then "0" + a else a) == (if |b| < 2 then "0" + b else b)
    ensures a == b
  {
    if |a| < 2 { assert ("0" + a)[0] == '0' && ("0" + a)[1..] == a; }
    if |b| < 2 { assert ("0" + b)[0] == '0' && ("0" + b)[1..] == b; }
  }

  lemma MacInjective(i: nat, j: nat)
    requires Mac(i) == Mac(j)
    ensures i == j
  {
    hide Hex;
    assert LastOctet(i + 1) == Mac(i)[|MAC_PREFIX|..] == Mac(j)[|MAC_PREFIX|..] == LastOctet(j + 1);
    HexNoLeadingZero(i + 1);
    HexNoLeadingZero(j + 1);
    PaddedInjective(Hex(i + 1), Hex(j + 1));
    HexInjective(i + 1, j + 1);
  }

  function DigitValue(c: char): nat {
    if '0' <= c <= '9' then c as int - '0' as int else if 'a' <= c <= 'f' then c as int - 'a' as int + 10 else 0
  }

  /** The number a hexadecimal text says. */
  function HexValue(s: string): nat {
    if s == [] then 0 else 16 * HexValue(s[..|s| - 1]) + DigitValue(s[|s| - 1])
  }

  lemma HexSnoc(s: string, d: nat)
    requires d < 16
    ensures HexValue(s + [HexDigit(d)]) == 16 * HexValue(s) + d
  {
    assert (s + [HexDigit(d)])[..|s|] == s;
  }

  lemma ZeroHex()
    ensures HexValue([]) == 0 && HexValue("0") == 0
  {
    HexSnoc([], 0);
    assert [] + [HexDigit(0)] == "0";
  }

  lemma {:induction false} ValueOfHex(n: nat)
    ensures HexValue(Hex(n)) == n && HexValue("0" + Hex(n)) == n
  {
    hide HexValue, DigitValue, HexDigit;
    ZeroHex();
    if n < 16 {
      HexSnoc([], n);
      HexSnoc("0", n);
      assert [] + [HexDigit(n)] == Hex(n);
    } else {
      ValueOfHex(n / 16);
      HexSnoc(Hex(n / 16), n % 16);
      HexSnoc("0" + Hex(n / 16), n % 16);
      assert "0" + Hex(n) == ("0" + Hex(n / 16)) + [HexDigit(n % 16)];
    }
  }

  /** The i-th attachment's address: a locally administered prefix of five bytes and
      the number i + 1 in hexadecimal. */
  lemma MacText(i: nat)
    ensures "02:00:00:00:00:" <= Mac(i) && HexValue(Mac(i)[15..]) == i + 1
  {
    ValueOfHex(i + 1);
    assert Mac(i)[15..] == LastOctet(i + 1);
  }

  /** Exactly the first 255 attachments get a two-digit last octet. */
  lemma TwoDigitOctets(i: nat)
    ensures |LastOctet(i + 1)| == 2 <==> i < 255
  {
    var n := i + 1;
    if n >= 256 {
      assert n / 16 >= 16;
      assert |Hex(n / 16 / 16)| > 0;
    } else if n >= 16 {
      assert |Hex(n / 16)| == 1;
    }
  }

  /** Service name to the networks it lists, possibly one twice. */
  type Config = map<string, seq<string>>

  /** The attachments of a configuration, in some order. */
  ghost predicate IsCollection(cfg: Config, pairs: seq<Pair>) {
    forall p :: multiset(pairs)[p] == if p.svc in cfg then multiset(cfg[p.svc])[p.net] else 0
  }

  type Macs = map<string, map<string, string>>

  function AssignMacs(services: set<string>, pairs: seq<Pair>): (m: Macs)
    requires forall p :: p in pairs ==> p.svc in services
    ensures m.Keys == services
  {
    if pairs == [] then map s | s in services :: map[]
    else
      var n := |pairs| - 1;
      assert forall p :: p in pairs[..n] ==> p in pairs;
      var m := AssignMacs(services, pairs[..n]);
      m[pairs[n].svc := m[pairs[n].svc][pairs[n].net := Mac(n)]]
  }

  lemma CollectedServices(cfg: Config, pairs: seq<Pair>)
    requires IsCollection(cfg, pairs)
    ensures forall p :: p in pairs <==> p.svc in cfg && p.net in cfg[p.svc]
  {
    forall p ensures p in pairs <==> p.svc in cfg && p.net in cfg[p.svc] {
      assert p in pairs <==> multiset(pairs)[p] > 0;
      if p.svc in cfg {
        assert p.net in cfg[p.svc] <==> multiset(cfg[p.svc])[p.net] > 0;
      }
    }
  }

  lemma NoMacs(services: set<string>)
    ensures AssignMacs(services, []) == map s | s in services :: map[]
  {
  }

  lemma OneMoreMac(services: set<string>, pairs: seq<Pair>, p: Pair)
    requires p.svc in services && forall q :: q in pairs ==> q.svc in services
    ensures var m := AssignMacs(services, pairs);
            AssignMacs(services, pairs + [p]) == m[p.svc := m[p.svc][p.net := Mac(|pairs|)]]
  {
    assert (pairs + [p])[..|pairs|] == pairs;
  }

  lemma SameCollection(cfg: Config, s: seq<Pair>, t: seq<Pair>)
    requires IsCollection(cfg, s) && multiset(s) == multiset(t)
    ensures IsCollection(cfg, t)
  {
  }

  method CollectPairs(cfg: Config) returns (pairs: seq<Pair>)
    ensures IsCollection(cfg, pairs)
  {
    pairs := [];
    var rest := cfg.Keys;
    while rest != {}
      invariant rest <= cfg.Keys
      invariant forall p :: multiset(pairs)[p] == if p.svc in cfg && p.svc !in rest then multiset(cfg[p.svc])[p.net] else 0
      decreases rest
    {
      var svc :| svc in rest;
      rest := rest - {svc};
      var nets := cfg[svc];
      ghost var before := pairs;
      for k := 0 to |nets|
        invariant forall p :: multiset(pairs)[p] == multiset(before)[p] + if p.svc == svc then multiset(nets[..k])[p.net] else 0
      {
        assert nets[..k + 1] == nets[..k] + [nets[k]];
        pairs := pairs + [Pair(svc, nets[k])];
      }
      assert nets[..|nets|] == nets;
    }
  }

  /** Any two walks of the map give the same addresses. */
  lemma MacsIndependentOfWalk(cfg: Config, s: seq<Pair>, t: seq<Pair>)
    requires IsCollection(cfg, s) && IsCollection(cfg, t) && Sorted(PairLess, s) && Sorted(PairLess, t)
    ensures s == t
  {
    PairOrder();
    assert multiset(s) == multiset(t);
    SortedUnique(PairLess, s, t);
  }

  lemma {:induction false} AssignedMac(services: set<string>, pairs: seq<Pair>, p: Pair) returns (i: nat)
    requires (forall q :: q in pairs ==> q.svc in services) && p in pairs
    ensures i < |pairs| && pairs[i] == p
    ensures var m := AssignMacs(services, pairs); p.net in m[p.svc] && m[p.svc][p.net] == Mac(i)
  {
    var n := |pairs| - 1;
    if pairs[n] == p {
      i := n;
    } else {
      assert pairs == pairs[..n] + [pairs[n]];
      assert forall q :: q in pairs[..n] ==> q in pairs;
      i := AssignedMac(services, pairs[..n], p);
    }
  }

  /** Distinct attachments have distinct addresses, however many there are. */
  lemma MacsDistinct(services: set<string>, pairs: seq<Pair>, p: Pair, q: Pair)
    requires (forall r :: r in pairs ==> r.svc in services) && p in pairs && q in pairs && p != q
    ensures var m := AssignMacs(services, pairs);
            p.net in m[p.svc] && q.net in m[q.svc] && m[p.svc][p.net] != m[q.svc][q.net]
  {
    var i := AssignedMac(services, pairs, p);
    var j := AssignedMac(services, pairs, q);
    if Mac(i) == Mac(j) { MacInjective(i, j); }
  }

  /** A sorted list of the configuration's attachments; there is only one. */
  ghost predicate SortedCollection(cfg: Config, pairs: seq<Pair>) {
    IsCollection(cfg, pairs) && Sorted(PairLess, pairs) && forall p :: p in pairs ==> p.svc in cfg
  }

  ghost predicate MacsDiffer(macs: Macs) {
    forall s, n, t, m :: s in macs && n in macs[s] && t in macs && m in macs[t] && (s, n) != (t, m) ==> macs[s][n] != macs[t][m]
  }

  /** allocateMACs: collect in whatever order the map is walked, sort, assign.
      Every attachment gets an address of its own, the one its place in the
      sorted list gives. */
  method AllocateMACs(cfg: Config) returns (macs: Macs)
    ensures macs.Keys == cfg.Keys && forall s, n :: s in cfg ==> (n in macs[s] <==> n in cfg[s])
    ensures MacsDiffer(macs)
    ensures forall order :: SortedCollection(cfg, order) ==> macs == AssignMacs(cfg.Keys, order)
  {
    hide IsCollection, Sorted, PairLess, SortBy, Mac, AssignMacs, StrictOrder, MacsDiffer;
    var pairs := CollectPairs(cfg);
    var order := SortBy(PairLess, pairs);
    PairOrder();
    SortBySorts(PairLess, pairs);
    SameCollection(cfg, pairs, order);
    CollectedServices(cfg, order);
    macs := map s | s in cfg :: map[];
    NoMacs(cfg.Keys);
    assert macs == AssignMacs(cfg.Keys, []) && order[..0] == [];
    for i := 0 to |order|
      invariant forall p :: p in order[..i] ==> p.svc in cfg
      invariant macs == AssignMacs(cfg.Keys, order[..i])
    {
      var p := order[i];
      assert order[..i + 1] == order[..i] + [p] && p in order;
      OneMoreMac(cfg.Keys, order[..i], p);
      macs := macs[p.svc := macs[p.svc][p.net := Mac(i)]];
    }
    assert order[..|order|] == order;
    MacsAreSound(cfg, order);
  }

  lemma MacsAreSound(cfg: Config, order: seq<Pair>)
    requires SortedCollection(cfg, order)
    ensures var macs := AssignMacs(cfg.Keys, order);
            && (forall s, n :: s in cfg ==> (n in macs[s] <==> n in cfg[s]))
            && MacsDiffer(macs)
            && forall other :: SortedCollection(cfg, other) ==> other == order
  {
    hide IsCollection, Sorted, AssignMacs, Mac;
    var macs := AssignMacs(cfg.Keys, order);
    CollectedServices(cfg, order);
    AssignedNets(cfg.Keys, order);
    forall s, n | s in cfg ensures n in macs[s] <==> n in cfg[s] {
      assert Pair(s, n) in order <==> n in cfg[s];
    }
    forall s, n, t, m | s in macs && n in macs[s] && t in macs && m in macs[t] && (s, n) != (t, m) ensures macs[s][n] != macs[t][m] {
      MacsDistinct(cfg.Keys, order, Pair(s, n), Pair(t, m));
    }
    forall other | SortedCollection(cfg, other) ensures other == order {
      MacsIndependentOfWalk(cfg, other, order);
    }
  }

  lemma {:induction false} AssignedNets(services: set<string>, pairs: seq<Pair>)
    requires forall p :: p in pairs ==> p.svc in services
    ensures forall s, n :: s in services ==> (n in AssignMacs(services, pairs)[s] <==> Pair(s, n) in pairs)
  {
    if pairs == [] {
    } else {
      var init, p := pairs[..|pairs| - 1], pairs[|pairs| - 1];
      assert pairs == init + [p];
      assert forall q :: q in init ==> q in pairs;
      AssignedNets(services, init);
      OneMoreMac(services, init, p);
    }
  }

  // ---- CIDs ----

  const FIRST_GUEST_CID := 3

  function Before(services: set<string>, s: string): set<string> {
    set t | t in services && CharsLess(t, s)
  }

  /** FromConfig's CIDs: each service's is three more than the number of names
      sorted before it, so they are 3 to n+2, each used once. */
  method AssignCIDs(services: set<string>) returns (cids: map<string, nat>)
    ensures cids.Keys == services
    ensures forall s :: s in services ==> cids[s] == 3 + |Before(services, s)|
    ensures forall c :: 3 <= c < 3 + |services| <==> c in cids.Values
    ensures forall s, t :: s in services && t in services && s != t ==> cids[s] != cids[t]
  {
    hide CharsLess, StrictOrder, Sorted;
    var order := SortedNames(services);
    CharsOrder();
    cids := map[];
    for i := 0 to |order|
      invariant cids.Keys == Items(order[..i])
      invariant forall k :: 0 <= k < i ==> cids[order[k]] == FIRST_GUEST_CID + k
    {
      assert order[..i + 1] == order[..i] + [order[i]];
      cids := cids[order[i] := FIRST_GUEST_CID + i];
    }
    assert order[..|order|] == order;
    CIDsAreRanks(services, order, cids);
  }

  /** Numbering a sorted list of names gives each its rank. */
  lemma CIDsAreRanks(services: set<string>, order: seq<string>, cids: map<string, nat>)
    requires Sorted(CharsLess, order) && StrictOrder(CharsLess) && |order| == |services|
    requires forall s :: s in order <==> s in services
    requires Distinct(order)
    requires cids.Keys == services && forall k :: 0 <= k < |order| ==> cids[order[k]] == FIRST_GUEST_CID + k
    ensures forall s :: s in services ==> cids[s] == FIRST_GUEST_CID + |Before(services, s)|
    ensures forall c :: FIRST_GUEST_CID <= c < FIRST_GUEST_CID + |services| <==> c in cids.Values
    ensures forall s, t :: s in services && t in services && s != t ==> cids[s] != cids[t]
  {
    hide Before, CharsLess, Sorted, StrictOrder;
    forall s | s in services
      ensures exists k :: 0 <= k < |order| && order[k] == s && cids[s] == FIRST_GUEST_CID + k == FIRST_GUEST_CID + |Before(services, s)|
    {
      var k :| 0 <= k < |order| && order[k] == s;
      RankInSorted(services, order, k);
    }
    forall c ensures FIRST_GUEST_CID <= c < FIRST_GUEST_CID + |services| <==> c in cids.Values {
      if FIRST_GUEST_CID <= c < FIRST_GUEST_CID + |services| {
        assert order[c - FIRST_GUEST_CID] in cids && cids[order[c - FIRST_GUEST_CID]] == c;
      }
    }
  }

  lemma {:induction false} PrefixCount(order: seq<string>, k: nat)
    requires k <= |order| && Distinct(order)
    ensures |Items(order[..k])| == k
  {
    hide Items, Distinct;
    NoItems();
    if k == 0 {
    } else {
      PrefixCount(order, k - 1);
      OneMoreItem(order, k - 1);
    }
  }

  lemma RankInSorted(services: set<string>, order: seq<string>, k: nat)
    requires k < |order| && Sorted(CharsLess, order) && StrictOrder(CharsLess)
    requires forall s :: s in order <==> s in services
    requires Distinct(order)
    ensures |Before(services, order[k])| == k
  {
    assert Before(services, order[k]) == Items(order[..k]) by {
      forall s ensures s in Before(services, order[k]) <==> s in order[..k] {
        if s in Before(services, order[k]) {
          var i :| 0 <= i < |order| && order[i] == s;
          assert i < k;
        }
        if s in order[..k] {
          var i :| 0 <= i < k && order[i] == s;
          assert CharsLess(order[i], order[k]);
        }
      }
    }
    PrefixCount(order, k);
  }
}
