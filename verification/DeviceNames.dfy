/** Host interface names: readable when they fit in fifteen bytes, else hashed. */
module DeviceNames {
  import opened Common

  const MAX_IF_NAME_LEN := 15

  /** hex.EncodeToString(sha256.Sum256(...)). */
  type Hash = string -> string

  predicate HexDigit(c: char) {
    '0' <= c <= '9' || 'a' <= c <= 'f'
  }

  ghost predicate HexDigest(h: Hash) {
    forall s :: |h(s)| == 64 && forall i :: 0 <= i < 64 ==> HexDigit(h(s)[i])
  }

  const TAP_PREFIX := "mvc-"
  const BRIDGE_PREFIX := "br-"

  function FullTapName(stack: string, svc: string, net: string): string {
    TAP_PREFIX + stack + "-" + svc + "-" + net
  }

  function TapID(h: Hash, stack: string, svc: string, net: string): string {
    var full := FullTapName(stack, svc, net);
    if |full| <= MAX_IF_NAME_LEN then full
    else if |h(full)| < 11 then TAP_PREFIX + h(full)
    else TAP_PREFIX + h(full)[..11]
  }

  function BridgeName(h: Hash, stack: string): string {
    var full := BRIDGE_PREFIX + stack;
    if |full| <= MAX_IF_NAME_LEN then full
    else if |h(full)| < 12 then BRIDGE_PREFIX + h(full)
    else BRIDGE_PREFIX + h(full)[..12]
  }

  /** The truncated digest does not confuse these two names. */
  predicate NoClash(h: Hash, a: string, b: string)
    requires |h(a)| == |h(b)| == 64
  {
    h(a)[..11] == h(b)[..11] ==> a == b
  }

  /** Names fit the kernel's limit, are never empty, and a tap is never a bridge. */
  lemma NamesFit(h: Hash, stack: string, svc: string, net: string, other: string)
    requires HexDigest(h)
    ensures 0 < |TapID(h, stack, svc, net)| <= MAX_IF_NAME_LEN
    ensures 0 < |BridgeName(h, other)| <= MAX_IF_NAME_LEN
    ensures TapID(h, stack, svc, net) != BridgeName(h, other)
  {
    assert TapID(h, stack, svc, net)[0] == 'm';
    assert BridgeName(h, other)[0] == 'b';
  }

  /** Written out: a name of at most fifteen characters is used as it is, else
      the prefix and as much of the full name's digest as fits. */
  lemma NameForms(h: Hash, stack: string, svc: string, net: string)
    requires HexDigest(h)
    ensures var full := "mvc-" + stack + "-" + svc + "-" + net;
            if |full| <= 15 then TapID(h, stack, svc, net) == full
            else |TapID(h, stack, svc, net)| == 15 && TapID(h, stack, svc, net) == "mvc-" + h(full)[..11]
    ensures var full := "br-" + stack;
            if |full| <= 15 then BridgeName(h, stack) == full
            else |BridgeName(h, stack)| == 15 && BridgeName(h, stack) == "br-" + h(full)[..12]
  {
  }

  /** Two stacks have one bridge exactly when they are the same stack, where
      neither the truncated digest confuses their names nor one stack's name is
      the other's digest. */
  lemma BridgesEqual(h: Hash, stack: string, stack': string)
    requires HexDigest(h)
    requires |stack| > 12 && |stack'| > 12 && h("br-" + stack)[..12] == h("br-" + stack')[..12] ==> stack == stack'
    requires |stack| > 12 >= |stack'| ==> stack' != h("br-" + stack)[..12]
    requires |stack'| > 12 >= |stack| ==> stack != h("br-" + stack')[..12]
    ensures BridgeName(h, stack) == BridgeName(h, stack') <==> stack == stack'
  {
    NameForms(h, stack, "", "");
    NameForms(h, stack', "", "");
    var part := if |stack| > 12 then h("br-" + stack)[..12] else stack;
    var part' := if |stack'| > 12 then h("br-" + stack')[..12] else stack';
    assert BridgeName(h, stack)[3..] == part && BridgeName(h, stack')[3..] == part';
  }

  /** The readable form has a hyphen after the prefix, the hashed form none. */
  lemma FormsDiffer(h: Hash, stack: string, svc: string, net: string, stack': string, svc': string, net': string)
    requires HexDigest(h)
    requires |FullTapName(stack, svc, net)| <= MAX_IF_NAME_LEN < |FullTapName(stack', svc', net')|
    ensures TapID(h, stack, svc, net) != TapID(h, stack', svc', net')
  {
    var readable, hashed := TapID(h, stack, svc, net), TapID(h, stack', svc', net');
    var full' := FullTapName(stack', svc', net');
    assert readable[|TAP_PREFIX| + |stack|] == '-';
    forall i | 4 <= i < |hashed| ensures hashed[i] != '-' {
      assert HexDigit(h(full')[i - 4]);
    }
  }

  /** Within one stack two taps share a name exactly when their service-network
      parts read the same. */
  lemma TapIDsEqual(h: Hash, stack: string, svc: string, net: string, svc': string, net': string)
    requires HexDigest(h)
    requires NoClash(h, FullTapName(stack, svc, net), FullTapName(stack, svc', net'))
    ensures TapID(h, stack, svc, net) == TapID(h, stack, svc', net') <==> svc + "-" + net == svc' + "-" + net'
  {
    var a, b := FullTapName(stack, svc, net), FullTapName(stack, svc', net');
    var lead := TAP_PREFIX + stack + "-";
    assert a == lead + (svc + "-" + net) && b == lead + (svc' + "-" + net');
    assert a[|lead|..] == svc + "-" + net && b[|lead|..] == svc' + "-" + net';
    if |a| <= MAX_IF_NAME_LEN && |b| > MAX_IF_NAME_LEN {
      FormsDiffer(h, stack, svc, net, stack, svc', net');
    } else if |b| <= MAX_IF_NAME_LEN && |a| > MAX_IF_NAME_LEN {
      FormsDiffer(h, stack, svc', net', stack, svc, net);
    } else if |a| > MAX_IF_NAME_LEN && TapID(h, stack, svc, net) == TapID(h, stack, svc', net') {
      assert h(a)[..11] == (TAP_PREFIX + h(a)[..11])[4..] == (TAP_PREFIX + h(b)[..11])[4..] == h(b)[..11];
    }
  }

  /** So names are injective on (service, network) when service names have no hyphen. */
  lemma TapIDInjective(h: Hash, stack: string, svc: string, net: string, svc': string, net': string)
    requires HexDigest(h) && '-' !in svc && '-' !in svc'
    requires NoClash(h, FullTapName(stack, svc, net), FullTapName(stack, svc', net'))
    requires TapID(h, stack, svc, net) == TapID(h, stack, svc', net')
    ensures svc == svc' && net == net'
  {
    TapIDsEqual(h, stack, svc, net, svc', net');
    assert svc + ['-'] + net == svc' + ['-'] + net';
    FirstSeparator(svc, net, svc', net', '-');
  }

  /** With hyphens they are not. */
  lemma HyphenatedTapsCollide(h: Hash, stack: string)
    ensures TapID(h, stack, "a-b", "c") == TapID(h, stack, "a", "b-c")
  {
    assert FullTapName(stack, "a-b", "c") == (TAP_PREFIX + stack + "-") + "a-b-c";
    assert FullTapName(stack, "a", "b-c") == (TAP_PREFIX + stack + "-") + "a-b-c";
  }
}
