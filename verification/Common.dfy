/** Shared values: options, bytes and big-endian numbers, and the facts about
    separators in strings that the tag and port formats rely on. */
module Common {
  datatype Option<+T> = None | Some(value: T)

  type Byte = b: int | 0 <= b < 256
  type Bytes = seq<Byte>

  /** An IPv6 address. */
  type Addr = a: Bytes | |a| == 16 witness Zeros(16)

  function Items<T>(s: seq<T>): set<T> {
    set x | x in s
  }

  predicate Distinct<T(==)>(s: seq<T>) {
    forall i, j :: 0 <= i < j < |s| ==> s[i] != s[j]
  }

  /** BigEndian.PutUint16(uint16(n)): the conversion wraps modulo 2^16. */
  function BE16(n: int): (r: Bytes)
    ensures |r| == 2
  {
    [n / 256 % 256, n % 256]
  }

  function FromBE16(b: Bytes): (n: nat)
    requires |b| == 2
    ensures n < 0x10000
  {
    (b[0] as int) * 256 + b[1]
  }

  /** BigEndian.PutUint32(uint32(n)). */
  function BE32(n: int): (r: Bytes)
    ensures |r| == 4
  {
    [n / 0x1000000 % 256, n / 0x10000 % 256, n / 256 % 256, n % 256]
  }

  function FromBE32(b: Bytes): (n: nat)
    requires |b| == 4
    ensures n < 0x1_0000_0000
  {
    (b[0] as int) * 0x1000000 + (b[1] as int) * 0x10000 + (b[2] as int) * 256 + b[3]
  }

  /** Most significant byte first. */
  lemma BigEndianIs(a: Byte, b: Byte, c: Byte, d: Byte)
    ensures FromBE32([a, b, c, d]) == ((a as int * 256 + b as int) * 256 + c as int) * 256 + d as int
    ensures FromBE16([a, b]) == a as int * 256 + b as int
  {
  }

  lemma BE16RoundTrip(n: int)
    ensures FromBE16(BE16(n)) == n % 0x10000
  {
    var q := n / 256;
    assert n == q / 256 * 0x10000 + q % 256 * 256 + n % 256;
  }

  /** Two bytes are determined by the number they encode. */
  lemma BE16Inverse(b: Bytes, n: int)
    requires |b| == 2
    ensures b == BE16(n) <==> FromBE16(b) == n % 0x10000
  {
    BE16RoundTrip(n);
    if FromBE16(b) == FromBE16(BE16(n)) {
      TwoDigits(b[0], b[1], BE16(n)[0], BE16(n)[1]);
      assert b == [b[0], b[1]];
    }
  }

  lemma TwoDigits(a: Byte, b: Byte, c: Byte, d: Byte)
    requires (a as int) * 256 + b == (c as int) * 256 + d
    ensures a == c && b == d
  {
  }

  lemma BE32RoundTrip(n: int)
    ensures FromBE32(BE32(n)) == n % 0x1_0000_0000
  {
    var q := n / 256;
    var r := q / 256;
    var s := r / 256;
    Shifts(n);
    assert BE32(n) == [s % 256, r % 256, q % 256, n % 256];
    assert n == 256 * (256 * (256 * (256 * (s / 256) + s % 256) + r % 256) + q % 256) + n % 256;
    Remainder(n, s / 256, FromBE32(BE32(n)));
  }

  lemma Shifts(n: int)
    ensures n / 0x10000 == n / 256 / 256
    ensures n / 0x1000000 == n / 256 / 256 / 256
  {
    var q := n / 256;
    var r := q / 256;
    assert n == 0x10000 * r + (q % 256 * 256 + n % 256);
    assert n == 0x1000000 * (r / 256) + (r % 256 * 0x10000 + q % 256 * 256 + n % 256);
  }

  lemma BE32Inverse(b: Bytes)
    requires |b| == 4
    ensures BE32(FromBE32(b)) == b
  {
    var u := FromBE32(b);
    var x := (b[0] as int) * 256 + b[1];
    var y := x * 256 + b[2];
    assert u == y * 256 + b[3];
    assert u / 256 == y && u % 256 == b[3];
    assert y / 256 == x && y % 256 == b[2];
    assert x / 256 == b[0] && x % 256 == b[1];
    Shifts(u);
  }

  lemma Remainder(n: int, q: int, r: nat)
    requires n == 0x1_0000_0000 * q + r && r < 0x1_0000_0000
    ensures n % 0x1_0000_0000 == r
  {
  }

  function Zeros(n: nat): (r: Bytes)
    ensures |r| == n && forall i :: 0 <= i < n ==> r[i] == 0
  {
    seq(n, _ => 0)
  }

  /** strings.Index and strings.LastIndex on one character. */
  function Index(s: string, c: char): (r: Option<nat>)
    ensures r.None? <==> c !in s
    ensures r.Some? ==> r.value < |s| && s[r.value] == c && c !in s[..r.value]
  {
    if s == [] then None
    else if s[0] == c then Some(0)
    else
      assert s == [s[0]] + s[1..];
      var r := Index(s[1..], c);
      if r.None? then None
      else
        assert s[..r.value + 1] == [s[0]] + s[1..][..r.value];
        Some(r.value + 1)
  }

  function LastIndex(s: string, c: char): (r: Option<nat>)
    ensures r.None? <==> c !in s
    ensures r.Some? ==> r.value < |s| && s[r.value] == c && c !in s[r.value + 1..]
  {
    if s == [] then None
    else
      var n := |s| - 1;
      assert s == s[..n] + [s[n]];
      if s[n] == c then Some(n)
      else
        var r := LastIndex(s[..n], c);
        assert r.Some? ==> s[r.value + 1..] == s[..n][r.value + 1..] + [s[n]];
        r
  }

  /** The part before the first occurrence of a separator is unique. */
  lemma FirstSeparator<T>(a: seq<T>, b: seq<T>, a': seq<T>, b': seq<T>, c: T)
    requires c !in a && c !in a'
    requires a + [c] + b == a' + [c] + b'
    ensures a == a' && b == b'
  {
    var s, s' := a + [c] + b, a' + [c] + b';
    assert forall i :: 0 <= i < |a| ==> s[i] == a[i] != c;
    assert forall i :: 0 <= i < |a'| ==> s'[i] == a'[i] != c;
    assert s[|a|] == s'[|a'|] == c;
    assert |a| == |a'|;
    assert a == s[..|a|] == s'[..|a'|] == a';
    assert b == s[|a| + 1..] == s'[|a'| + 1..] == b';
  }

  /** The part after the last occurrence of a separator is unique. */
  lemma LastSeparator<T>(a: seq<T>, b: seq<T>, a': seq<T>, b': seq<T>, c: T)
    requires c !in b && c !in b'
    requires a + [c] + b == a' + [c] + b'
    ensures a == a' && b == b'
  {
    var s, s' := a + [c] + b, a' + [c] + b';
    assert forall i :: |a| < i < |s| ==> s[i] == b[i - |a| - 1] != c;
    assert forall i :: |a'| < i < |s'| ==> s'[i] == b'[i - |a'| - 1] != c;
    assert s[|a|] == s'[|a'|] == c;
    assert |a| == |a'|;
    assert a == s[..|a|] == s'[..|a'|] == a';
    assert b == s[|a| + 1..] == s'[|a'| + 1..] == b';
  }
}
