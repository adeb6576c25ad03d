/** The code that moves frames over a connection: buffers filled in place,
    reads of any size, and the vsock dialling handshake. */
module Connections {
  import opened Common
  import opened Decimal
  import opened Frames

  /** A duplex byte stream. `incoming` is everything the peer will have sent
      before the stream ends; how reads cut it up is left open. */
  class Conn {
    var sent: Bytes
    var incoming: Bytes

    constructor (peer: Bytes)
      ensures sent == [] && incoming == peer
    {
      sent, incoming := [], peer;
    }

    /** io.Writer: all of b, or an error after some part of it. */
    method Write(b: Bytes) returns (ok: bool)
      modifies this`sent
      ensures ok ==> sent == old(sent) + b
      ensures !ok ==> old(sent) <= sent < old(sent) + b
    {
      var k :| 0 <= k <= |b|;
      sent := sent + b[..k];
      ok := k == |b|;
    }

    /** io.Reader: some bytes, at most n, or the end of the stream. */
    method Read(n: nat) returns (got: Bytes, eof: bool)
      requires n > 0
      modifies this`incoming
      ensures eof <==> old(incoming) == []
      ensures eof ==> got == []
      ensures !eof ==> 0 < |got| <= n
      ensures old(incoming) == got + incoming
    {
      if incoming == [] {
        return [], true;
      }
      var k :| 0 < k <= n && k <= |incoming|;
      got, eof := incoming[..k], false;
      incoming := incoming[k..];
    }

    /** io.ReadFull: exactly n bytes, whatever sizes the reads return. */
    method ReadFull(n: nat) returns (buf: Bytes, ok: bool)
      modifies this`incoming
      ensures ok <==> |old(incoming)| >= n
      ensures ok ==> buf == old(incoming)[..n] && incoming == old(incoming)[n..]
    {
      buf := [];
      while |buf| < n
        invariant |buf| <= n && buf + incoming == old(incoming)
      {
        var got, eof := Read(n - |buf|);
        if eof {
          return buf, false;
        }
        buf := buf + got;
      }
      ok := true;
    }
  }

  /** binary.BigEndian.PutUint32 into a buffer. */
  method PutUint32(buf: array<Byte>, at: nat, v: int)
    requires at + 4 <= buf.Length
    modifies buf
    ensures buf[at..at + 4] == BE32(v)
    ensures buf[..at] == old(buf[..at]) && buf[at + 4..] == old(buf[at + 4..])
  {
    buf[at], buf[at + 1], buf[at + 2], buf[at + 3] :=
      v / 0x1000000 % 256, v / 0x10000 % 256, v / 256 % 256, v % 256;
  }

  /** The type and the length, each side in its own way. */
  method FrameHeader(side: Side, typ: Byte, n: nat) returns (hdr: array<Byte>)
    ensures fresh(hdr) && hdr[..] == [typ] + Length(side, n)
  {
    hdr := new Byte[5](_ => 0);
    hdr[0] := typ;
    match side {
      case HostSide =>
        PutUint32(hdr, 1, n % 0x1_0000_0000);
      case AgentSide =>
        hdr[1], hdr[2], hdr[3], hdr[4] := n / 0x1000000 % 256, n / 0x10000 % 256, n / 256 % 256, n % 256;
    }
    assert hdr[1..5] == Length(side, n);
    assert hdr[..] == hdr[..1] + hdr[1..5] && hdr[..1] == [typ];
  }

  method WriteFrame(side: Side, c: Conn, typ: Byte, payload: Bytes) returns (ok: bool)
    modifies c`sent
    ensures ok ==> c.sent == old(c.sent) + Encode(side, Frame(typ, payload))
    ensures !ok ==> old(c.sent) <= c.sent < old(c.sent) + Encode(side, Frame(typ, payload))
  {
    hide Length;
    var hdr := FrameHeader(side, typ, |payload|);
    ghost var enc := Encode(side, Frame(typ, payload));
    assert enc == hdr[..] + payload;
    assert old(c.sent) + enc == (old(c.sent) + hdr[..]) + payload;
    ok := c.Write(hdr[..]);
    if !ok {
      return;
    }
    if |payload| == 0 {
      assert enc == hdr[..];
      return true;
    }
    ok := c.Write(payload);
  }

  /** One frame, or an error exactly where the format has none to give. */
  method ReadFrame(side: Side, c: Conn) returns (ok: bool, f: Frame)
    modifies c`incoming
    ensures ok ==> Decode(side, old(c.incoming)) == Got(f, c.incoming)
    ensures !ok ==> Decode(side, old(c.incoming)) == Bad
  {
    f := Frame(0, []);
    ghost var s := c.incoming;
    var hdr, full := c.ReadFull(5);
    if !full {
      return false, f;
    }
    var n := FromBE32(hdr[1..]);
    assert hdr[1..] == s[1..5];
    if side == HostSide && n > MAX_FRAME_LEN {
      return false, f;
    }
    var payload: Bytes := [];
    if n > 0 {
      payload, full := c.ReadFull(n);
      if !full {
        return false, f;
      }
    }
    assert payload == s[5..5 + n] && c.incoming == s[5 + n..];
    return true, Frame(hdr[0], payload);
  }

  // ---- dialling ----

  const NEWLINE: Byte := 10
  const MAX_HANDSHAKE_LINE := 256
  const OK_PREFIX: Bytes := [79, 75, 32]

  /** The first newline is at i, soon enough. */
  predicate LineEndsAt(s: Bytes, i: nat) {
    i < |s| && i <= 256 && s[i] == 10 && 10 !in s[..i]
  }

  /** So far no newline, within the limit. */
  predicate NoLineYet(line: Bytes) {
    |line| <= MAX_HANDSHAKE_LINE && NEWLINE !in line
  }

  lemma LineEnds(s: Bytes, line: Bytes, b: Byte, rest: Bytes)
    requires NoLineYet(line) && s == line + [b] + rest
    ensures b == NEWLINE ==> LineEndsAt(s, |line|) && s[..|line|] == line && s[|line| + 1..] == rest
    ensures b != NEWLINE ==> NEWLINE !in line + [b]
  {
    assert s[..|line|] == line && s[|line|] == b;
    assert forall i :: 0 <= i < |line| ==> s[i] == line[i];
  }

  /** Without a newline within the limit there is no line. */
  lemma LineNeverEnds(s: Bytes, line: Bytes)
    requires NEWLINE !in line && line <= s && (s == line || |line| > MAX_HANDSHAKE_LINE)
    ensures forall i :: !LineEndsAt(s, i)
  {
    assert forall i :: 0 <= i < |line| ==> s[i] == line[i];
  }

  /** Byte by byte, so that nothing after the newline is consumed. */
  method ReadLine(c: Conn) returns (ok: bool, line: Bytes)
    modifies c`incoming
    ensures ok <==> exists i :: LineEndsAt(old(c.incoming), i)
    ensures ok ==> LineEndsAt(old(c.incoming), |line|) &&
                   line == old(c.incoming)[..|line|] && c.incoming == old(c.incoming)[|line| + 1..]
  {
    hide LineEndsAt;
    ghost var s := c.incoming;
    line := [];
    while true
      invariant NoLineYet(line) && s == line + c.incoming
      decreases |c.incoming|
    {
      var b, eof := c.Read(1);
      if eof {
        LineNeverEnds(s, line);
        return false, [];
      }
      assert b == [b[0]] && s == line + [b[0]] + c.incoming;
      LineEnds(s, line, b[0], c.incoming);
      if b[0] == NEWLINE {
        return true, line;
      }
      line := line + [b[0]];
      if |line| > MAX_HANDSHAKE_LINE {
        LineNeverEnds(s, line);
        return false, [];
      }
    }
  }

  function Ascii(s: string): Bytes
    requires forall i :: 0 <= i < |s| ==> s[i] < 256 as char
  {
    seq(|s|, i requires 0 <= i < |s| => s[i] as int)
  }

  function Connect(port: nat): Bytes {
    Ascii("CONNECT " + Digits(port) + "\n")
  }

  lemma LineText(digits: string)
    ensures var text := "CONNECT " + digits + "\n";
            && |text| == 8 + |digits| + 1 && text[..8] == "CONNECT "
            && text[8..8 + |digits|] == digits && text[8 + |digits|] == '\n'
  {
  }

  lemma AsciiAt(s: string)
    requires forall i :: 0 <= i < |s| ==> s[i] < 256 as char
    ensures |Ascii(s)| == |s| && forall i :: 0 <= i < |s| ==> Ascii(s)[i] == s[i] as int
  {
  }

  /** The request is one line of ASCII text, with the port's number in digits. */
  lemma ConnectIs(port: nat) returns (digits: string)
    ensures AllDigits(digits) && Value(digits) == port
    ensures |Connect(port)| == 8 + |digits| + 1
    ensures Connect(port)[..8] == [67, 79, 78, 78, 69, 67, 84, 32] && Connect(port)[8 + |digits|] == 10
    ensures forall i :: 0 <= i < |digits| ==> Connect(port)[8 + i] == digits[i] as int
  {
    hide Digits, Value, Ascii;
    digits := Digits(port);
    ValueOfDigits(port);
    var text := "CONNECT " + digits + "\n";
    LineText(digits);
    AsciiAt(text);
    assert Connect(port) == Ascii(text);
    forall i | 0 <= i < |digits| ensures Connect(port)[8 + i] == digits[i] as int {
      assert text[8..8 + |digits|][i] == text[8 + i];
    }
    forall i | 0 <= i < 8 ensures Connect(port)[i] == "CONNECT "[i] as int {
      assert text[..8][i] == text[i];
    }
  }

  lemma OneLineEnd(s: Bytes, i: nat, j: nat)
    requires LineEndsAt(s, i) && LineEndsAt(s, j)
    ensures i == j
  {
    assert forall k: nat :: k < i ==> s[k] == s[..i][k] != NEWLINE;
    assert forall k: nat :: k < j ==> s[k] == s[..j][k] != NEWLINE;
  }

  /** Send CONNECT, read the reply line, and hand over the stream from the byte
      after it. */
  method DialHybridVsock(c: Conn, port: nat) returns (ok: bool)
    modifies c
    ensures ok ==> exists line: Bytes ::
              [79, 75, 32] <= line && |line| <= 256 && 10 !in line && old(c.incoming) == line + [10] + c.incoming
    ensures ok ==> c.sent == old(c.sent) + Connect(port)
    ensures !ok && c.sent == old(c.sent) + Connect(port) ==>
              !exists i: nat :: LineEndsAt(old(c.incoming), i) && [79, 75, 32] <= old(c.incoming)[..i]
  {
    var sent := c.Write(Connect(port));
    if !sent {
      return false;
    }
    ghost var s := c.incoming;
    var got, line := ReadLine(c);
    if !got || !(OK_PREFIX <= line) {
      forall i: nat | LineEndsAt(s, i) ensures !(OK_PREFIX <= s[..i]) { OneLineEnd(s, i, |line|); }
      return false;
    }
    assert s == line + [NEWLINE] + c.incoming;
    return true;
  }

  /** The first frame after the handshake reaches the host whole. */
  lemma HandshakeKeepsFrames(line: Bytes, fs: seq<Frame>, line': Bytes, rest: Bytes)
    requires NEWLINE !in line && NEWLINE !in line' && AllReadable(HostSide, fs)
    requires line + [NEWLINE] + EncodeAll(AgentSide, fs) == line' + [NEWLINE] + rest
    ensures DecodeAll(HostSide, rest) == fs
  {
    FirstSeparator(line, EncodeAll(AgentSide, fs), line', rest, NEWLINE);
    RoundTripAll(AgentSide, HostSide, fs, []);
    assert rest + [] == rest;
  }
}
