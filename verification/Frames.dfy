/** The framed wire format, as written and read independently by the host and
    by the guest agent. */
module Frames {
  import opened Common

  // The host's frame types.
  const FRAME_HEADER: Byte := 1
  const FRAME_STDIN: Byte := 2
  const FRAME_STDOUT: Byte := 3
  const FRAME_STDERR: Byte := 4
  const FRAME_RESIZE: Byte := 5
  const FRAME_EXIT: Byte := 6

  // The agent's own.
  const AGENT_STDIN: Byte := 2
  const AGENT_STDOUT: Byte := 3
  const AGENT_STDERR: Byte := 4
  const AGENT_RESIZE: Byte := 5
  const AGENT_EXIT: Byte := 6

  const MAX_FRAME_LEN := 0x10_0000

  datatype Frame = Frame(typ: Byte, payload: Bytes)

  /** Which of the two programs does the coding. */
  datatype Side = HostSide | AgentSide

  /** The host converts the length to uint32 before splitting it into bytes;
      the agent shifts and truncates the int itself. */
  function Length(side: Side, n: nat): (r: Bytes)
    ensures |r| == 4
  {
    match side
    case HostSide => BE32(n % 0x1_0000_0000)
    case AgentSide => [n / 0x1000000 % 256, n / 0x10000 % 256, n / 256 % 256, n % 256]
  }

  function Encode(side: Side, f: Frame): (r: Bytes)
    ensures |r| == 5 + |f.payload|
  {
    [f.typ] + Length(side, |f.payload|) + f.payload
  }

  datatype Decoded = Got(frame: Frame, rest: Bytes) | Bad

  /** One frame off the front of everything the stream will ever deliver. Only
      the host bounds the declared length. */
  function Decode(side: Side, s: Bytes): (d: Decoded)
    ensures d.Got? ==> |d.rest| + 5 + |d.frame.payload| == |s|
  {
    if |s| < 5 then Bad
    else
      var n := FromBE32(s[1..5]);
      if side == HostSide && n > MAX_FRAME_LEN then Bad
      else if |s| < 5 + n then Bad
      else Got(Frame(s[0], s[5..5 + n]), s[5 + n..])
  }

  /** The format, byte by byte: the type, the payload's length with the most
      significant byte first, and the payload. */
  lemma WireFormat(side: Side, f: Frame)
    requires |f.payload| < 0x1_0000_0000
    ensures var r := Encode(side, f);
            && |r| == 5 + |f.payload| && r[0] == f.typ && r[5..] == f.payload
            && ((r[1] as int * 256 + r[2] as int) * 256 + r[3] as int) * 256 + r[4] as int == |f.payload|
  {
    hide FromBE32;
    BothWriteAlike(f);
    var r := Encode(AgentSide, f);
    BE32RoundTrip(|f.payload|);
    assert [r[1], r[2], r[3], r[4]] == BE32(|f.payload|);
    BigEndianIs(r[1], r[2], r[3], r[4]);
    assert r[5..] == f.payload;
  }

  lemma BothWriteAlike(f: Frame)
    ensures Encode(HostSide, f) == Encode(AgentSide, f)
  {
    hide FromBE32;
    BE32RoundTrip(|f.payload|);
    BE32Inverse(BE32(|f.payload|));
  }

  predicate Readable(side: Side, f: Frame) {
    |f.payload| < 0x1_0000_0000 && (side == HostSide ==> |f.payload| <= 1024 * 1024)
  }

  /** Every reader undoes every writer, whatever follows, exactly on the frames
      within the reader's bound. */
  lemma RoundTrip(writer: Side, reader: Side, f: Frame, rest: Bytes)
    requires |f.payload| < 0x1_0000_0000
    ensures Decode(reader, Encode(writer, f) + rest) == if Readable(reader, f) then Got(f, rest) else Bad
  {
    hide FromBE32;
    if writer == HostSide { BothWriteAlike(f); }
    var n := |f.payload|;
    var s := Encode(AgentSide, f) + rest;
    BE32RoundTrip(n);
    assert s[1..5] == BE32(n);
    assert s[5..5 + n] == f.payload && s[5 + n..] == rest;
  }

  /** A strict prefix of a frame is never taken for a frame. */
  lemma PrefixIsError(writer: Side, reader: Side, f: Frame, k: nat)
    requires |f.payload| < 0x1_0000_0000 && k < |Encode(writer, f)|
    ensures Decode(reader, Encode(writer, f)[..k]) == Bad
  {
    hide FromBE32;
    if writer == HostSide { BothWriteAlike(f); }
    if k >= 5 {
      BE32RoundTrip(|f.payload|);
      var whole := Encode(AgentSide, f);
      assert whole[1..5] == BE32(|f.payload|);
      assert whole[..k][1..5] == whole[1..5];
    }
  }

  // ---- sequences of frames ----

  function EncodeAll(side: Side, fs: seq<Frame>): Bytes {
    if fs == [] then [] else Encode(side, fs[0]) + EncodeAll(side, fs[1..])
  }

  /** The frames a reader gets before its first error. */
  function DecodeAll(side: Side, s: Bytes): seq<Frame>
    decreases |s|
  {
    match Decode(side, s)
    case Bad => []
    case Got(f, rest) => [f] + DecodeAll(side, rest)
  }

  predicate AllReadable(side: Side, fs: seq<Frame>) {
    forall f :: f in fs ==> Readable(side, f)
  }

  lemma {:induction false} RoundTripAll(writer: Side, reader: Side, fs: seq<Frame>, tail: Bytes)
    requires AllReadable(reader, fs)
    ensures DecodeAll(reader, EncodeAll(writer, fs) + tail) == fs + DecodeAll(reader, tail)
  {
    hide Encode, Decode;
    if fs == [] {
      assert EncodeAll(writer, fs) + tail == tail;
    } else {
      var rest := EncodeAll(writer, fs[1..]) + tail;
      Regroup(Encode(writer, fs[0]), EncodeAll(writer, fs[1..]), tail);
      assert fs[0] in fs && fs == [fs[0]] + fs[1..];
      RoundTrip(writer, reader, fs[0], rest);
      RoundTripAll(writer, reader, fs[1..], tail);
      assert DecodeAll(reader, EncodeAll(writer, fs) + tail) == [fs[0]] + DecodeAll(reader, rest);
    }
  }

  /** Whole frames and then part of one: the reader gets exactly the whole ones. */
  lemma WholeFramesOnly(writer: Side, reader: Side, fs: seq<Frame>, f: Frame, k: nat)
    requires AllReadable(reader, fs) && |f.payload| < 0x1_0000_0000 && k < |Encode(writer, f)|
    ensures DecodeAll(reader, EncodeAll(writer, fs) + Encode(writer, f)[..k]) == fs
  {
    RoundTripAll(writer, reader, fs, Encode(writer, f)[..k]);
    PrefixIsError(writer, reader, f, k);
  }

  lemma {:induction false} EncodeAllSnoc(side: Side, fs: seq<Frame>, f: Frame)
    ensures EncodeAll(side, fs + [f]) == EncodeAll(side, fs) + Encode(side, f)
  {
    hide Encode;
    if fs == [] {
      assert EncodeAll(side, [f]) == Encode(side, f) + EncodeAll(side, []);
    } else {
      EncodeAllSnoc(side, fs[1..], f);
      assert (fs + [f])[1..] == fs[1..] + [f];
      Regroup(Encode(side, fs[0]), EncodeAll(side, fs[1..]), Encode(side, f));
    }
  }

  lemma Regroup(a: Bytes, b: Bytes, c: Bytes)
    ensures a + (b + c) == (a + b) + c
  {
  }

  // ---- resize and exit payloads ----

  function EncodeResize(rows: nat, cols: nat): Bytes {
    BE16(rows) + BE16(cols)
  }

  /** ReadResize on the host; decodeResize in the agent puts the bytes together
      itself. */
  function DecodeResize(side: Side, p: Bytes): Option<(nat, nat)> {
    if |p| != 4 then None
    else
      match side
      case HostSide => Some((FromBE16(p[0..2]), FromBE16(p[2..4])))
      case AgentSide => Some((p[0] as int * 256 + p[1], p[2] as int * 256 + p[3]))
  }

  /** A size in four bytes: rows, then columns, most significant byte first. */
  lemma ResizeFormat(rows: nat, cols: nat)
    requires rows < 0x10000 && cols < 0x10000
    ensures var r := EncodeResize(rows, cols); |r| == 4 && r[0] as int * 256 + r[1] as int == rows && r[2] as int * 256 + r[3] as int == cols
  {
  }

  lemma ResizeRoundTrip(side: Side, rows: nat, cols: nat)
    requires rows < 0x10000 && cols < 0x10000
    ensures DecodeResize(side, EncodeResize(rows, cols)) == Some((rows, cols))
  {
    ResizeFormat(rows, cols);
    BE16RoundTrip(rows);
    BE16RoundTrip(cols);
    assert EncodeResize(rows, cols)[0..2] == BE16(rows) && EncodeResize(rows, cols)[2..4] == BE16(cols);
  }

  predicate Int32(n: int) { -0x8000_0000 <= n < 0x8000_0000 }

  /** The host writes uint32(code); the agent shifts the signed code. */
  function ExitPayload(side: Side, code: int): Bytes {
    match side
    case HostSide => BE32(code % 0x1_0000_0000)
    case AgentSide => [code / 0x1000000 % 256, code / 0x10000 % 256, code / 256 % 256, code % 256]
  }

  function ReadExit(p: Bytes): Option<int> {
    if |p| != 4 then None
    else
      var u := FromBE32(p);
      Some(if u < 0x8000_0000 then u else u - 0x1_0000_0000)
  }

  /** An exit code in four bytes, most significant first, in two's complement. */
  lemma ExitFormat(side: Side, code: int)
    requires Int32(code)
    ensures var r := ExitPayload(side, code);
            && |r| == 4
            && ((r[0] as int * 256 + r[1] as int) * 256 + r[2] as int) * 256 + r[3] as int ==
               if code >= 0 then code else code + 0x1_0000_0000
  {
    hide FromBE32;
    var r := ExitPayload(side, code);
    ExitBytes(side, code);
    BE32RoundTrip(code);
    hide ExitPayload, BE32;
    assert r == [r[0], r[1], r[2], r[3]];
    BigEndianIs(r[0], r[1], r[2], r[3]);
    Residue(code);
  }

  lemma Residue(code: int)
    requires Int32(code)
    ensures code % 0x1_0000_0000 == if code >= 0 then code else code + 0x1_0000_0000
  {
  }

  lemma ExitBytes(side: Side, code: int)
    ensures ExitPayload(side, code) == BE32(code)
  {
    hide FromBE32;
    BE32RoundTrip(code);
    BE32Inverse(BE32(code));
  }

  lemma ExitRoundTrip(side: Side, code: int)
    requires Int32(code)
    ensures ReadExit(ExitPayload(side, code)) == Some(code)
  {
    hide FromBE32;
    BE32RoundTrip(code);
    ExitBytes(side, code);
    Residue(code);
  }
}
