/** An exec session end to end: the host pumps stdin as frames and the agent
    unpacks them; the agent's output pumps write frames and the host unpacks
    those until the exit frame. */
module Sessions {
  import opened Common
  import opened Frames
  import opened Connections
  import opened FrameWriters

  function Concat(chunks: seq<Bytes>): Bytes {
    if chunks == [] then [] else Concat(chunks[..|chunks| - 1]) + chunks[|chunks| - 1]
  }

  function Only(typ: Byte, fs: seq<Frame>): seq<Frame> {
    if fs == [] then []
    else Only(typ, fs[..|fs| - 1]) + (if fs[|fs| - 1].typ == typ then [fs[|fs| - 1]] else [])
  }

  function Payloads(fs: seq<Frame>): seq<Bytes> {
    seq(|fs|, i requires 0 <= i < |fs| => fs[i].payload)
  }

  // ---- the locked frame writer ----

  /** frameWriter.writeFrame and frameWriter.write, holding the lock: on a working
      connection, whatever comes of the writes, the steps of the concurrent model
      lead there. */
  method WriteLocked(side: Side, c: Conn, f: Frame) returns (ok: bool)
    modifies c`sent
    ensures ok ==> c.sent == old(c.sent) + Encode(side, f)
    ensures old(c.sent) <= c.sent <= old(c.sent) + Encode(side, f)
    ensures forall s, w :: MayAcquire(s, w, f) && s.wire == old(c.sent) ==>
              && Completes(side, w, s, Written(side, s, w, f, |c.sent| - |old(c.sent)|))
              && Written(side, s, w, f, |c.sent| - |old(c.sent)|).wire == c.sent
              && (ok <==> !Written(side, s, w, f, |c.sent| - |old(c.sent)|).broken)
  {
    hide Completes, Encode, MayAcquire;
    ghost var was := c.sent;
    ghost var enc := Encode(side, f);
    ok := WriteFrame(side, c, f.typ, f.payload);
    ghost var n := |c.sent| - |was|;
    assert Frame(f.typ, f.payload) == f;
    assert c.sent == was + enc[..n] by { PrefixSplit(was, enc, c.sent); }
    forall s, w | MayAcquire(s, w, f) && s.wire == was ensures Completes(side, w, s, Written(side, s, w, f, n)) && !s.broken {
      WriteIsPath(side, s, w, f, n);
      Working(s, w, f);
    }
  }

  lemma Working(s: World, w: nat, f: Frame)
    requires MayAcquire(s, w, f)
    ensures !s.broken
  {
  }

  lemma PrefixSplit(a: Bytes, b: Bytes, c: Bytes)
    requires a <= c <= a + b
    ensures |c| - |a| <= |b| && c == a + b[..|c| - |a|]
  {
    assert c == (a + b)[..|c|];
  }

  // ---- stdin: host to agent ----

  const STDIN_BUFFER := 32 * 1024

  /** os.Stdin: reads return some bytes, possibly together with an error; an
      error (end of file or other) ends the pump. */
  class Stdin {
    var pending: Bytes

    method Read(n: nat) returns (got: Bytes, err: bool)
      requires n > 0
      modifies this
      ensures |got| <= n && old(pending) == got + pending
      ensures !err ==> got != []
    {
      var k :| 0 <= k <= n && k <= |pending|;
      got := pending[..k];
      pending := pending[k..];
      err := *;
      err := err || k == 0;
    }
  }

  /** The frames one goroutine asks the shared writer to write, in order. */
  class FrameCalls {
    var frames: seq<Frame>

    method WriteFrame(typ: Byte, payload: Bytes)
      modifies this
      ensures frames == old(frames) + [Frame(typ, payload)]
    {
      frames := frames + [Frame(typ, payload)];
    }
  }

  function StdinFrames(chunks: seq<Bytes>): seq<Frame> {
    seq(|chunks|, i requires 0 <= i < |chunks| => Frame(FRAME_STDIN, chunks[i]))
  }

  const STDIN_EOF := Frame(FRAME_STDIN, [])

  predicate Chunks(chunks: seq<Bytes>) {
    forall c :: c in chunks ==> 0 < |c| <= 32 * 1024
  }

  lemma EmptyChunks()
    ensures Concat([]) == [] && Chunks([]) && StdinFrames([]) == []
  {
  }

  lemma ChunkSnoc(chunks: seq<Bytes>, c: Bytes)
    ensures Concat(chunks + [c]) == Concat(chunks) + c
    ensures StdinFrames(chunks + [c]) == StdinFrames(chunks) + [Frame(FRAME_STDIN, c)]
    ensures Chunks(chunks) && 0 < |c| <= STDIN_BUFFER ==> Chunks(chunks + [c])
  {
    assert (chunks + [c])[..|chunks|] == chunks;
  }

  /** Everything read is sent, in order, in non-empty chunks, and then one
      empty frame. */
  method PumpStdin(fw: FrameCalls, stdin: Stdin) returns (ghost chunks: seq<Bytes>)
    modifies fw, stdin
    ensures Chunks(chunks)
    ensures fw.frames == old(fw.frames) + StdinFrames(chunks) + [STDIN_EOF]
    ensures Concat(chunks) + stdin.pending == old(stdin.pending)
  {
    hide Concat, Chunks;
    chunks := [];
    assert Concat(chunks) == [] && Chunks(chunks) by { EmptyChunks(); }
    while true
      invariant Chunks(chunks)
      invariant fw.frames == old(fw.frames) + StdinFrames(chunks)
      invariant Concat(chunks) + stdin.pending == old(stdin.pending)
      decreases |stdin.pending|
    {
      var buf, err := stdin.Read(STDIN_BUFFER);
      if |buf| > 0 {
        fw.WriteFrame(FRAME_STDIN, buf);
        ChunkSnoc(chunks, buf);
        chunks := chunks + [buf];
      }
      if err {
        fw.WriteFrame(FRAME_STDIN, []);
        return;
      }
    }
  }

  datatype StdinEvent = Data(bytes: Bytes) | Eof

  /** In tty mode there is no end-of-file callback. */
  function StdinEvents(tty: bool, fs: seq<Frame>): seq<StdinEvent> {
    if fs == [] then []
    else
      var f := fs[|fs| - 1];
      StdinEvents(tty, fs[..|fs| - 1]) +
      (if f.typ != AGENT_STDIN then [] else if f.payload != [] then [Data(f.payload)] else if tty then [] else [Eof])
  }

  /** Only tty mode listens to resize frames; a malformed one is ignored. */
  function Sizes(tty: bool, fs: seq<Frame>): seq<(nat, nat)> {
    if fs == [] then []
    else
      var f := fs[|fs| - 1];
      var size := DecodeResize(AgentSide, f.payload);
      Sizes(tty, fs[..|fs| - 1]) + (if tty && f.typ == AGENT_RESIZE && size.Some? then [size.value] else [])
  }

  lemma NoEvents(tty: bool)
    ensures StdinEvents(tty, []) == [] && Sizes(tty, []) == []
  {
  }

  lemma EventSnoc(tty: bool, fs: seq<Frame>, f: Frame)
    ensures StdinEvents(tty, fs + [f]) == StdinEvents(tty, fs) +
              (if f.typ != AGENT_STDIN then [] else if f.payload != [] then [Data(f.payload)] else if tty then [] else [Eof])
    ensures Sizes(tty, fs + [f]) == Sizes(tty, fs) +
              (if tty && f.typ == AGENT_RESIZE && DecodeResize(AgentSide, f.payload).Some? then [DecodeResize(AgentSide, f.payload).value] else [])
  {
    assert (fs + [f])[..|fs|] == fs;
  }

  class Sink {
    var stdin: seq<StdinEvent>
    var sizes: seq<(nat, nat)>
  }

  lemma DecodeOne(side: Side, s: Bytes)
    ensures DecodeAll(side, s) == match Decode(side, s) case Bad => [] case Got(f, rest) => [f] + DecodeAll(side, rest)
  {
  }

  /** pumpInput: every frame up to the first error, to where it belongs. */
  method PumpInput(c: Conn, sink: Sink, tty: bool)
    modifies c`incoming, sink
    ensures sink.stdin == old(sink.stdin) + StdinEvents(tty, DecodeAll(AgentSide, old(c.incoming)))
    ensures sink.sizes == old(sink.sizes) + Sizes(tty, DecodeAll(AgentSide, old(c.incoming)))
  {
    hide Decode, DecodeAll, DecodeResize, StdinEvents, Sizes;
    ghost var all := DecodeAll(AgentSide, c.incoming);
    ghost var seen: seq<Frame> := [];
    assert StdinEvents(tty, seen) == [] && Sizes(tty, seen) == [] by { NoEvents(tty); }
    while true
      invariant all == seen + DecodeAll(AgentSide, c.incoming)
      invariant sink.stdin == old(sink.stdin) + StdinEvents(tty, seen)
      invariant sink.sizes == old(sink.sizes) + Sizes(tty, seen)
      decreases |c.incoming|
    {
      ghost var before := c.incoming;
      var ok, f := ReadFrame(AgentSide, c);
      DecodeOne(AgentSide, before);
      if !ok {
        assert all == seen + [] == seen;
        return;
      }
      assert all == (seen + [f]) + DecodeAll(AgentSide, c.incoming);
      EventSnoc(tty, seen, f);
      seen := seen + [f];
      if f.typ == AGENT_STDIN {
        if |f.payload| == 0 {
          if !tty {
            sink.stdin := sink.stdin + [Eof];
          }
        } else {
          sink.stdin := sink.stdin + [Data(f.payload)];
        }
      } else if f.typ == AGENT_RESIZE && tty {
        var size := DecodeResize(AgentSide, f.payload);
        if size.Some? {
          sink.sizes := sink.sizes + [size.value];
        }
      }
    }
  }

  // ---- stdin is preserved ----

  /** The stdin pump is writer 0; every other goroutine sends resize frames. */
  ghost predicate HostCalls(s: World, chunks: seq<Bytes>) {
    && Chunks(chunks) && 0 in s.phase && 0 in s.calls
    && s.calls[0] <= StdinFrames(chunks) + [STDIN_EOF]
    && forall w, f :: w in s.calls && w != 0 && f in s.calls[w] ==> f.typ == FRAME_RESIZE
  }

  ghost predicate HostSession(s: World, chunks: seq<Bytes>) {
    Framed(HostSide, s) && HostCalls(s, chunks)
  }

  lemma {:induction false} EventsOfOnly(tty: bool, fs: seq<Frame>)
    ensures StdinEvents(tty, fs) == StdinEvents(tty, Only(FRAME_STDIN, fs))
  {
    if fs == [] {
    } else {
      var init, f := fs[..|fs| - 1], fs[|fs| - 1];
      EventsOfOnly(tty, init);
      assert (Only(FRAME_STDIN, init) + [f])[..|Only(FRAME_STDIN, init)|] == Only(FRAME_STDIN, init);
      assert Only(FRAME_STDIN, init) + [] == Only(FRAME_STDIN, init);
    }
  }

  lemma {:induction false} OfMember(w: nat, log: seq<(nat, Frame)>, i: nat)
    requires i < |log| && log[i].0 == w
    ensures log[i].1 in Of(w, log)
  {
    if i == |log| - 1 {
    } else {
      OfMember(w, log[..|log| - 1], i);
    }
  }

  /** If writer w alone writes frames of a type, and only those, its frames are
      the frames of that type. */
  lemma {:induction false} OnlyIsOf(typ: Byte, w: nat, log: seq<(nat, Frame)>)
    requires forall i :: 0 <= i < |log| ==> (log[i].1.typ == typ <==> log[i].0 == w)
    ensures Only(typ, FramesOf(log)) == Of(w, log)
  {
    if log == [] {
    } else {
      OnlyIsOf(typ, w, log[..|log| - 1]);
      assert FramesOf(log)[..|log| - 1] == FramesOf(log[..|log| - 1]);
    }
  }

  /** Entries of the log were asked for by their writer. */
  lemma LoggedWasCalled(s: World, i: nat)
    requires LockHeld(s) && InOrder(s) && i < |s.log|
    ensures s.log[i].0 in s.calls && s.log[i].1 in s.calls[s.log[i].0]
  {
    var w := s.log[i].0;
    OfMember(w, s.log, i);
    var c, d := Of(w, s.log), s.calls[w];
    assert d[..|c|] == c;
  }

  lemma StdinFramesAre(chunks: seq<Bytes>, fs: seq<Frame>, f: Frame)
    requires fs <= StdinFrames(chunks) + [STDIN_EOF] && f in fs && Chunks(chunks)
    ensures f.typ == FRAME_STDIN && |f.payload| <= STDIN_BUFFER
  {
    var all := StdinFrames(chunks) + [STDIN_EOF];
    var i :| 0 <= i < |fs| && fs[i] == f;
    assert all[i] == f;
    if i < |chunks| { assert chunks[i] in chunks && f.payload == chunks[i]; }
  }

  /** The agent reads every frame the host writes: it has no bound of its own. */
  lemma AgentSees(s: World)
    requires Framed(HostSide, s)
    ensures var got := DecodeAll(AgentSide, s.wire);
            || got == FramesOf(s.log)
            || (s.lock.Some? && s.lock.value in s.phase && s.phase[s.lock.value].Writing?
                && got == FramesOf(s.log) + [s.phase[s.lock.value].frame])
  {
    hide Encode, DecodeAll, WholeFrames, InOrder;
    ReaderSees(HostSide, AgentSide, s);
  }

  /** After a failed write the agent gets the complete frames and no more. */
  lemma BrokenReads(s: World)
    requires Framed(HostSide, s) && s.broken
    ensures DecodeAll(AgentSide, s.wire) == FramesOf(s.log)
  {
    hide Encode, Decode, InOrder;
    RoundTripAll(HostSide, AgentSide, FramesOf(s.log), s.torn);
    var f: Frame, k: nat :| |f.payload| < 0x1_0000_0000 && k < |Encode(HostSide, f)| && s.torn == Encode(HostSide, f)[..k];
    PrefixIsError(HostSide, AgentSide, f, k);
    assert DecodeAll(AgentSide, s.torn) == [];
  }

  /** Writer w alone sends frames of a type, and only those. */
  ghost predicate Dedicated(s: World, typ: Byte, w: nat) {
    && w in s.calls && w in s.phase
    && forall v, f :: v in s.calls && f in s.calls[v] ==> (f.typ == typ <==> v == w)
  }

  /** What the agent has received of a type of frames is what its writer has
      sent, up to a point in its sequence. */
  lemma AgentHasPrefixOf(s: World, typ: Byte, w: nat)
    requires Framed(HostSide, s) && Dedicated(s, typ, w)
    ensures Only(typ, DecodeAll(AgentSide, s.wire)) <= s.calls[w]
    ensures AllIdle(s) && !s.broken ==> Only(typ, DecodeAll(AgentSide, s.wire)) == s.calls[w]
  {
    hide Of, Encode, DecodeAll, WholeFrames, Bounded;
    var got := DecodeAll(AgentSide, s.wire);
    var fs := FramesOf(s.log);
    forall i | 0 <= i < |s.log| ensures s.log[i].1.typ == typ <==> s.log[i].0 == w {
      LoggedWasCalled(s, i);
    }
    OnlyIsOf(typ, w, s.log);
    AgentSees(s);
    if s.broken { BrokenReads(s); }
    if got != fs {
      var v := s.lock.value;
      var f := s.phase[v].frame;
      assert got[..|got| - 1] == fs && got[|got| - 1] == f;
      assert s.calls[v] == Of(v, s.log) + [f];
      assert f in s.calls[v];
    } else if AllIdle(s) && !s.broken {
      assert InHand(s.phase[w]) == [];
    }
  }

  lemma AgentHasPrefix(s: World, chunks: seq<Bytes>)
    requires HostSession(s, chunks)
    ensures Only(FRAME_STDIN, DecodeAll(AgentSide, s.wire)) <= s.calls[0]
    ensures AllIdle(s) && !s.broken ==> Only(FRAME_STDIN, DecodeAll(AgentSide, s.wire)) == s.calls[0]
  {
    hide DecodeAll, Framed;
    forall f | f in s.calls[0] ensures f.typ == FRAME_STDIN { StdinFramesAre(chunks, s.calls[0], f); }
    AgentHasPrefixOf(s, FRAME_STDIN, 0);
  }

  // ---- sizes are preserved ----

  function ResizeFrames(sizes: seq<(nat, nat)>): seq<Frame> {
    seq(|sizes|, i requires 0 <= i < |sizes| => Frame(FRAME_RESIZE, EncodeResize(sizes[i].0, sizes[i].1)))
  }

  lemma {:induction false} SizesOfOnly(tty: bool, fs: seq<Frame>)
    ensures Sizes(tty, fs) == if tty then Sizes(true, Only(FRAME_RESIZE, fs)) else []
  {
    if fs == [] {
    } else {
      var init, f := fs[..|fs| - 1], fs[|fs| - 1];
      SizesOfOnly(tty, init);
      assert (Only(FRAME_RESIZE, init) + [f])[..|Only(FRAME_RESIZE, init)|] == Only(FRAME_RESIZE, init);
      assert Only(FRAME_RESIZE, init) + [] == Only(FRAME_RESIZE, init);
    }
  }

  lemma {:induction false} SizesSent(sizes: seq<(nat, nat)>, fs: seq<Frame>)
    requires fs <= ResizeFrames(sizes) && forall x :: x in sizes ==> x.0 < 0x10000 && x.1 < 0x10000
    ensures Sizes(true, fs) == sizes[..|fs|]
    decreases |fs|
  {
    hide DecodeResize, EncodeResize;
    if fs != [] {
      var n := |fs| - 1;
      SizesSent(sizes, fs[..n]);
      assert fs[n] == ResizeFrames(sizes)[n] && sizes[n] in sizes;
      ResizeRoundTrip(AgentSide, sizes[n].0, sizes[n].1);
      assert sizes[..n + 1] == sizes[..n] + [sizes[n]];
    }
  }

  /** The terminal's sizes, sent by writer 1, reach the command's pty in order
      under any interleaving with stdin: at every moment a prefix of them, and all
      of them when the writers are done. Without a tty none are applied. */
  lemma SizesPreserved(s: World, chunks: seq<Bytes>, sizes: seq<(nat, nat)>)
    requires HostSession(s, chunks) && s.calls.Keys == {0, 1} && 1 in s.phase && s.calls[1] <= ResizeFrames(sizes)
    requires forall x :: x in sizes ==> x.0 < 0x10000 && x.1 < 0x10000
    ensures Sizes(false, DecodeAll(AgentSide, s.wire)) == []
    ensures Sizes(true, DecodeAll(AgentSide, s.wire)) <= sizes
    ensures AllIdle(s) && !s.broken && s.calls[1] == ResizeFrames(sizes) ==> Sizes(true, DecodeAll(AgentSide, s.wire)) == sizes
  {
    hide DecodeAll, Framed, EncodeResize, DecodeResize, Sizes;
    forall f | f in s.calls[0] ensures f.typ == FRAME_STDIN { StdinFramesAre(chunks, s.calls[0], f); }
    AgentHasPrefixOf(s, FRAME_RESIZE, 1);
    var fs := DecodeAll(AgentSide, s.wire);
    SizesOfOnly(false, fs);
    SizesOfOnly(true, fs);
    SizesSent(sizes, Only(FRAME_RESIZE, fs));
    assert sizes[..|sizes|] == sizes;
  }

  // ---- the sink ----

  lemma {:induction false} EventsOfPrefix(tty: bool, fs: seq<Frame>, gs: seq<Frame>)
    requires fs <= gs
    ensures StdinEvents(tty, fs) <= StdinEvents(tty, gs)
  {
    if |fs| < |gs| {
      EventsOfPrefix(tty, fs, gs[..|gs| - 1]);
    } else {
      assert fs == gs;
    }
  }

  function DataEvents(chunks: seq<Bytes>): seq<StdinEvent> {
    seq(|chunks|, i requires 0 <= i < |chunks| => Data(chunks[i]))
  }

  lemma DataSnoc(chunks: seq<Bytes>, c: Bytes)
    ensures DataEvents([]) == [] && DataEvents(chunks + [c]) == DataEvents(chunks) + [Data(c)]
  {
  }

  lemma ChunksLast(init: seq<Bytes>, c: Bytes)
    requires Chunks(init + [c])
    ensures Chunks(init) && c != []
  {
    assert (init + [c])[|init|] == c;
    assert forall x :: x in init ==> x in init + [c];
  }

  lemma {:induction false} DataOfChunks(tty: bool, chunks: seq<Bytes>)
    requires Chunks(chunks)
    ensures StdinEvents(tty, StdinFrames(chunks)) == DataEvents(chunks)
  {
    hide StdinEvents, StdinFrames, DataEvents, Chunks;
    if chunks == [] {
      NoEvents(tty);
      DataSnoc([], []);
      assert StdinFrames([]) == [] by { EmptyChunks(); }
    } else {
      var init, c := chunks[..|chunks| - 1], chunks[|chunks| - 1];
      assert chunks == init + [c];
      ChunksLast(init, c);
      DataOfChunks(tty, init);
      DataSnoc(init, c);
      ChunkSnoc(init, c);
      EventSnoc(tty, StdinFrames(init), Frame(FRAME_STDIN, c));
    }
  }

  lemma EventsOfChunks(tty: bool, chunks: seq<Bytes>)
    requires Chunks(chunks)
    ensures StdinEvents(tty, StdinFrames(chunks)) == DataEvents(chunks)
    ensures StdinEvents(tty, StdinFrames(chunks) + [STDIN_EOF]) == DataEvents(chunks) + (if tty then [] else [Eof])
  {
    hide StdinEvents, StdinFrames, DataEvents, Chunks;
    DataOfChunks(tty, chunks);
    EventSnoc(tty, StdinFrames(chunks), STDIN_EOF);
  }

  /** Under any interleaving with resize frames, at every moment of every run,
      the agent's stdin sink has received a prefix of the chunks the host read,
      in order, and then at most one end of file; when the writers are done it
      has received all of them. */
  lemma StdinPreserved(tty: bool, s: World, chunks: seq<Bytes>)
    requires HostSession(s, chunks)
    ensures var all := DataEvents(chunks) + (if tty then [] else [Eof]);
            var got := StdinEvents(tty, DecodeAll(AgentSide, s.wire));
            && got <= all
            && (AllIdle(s) && !s.broken && s.calls[0] == StdinFrames(chunks) + [STDIN_EOF] ==> got == all)
  {
    var fs := DecodeAll(AgentSide, s.wire);
    AgentHasPrefix(s, chunks);
    EventsOfOnly(tty, fs);
    EventsOfPrefix(tty, Only(FRAME_STDIN, fs), StdinFrames(chunks) + [STDIN_EOF]);
    EventsOfChunks(tty, chunks);
  }

  /** So it is at every moment of every concurrent run of the host's writers. */
  lemma StdinInEveryRun(tty: bool, run: seq<World>, i: nat, chunks: seq<Bytes>)
    requires Execution(HostSide, run) && i < |run| && HostCalls(run[i], chunks)
    ensures var all := DataEvents(chunks) + (if tty then [] else [Eof]);
            var got := StdinEvents(tty, DecodeAll(AgentSide, run[i].wire));
            && got <= all
            && (AllIdle(run[i]) && !run[i].broken && run[i].calls[0] == StdinFrames(chunks) + [STDIN_EOF] ==> got == all)
  {
    hide Execution, Framed, Joining, ExitLast, StdinEvents, DecodeAll, HostCalls;
    Reachable(HostSide, run);
    StdinPreserved(tty, run[i], chunks);
  }

  // ---- output: agent to host ----

  datatype Outcome = Success | ExitStatus(code: int) | BadExit | Ended

  datatype Session = Session(stdout: Bytes, stderr: Bytes, outcome: Outcome)

  /** What a session on this byte stream prints and returns. */
  function Receive(s: Bytes): Session
    decreases |s|
  {
    match Decode(HostSide, s)
    case Bad => Session([], [], Ended)
    case Got(f, rest) =>
      if f.typ == FRAME_STDOUT then
        var r := Receive(rest);
        r.(stdout := f.payload + r.stdout)
      else if f.typ == FRAME_STDERR then
        var r := Receive(rest);
        r.(stderr := f.payload + r.stderr)
      else if f.typ == FRAME_EXIT then
        var code := ReadExit(f.payload);
        Session([], [], if code.None? then BadExit else if code.value != 0 then ExitStatus(code.value) else Success)
      else
        Receive(rest)
  }

  class Output {
    var stdout: Bytes
    var stderr: Bytes
  }

  /** The receive loop of runAgentSession. */
  method ReceiveLoop(c: Conn, out: Output) returns (outcome: Outcome)
    modifies c`incoming, out
    ensures outcome == Receive(old(c.incoming)).outcome
    ensures out.stdout == old(out.stdout) + Receive(old(c.incoming)).stdout
    ensures out.stderr == old(out.stderr) + Receive(old(c.incoming)).stderr
  {
    hide Decode, ReadExit;
    ghost var whole := Receive(c.incoming);
    while true
      invariant Receive(c.incoming).outcome == whole.outcome
      invariant out.stdout + Receive(c.incoming).stdout == old(out.stdout) + whole.stdout
      invariant out.stderr + Receive(c.incoming).stderr == old(out.stderr) + whole.stderr
      decreases |c.incoming|
    {
      ghost var here := Receive(c.incoming);
      var ok, f := ReadFrame(HostSide, c);
      if !ok {
        return Ended;
      }
      ghost var next := Receive(c.incoming);
      if f.typ == FRAME_STDOUT {
        assert out.stdout + here.stdout == (out.stdout + f.payload) + next.stdout;
        out.stdout := out.stdout + f.payload;
      } else if f.typ == FRAME_STDERR {
        assert out.stderr + here.stderr == (out.stderr + f.payload) + next.stderr;
        out.stderr := out.stderr + f.payload;
      } else if f.typ == FRAME_EXIT {
        var code := ReadExit(f.payload);
        if code.None? {
          return BadExit;
        }
        if code.value != 0 {
          return ExitStatus(code.value);
        }
        return Success;
      }
    }
  }

  /** No exit frame; frames of types the host does not know may be among them. */
  predicate NoExit(fs: seq<Frame>) {
    forall f :: f in fs ==> f.typ != FRAME_EXIT
  }

  function Prepend(stdout: Bytes, stderr: Bytes, r: Session): Session {
    Session(stdout + r.stdout, stderr + r.stderr, r.outcome)
  }

  lemma PrependTwice(a: Bytes, b: Bytes, c: Bytes, d: Bytes, r: Session)
    ensures Prepend(a, b, Prepend(c, d, r)) == Prepend(a + c, b + d, r)
    ensures Prepend([], [], r) == r
  {
    assert a + (c + r.stdout) == (a + c) + r.stdout;
    assert b + (d + r.stderr) == (b + d) + r.stderr;
    assert [] + r.stdout == r.stdout && [] + r.stderr == r.stderr;
  }

  /** A frame's payload if it is of the given type. */
  function PayloadIf(typ: Byte, f: Frame): Bytes {
    if f.typ == typ then f.payload else []
  }

  lemma ReceiveOne(side: Side, f: Frame, rest: Bytes)
    requires Readable(HostSide, f) && f.typ != FRAME_EXIT
    ensures Receive(Encode(side, f) + rest) == Prepend(PayloadIf(FRAME_STDOUT, f), PayloadIf(FRAME_STDERR, f), Receive(rest))
  {
    hide Encode, Decode;
    RoundTrip(side, HostSide, f, rest);
    var r := Receive(rest);
    assert [] + r.stdout == r.stdout && [] + r.stderr == r.stderr;
  }

  /** How a session ends: at what is no frame, unexpectedly; at an exit frame,
      with the two's complement code of its four bytes, and only then. */
  lemma ReceiveEnds(side: Side, payload: Bytes, rest: Bytes, noise: Bytes)
    requires |payload| <= 1024 * 1024
    ensures Decode(HostSide, noise) == Bad ==> Receive(noise) == Session([], [], Ended)
    ensures var r := Receive(Encode(side, Frame(FRAME_EXIT, payload)) + rest);
            && r.stdout == r.stderr == []
            && (|payload| != 4 ==> r.outcome == BadExit)
            && (|payload| == 4 ==>
                  var n := ((payload[0] as int * 256 + payload[1] as int) * 256 + payload[2] as int) * 256 + payload[3] as int;
                  r.outcome == if n == 0 then Success else ExitStatus(if payload[0] < 128 then n else n - 0x1_0000_0000))
  {
    hide Encode, Decode, FromBE32;
    var exit := Frame(FRAME_EXIT, payload);
    RoundTrip(side, HostSide, exit, rest);
    if |payload| == 4 {
      assert payload == [payload[0], payload[1], payload[2], payload[3]];
      BigEndianIs(payload[0], payload[1], payload[2], payload[3]);
    }
  }

  /** The bytes of one output stream among the frames. */
  function Stream(typ: Byte, fs: seq<Frame>): Bytes {
    Concat(Payloads(Only(typ, fs)))
  }

  /** The frames before an exit frame are printed by type and in order, or
      ignored; what follows decides the outcome. */
  lemma {:induction false} ReceiveOutput(side: Side, fs: seq<Frame>, rest: Bytes)
    requires NoExit(fs) && AllReadable(HostSide, fs)
    ensures Receive(EncodeAll(side, fs) + rest) == Prepend(Stream(FRAME_STDOUT, fs), Stream(FRAME_STDERR, fs), Receive(rest))
    decreases |fs|
  {
    hide Encode, Receive, Readable, Prepend;
    if fs == [] {
      assert EncodeAll(side, fs) + rest == rest;
      assert Stream(FRAME_STDOUT, fs) == Stream(FRAME_STDERR, fs) == [];
      PrependTwice([], [], [], [], Receive(rest));
    } else {
      hide Stream, EncodeAll, PayloadIf;
      var init, f := fs[..|fs| - 1], fs[|fs| - 1];
      assert fs == init + [f] && f in fs;
      var next := Encode(side, f) + rest;
      EncodeAllSnoc(side, init, f);
      assert EncodeAll(side, fs) + rest == EncodeAll(side, init) + next;
      ReceiveOutput(side, init, next);
      ReceiveOne(side, f, rest);
      ConcatOnly(FRAME_STDOUT, init, f);
      ConcatOnly(FRAME_STDERR, init, f);
      PrependTwice(Stream(FRAME_STDOUT, init), Stream(FRAME_STDERR, init),
                   PayloadIf(FRAME_STDOUT, f), PayloadIf(FRAME_STDERR, f), Receive(rest));
    }
  }

  lemma ConcatOnly(typ: Byte, fs: seq<Frame>, f: Frame)
    ensures Stream(typ, fs + [f]) == Stream(typ, fs) + PayloadIf(typ, f)
  {
    assert (fs + [f])[..|fs|] == fs;
    var before := Payloads(Only(typ, fs));
    if f.typ == typ {
      assert Payloads(Only(typ, fs + [f])) == before + [f.payload];
      assert (before + [f.payload])[..|before|] == before;
    } else {
      assert Only(typ, fs + [f]) == Only(typ, fs);
    }
  }

  /** The session's goroutine is writer 0; the agent's stdout pump is writer 1,
      its stderr pump writer 2. */
  ghost predicate AgentCalls(s: World, code: int) {
    && s.main == 0 && s.phase.Keys == {0, 1, 2} && s.calls.Keys == {0, 1, 2} && Int32(code)
    && s.calls[0] <= [Frame(AGENT_EXIT, ExitPayload(AgentSide, code))]
    && (forall f :: f in s.calls[1] ==> f.typ == AGENT_STDOUT)
    && (forall f :: f in s.calls[2] ==> f.typ == AGENT_STDERR)
  }

  ghost predicate AgentSession(s: World, code: int) {
    Inv(AgentSide, s) && AgentCalls(s, code)
  }

  /** Each writer of the agent sends its own kind of frame. */
  lemma AgentLogTypes(s: World, code: int)
    requires AgentSession(s, code)
    ensures forall i :: 0 <= i < |s.log| ==>
              && s.log[i].0 in {0, 1, 2}
              && s.log[i].1.typ == (if s.log[i].0 == 0 then AGENT_EXIT else if s.log[i].0 == 1 then AGENT_STDOUT else AGENT_STDERR)
              && (s.log[i].0 == 0 ==> s.log[i].1 == Frame(AGENT_EXIT, ExitPayload(AgentSide, code)))
  {
    hide ExitPayload, EncodeAll, Bounded, Of, WholeFrames, ExitLast;
    forall i | 0 <= i < |s.log|
      ensures s.log[i].0 in {0, 1, 2} && s.log[i].0 in s.calls && s.log[i].1 in s.calls[s.log[i].0]
    {
      LoggedWasCalled(s, i);
    }
  }

  /** Once the exit frame is written, the log is the pumps' frames and then it. */
  lemma LogOfFinishedSession(s: World, code: int) returns (outs: seq<Frame>)
    requires AgentSession(s, code)
    requires s.log != [] && s.log[|s.log| - 1].1.typ == FRAME_EXIT
    ensures FramesOf(s.log) == outs + [Frame(AGENT_EXIT, ExitPayload(AgentSide, code))] && NoExit(outs)
    ensures s.wire == EncodeAll(AgentSide, FramesOf(s.log))
    ensures Only(FRAME_STDOUT, FramesOf(s.log)) == s.calls[1] && Only(FRAME_STDERR, FramesOf(s.log)) == s.calls[2]
  {
    hide ExitPayload, EncodeAll, Bounded, Of, Only;
    var n := |s.log| - 1;
    AgentLogTypes(s, code);
    OnlyIsOf(FRAME_STDOUT, 1, s.log);
    OnlyIsOf(FRAME_STDERR, 2, s.log);
    assert AllIdle(s) && !s.broken;
    assert 1 in s.phase && 2 in s.phase;
    assert s.calls[1] == Of(1, s.log) + [] && s.calls[2] == Of(2, s.log) + [];
    outs := FramesOf(s.log[..n]);
    assert FramesOf(s.log) == outs + [s.log[n].1];
    assert Partial(AgentSide, s) == [];
  }

  /** Once the exit frame is written, the host's stdout and stderr are exactly
      the agent's chunks of each kind, whatever their interleaving and whatever
      else follows on the stream, and the session succeeds exactly when the
      exit code is 0. */
  lemma OutputPreserved(s: World, code: int, more: Bytes)
    requires AgentSession(s, code) && AllReadable(HostSide, FramesOf(s.log))
    requires s.log != [] && s.log[|s.log| - 1].1.typ == FRAME_EXIT
    ensures Receive(s.wire + more) ==
            Session(Concat(Payloads(s.calls[1])), Concat(Payloads(s.calls[2])), if code == 0 then Success else ExitStatus(code))
  {
    var outs := LogOfFinishedSession(s, code);
    FinishedSession(outs, code, more);
  }

  /** So it is on every concurrent run, from the moment the exit frame is out. */
  lemma OutputInEveryRun(run: seq<World>, i: nat, code: int, more: Bytes)
    requires Execution(AgentSide, run) && i < |run| && AgentCalls(run[i], code) && AllReadable(HostSide, FramesOf(run[i].log))
    requires run[i].log != [] && run[i].log[|run[i].log| - 1].1.typ == FRAME_EXIT
    ensures Receive(run[i].wire + more) ==
            Session(Concat(Payloads(run[i].calls[1])), Concat(Payloads(run[i].calls[2])), if code == 0 then Success else ExitStatus(code))
  {
    hide Execution, Inv, Receive, Concat, AgentCalls;
    Reachable(AgentSide, run);
    OutputPreserved(run[i], code, more);
  }

  lemma {:induction false} OnlyWriter(w: nat, log: seq<(nat, Frame)>)
    requires forall i :: 0 <= i < |log| ==> log[i].0 == w
    ensures Of(w, log) == FramesOf(log)
  {
    if log == [] {
    } else {
      OnlyWriter(w, log[..|log| - 1]);
      assert FramesOf(log) == FramesOf(log[..|log| - 1]) + [log[|log| - 1].1];
    }
  }

  /** A command that cannot be started: there are no pumps, and the host prints the
      agent's message and ends with its exit code. */
  lemma FailedStartReported(s: World, msg: Bytes, code: int, more: Bytes)
    requires Framed(AgentSide, s) && AllIdle(s) && !s.broken && s.phase.Keys == {0} && Int32(code) && |msg| <= MAX_FRAME_LEN
    requires s.calls[0] == [Frame(AGENT_STDERR, msg), Frame(AGENT_EXIT, ExitPayload(AgentSide, code))]
    ensures Receive(s.wire + more) == Session([], msg, if code == 0 then Success else ExitStatus(code))
  {
    hide ExitPayload, EncodeAll, Bounded, Receive, Stream;
    var out, exit := Frame(AGENT_STDERR, msg), Frame(AGENT_EXIT, ExitPayload(AgentSide, code));
    OnlyWriter(0, s.log);
    assert 0 in s.phase && s.calls[0] == Of(0, s.log) + [];
    assert s.calls[0] == [out] + [exit] && Partial(AgentSide, s) == [];
    assert FramesOf(s.log) == [out] + [exit] by { assert Of(0, s.log) + [] == Of(0, s.log); }
    assert s.wire == EncodeAll(AgentSide, [out] + [exit]) + [] == EncodeAll(AgentSide, [out] + [exit]);
    ExitReadable(code);
    FinishedSession([out], code, more);
    OneMessage(msg, exit);
  }

  lemma OneMessage(msg: Bytes, exit: Frame)
    requires exit.typ == FRAME_EXIT
    ensures var fs := [Frame(AGENT_STDERR, msg)] + [exit]; Stream(FRAME_STDOUT, fs) == [] && Stream(FRAME_STDERR, fs) == msg
  {
    hide Stream;
    var out := Frame(AGENT_STDERR, msg);
    NoStream();
    assert [] + [out] == [out];
    forall typ | typ == FRAME_STDOUT || typ == FRAME_STDERR
      ensures Stream(typ, [out] + [exit]) == PayloadIf(typ, out)
    {
      ConcatOnly(typ, [], out);
      ConcatOnly(typ, [out], exit);
      assert [] + PayloadIf(typ, out) + [] == PayloadIf(typ, out);
    }
  }

  lemma ExitReadable(code: int)
    ensures Readable(HostSide, Frame(AGENT_EXIT, ExitPayload(AgentSide, code)))
  {
  }

  lemma NoStream()
    ensures Stream(FRAME_STDOUT, []) == [] && Stream(FRAME_STDERR, []) == []
  {
  }

  lemma FinishedSession(outs: seq<Frame>, code: int, more: Bytes)
    requires Int32(code)
    requires var fs := outs + [Frame(AGENT_EXIT, ExitPayload(AgentSide, code))];
             NoExit(outs) && AllReadable(HostSide, fs)
    ensures var fs := outs + [Frame(AGENT_EXIT, ExitPayload(AgentSide, code))];
            Receive(EncodeAll(AgentSide, fs) + more) ==
            Session(Stream(FRAME_STDOUT, fs), Stream(FRAME_STDERR, fs), if code == 0 then Success else ExitStatus(code))
  {
    hide Encode, Decode, ExitPayload, ReadExit, Stream, EncodeAll, Readable;
    var exit := Frame(AGENT_EXIT, ExitPayload(AgentSide, code));
    var fs := outs + [exit];
    var next := Encode(AgentSide, exit) + more;
    assert exit in fs && forall f :: f in outs ==> f in fs;
    EncodeAllSnoc(AgentSide, outs, exit);
    assert EncodeAll(AgentSide, fs) + more == EncodeAll(AgentSide, outs) + next;
    ReceiveOutput(AgentSide, outs, next);
    ExitIsShort(exit);
    RoundTrip(AgentSide, HostSide, exit, more);
    ExitRoundTrip(AgentSide, code);
    ConcatOnly(FRAME_STDOUT, outs, exit);
    ConcatOnly(FRAME_STDERR, outs, exit);
  }

  lemma ExitIsShort(f: Frame)
    requires Readable(HostSide, f)
    ensures |f.payload| < 0x1_0000_0000
  {
  }

  /** The bound on payloads is needed: one larger frame ends the session. */
  lemma OversizedEndsSession(fs: seq<Frame>, f: Frame, rest: Bytes)
    requires NoExit(fs) && AllReadable(HostSide, fs)
    requires MAX_FRAME_LEN < |f.payload| < 0x1_0000_0000
    ensures Receive(EncodeAll(AgentSide, fs) + (Encode(AgentSide, f) + rest)).outcome == Ended
  {
    RoundTrip(AgentSide, HostSide, f, rest);
    ReceiveOutput(AgentSide, fs, Encode(AgentSide, f) + rest);
  }
}
