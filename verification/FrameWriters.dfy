/** Several goroutines sharing one connection through a frame writer: each call
    takes the lock, writes the header and then the payload, and releases. */
module FrameWriters {
  import opened Common
  import opened Frames

  /** Where a goroutine is in its current call of writeFrame. `written` counts
      the bytes of the frame that are on the wire. */
  datatype Phase =
    | Idle
    | Waiting(frame: Frame)
    | Writing(frame: Frame, written: nat)
    | Failed(frame: Frame)

  /** How far the goroutine that runs the session has got: it may write a message
      of its own, waits for every other goroutine to finish (cmd.Wait, and the
      channel the output pump closes), then writes the exit frame and returns. */
  datatype Stage = Running | Joined | Returned

  /** `calls` lists each writer's frames in the order it asked for them, `log`
      the frames that were written completely. `broken` is set once a write
      fails; nothing reaches the wire after that. `finished` are the pumps that
      have returned, `main` is the session's own goroutine. */
  datatype World = World(
    wire: Bytes,
    phase: map<nat, Phase>,
    lock: Option<nat>,
    calls: map<nat, seq<Frame>>,
    log: seq<(nat, Frame)>,
    torn: Bytes,
    broken: bool,
    finished: set<nat>,
    main: nat,
    stage: Stage)

  datatype Action =
    | Call(w: nat, frame: Frame)
    | Acquire(w: nat)
    | Send(w: nat, k: nat)
    | Fail(w: nat)
    | Release(w: nat)
    | Finish(w: nat)
    | Join(w: nat)

  predicate Init(s: World) {
    && s.wire == [] && s.lock.None? && s.log == [] && s.torn == [] && !s.broken && s.finished == {} && s.stage == Running
    && s.calls.Keys == s.phase.Keys
    && forall w :: w in s.phase ==> s.phase[w] == Idle && s.calls[w] == []
  }

  function InPhase(s: World, w: nat, p: Phase): World {
    s.(phase := s.phase[w := p])
  }

  predicate AllIdle(s: World) {
    forall w :: w in s.phase ==> s.phase[w] == Idle
  }

  /** A single write call covers the header, the next one the payload. */
  function Section(side: Side, f: Frame, written: nat): nat {
    if written < 5 then 5 else |Encode(side, f)|
  }

  /** Which frames a goroutine may ask for. A pump writes its own type of frame,
      never an exit frame, until it returns. The session's goroutine writes the
      exit frame once it has waited for the pumps, as its last statement. */
  predicate MayWrite(s: World, w: nat, f: Frame) {
    if w != s.main then w !in s.finished && f.typ != FRAME_EXIT
    else s.stage == if f.typ == FRAME_EXIT then Joined else Running
  }

  /** One step of one goroutine. */
  ghost predicate Does(side: Side, s: World, a: Action, s': World) {
    a.w in s.phase && a.w in s.calls &&
    match a
    case Call(w, f) =>
      && s.phase[w] == Idle && |f.payload| < 0x1_0000_0000 && MayWrite(s, w, f)
      && s' == InPhase(s, w, Waiting(f)).(calls := s.calls[w := s.calls[w] + [f]],
                                          stage := if f.typ == FRAME_EXIT then Returned else s.stage)
    case Acquire(w) =>
      && s.phase[w].Waiting? && s.lock.None?
      && s' == InPhase(s, w, Writing(s.phase[w].frame, 0)).(lock := Some(w))
    case Send(w, k) =>
      && s.phase[w].Writing? && !s.broken && k > 0
      && var f, n := s.phase[w].frame, s.phase[w].written;
      && n + k <= Section(side, f, n)
      && s' == InPhase(s, w, Writing(f, n + k)).(wire := s.wire + Encode(side, f)[n..n + k])
    case Fail(w) =>
      && s.phase[w].Writing? && s.phase[w].written < |Encode(side, s.phase[w].frame)|
      && s' == InPhase(s, w, Failed(s.phase[w].frame)).(
                 broken := true,
                 torn := if s.broken then s.torn else Encode(side, s.phase[w].frame)[..s.phase[w].written])
    case Release(w) =>
      if s.phase[w].Writing? then
        && s.phase[w].written == |Encode(side, s.phase[w].frame)|
        && s' == InPhase(s, w, Idle).(lock := None, log := s.log + [(w, s.phase[w].frame)])
      else
        && s.phase[w].Failed?
        && s' == InPhase(s, w, Idle).(lock := None)
    case Finish(w) =>
      && w != s.main && s.phase[w] == Idle
      && s' == s.(finished := s.finished + {w})
    case Join(w) =>
      && w == s.main && s.phase[w] == Idle && s.stage == Running
      && (forall v :: v in s.phase && v != w ==> v in s.finished)
      && s' == s.(stage := Joined)
  }

  ghost predicate Next(side: Side, s: World, s': World) {
    exists a :: Does(side, s, a, s')
  }

  ghost predicate Execution(side: Side, run: seq<World>) {
    run != [] && Init(run[0]) && forall i :: 0 <= i < |run| - 1 ==> Next(side, run[i], run[i + 1])
  }

  // ---- invariants ----

  function FramesOf(log: seq<(nat, Frame)>): seq<Frame> {
    seq(|log|, i requires 0 <= i < |log| => log[i].1)
  }

  /** One writer's frames in the log. */
  function Of(w: nat, log: seq<(nat, Frame)>): seq<Frame> {
    if log == [] then []
    else Of(w, log[..|log| - 1]) + (if log[|log| - 1].0 == w then [log[|log| - 1].1] else [])
  }

  /** The part of an unfinished frame that is on the wire. */
  function Partial(side: Side, s: World): Bytes {
    if s.broken then s.torn
    else if s.lock.Some? && s.lock.value in s.phase && s.phase[s.lock.value].Writing? then
      var p := s.phase[s.lock.value];
      if p.written <= |Encode(side, p.frame)| then Encode(side, p.frame)[..p.written] else []
    else []
  }

  function InHand(p: Phase): seq<Frame> {
    if p.Idle? then [] else [p.frame]
  }

  /** Only the lock holder is inside writeFrame. */
  ghost predicate LockHeld(s: World) {
    && s.calls.Keys == s.phase.Keys
    && (forall w :: w in s.phase && (s.phase[w].Writing? || s.phase[w].Failed?) ==> s.lock == Some(w))
    && (s.lock.Some? ==> s.lock.value in s.phase && (s.phase[s.lock.value].Writing? || s.phase[s.lock.value].Failed?))
    && (forall i :: 0 <= i < |s.log| ==> s.log[i].0 in s.phase)
  }

  /** Nothing of a frame is written after the connection broke. */
  ghost predicate PhaseBounded(side: Side, p: Phase, broken: bool) {
    && (p.Failed? ==> broken)
    && (p.Writing? ==> p.written <= |Encode(side, p.frame)| && (broken ==> p.written == 0))
    && (!p.Idle? ==> |p.frame.payload| < 0x1_0000_0000)
  }

  ghost predicate Bounded(side: Side, s: World) {
    && (forall w :: w in s.phase ==> PhaseBounded(side, s.phase[w], s.broken))
    && (forall e :: e in s.log ==> |e.1.payload| < 0x1_0000_0000)
    && (s.broken ==> IsTorn(side, s.torn))
  }

  ghost predicate Exclusive(side: Side, s: World) {
    LockHeld(s) && Bounded(side, s)
  }

  ghost predicate IsTorn(side: Side, torn: Bytes) {
    exists f: Frame, k: nat :: |f.payload| < 0x1_0000_0000 && k < |Encode(side, f)| && torn == Encode(side, f)[..k]
  }

  /** Whole frames, and at most one partial frame of the lock holder (or of the
      writer whose write failed). */
  ghost predicate WholeFrames(side: Side, s: World) {
    s.wire == EncodeAll(side, FramesOf(s.log)) + Partial(side, s)
  }

  /** Each writer's frames appear in the order it asked for them. */
  ghost predicate InOrder(s: World) {
    forall w :: w in s.phase && w in s.calls ==>
      && Of(w, s.log) <= s.calls[w]
      && (!s.broken ==> s.calls[w] == Of(w, s.log) + InHand(s.phase[w]))
  }

  /** Finished pumps are out of writeFrame, and the session's goroutine is past its
      wait only when they all are. */
  ghost predicate Joining(s: World) {
    && (forall w :: w in s.phase && w in s.finished ==> w != s.main && s.phase[w] == Idle)
    && (s.stage != Running ==> forall w :: w in s.phase && w != s.main ==> w in s.finished)
    && (s.stage == Joined ==> s.main in s.phase ==> s.phase[s.main] == Idle)
  }

  /** An exit frame is the last frame of the log: it is in hand only in the session's
      goroutine, and once it is in the log every goroutine is done writing. */
  ghost predicate ExitLast(s: World) {
    && (forall w :: w in s.phase && !s.phase[w].Idle? && s.phase[w].frame.typ == FRAME_EXIT ==> w == s.main && s.stage == Returned)
    && (forall i :: 0 <= i < |s.log| && s.log[i].1.typ == FRAME_EXIT ==>
          i == |s.log| - 1 && s.stage == Returned && AllIdle(s) && !s.broken)
  }

  lemma LockStep(side: Side, s: World, a: Action, s': World)
    requires LockHeld(s) && Does(side, s, a, s')
    ensures LockHeld(s')
  {
    hide Encode, AllIdle, Section;
  }

  lemma BoundedStep(side: Side, s: World, a: Action, s': World)
    requires Exclusive(side, s) && Does(side, s, a, s')
    ensures Bounded(side, s')
  {
    hide Encode, AllIdle, IsTorn;
    if a.Fail? {
      TornFrame(side, s.phase[a.w].frame, s.phase[a.w].written);
    }
    forall w | w in s'.phase ensures PhaseBounded(side, s'.phase[w], s'.broken) {
      assert w in s.phase && PhaseBounded(side, s.phase[w], s.broken);
    }
  }

  lemma TornFrame(side: Side, f: Frame, k: nat)
    requires |f.payload| < 0x1_0000_0000 && k < |Encode(side, f)|
    ensures IsTorn(side, Encode(side, f)[..k])
  {
  }

  lemma PartialSent(side: Side, s: World, w: nat, k: nat, s': World)
    requires Exclusive(side, s) && Does(side, s, Send(w, k), s')
    ensures Partial(side, s') == Partial(side, s) + s'.wire[|s.wire|..] && s.wire <= s'.wire
  {
    hide Encode, IsTorn, AllIdle, MayWrite;
    var f, n := s.phase[w].frame, s.phase[w].written;
    var enc := Encode(side, f);
    assert s.lock == Some(w) && Partial(side, s) == enc[..n] && Partial(side, s') == enc[..n + k];
    assert enc[..n + k] == enc[..n] + enc[n..n + k];
  }

  lemma PartialReleased(side: Side, s: World, w: nat, s': World)
    requires Exclusive(side, s) && Does(side, s, Release(w), s')
    ensures if s.phase[w].Writing? && !s.broken then Partial(side, s) == Encode(side, s.phase[w].frame) && Partial(side, s') == []
            else s.phase[w].Failed? && Partial(side, s') == Partial(side, s)
  {
    hide Encode, IsTorn, AllIdle, MayWrite;
    if s.phase[w].Writing? {
      var enc := Encode(side, s.phase[w].frame);
      assert enc[..|enc|] == enc && s.lock == Some(w);
    }
  }

  lemma PartialStays(side: Side, s: World, a: Action, s': World)
    requires Exclusive(side, s) && Does(side, s, a, s') && !a.Send? && !a.Release?
    ensures Partial(side, s') == Partial(side, s) && s'.wire == s.wire && s'.log == s.log
  {
    hide Encode, IsTorn, AllIdle, MayWrite;
  }

  lemma WholeFramesStep(side: Side, s: World, a: Action, s': World)
    requires Exclusive(side, s) && WholeFrames(side, s) && Does(side, s, a, s')
    ensures WholeFrames(side, s')
  {
    hide Encode, EncodeAll, Exclusive, Partial;
    var all := EncodeAll(side, FramesOf(s.log));
    if a.Send? {
      PartialSent(side, s, a.w, a.k, s');
      assert s'.wire == s.wire + s'.wire[|s.wire|..];
      assert s'.wire == all + Partial(side, s');
    } else if a.Release? {
      PartialReleased(side, s, a.w, s');
      if s.phase[a.w].Writing? {
        var f := s.phase[a.w].frame;
        EncodeAllSnoc(side, FramesOf(s.log), f);
        assert FramesOf(s'.log) == FramesOf(s.log) + [f];
        assert s'.wire == EncodeAll(side, FramesOf(s'.log)) + [];
      }
    } else {
      PartialStays(side, s, a, s');
    }
  }

  /** A step touches the calls and the phase of its own goroutine only. */
  lemma OthersStay(side: Side, s: World, a: Action, s': World)
    requires Does(side, s, a, s')
    ensures forall w :: w in s'.phase && w != a.w ==> w in s.phase && s'.phase[w] == s.phase[w]
    ensures forall w :: w in s'.calls && w != a.w ==> w in s.calls && s'.calls[w] == s.calls[w]
    ensures s.broken ==> s'.broken
  {
    hide Encode, Section, AllIdle;
  }

  lemma InOrderStep(side: Side, s: World, a: Action, s': World)
    requires Exclusive(side, s) && InOrder(s) && Does(side, s, a, s')
    ensures InOrder(s')
  {
    hide Encode, IsTorn, Of, LockHeld, AllIdle;
    OthersStay(side, s, a, s');
    if a.Release? && s.phase[a.w].Writing? {
      OfSnoc(s.log, a.w, s.phase[a.w].frame);
      assert !s.broken;
    } else {
      assert s'.log == s.log;
    }
    var w := a.w;
    assert Of(w, s'.log) <= s'.calls[w];
    assert !s'.broken ==> s'.calls[w] == Of(w, s'.log) + InHand(s'.phase[w]);
    assert forall v :: v != w ==> Of(v, s'.log) == Of(v, s.log);
  }

  lemma OfSnoc(log: seq<(nat, Frame)>, v: nat, f: Frame)
    ensures forall w :: Of(w, log + [(v, f)]) == Of(w, log) + (if w == v then [f] else [])
  {
    assert (log + [(v, f)])[..|log|] == log;
  }

  lemma JoiningStep(side: Side, s: World, a: Action, s': World)
    requires Joining(s) && Does(side, s, a, s')
    ensures Joining(s')
  {
    hide Encode, Section, AllIdle;
  }

  lemma ExitLastStep(side: Side, s: World, a: Action, s': World)
    requires ExitLast(s) && Joining(s) && Exclusive(side, s) && Does(side, s, a, s')
    ensures ExitLast(s')
  {
    hide Encode, IsTorn, LockHeld, Section;
  }

  /** What holds of the wire whatever the frames are. */
  ghost predicate Framed(side: Side, s: World) {
    Exclusive(side, s) && WholeFrames(side, s) && InOrder(s)
  }

  ghost predicate Inv(side: Side, s: World) {
    Framed(side, s) && Joining(s) && ExitLast(s)
  }

  lemma InitInv(side: Side, s: World)
    requires Init(s)
    ensures Inv(side, s)
  {
    assert FramesOf(s.log) == [] && EncodeAll(side, []) == [];
    assert forall w :: Of(w, s.log) == [];
    hide EncodeAll, Encode, Of, IsTorn;
  }

  /** Every reachable state of every concurrent run: whole frames plus at most
      one partial one, each writer in order, nothing after an exit frame. */
  lemma {:induction false} Reachable(side: Side, run: seq<World>)
    requires Execution(side, run)
    ensures forall i :: 0 <= i < |run| ==> Inv(side, run[i])
  {
    hide LockHeld, Bounded, WholeFrames, InOrder, Joining, ExitLast, Init, Does;
    var n := |run| - 1;
    if n == 0 {
      InitInv(side, run[0]);
    } else {
      assert Execution(side, run[..n]);
      Reachable(side, run[..n]);
      var s, s' := run[n - 1], run[n];
      assert run[..n][n - 1] == s && Inv(side, s) && Next(side, s, s');
      var a :| Does(side, s, a, s');
      LockStep(side, s, a, s');
      BoundedStep(side, s, a, s');
      WholeFramesStep(side, s, a, s');
      InOrderStep(side, s, a, s');
      JoiningStep(side, s, a, s');
      ExitLastStep(side, s, a, s');
      forall i | 0 <= i < |run| ensures Inv(side, run[i]) {
        if i < n { assert run[..n][i] == run[i]; }
      }
    }
  }

  /** The unfinished part of the wire holds no frame, or exactly the holder's. */
  lemma PartialReads(side: Side, reader: Side, s: World)
    requires Exclusive(side, s)
    requires forall w :: w in s.phase && !s.phase[w].Idle? ==> Readable(reader, s.phase[w].frame)
    ensures var got := DecodeAll(reader, Partial(side, s));
            || got == []
            || (s.lock.Some? && s.lock.value in s.phase && s.phase[s.lock.value].Writing? && got == [s.phase[s.lock.value].frame])
  {
    hide Encode, Decode, Readable;
    if s.broken {
      var f: Frame, k: nat :| |f.payload| < 0x1_0000_0000 && k < |Encode(side, f)| && s.torn == Encode(side, f)[..k];
      PrefixIsError(side, reader, f, k);
    } else if s.lock.Some? && s.phase[s.lock.value].Writing? {
      var p := s.phase[s.lock.value];
      assert PhaseBounded(side, p, false);
      if p.written < |Encode(side, p.frame)| {
        PrefixIsError(side, reader, p.frame, p.written);
      } else {
        WholeReads(side, reader, p.frame);
      }
    } else {
      NothingReads(reader);
    }
  }

  lemma NothingReads(reader: Side)
    ensures DecodeAll(reader, []) == []
  {
  }

  lemma WholeReads(side: Side, reader: Side, f: Frame)
    requires |f.payload| < 0x1_0000_0000 && Readable(reader, f)
    ensures var enc := Encode(side, f); enc[..|enc|] == enc && DecodeAll(reader, enc) == [f]
  {
    hide Encode, Decode, Readable;
    var enc := Encode(side, f);
    assert enc + [] == enc && enc[..|enc|] == enc;
    RoundTrip(side, reader, f, []);
    NothingReads(reader);
  }

  /** What a reader of the wire has got at any moment: the frames of the log,
      and possibly the one that is written but whose lock is still held. */
  lemma ReaderSees(side: Side, reader: Side, s: World)
    requires Framed(side, s) && AllReadable(reader, FramesOf(s.log))
    requires forall w :: w in s.phase && !s.phase[w].Idle? ==> Readable(reader, s.phase[w].frame)
    ensures var got := DecodeAll(reader, s.wire);
            || got == FramesOf(s.log)
            || (s.lock.Some? && s.lock.value in s.phase && s.phase[s.lock.value].Writing?
                && got == FramesOf(s.log) + [s.phase[s.lock.value].frame])
  {
    hide Encode, DecodeAll, EncodeAll, Exclusive, InOrder, Partial, Readable;
    var fs := FramesOf(s.log);
    RoundTripAll(side, reader, fs, Partial(side, s));
    PartialReads(side, reader, s);
    assert fs + [] == fs;
  }

  // ---- one call of writeFrame ----

  ghost predicate Moves(side: Side, w: nat, s: World, s': World) {
    exists a: Action :: a.w == w && Does(side, s, a, s')
  }

  /** Steps of goroutine w alone lead from one world to another. */
  ghost predicate Path(side: Side, w: nat, run: seq<World>) {
    run != [] && forall i :: 0 <= i < |run| - 1 ==> Moves(side, w, run[i], run[i + 1])
  }

  ghost predicate Completes(side: Side, w: nat, s: World, s': World) {
    exists run :: Path(side, w, run) && run[0] == s && run[|run| - 1] == s'
  }

  lemma StayPut(side: Side, w: nat, s: World)
    ensures Completes(side, w, s, s)
  {
    assert Path(side, w, [s]);
  }

  lemma OneMoreStep(side: Side, s: World, s': World, a: Action, s'': World)
    requires Completes(side, a.w, s, s') && Does(side, s', a, s'')
    ensures Completes(side, a.w, s, s'')
  {
    assert Moves(side, a.w, s', s'');
    hide Moves;
    var run :| Path(side, a.w, run) && run[0] == s && run[|run| - 1] == s';
    var longer := run + [s''];
    forall i | 0 <= i < |longer| - 1 ensures Moves(side, a.w, longer[i], longer[i + 1]) {
      if i < |run| - 1 {
        assert longer[i] == run[i] && longer[i + 1] == run[i + 1];
      } else {
        assert longer[i] == s' && longer[i + 1] == s'';
      }
    }
    assert Path(side, a.w, longer);
  }

  /** The goroutine has asked for the frame and the lock is free; the connection works. */
  predicate MayAcquire(s: World, w: nat, f: Frame) {
    w in s.phase && w in s.calls && s.phase[w] == Waiting(f) && s.lock.None? && !s.broken
  }

  /** Holding the lock, with n bytes of the frame on the wire. */
  function Held(side: Side, s: World, w: nat, f: Frame, n: nat): World
    requires n <= |Encode(side, f)|
  {
    InPhase(s, w, Writing(f, n)).(lock := Some(w), wire := s.wire + Encode(side, f)[..n])
  }

  /** After the call: n bytes of the frame are on the wire, all of them if it succeeded. */
  function Written(side: Side, s: World, w: nat, f: Frame, n: nat): World
    requires n <= |Encode(side, f)|
  {
    var s' := InPhase(s, w, Idle).(wire := s.wire + Encode(side, f)[..n]);
    if n == |Encode(side, f)| then s'.(log := s.log + [(w, f)])
    else s'.(broken := true, torn := Encode(side, f)[..n])
  }

  lemma Acquired(side: Side, s: World, w: nat, f: Frame)
    requires MayAcquire(s, w, f)
    ensures Completes(side, w, s, Held(side, s, w, f, 0))
  {
    hide Encode, Completes;
    StayPut(side, w, s);
    assert s.wire + Encode(side, f)[..0] == s.wire;
    OneMoreStep(side, s, s, Acquire(w), Held(side, s, w, f, 0));
  }

  lemma SentMore(side: Side, s: World, w: nat, f: Frame, n: nat, m: nat)
    requires MayAcquire(s, w, f) && n <= m <= Section(side, f, n) <= |Encode(side, f)|
    requires Completes(side, w, s, Held(side, s, w, f, n))
    ensures Completes(side, w, s, Held(side, s, w, f, m))
  {
    hide Encode, Completes, Section;
    if n < m {
      var enc := Encode(side, f);
      var h, h' := Held(side, s, w, f, n), Held(side, s, w, f, m);
      assert enc[..m] == enc[..n] + enc[n..m];
      assert s.wire + enc[..m] == (s.wire + enc[..n]) + enc[n..m];
      assert h'.phase == h.phase[w := Writing(f, m)];
      OneMoreStep(side, s, h, Send(w, m - n), h');
    }
  }

  /** A call that gets n bytes of its frame out is steps of its goroutine: take the
      lock, send the header and the payload as far as they get, release. */
  lemma WriteIsPath(side: Side, s: World, w: nat, f: Frame, n: nat)
    requires MayAcquire(s, w, f) && n <= |Encode(side, f)|
    ensures Completes(side, w, s, Written(side, s, w, f, n))
  {
    Acquired(side, s, w, f);
    SentMore(side, s, w, f, 0, if n < 5 then n else 5);
    if n > 5 { SentMore(side, s, w, f, 5, n); }
    hide Held, Written, Encode, Completes;
    Left(side, s, w, f, n);
  }

  lemma Left(side: Side, s: World, w: nat, f: Frame, n: nat)
    requires MayAcquire(s, w, f) && n <= |Encode(side, f)| && Completes(side, w, s, Held(side, s, w, f, n))
    ensures Completes(side, w, s, Written(side, s, w, f, n))
  {
    hide Encode, Completes, AllIdle, Section, MayWrite;
    var h := Held(side, s, w, f, n);
    if n == |Encode(side, f)| {
      assert Written(side, s, w, f, n).phase == h.phase[w := Idle];
      OneMoreStep(side, s, h, Release(w), Written(side, s, w, f, n));
    } else {
      var failed := InPhase(h, w, Failed(f)).(broken := true, torn := Encode(side, f)[..n]);
      assert failed.phase == h.phase[w := Failed(f)];
      OneMoreStep(side, s, h, Fail(w), failed);
      assert Written(side, s, w, f, n).phase == failed.phase[w := Idle];
      OneMoreStep(side, s, failed, Release(w), Written(side, s, w, f, n));
    }
  }
}
