/** The host's ULA prefix: generated once under a mutex, then never changed. */
module HostPrefix {
  import opened Common

  /** Section 3.1 of RFC 4193: the prefix fc00::/7 with the L bit set, a 40-bit
      global ID, and here a zero subnet ID and zero interface ID. */
  predicate IsULA64(a: Addr) {
    a[0] == 0xfd && a[6..8] == [0, 0] && a[8..] == Zeros(8)
  }

  /** generateULAPrefix up to printing: five random bytes after the first, in place. */
  method GenerateULA(random: Bytes) returns (a: Addr)
    requires |random| == 5
    ensures IsULA64(a) && a[1..6] == random
    ensures a == [0xfd] + random + [0, 0, 0, 0, 0, 0, 0, 0, 0, 0]
  {
    var addr := new Byte[16](_ => 0);
    addr[0] := 0xfd;
    for i := 0 to 5
      invariant addr[0] == 0xfd && addr[1..1 + i] == random[..i]
      invariant forall k :: 6 <= k < 16 ==> addr[k] == 0
    {
      addr[1 + i] := random[i];
    }
    a := addr[..];
    ULAIsULA64(random, a);
  }

  function ULA(random: Bytes): Addr
    requires |random| == 5
  {
    [0xfd] + random + Zeros(10)
  }

  lemma ULAIsULA64(random: Bytes, a: Addr)
    requires |random| == 5
    ensures IsULA64(a) && a[1..6] == random <==> a == ULA(random)
  {
    if IsULA64(a) && a[1..6] == random {
      assert a == [a[0]] + a[1..6] + a[6..8] + a[8..];
      assert Zeros(10) == [0, 0] + Zeros(8);
    }
  }

  // ---- concurrent callers ----

  /** Where a call of EnsurePrefix is. Everything between the lock and the
      return happens while holding the mutex. */
  datatype Phase =
    | Start
    | Locked
    | Loaded(prefix: string)
    | Generated(prefix: string)

  /** `persisted` is the saved state's prefix, "" if none; `results` lists what
      the successful calls returned, in order. */
  datatype World = World(persisted: string, mutex: Option<nat>, phase: map<nat, Phase>, results: seq<string>)

  /** The printed form of a /64. */
  type Printer = Addr -> string

  ghost predicate PrintsSomething(show: Printer) {
    forall a :: show(a) != ""
  }

  ghost predicate Init(s: World) {
    s.mutex.None? && s.results == [] && forall c :: c in s.phase ==> s.phase[c] == Start
  }

  function At(s: World, c: nat, p: Phase): World {
    s.(phase := s.phase[c := p])
  }

  /** Leaving the call releases the mutex. */
  function Leave(s: World, c: nat, result: Option<string>): World {
    At(s, c, Start).(mutex := None, results := if result.Some? then s.results + [result.value] else s.results)
  }

  ghost predicate Step(show: Printer, s: World, c: nat, s': World) {
    c in s.phase &&
    match s.phase[c]
    case Start =>
      s.mutex.None? && s' == At(s, c, Locked).(mutex := Some(c))
    case Locked =>
      s' == At(s, c, Loaded(s.persisted)) || s' == Leave(s, c, None)
    case Loaded(prefix) =>
      if prefix != "" then s' == Leave(s, c, Some(prefix))
      else
        || s' == Leave(s, c, None)
        || exists random: Bytes :: |random| == 5 && s' == At(s, c, Generated(show(ULA(random))))
    case Generated(prefix) =>
      || s' == Leave(s, c, None)
      || s' == Leave(s, c, Some(prefix)).(persisted := prefix)
  }

  ghost predicate Next(show: Printer, s: World, s': World) {
    exists c :: Step(show, s, c, s')
  }

  ghost predicate Execution(show: Printer, run: seq<World>) {
    run != [] && Init(run[0]) && forall i :: 0 <= i < |run| - 1 ==> Next(show, run[i], run[i + 1])
  }

  // ---- one call ----

  /** A call of c run on its own: the steps from one world to another. */
  ghost predicate CallPath(show: Printer, c: nat, run: seq<World>) {
    run != [] && forall i :: 0 <= i < |run| - 1 ==> Step(show, run[i], c, run[i + 1])
  }

  ghost predicate Completes(show: Printer, c: nat, s: World, s': World) {
    exists run :: CallPath(show, c, run) && run[0] == s && run[|run| - 1] == s'
  }

  predicate MayCall(s: World, c: nat) {
    c in s.phase && s.phase[c] == Start && s.mutex.None?
  }

  function Returned(s: World, result: Option<string>, persisted: string): World {
    s.(persisted := persisted, results := if result.Some? then s.results + [result.value] else s.results)
  }

  lemma CallFails(show: Printer, s: World, c: nat)
    requires MayCall(s, c)
    ensures Completes(show, c, s, Returned(s, None, s.persisted))
  {
    var s1 := At(s, c, Locked).(mutex := Some(c));
    var s2 := Leave(s1, c, None);
    assert s2.phase == s.phase;
    assert CallPath(show, c, [s, s1, s2]);
  }

  lemma CallReturns(show: Printer, s: World, c: nat)
    requires MayCall(s, c) && s.persisted != ""
    ensures Completes(show, c, s, Returned(s, Some(s.persisted), s.persisted))
  {
    var s1 := At(s, c, Locked).(mutex := Some(c));
    var s2 := At(s1, c, Loaded(s.persisted));
    var s3 := Leave(s2, c, Some(s.persisted));
    assert s3.phase == s.phase;
    assert CallPath(show, c, [s, s1, s2, s3]);
  }

  lemma CallGenerates(show: Printer, s: World, c: nat, random: Bytes)
    requires MayCall(s, c) && s.persisted == "" && |random| == 5
    ensures var p := show(ULA(random)); Completes(show, c, s, Returned(s, Some(p), p))
  {
    var p := show(ULA(random));
    var s1 := At(s, c, Locked).(mutex := Some(c));
    var s2 := At(s1, c, Loaded(""));
    var s3 := At(s2, c, Generated(p));
    var s4 := Leave(s3, c, Some(p)).(persisted := p);
    assert s4.phase == s.phase;
    assert Step(show, s2, c, s3);
    assert CallPath(show, c, [s, s1, s2, s3, s4]);
  }

  /** The saved host state, replaced as a whole by a rename. */
  class HostState {
    var prefix: string

    method Load() returns (loaded: Option<string>)
      ensures loaded.Some? ==> loaded.value == prefix
    {
      var ok: bool := *;
      return if ok then Some(prefix) else None;
    }

    method Save(p: string) returns (ok: bool)
      modifies this
      ensures prefix == if ok then p else old(prefix)
    {
      ok := *;
      if ok {
        prefix := p;
      }
    }

    /** crypto/rand: any bytes, or an error. */
    method RandomGlobalID() returns (random: Option<Bytes>)
      ensures random.Some? ==> |random.value| == 5
    {
      assert |Zeros(5)| == 5;
      var b: Bytes :| |b| == 5;
      var ok: bool := *;
      return if ok then Some(b) else None;
    }

    /** EnsurePrefix, while it holds the mutex: whatever its outcome, the steps
        of a call lead there. */
    method EnsurePrefix(show: Printer) returns (result: Option<string>)
      modifies this
      ensures result.Some? ==> result.value == prefix
      ensures result.None? || old(prefix) != "" ==> prefix == old(prefix)
      ensures result.Some? && old(prefix) == "" ==> exists random: Bytes ::
                |random| == 5 && prefix == show([0xfd] + random + [0, 0, 0, 0, 0, 0, 0, 0, 0, 0])
      ensures forall s, c :: MayCall(s, c) && s.persisted == old(prefix) ==> Completes(show, c, s, Returned(s, result, prefix))
    {
      hide Completes, MayCall;
      var hs := Load();
      if hs.None? {
        forall s, c | MayCall(s, c) { CallFails(show, s, c); }
        return None;
      }
      if hs.value != "" {
        forall s, c | MayCall(s, c) && s.persisted == prefix { CallReturns(show, s, c); }
        return hs;
      }
      var random := RandomGlobalID();
      if random.None? {
        forall s, c | MayCall(s, c) { CallFails(show, s, c); }
        return None;
      }
      var a := GenerateULA(random.value);
      ULAIsULA64(random.value, a);
      var saved := Save(show(a));
      if !saved {
        forall s, c | MayCall(s, c) { CallFails(show, s, c); }
        return None;
      }
      forall s, c | MayCall(s, c) && s.persisted == "" { CallGenerates(show, s, c, random.value); }
      return Some(show(a));
    }
  }

  /** The printed form of some generated ULA prefix. */
  ghost predicate FromULA(show: Printer, prefix: string) {
    exists random: Bytes :: |random| == 5 && prefix == show(ULA(random))
  }

  ghost predicate Inv(show: Printer, s: World) {
    && (forall c :: c in s.phase && s.phase[c] != Start ==> s.mutex == Some(c))
    && (forall c :: c in s.phase && s.phase[c].Loaded? ==> s.phase[c].prefix == s.persisted)
    && (forall c :: c in s.phase && s.phase[c].Generated? ==> s.persisted == "" && FromULA(show, s.phase[c].prefix))
    && (forall r :: r in s.results ==> r == s.persisted && r != "")
  }

  lemma InvStep(show: Printer, s: World, s': World)
    requires PrintsSomething(show) && Inv(show, s) && Next(show, s, s')
    ensures Inv(show, s')
    ensures s.persisted != "" ==> s'.persisted == s.persisted
    ensures s'.persisted == s.persisted || FromULA(show, s'.persisted)
  {
  }

  lemma {:induction false} InvAlways(show: Printer, run: seq<World>, i: nat)
    requires PrintsSomething(show) && Execution(show, run) && i < |run|
    ensures Inv(show, run[i])
  {
    hide Inv, Next, FromULA;
    if i == 0 {
      InitInv(show, run[0]);
    } else {
      InvAlways(show, run, i - 1);
      assert Next(show, run[i - 1], run[i - 1 + 1]);
      InvStep(show, run[i - 1], run[i]);
    }
  }

  lemma InitInv(show: Printer, s: World)
    requires Init(s)
    ensures Inv(show, s)
  {
  }

  /** Once set, the persisted prefix never changes; a value it takes during the
      run is a generated ULA prefix. */
  lemma {:induction false} PersistedForGood(show: Printer, run: seq<World>, i: nat, j: nat)
    requires PrintsSomething(show) && Execution(show, run) && i <= j < |run|
    ensures run[i].persisted != "" ==> run[j].persisted == run[i].persisted
    ensures run[j].persisted == run[i].persisted || FromULA(show, run[j].persisted)
    decreases j
  {
    hide Inv, Next, FromULA;
    if i == j {
    } else {
      PersistedForGood(show, run, i, j - 1);
      InvAlways(show, run, j - 1);
      assert Next(show, run[j - 1], run[j - 1 + 1]);
      InvStep(show, run[j - 1], run[j]);
    }
  }

  /** Under any interleaving of callers and any failures, all successful calls
      ever made return the same prefix, and it is the persisted one. */
  lemma OnePrefix(show: Printer, run: seq<World>, i: nat, j: nat, p: string, q: string)
    requires PrintsSomething(show) && Execution(show, run) && i <= j < |run|
    requires p in run[i].results && q in run[j].results
    ensures p == q == run[j].persisted
  {
    InvAlways(show, run, i);
    InvAlways(show, run, j);
    PersistedForGood(show, run, i, j);
  }
}
