/** The daemon's links: bringing a stack's taps to the state their specs ask for. */
module Taps {
  import opened Common

  datatype TapSpec = TapSpec(name: string, bridge: string, owner: int, group: int, multiQueue: bool)

  /** A tap with the owner, group and queue flag the kernel holds, or some other link. */
  datatype Kind = Tap(owner: nat, group: nat, multiQueue: bool) | Other

  /** `id` is the link's identity (its index): a recreated link has a new one. */
  datatype Link = Link(id: nat, kind: Kind, master: Option<nat>, up: bool)

  type Links = map<string, Link>

  function U32(n: int): nat { n % 0x1_0000_0000 }

  /** tapLink. */
  function TapKind(spec: TapSpec): Kind {
    Tap(U32(spec.owner), U32(spec.group), spec.multiQueue)
  }

  /** tapNeedsRecreate, and a link of that name that is no tap at all. */
  predicate NeedsRecreate(spec: TapSpec, kind: Kind) {
    kind.Other? || kind.owner != U32(spec.owner) || kind.group != U32(spec.group) || kind.multiQueue != spec.multiQueue
  }

  lemma RecreateUnlessRight(spec: TapSpec, kind: Kind)
    ensures NeedsRecreate(spec, kind) <==> kind != TapKind(spec)
  {
  }

  /** The kernel has 32 bits for an id: a negative number wraps to the top. */
  lemma IdsAreKept(spec: TapSpec)
    requires -0x8000_0000 <= spec.owner < 0x1_0000_0000 && -0x8000_0000 <= spec.group < 0x1_0000_0000
    ensures TapKind(spec) == Tap(if spec.owner >= 0 then spec.owner else spec.owner + 0x1_0000_0000,
                                 if spec.group >= 0 then spec.group else spec.group + 0x1_0000_0000, spec.multiQueue)
  {
  }

  ghost predicate UniqueIds(links: Links, next: nat) {
    && (forall n :: n in links ==> links[n].id < next)
    && (forall n, m :: n in links && m in links && links[n].id == links[m].id ==> n == m)
  }

  /** Deleting a link releases the links enslaved to it. */
  function Release(l: Link, id: nat): Link {
    if l.master == Some(id) then l.(master := None) else l
  }

  function Deleted(links: Links, name: string): Links
    requires name in links
  {
    map n | n in links && n != name :: Release(links[n], links[name].id)
  }

  predicate Correct(links: Links, spec: TapSpec) {
    && spec.name in links && spec.bridge in links
    && links[spec.name].kind == TapKind(spec)
    && links[spec.name].master == Some(links[spec.bridge].id)
    && links[spec.name].up
  }

  ghost predicate DistinctNames(taps: seq<TapSpec>) {
    forall i, j :: 0 <= i < j < |taps| ==> taps[i].name != taps[j].name
  }

  function Names(taps: seq<TapSpec>): set<string> {
    set t | t in taps :: t.name
  }

  function Bridges(taps: seq<TapSpec>): set<string> {
    set t | t in taps :: t.bridge
  }

  /** The links of the host and the next identity to give out. */
  datatype Net = Net(links: Links, next: nat) {
    ghost predicate Valid() {
      UniqueIds(links, next)
    }
  }

  // ---- specification of one call ----

  function Added(net: Net, spec: TapSpec): Net {
    Net(net.links[spec.name := Link(net.next, TapKind(spec), None, false)], net.next + 1)
  }

  /** The tap exists with the right kind: kept, created, or deleted and created. */
  function WithTap(net: Net, spec: TapSpec): Net {
    if spec.name !in net.links then Added(net, spec)
    else if NeedsRecreate(spec, net.links[spec.name].kind) then Added(Net(Deleted(net.links, spec.name), net.next), spec)
    else net
  }

  function Enslaved(links: Links, spec: TapSpec): Links
    requires spec.name in links && spec.bridge in links
  {
    links[spec.name := links[spec.name].(master := Some(links[spec.bridge].id), up := true)]
  }

  function EnsureOne(net: Net, spec: TapSpec): (Net, bool) {
    var net' := WithTap(net, spec);
    if spec.bridge in net'.links then (Net(Enslaved(net'.links, spec), net'.next), true) else (net', false)
  }

  /** Taps in order, up to the first error. */
  function EnsureAll(net: Net, taps: seq<TapSpec>): (Net, bool) {
    if taps == [] then (net, true)
    else
      var r := EnsureAll(net, taps[..|taps| - 1]);
      if r.1 then EnsureOne(r.0, taps[|taps| - 1]) else r
  }

  // ---- the daemon's code ----

  class Host {
    var links: Links
    var next: nat

    function Contents(): Net
      reads this
    {
      Net(links, next)
    }

    method LinkAdd(spec: TapSpec)
      modifies this
      ensures Contents() == Added(old(Contents()), spec)
    {
      links := links[spec.name := Link(next, TapKind(spec), None, false)];
      next := next + 1;
    }

    method LinkDel(name: string)
      requires name in links
      modifies this`links
      ensures links == Deleted(old(links), name)
    {
      links := Deleted(links, name);
    }

    method EnsureTaps(taps: seq<TapSpec>) returns (ok: bool)
      modifies this
      ensures (Contents(), ok) == EnsureAll(old(Contents()), taps)
    {
      ghost var start := Contents();
      for i := 0 to |taps|
        invariant (Contents(), true) == EnsureAll(start, taps[..i])
      {
        var spec := taps[i];
        assert taps[..i + 1][..i] == taps[..i];
        if spec.name !in links {
          LinkAdd(spec);
        } else if NeedsRecreate(spec, links[spec.name].kind) {
          LinkDel(spec.name);
          LinkAdd(spec);
        }
        if spec.bridge !in links {
          ErrorStays(start, taps, i + 1);
          return false;
        }
        links := Enslaved(links, spec);
      }
      assert taps[..|taps|] == taps;
      return true;
    }
  }

  lemma {:induction false} ErrorStays(net: Net, taps: seq<TapSpec>, k: nat)
    requires k <= |taps| && !EnsureAll(net, taps[..k]).1
    ensures EnsureAll(net, taps) == EnsureAll(net, taps[..k])
    decreases |taps| - k
  {
    if k < |taps| {
      assert taps[..k + 1][..k] == taps[..k];
      ErrorStays(net, taps, k + 1);
    } else {
      assert taps[..k] == taps;
    }
  }

  // ---- convergence ----

  /** Links outside the named set are as they were, except that one enslaved to
      a named link may have been released when that link was recreated. */
  ghost predicate Untouched(was: Links, now: Links, names: set<string>) {
    forall n :: n in was && n !in names ==>
      && n in now
      && (now[n] == was[n] || (now[n] == was[n].(master := None) && EnslavedToNamed(was, was[n], names)))
  }

  ghost predicate EnslavedToNamed(links: Links, l: Link, names: set<string>) {
    exists m :: m in links && m in names && l.master == Some(links[m].id)
  }

  /** What keeping, creating or recreating one tap does to the links. */
  ghost predicate TapBuilt(before: Net, after: Net, spec: TapSpec) {
    && after.Valid()
    && after.links.Keys == before.links.Keys + {spec.name}
    && after.links[spec.name].kind == TapKind(spec)
    && (forall n :: n in before.links && n != spec.name ==>
          after.links[n] == before.links[n] ||
          (spec.name in before.links && after.links[n] == Release(before.links[n], before.links[spec.name].id)))
    && (spec.name in before.links && before.links[spec.name].kind == TapKind(spec) ==>
          after.links[spec.name].id == before.links[spec.name].id)
  }

  /** What setting up one tap does to the links. */
  ghost predicate OneTap(before: Net, after: Net, spec: TapSpec) {
    TapBuilt(before, after, spec) && Correct(after.links, spec)
  }

  /** The tap's link after it has been kept, created or recreated. */
  lemma WithTapIs(net: Net, spec: TapSpec)
    requires net.Valid()
    ensures TapBuilt(net, WithTap(net, spec), spec)
  {
    if spec.name in net.links {
      RecreateUnlessRight(spec, net.links[spec.name].kind);
    }
  }

  lemma EnsureOneIs(net: Net, spec: TapSpec)
    requires net.Valid() && spec.name != spec.bridge
    ensures EnsureOne(net, spec).1 <==> spec.bridge in net.links
    ensures if EnsureOne(net, spec).1 then OneTap(net, EnsureOne(net, spec).0, spec) else TapBuilt(net, EnsureOne(net, spec).0, spec)
  {
    hide WithTap, NeedsRecreate, Release;
    WithTapIs(net, spec);
  }

  /** One tap, written out. A tap with the requested owner, group and queue flag
      stays the link it is; any other link of its name is replaced by a new one,
      and its slaves are released. Then the tap is enslaved and up, if its bridge
      exists. Nothing else changes. */
  lemma OneTapExactly(net: Net, spec: TapSpec)
    requires net.Valid() && spec.name != spec.bridge
    requires 0 <= spec.owner < 0x1_0000_0000 && 0 <= spec.group < 0x1_0000_0000
    ensures var was, now, ok := net.links, EnsureOne(net, spec).0.links, EnsureOne(net, spec).1;
            var kind := Tap(spec.owner, spec.group, spec.multiQueue);
            var kept := spec.name in was && was[spec.name].kind == kind;
            && (ok <==> spec.bridge in was)
            && now.Keys == was.Keys + {spec.name}
            && now[spec.name].kind == kind
            && now[spec.name].id == (if kept then was[spec.name].id else net.next)
            && now[spec.name].master == (if ok then Some(was[spec.bridge].id) else if kept then was[spec.name].master else None)
            && (now[spec.name].up <==> ok || (kept && was[spec.name].up))
            && forall n :: n in was && n != spec.name ==>
                 now[n] == if spec.name in was && !kept && was[n].master == Some(was[spec.name].id) then was[n].(master := None)
                           else was[n]
  {
  }

  /** A set-up tap has the requested owner and group themselves. */
  lemma CorrectIs(links: Links, spec: TapSpec)
    requires 0 <= spec.owner < 0x1_0000_0000 && 0 <= spec.group < 0x1_0000_0000
    ensures Correct(links, spec) <==>
            && spec.name in links && spec.bridge in links
            && links[spec.name].kind == Tap(spec.owner, spec.group, spec.multiQueue)
            && links[spec.name].master == Some(links[spec.bridge].id) && links[spec.name].up
  {
  }

  lemma UntouchedStep(start: Links, before: Net, after: Net, names: set<string>, spec: TapSpec)
    requires Untouched(start, before.links, names) && TapBuilt(before, after, spec) && spec.name in names
    requires spec.name in start ==> spec.name in before.links && before.links[spec.name].id == start[spec.name].id
    requires spec.name in before.links ==> spec.name in start
    ensures Untouched(start, after.links, names)
  {
    forall n | n in start && n !in names
      ensures n in after.links
      ensures after.links[n] == start[n] || (after.links[n] == start[n].(master := None) && EnslavedToNamed(start, start[n], names))
    {
      if before.links[n] == start[n] && after.links[n] != before.links[n] {
        assert start[n].master == Some(start[spec.name].id);
      }
    }
  }

  /** Taps already set up stay set up: they are enslaved to bridges, which are
      never among the named links. */
  lemma CorrectStep(before: Net, after: Net, t: TapSpec, spec: TapSpec)
    requires before.Valid() && TapBuilt(before, after, spec)
    requires Correct(before.links, t) && t.name != spec.name && t.bridge != spec.name
    ensures Correct(after.links, t) && after.links[t.name] == before.links[t.name]
  {
    if spec.name in before.links {
      assert before.links[spec.name].id != before.links[t.bridge].id;
    }
  }

  ghost predicate Separate(taps: seq<TapSpec>) {
    DistinctNames(taps) && Names(taps) !! Bridges(taps)
  }

  /** After some of the taps, of which the `right` ones are completely set up:
      the other links unchanged. */
  ghost predicate Progressed(start: Net, now: Net, done: seq<TapSpec>, right: seq<TapSpec>, names: set<string>) {
    && now.Valid()
    && now.links.Keys == start.links.Keys + Names(done)
    && (forall t :: t in right ==> Correct(now.links, t))
    && Untouched(start.links, now.links, names)
    && (forall n :: n in start.links && n !in Names(done) ==>
          now.links[n].id == start.links[n].id && now.links[n].kind == start.links[n].kind)
    && (forall t :: t in done ==>
          now.links[t.name].kind == TapKind(t) &&
          (t.name in start.links && start.links[t.name].kind == TapKind(t) ==> now.links[t.name].id == start.links[t.name].id))
  }

  ghost predicate Converged(start: Net, now: Net, done: seq<TapSpec>, names: set<string>) {
    Progressed(start, now, done, done, names)
  }

  /** Stopped at the first missing bridge, after k taps: those are set up, the
      next one has its kind but is not enslaved, the later ones are untouched. */
  ghost predicate StoppedAt(start: Net, now: Net, taps: seq<TapSpec>, k: nat, names: set<string>) {
    && k < |taps| && taps[k].bridge !in start.links && (forall i :: 0 <= i < k ==> taps[i].bridge in start.links)
    && Progressed(start, now, taps[..k + 1], taps[..k], names)
  }

  lemma NamesSnoc(init: seq<TapSpec>, spec: TapSpec)
    ensures Names(init + [spec]) == Names(init) + {spec.name}
    ensures Bridges(init + [spec]) == Bridges(init) + {spec.bridge}
  {
    assert forall t :: t in init + [spec] <==> t in init || t == spec;
  }

  lemma SeparateLast(init: seq<TapSpec>, spec: TapSpec)
    requires Separate(init + [spec])
    ensures Separate(init) && spec.name !in Names(init) && spec.name != spec.bridge
    ensures forall t :: t in init ==> t.name != spec.name && t.bridge != spec.name
  {
    var taps := init + [spec];
    NamesSnoc(init, spec);
    assert taps[|init|] == spec && forall i :: 0 <= i < |init| ==> init[i] == taps[i];
    assert spec.name in Names(taps);
    forall t | t in init ensures t.name != spec.name && t.bridge != spec.name {
      assert t.bridge in Bridges(init);
    }
  }

  /** One more tap built; it may not be enslaved yet. */
  lemma ProgressedStep(start: Net, now: Net, done: seq<TapSpec>, spec: TapSpec, names: set<string>, after: Net)
    requires Converged(start, now, done, names) && TapBuilt(now, after, spec)
    requires spec.name in names && spec.name !in Names(done)
    requires forall t :: t in done ==> t.name != spec.name && t.bridge != spec.name
    ensures Progressed(start, after, done + [spec], done, names)
  {
    hide Names, Release;
    hide Correct, Untouched;
    UntouchedStep(start.links, now, after, names, spec);
    forall t | t in done
      ensures Correct(after.links, t) && t.name in now.links && t.name in after.links && after.links[t.name] == now.links[t.name]
    {
      CorrectStep(now, after, t, spec);
      NamedByCorrect(now.links, t);
      NamedByCorrect(after.links, t);
    }
    NamesSnoc(done, spec);
    ReleasesKeepIdentity(now, after, spec);
  }

  lemma ConvergedStep(start: Net, now: Net, done: seq<TapSpec>, spec: TapSpec, names: set<string>, after: Net)
    requires Converged(start, now, done, names) && OneTap(now, after, spec)
    requires spec.name in names && spec.name !in Names(done)
    requires forall t :: t in done ==> t.name != spec.name && t.bridge != spec.name
    ensures Converged(start, after, done + [spec], names)
  {
    hide Names, TapBuilt, Correct, Untouched;
    ProgressedStep(start, now, done, spec, names, after);
  }

  lemma NamedByCorrect(links: Links, t: TapSpec)
    requires Correct(links, t)
    ensures t.name in links && t.bridge in links
  {
  }

  lemma ReleasesKeepIdentity(before: Net, after: Net, spec: TapSpec)
    requires TapBuilt(before, after, spec)
    ensures forall n :: n in before.links && n != spec.name ==>
              after.links[n].id == before.links[n].id && after.links[n].kind == before.links[n].kind
  {
  }

  lemma ConvergedNothing(net: Net, names: set<string>)
    requires net.Valid()
    ensures Converged(net, net, [], names)
  {
  }

  lemma ConvergedKeys(start: Net, now: Net, done: seq<TapSpec>, names: set<string>)
    requires Converged(start, now, done, names)
    ensures now.Valid() && now.links.Keys == start.links.Keys + Names(done)
  {
  }

  lemma StoppedLater(start: Net, now: Net, init: seq<TapSpec>, spec: TapSpec, k: nat, names: set<string>)
    requires StoppedAt(start, now, init, k, names)
    ensures StoppedAt(start, now, init + [spec], k, names)
  {
    hide Progressed;
    var taps := init + [spec];
    assert taps[..k + 1] == init[..k + 1] && taps[..k] == init[..k];
  }

  lemma StoppedHere(start: Net, now: Net, init: seq<TapSpec>, spec: TapSpec, names: set<string>)
    requires Progressed(start, now, init + [spec], init, names)
    requires spec.bridge !in start.links && Bridges(init) <= start.links.Keys
    ensures StoppedAt(start, now, init + [spec], |init|, names)
  {
    hide Progressed;
    var taps := init + [spec];
    assert taps[..|init| + 1] == taps && taps[..|init|] == init;
    assert forall i :: 0 <= i < |init| ==> init[i].bridge in Bridges(init);
  }

  /** EnsureTaps converges: on pairwise distinct tap names that are not bridges,
      it succeeds exactly when every bridge exists, and then every named tap has
      the requested owner, group and queue flag and is up and enslaved to its
      bridge, other links are untouched, and taps that were right keep their
      identity. Otherwise the same holds of the taps before the first missing
      bridge. */
  lemma {:induction false} EnsureConverges(net: Net, taps: seq<TapSpec>, names: set<string>)
    requires net.Valid() && Separate(taps) && Names(taps) <= names && Bridges(taps) !! names
    ensures EnsureAll(net, taps).1 <==> Bridges(taps) <= net.links.Keys
    ensures EnsureAll(net, taps).1 ==> Converged(net, EnsureAll(net, taps).0, taps, names)
    ensures !EnsureAll(net, taps).1 ==> exists k :: StoppedAt(net, EnsureAll(net, taps).0, taps, k, names)
  {
    hide Converged, OneTap, TapBuilt, EnsureOne, StoppedAt, Progressed;
    if taps == [] {
      ConvergedNothing(net, names);
    } else {
      var init, spec := taps[..|taps| - 1], taps[|taps| - 1];
      assert init + [spec] == taps;
      NamesSnoc(init, spec);
      SeparateLast(init, spec);
      EnsureConverges(net, init, names);
      var r := EnsureAll(net, init);
      if !r.1 {
        var k :| StoppedAt(net, r.0, init, k, names);
        StoppedLater(net, r.0, init, spec, k, names);
      } else {
        ConvergedKeys(net, r.0, init, names);
        EnsureOneIs(r.0, spec);
        assert spec.bridge in Bridges(taps) && spec.name in Names(taps);
        var now := EnsureOne(r.0, spec).0;
        if spec.bridge in net.links {
          ConvergedStep(net, r.0, init, spec, names, now);
        } else {
          ProgressedStep(net, r.0, init, spec, names, now);
          StoppedHere(net, now, init, spec, names);
        }
      }
    }
  }

  /** A link no spec names is the same link after any call, successful or not:
      at most it is released, and not from a link that no spec names either. */
  ghost predicate KeptLink(was: Links, now: Links, names: set<string>, n: string)
    requires n in was
  {
    && n in now
    && (now[n] == was[n] || now[n] == was[n].(master := None))
    && (forall b :: b in was && b !in names && was[n].master == Some(was[b].id) ==> now[n] == was[n])
  }

  ghost predicate KeptLinks(was: Links, now: Links, names: set<string>) {
    forall n :: n in was && n !in names ==> KeptLink(was, now, names, n)
  }

  lemma KeptStep(was: Links, before: Net, after: Net, names: set<string>, spec: TapSpec)
    requires KeptLinks(was, before.links, names) && before.Valid() && spec.name in names
    requires forall n :: n in before.links && n != spec.name ==>
               n in after.links &&
               (after.links[n] == before.links[n] ||
                (spec.name in before.links && after.links[n] == Release(before.links[n], before.links[spec.name].id)))
    ensures KeptLinks(was, after.links, names)
  {
    forall n | n in was && n !in names ensures KeptLink(was, after.links, names, n) {
      assert KeptLink(was, before.links, names, n);
      forall b | b in was && b !in names && was[n].master == Some(was[b].id) ensures after.links[n] == was[n] {
        assert KeptLink(was, before.links, names, b);
        assert spec.name in before.links ==> before.links[spec.name].id != before.links[b].id;
      }
    }
  }

  lemma KeptOne(was: Links, net: Net, names: set<string>, spec: TapSpec)
    requires net.Valid() && KeptLinks(was, net.links, names) && spec.name in names
    ensures EnsureOne(net, spec).0.Valid() && KeptLinks(was, EnsureOne(net, spec).0.links, names)
  {
    hide KeptLinks, WithTap;
    WithTapIs(net, spec);
    var built := WithTap(net, spec);
    KeptStep(was, net, built, names, spec);
    if spec.bridge in built.links {
      KeptStep(was, built, EnsureOne(net, spec).0, names, spec);
    }
  }

  /** Whatever the specs and whether or not it succeeds, a call neither deletes
      nor recreates a link that no spec names. */
  lemma {:induction false} OthersKept(net: Net, taps: seq<TapSpec>, names: set<string>)
    requires net.Valid() && Names(taps) <= names
    ensures EnsureAll(net, taps).0.Valid() && KeptLinks(net.links, EnsureAll(net, taps).0.links, names)
  {
    hide KeptLinks, EnsureOne;
    if taps == [] {
      NothingKept(net.links, names);
    } else {
      var init, spec := taps[..|taps| - 1], taps[|taps| - 1];
      assert init + [spec] == taps;
      NamesSnoc(init, spec);
      OthersKept(net, init, names);
      var r := EnsureAll(net, init);
      if r.1 { KeptOne(net.links, r.0, names, spec); }
    }
  }

  lemma NothingKept(links: Links, names: set<string>)
    ensures KeptLinks(links, links, names)
  {
  }

  lemma {:induction false} CorrectIsStable(net: Net, taps: seq<TapSpec>)
    requires forall t :: t in taps ==> Correct(net.links, t)
    ensures EnsureAll(net, taps) == (net, true)
  {
    if taps == [] {
    } else {
      var spec := taps[|taps| - 1];
      CorrectIsStable(net, taps[..|taps| - 1]);
      assert spec in taps;
      RecreateUnlessRight(spec, net.links[spec.name].kind);
      assert Enslaved(net.links, spec) == net.links;
    }
  }

  /** A second call changes nothing, so it recreates nothing. */
  lemma SecondCallIsNoOp(net: Net, taps: seq<TapSpec>)
    requires net.Valid() && Separate(taps) && EnsureAll(net, taps).1
    ensures EnsureAll(EnsureAll(net, taps).0, taps) == EnsureAll(net, taps)
  {
    EnsureConverges(net, taps, Names(taps));
    CorrectIsStable(EnsureAll(net, taps).0, taps);
  }
}
