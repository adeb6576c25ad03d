/** Which links a stack owns on the host, and which names its state records,
    over any sequence of commands. */
module Devices {
  import opened Common
  import opened DeviceNames
  import opened Sorting
  import opened StartLoop
  import Assignments
  import Taps

  /** The rendered stack: each service's networks. */
  datatype Stack = Stack(name: string, services: map<string, seq<string>>)

  datatype Store = Store(stack: string, networks: seq<string>, services: map<string, ServiceState>, provisioned: seq<string>)

  // ---- device names as sets ----

  function TapsOf(h: Hash, stack: string, attached: map<string, seq<string>>, chosen: set<string>): set<string> {
    set s, n | s in attached && s in chosen && n in attached[s] :: TapID(h, stack, s, n)
  }

  predicate AnyAttached(attached: map<string, seq<string>>, chosen: set<string>) {
    exists s :: s in attached && s in chosen && attached[s] != []
  }

  function Networks(services: map<string, ServiceState>): map<string, seq<string>> {
    map s | s in services :: services[s].networks
  }

  function BridgeIf(h: Hash, stack: string, wanted: bool): set<string> {
    if wanted then {BridgeName(h, stack)} else {}
  }

  /** provisionedDeviceNames. */
  function UpNames(h: Hash, st: Stack, selected: set<string>): set<string> {
    BridgeIf(h, st.name, AnyAttached(st.services, st.services.Keys)) + TapsOf(h, st.name, st.services, selected)
  }

  /** The bridge and taps of the chosen services. */
  function Attachments(h: Hash, stack: string, attached: map<string, seq<string>>, chosen: set<string>): set<string> {
    BridgeIf(h, stack, AnyAttached(attached, chosen)) + TapsOf(h, stack, attached, chosen)
  }

  /** storeDeviceNames: the bridge if any network is recorded, and every recorded tap. */
  function StoreNames(h: Hash, stack: string, store: Store): set<string> {
    BridgeIf(h, stack, store.networks != []) + TapsOf(h, stack, Networks(store.services), store.services.Keys)
  }

  /** retainedDeviceNames: what services outside the selection attach to, in the
      configuration or in the state. */
  function Retained(h: Hash, st: Stack, store: Store, selected: set<string>): set<string> {
    Attachments(h, st.name, st.services, st.services.Keys - selected) +
    Attachments(h, st.name, Networks(store.services), store.services.Keys - selected)
  }

  /** netSpecsForTeardown asks for the bridge only if nothing outside the
      selection is attached and something is. */
  predicate TeardownBridge(st: Stack, selected: set<string>) {
    !AnyAttached(st.services, st.services.Keys - selected) && AnyAttached(st.services, st.services.Keys)
  }

  function DownPlanned(h: Hash, st: Stack, selected: set<string>): set<string> {
    BridgeIf(h, st.name, TeardownBridge(st, selected)) + TapsOf(h, st.name, st.services, selected)
  }

  /** stackDeviceNames and everything recorded. */
  function DownCandidates(h: Hash, st: Stack, store: Store): set<string> {
    UpNames(h, st, st.services.Keys) + StoreNames(h, st.name, store) + Items(store.provisioned)
  }

  function DownOrphans(h: Hash, st: Stack, store: Store, selected: set<string>): set<string> {
    DownCandidates(h, st, store) - {""} - DownPlanned(h, st, selected) - Retained(h, st, store, selected)
  }

  /** aliveDeviceNames: what a service with a pid, or with an answering API
      socket, is attached to. */
  function Alive(store: Store, answering: set<string>): set<string> {
    set s | s in store.services && (store.services[s].pid > 0 || s in answering)
  }

  function KeptByPurge(h: Hash, stack: string, st: Option<Stack>, store: Store, answering: set<string>): set<string> {
    (if st.Some? then UpNames(h, st.value, st.value.services.Keys) else {}) +
    Attachments(h, stack, Networks(store.services), Alive(store, answering))
  }

  function PurgeOrphans(h: Hash, stack: string, st: Option<Stack>, store: Store, answering: set<string>): set<string> {
    Items(store.provisioned) + StoreNames(h, stack, store) - {""} - KeptByPurge(h, stack, st, store, answering)
  }

  // ---- the lifecycle's loops ----

  lemma ItemsConcat(s: seq<string>, t: seq<string>)
    ensures Items(s + t) == Items(s) + Items(t)
  {
  }

  lemma ItemsSnoc(s: seq<string>, x: string)
    ensures Items(s + [x]) == Items(s) + {x}
  {
  }

  /** The names not in a set, and those in it, as the planning loops filter them. */
  method Outside(names: seq<string>, drop: set<string>) returns (out: seq<string>)
    ensures Items(out) == Items(names) - drop
  {
    out := [];
    for i := 0 to |names|
      invariant Items(out) == Items(names[..i]) - drop
    {
      assert names[..i + 1] == names[..i] + [names[i]];
      ItemsSnoc(names[..i], names[i]);
      if names[i] !in drop {
        ItemsSnoc(out, names[i]);
        out := out + [names[i]];
      }
    }
    assert names[..|names|] == names;
  }

  method Within(names: seq<string>, keep: set<string>) returns (out: seq<string>)
    ensures Items(out) == Items(names) * keep
  {
    out := [];
    for i := 0 to |names|
      invariant Items(out) == Items(names[..i]) * keep
    {
      assert names[..i + 1] == names[..i] + [names[i]];
      ItemsSnoc(names[..i], names[i]);
      if names[i] in keep {
        ItemsSnoc(out, names[i]);
        out := out + [names[i]];
      }
    }
    assert names[..|names|] == names;
  }

  /** dedupeNames: each name once, "" never, sorted. */
  method DedupeNames(names: seq<string>) returns (sorted: seq<string>)
    ensures Sorted(CharsLess, sorted) && Distinct(sorted) && Items(sorted) == Items(names) - {""}
  {
    hide Sorted, SortBy;
    var seen: set<string> := {};
    var out: seq<string> := [];
    for i := 0 to |names|
      invariant seen == Items(out) == Items(names[..i]) - {""} && Distinct(out)
    {
      assert names[..i + 1] == names[..i] + [names[i]];
      ItemsSnoc(names[..i], names[i]);
      if names[i] != "" && names[i] !in seen {
        ItemsSnoc(out, names[i]);
        seen := seen + {names[i]};
        out := out + [names[i]];
      }
    }
    assert names[..|names|] == names;
    SortKeeps(out);
    return SortBy(CharsLess, out);
  }

  /** The taps, and whether there is an attachment, of the chosen services: the
      loop that tapSpecs, retainedDeviceNames, aliveDeviceNames and
      storeDeviceNames share. */
  method CollectTaps(h: Hash, stack: string, attached: map<string, seq<string>>, chosen: set<string>)
    returns (names: seq<string>, any: bool)
    ensures Items(names) == TapsOf(h, stack, attached, chosen)
    ensures any <==> AnyAttached(attached, chosen)
  {
    hide TapID;
    names, any := [], false;
    var rest := attached.Keys;
    ghost var done: set<string> := {};
    while rest != {}
      invariant rest + done == attached.Keys && rest !! done
      invariant Items(names) == TapsOf(h, stack, attached, chosen * done)
      invariant any <==> AnyAttached(attached, chosen * done)
      decreases rest
    {
      var s :| s in rest;
      rest := rest - {s};
      ghost var before := names;
      if s in chosen {
        var nets := attached[s];
        if |nets| > 0 {
          any := true;
        }
        for i := 0 to |nets|
          invariant Items(names) == Items(before) + set n | n in nets[..i] :: TapID(h, stack, s, n)
        {
          assert nets[..i + 1] == nets[..i] + [nets[i]];
          ItemsSnoc(names, TapID(h, stack, s, nets[i]));
          names := names + [TapID(h, stack, s, nets[i])];
        }
        assert nets[..|nets|] == nets;
      }
      TapsOfOneMore(h, stack, attached, chosen, done, s);
      done := done + {s};
    }
    assert done == attached.Keys;
    assert TapsOf(h, stack, attached, chosen * done) == TapsOf(h, stack, attached, chosen);
  }

  lemma TapsOfOneMore(h: Hash, stack: string, attached: map<string, seq<string>>, chosen: set<string>, done: set<string>, s: string)
    requires s in attached
    ensures TapsOf(h, stack, attached, chosen * (done + {s})) ==
            TapsOf(h, stack, attached, chosen * done) + (if s in chosen then set n | n in attached[s] :: TapID(h, stack, s, n) else {})
    ensures AnyAttached(attached, chosen * (done + {s})) <==> AnyAttached(attached, chosen * done) || (s in chosen && attached[s] != [])
  {
    hide TapID;
    if AnyAttached(attached, chosen * done) {
      var t :| t in attached && t in chosen * done && attached[t] != [];
      assert t in chosen * (done + {s});
    }
    if s in chosen && attached[s] != [] {
      assert s in chosen * (done + {s});
    }
  }

  /** The bridge in front of the taps, if there is an attachment. */
  method WithBridge(taps: seq<string>, wanted: bool, bridge: string) returns (names: seq<string>)
    ensures Items(names) == (if wanted then {bridge} else {}) + Items(taps)
  {
    names := if wanted then [bridge] + taps else taps;
  }

  lemma TeardownBridgeIs(st: Stack, selected: seq<string>)
    ensures TeardownBridge(st, Items(selected)) <==>
            (exists s :: s in st.services && st.services[s] != []) && forall s :: s in st.services && st.services[s] != [] ==> s in selected
  {
  }

  /** downRun's planning: what it tears down by plan, what it sweeps, and what
      it records as still provisioned. */
  method DownPlan(h: Hash, st: Stack, store: Store, selected: seq<string>)
    returns (taps: seq<string>, bridge: bool, orphans: seq<string>, provisioned: seq<string>)
    ensures Items(taps) == TapsOf(h, st.name, st.services, Items(selected))
    ensures bridge <==> (exists s :: s in st.services && st.services[s] != []) &&
                        forall s :: s in st.services && st.services[s] != [] ==> s in selected
    ensures Items(orphans) == DownOrphans(h, st, store, Items(selected))
    ensures Items(provisioned) == Retained(h, st, store, Items(selected)) - {""}
  {
    hide TapsOf, AnyAttached, BridgeName, Items, Sorted, Distinct, Networks;
    var sel := Items(selected);
    var bridgeName := BridgeName(h, st.name);
    var anyOut, anyAll, anyStore;
    var planned, outConfig, outStore, allConfig, allStore;
    taps, bridge := CollectTaps(h, st.name, st.services, sel);
    outConfig, anyOut := CollectTaps(h, st.name, st.services, st.services.Keys - sel);
    allConfig, anyAll := CollectTaps(h, st.name, st.services, st.services.Keys);
    bridge := !anyOut && anyAll;
    TeardownBridgeIs(st, selected);
    planned := WithBridge(taps, bridge, bridgeName);
    outConfig := WithBridge(outConfig, anyOut, bridgeName);
    outStore, anyStore := CollectTaps(h, st.name, Networks(store.services), store.services.Keys - sel);
    outStore := WithBridge(outStore, anyStore, bridgeName);
    var retained := DedupeNames(outConfig + outStore);
    allConfig := WithBridge(allConfig, anyAll, bridgeName);
    allStore, anyStore := CollectTaps(h, st.name, Networks(store.services), store.services.Keys);
    allStore := WithBridge(allStore, |store.networks| > 0, bridgeName);
    var candidates := DedupeNames(allConfig + allStore + store.provisioned);
    ItemsConcat(outConfig, outStore);
    ItemsConcat(allConfig, allStore);
    ItemsConcat(allConfig + allStore, store.provisioned);
    assert Items(planned) == DownPlanned(h, st, sel);
    orphans := Outside(candidates, Items(planned) + Items(retained));
    provisioned := retained;
  }

  /** sweepOrphanedNetworkDevices: what it deletes and what stays recorded. */
  method SweepPlan(h: Hash, stack: string, st: Option<Stack>, store: Store, answering: set<string>)
    returns (orphans: seq<string>, provisioned: seq<string>)
    ensures Items(orphans) == PurgeOrphans(h, stack, st, store, answering)
    ensures Items(provisioned) == if orphans == [] then Items(store.provisioned)
                                  else Items(store.provisioned) * KeptByPurge(h, stack, st, store, answering)
  {
    hide TapsOf, AnyAttached, BridgeName, Items, Sorted, Distinct, Networks;
    var keep: seq<string> := [];
    NoItems();
    if st.Some? {
      var taps, any := CollectTaps(h, st.value.name, st.value.services, st.value.services.Keys);
      keep := WithBridge(taps, any, BridgeName(h, st.value.name));
    }
    var alive := set s | s in store.services && (store.services[s].pid > 0 || s in answering);
    var live, anyLive := CollectTaps(h, stack, Networks(store.services), alive);
    live := WithBridge(live, anyLive, BridgeName(h, stack));
    ItemsConcat(keep, live);
    keep := keep + live;
    var recorded, _ := CollectTaps(h, stack, Networks(store.services), store.services.Keys);
    recorded := WithBridge(recorded, |store.networks| > 0, BridgeName(h, stack));
    ItemsConcat(store.provisioned, recorded);
    var candidates := DedupeNames(store.provisioned + recorded);
    assert Items(keep) == KeptByPurge(h, stack, st, store, answering);
    orphans := Outside(candidates, Items(keep));
    if |orphans| == 0 {
      return orphans, store.provisioned;
    }
    provisioned := Within(store.provisioned, Items(keep));
  }

  // ---- the commands' effect on the recorded services ----

  function Stopped(svc: ServiceState): ServiceState {
    svc.(status := StartLoop.Stopped, pid := 0, virtiofsdPID := 0)
  }

  /** A recorded pid, or a process found by its socket. */
  function StopOne(svc: ServiceState, found: bool): ServiceState {
    if svc.pid > 0 || found then Stopped(svc) else svc
  }

  function StopAll(services: map<string, ServiceState>, found: set<string>): map<string, ServiceState> {
    map s | s in services :: StopOne(services[s], s in found)
  }

  /** A down stops the selected services, and forgets those whose volumes it
      removes or that the configuration has lost. */
  function AfterDown(services: map<string, ServiceState>, selected: set<string>, removeVolumes: bool): map<string, ServiceState> {
    map s | s in services && (s !in selected || !(removeVolumes || services[s].stale)) ::
      if s in selected then Stopped(services[s]) else services[s]
  }

  /** What an up records as provisioned. */
  function UpRecorded(h: Hash, st: Stack, store: Store, selected: set<string>, noProvision: bool): set<string> {
    if noProvision then Items(store.provisioned) else Items(store.provisioned) + UpNames(h, st, selected) - {""}
  }

  method UpPlan(h: Hash, st: Stack, store: Store, selected: seq<string>, noProvision: bool) returns (provisioned: seq<string>)
    ensures Items(provisioned) == UpRecorded(h, st, store, Items(selected), noProvision)
  {
    hide TapsOf, AnyAttached, BridgeName, Items, Sorted, Distinct;
    if noProvision {
      return store.provisioned;
    }
    var _, any := CollectTaps(h, st.name, st.services, st.services.Keys);
    var names, _ := CollectTaps(h, st.name, st.services, Items(selected));
    names := WithBridge(names, any, BridgeName(h, st.name));
    ItemsConcat(store.provisioned, names);
    provisioned := DedupeNames(store.provisioned + names);
  }

  function AfterStop(services: map<string, ServiceState>, selected: set<string>): map<string, ServiceState> {
    map s | s in services :: if s in selected && !services[s].stale then Stopped(services[s]) else services[s]
  }

  /** downRun's first loop over the selected services; a stale entry is left for
      the last one. */
  method StopSelected(services: map<string, ServiceState>, selected: seq<string>) returns (after: Option<map<string, ServiceState>>)
    ensures after.None? <==> exists s :: s in selected && s !in services
    ensures after.Some? ==> after.value == AfterStop(services, Items(selected))
  {
    var m := services;
    for i := 0 to |selected|
      invariant m.Keys == services.Keys
      invariant forall s :: s in selected[..i] ==> s in services
      invariant forall s :: s in services ==>
                  m[s] == if s in selected[..i] && !services[s].stale then Stopped(services[s]) else services[s]
    {
      var name := selected[i];
      assert name in selected && selected[..i + 1] == selected[..i] + [name];
      if name !in m {
        return None;
      }
      if !m[name].stale {
        m := m[name := Stopped(m[name])];
      }
    }
    assert selected[..|selected|] == selected;
    return Some(m);
  }

  /** downRun's last loop: stale entries have had their use. */
  method DropStale(services: map<string, ServiceState>, selected: seq<string>) returns (m: map<string, ServiceState>)
    ensures m == map s | s in services && !(s in selected && services[s].stale) :: services[s]
  {
    m := services;
    for i := 0 to |selected|
      invariant m.Keys <= services.Keys && forall s :: s in m ==> m[s] == services[s]
      invariant forall s :: s in services ==> (s in m <==> !(s in selected[..i] && services[s].stale))
    {
      assert selected[..i + 1] == selected[..i] + [selected[i]];
      if selected[i] in m && m[selected[i]].stale {
        m := m - {selected[i]};
      }
    }
    assert selected[..|selected|] == selected;
  }

  /** downRun's loops over the selected services. */
  method DownServices(services: map<string, ServiceState>, selected: seq<string>, removeVolumes: bool)
    returns (after: Option<map<string, ServiceState>>)
    ensures after.None? <==> exists s :: s in selected && s !in services
    ensures after.Some? ==> after.value == AfterDown(services, Items(selected), removeVolumes)
    ensures after.Some? ==> forall s :: s in after.value <==> s in services && !(s in selected && (removeVolumes || services[s].stale))
    ensures after.Some? ==> forall s :: s in after.value ==>
              after.value[s] ==
              if s in selected then services[s].(status := StartLoop.Stopped, pid := 0, virtiofsdPID := 0) else services[s]
  {
    var stopped := StopSelected(services, selected);
    if stopped.None? {
      return None;
    }
    var m := stopped.value;
    if removeVolumes {
      for i := 0 to |selected|
        invariant m == stopped.value - Items(selected[..i])
      {
        assert selected[..i + 1] == selected[..i] + [selected[i]];
        ItemsSnoc(selected[..i], selected[i]);
        m := m - {selected[i]};
      }
      assert selected[..|selected|] == selected;
    }
    m := DropStale(m, selected);
    return Some(m);
  }

  method StopStackVMs(services: map<string, ServiceState>, found: set<string>) returns (after: map<string, ServiceState>)
    ensures after == StopAll(services, found)
    ensures after.Keys == services.Keys && forall s :: s in services ==>
              after[s] ==
              if services[s].pid > 0 || s in found then services[s].(status := StartLoop.Stopped, pid := 0, virtiofsdPID := 0)
              else services[s]
  {
    hide Sorted, CharsLess, Items, Distinct;
    var names := SortedNames(services.Keys);
    after := services;
    ghost var done: set<string> := {};
    NoItems();
    assert names[..0] == [];
    for i := 0 to |names|
      invariant done == Items(names[..i]) && after.Keys == services.Keys
      invariant forall s :: s in done ==> s in services && after[s] == StopOne(services[s], s in found)
      invariant forall s :: s in services && s !in done ==> after[s] == services[s]
    {
      var name := names[i];
      assert name in names;
      OneMoreItem(names, i);
      var stopped := after[name].pid > 0;
      if name in found {
        stopped := true;
      }
      if stopped {
        after := after[name := Stopped(after[name])];
      }
      done := done + {name};
    }
    AllItems(names);
  }

  lemma AllItems(names: seq<string>)
    ensures forall s :: s in Items(names[..|names|]) <==> s in names
  {
    assert names[..|names|] == names;
  }

  // ---- commands as steps ----

  /** links: the interfaces this stack's commands created and nothing deleted. */
  datatype World = World(links: set<string>, store: Store)

  /** One command, with the configuration it ran under. All but FailedUp reached
      their end. A failed up got as far as creating the links `made`, and may have
      deleted the taps `gone` that it did not get to recreate; a bridge it found
      counts as made. `answering` are the
      services whose API socket answers at that moment. */
  datatype Command =
    | Up(st: Stack, selected: set<string>, noProvision: bool)
    | FailedUp(st: Stack, selected: set<string>, made: set<string>, gone: set<string>)
    | Down(st: Stack, selected: set<string>, removeVolumes: bool)
    | PurgeNetworks(stack: string, config: Option<Stack>, answering: set<string>)
    | PurgeVMs(found: set<string>)
    | PurgeVolumes
    | Remove(selected: set<string>)

  ghost predicate BuiltFrom(st: Stack, prev: map<string, ServiceState>, services: map<string, ServiceState>) {
    && services.Keys == st.services.Keys + prev.Keys
    && (forall s :: s in st.services ==> services[s].networks == st.services[s])
    && (forall s :: s in prev && s !in st.services ==> services[s] == prev[s].(stale := true))
  }

  /** `purge volumes` forgets the services and the links without deleting any
      link, unless it has nothing to do. */
  function VolumesPurged(w: World): World {
    if w.store.services == map[] then w
    else w.(store := w.store.(services := map[], provisioned := []))
  }

  /** The effect of a command; a failed one saves nothing. */
  ghost predicate Step(h: Hash, w: World, c: Command, w': World) {
    match c
    case Up(st, selected, noProvision) =>
      && selected <= st.services.Keys
      && w'.store.stack == st.name
      && BuiltFrom(st, w.store.services, w'.store.services)
      && w'.links == w.links + (if noProvision then {} else UpNames(h, st, selected))
      && Items(w'.store.provisioned) == UpRecorded(h, st, w.store, selected, noProvision)
    case FailedUp(st, selected, made, gone) =>
      && selected <= st.services.Keys
      && made <= UpNames(h, st, selected) && gone <= TapsOf(h, st.name, st.services, selected)
      // The bridge is ensured before any tap.
      && (made + gone <= {BridgeName(h, st.name)} || BridgeName(h, st.name) in w.links + made)
      && w'.links == w.links - gone + made && w'.store == w.store
    case Down(st, selected, removeVolumes) =>
      && selected <= w.store.services.Keys
      && w'.links == w.links - TapsOf(h, st.name, st.services, selected) - {BridgeName(h, st.name)} - DownOrphans(h, st, w.store, selected)
      && Items(w'.store.provisioned) == Retained(h, st, w.store, selected) - {""}
      && w'.store.stack == w.store.stack && w'.store.networks == w.store.networks
      && w'.store.services == AfterDown(w.store.services, selected, removeVolumes)
    case PurgeNetworks(stack, config, answering) =>
      && var orphans := PurgeOrphans(h, stack, config, w.store, answering);
      && w'.links == w.links - orphans
      && Items(w'.store.provisioned) == (if orphans == {} then Items(w.store.provisioned)
                                         else Items(w.store.provisioned) * KeptByPurge(h, stack, config, w.store, answering))
      && w'.store == w.store.(provisioned := w'.store.provisioned)
    case PurgeVMs(found) =>
      w'.links == w.links && w'.store == w.store.(services := StopAll(w.store.services, found))
    case PurgeVolumes =>
      w' == VolumesPurged(w)
    case Remove(selected) =>
      && selected <= w.store.services.Keys
      && w'.links == w.links && w'.store == w.store.(services := w.store.services - selected)
  }

  /** Every link of the stack is recorded, and a stack with links has a state file. */
  ghost predicate NoLeak(w: World) {
    w.links <= Items(w.store.provisioned) && "" !in w.links && (w.links != {} ==> w.store.stack != "")
  }

  ghost predicate Named(c: Command) {
    c.Up? ==> c.st.name != ""
  }

  lemma UpNamesNonEmpty(h: Hash, st: Stack, selected: set<string>)
    requires HexDigest(h)
    ensures "" !in UpNames(h, st, selected)
  {
    forall s, n ensures TapID(h, st.name, s, n) != "" { NamesFit(h, st.name, s, n, st.name); }
  }

  /** When a command keeps every link recorded: always, but for a failed up, all
      of whose new links must have been recorded before, and for a purge of the
      volumes, which needs that there is nothing to forget or nothing left. */
  ghost predicate KeepsRecord(w: World, c: Command) {
    match c
    case FailedUp(_, _, made, _) => made <= Items(w.store.provisioned) && (made != {} ==> w.store.stack != "")
    case PurgeVolumes => w.store.services == map[] || w.links == {}
    case _ => true
  }

  /** When a command cannot leak, whatever comes of it: what the caller can see
      beforehand in the configuration, the state and the links. */
  ghost predicate SafeCall(h: Hash, w: World, c: Command) {
    match c
    case FailedUp(st, selected, _, _) => SafeUp(h, w, st, selected)
    case PurgeVolumes => w.store.services == map[] || w.links == {}
    case _ => true
  }

  /** Everything the up provisions is on record already. */
  predicate SafeUp(h: Hash, w: World, st: Stack, selected: set<string>) {
    var u := UpNames(h, st, selected);
    u <= Items(w.store.provisioned) && (u != {} ==> w.store.stack != "")
  }

  /** The same call, with any outcome. */
  predicate SameCall(c: Command, c': Command) {
    if c.FailedUp? then c'.FailedUp? && c'.st == c.st && c'.selected == c.selected else c' == c
  }

  lemma StepKeepsNoLeak(h: Hash, w: World, c: Command, w': World)
    requires HexDigest(h) && NoLeak(w) && Named(c) && Step(h, w, c, w')
    ensures NoLeak(w') <==> KeepsRecord(w, c)
    ensures SafeCall(h, w, c) ==> NoLeak(w')
  {
    hide TapsOf, AnyAttached, BridgeName, HexDigest;
    match c
    case Up(st, selected, noProvision) =>
      UpNamesNonEmpty(h, st, selected);
    case FailedUp(st, selected, made, gone) =>
      UpNamesNonEmpty(h, st, selected);
    case Down(st, selected, removeVolumes) =>
      forall x | x in w'.links ensures x in Items(w'.store.provisioned) {
        assert x in DownCandidates(h, st, w.store);
        assert x !in DownPlanned(h, st, selected);
      }
    case PurgeNetworks(stack, config, answering) =>
    case PurgeVMs(found) =>
    case PurgeVolumes => PurgeVolumesLeaks(w);
    case Remove(selected) =>
  }

  lemma PurgeVolumesLeaks(w: World)
    requires NoLeak(w)
    ensures NoLeak(VolumesPurged(w)) <==> w.store.services == map[] || w.links == {}
  {
  }

  /** An up provisions taps only together with the bridge. */
  lemma BridgeAmongNames(h: Hash, st: Stack, selected: set<string>)
    ensures UpNames(h, st, selected) <= {BridgeName(h, st.name)} || BridgeName(h, st.name) in UpNames(h, st, selected)
  {
    hide TapID, BridgeName;
    if x :| x in TapsOf(h, st.name, st.services, selected) {
      var s, n :| s in st.services && s in selected && n in st.services[s] && x == TapID(h, st.name, s, n);
      assert st.services[s] != [];
    }
  }

  /** Exactly when an up may fail at any point without leaking a device: all it
      provisions was recorded before the call. */
  lemma FailedUpIsSafe(h: Hash, w: World, st: Stack, selected: set<string>)
    requires HexDigest(h) && NoLeak(w) && selected <= st.services.Keys
    ensures (forall made, gone, w' :: Step(h, w, FailedUp(st, selected, made, gone), w') ==> NoLeak(w')) <==> SafeUp(h, w, st, selected)
  {
    hide UpNames, TapsOf, BridgeName, NoLeak;
    var u := UpNames(h, st, selected);
    forall made, gone, w' | SafeUp(h, w, st, selected) && Step(h, w, FailedUp(st, selected, made, gone), w') ensures NoLeak(w') {
      StepKeepsNoLeak(h, w, FailedUp(st, selected, made, gone), w');
    }
    var all := FailedUp(st, selected, u, {});
    var w' := w.(links := w.links - {} + u);
    BridgeAmongNames(h, st, selected);
    assert Step(h, w, all, w');
    StepKeepsNoLeak(h, w, all, w');
  }

  /** So for every command: exactly when none of its outcomes leaks. */
  lemma CallIsSafe(h: Hash, w: World, c: Command)
    requires HexDigest(h) && NoLeak(w) && Named(c) && (c.FailedUp? ==> c.selected <= c.st.services.Keys)
    ensures (forall c', w' :: SameCall(c, c') && Step(h, w, c', w') ==> NoLeak(w')) <==> SafeCall(h, w, c)
  {
    hide Step, NoLeak, SafeUp, HexDigest;
    forall c', w' | SafeCall(h, w, c) && SameCall(c, c') && Step(h, w, c', w') ensures NoLeak(w') {
      StepKeepsNoLeak(h, w, c', w');
    }
    if c.FailedUp? {
      FailedUpIsSafe(h, w, c.st, c.selected);
      assert forall made, gone :: SameCall(c, FailedUp(c.st, c.selected, made, gone));
    } else if c.PurgeVolumes? {
      PurgeVolumesLeaks(w);
      PurgeIsStep(h, w);
    }
  }

  lemma PurgeIsStep(h: Hash, w: World)
    ensures Step(h, w, PurgeVolumes, VolumesPurged(w))
  {
  }

  ghost predicate Execution(h: Hash, run: seq<World>, commands: seq<Command>) {
    && |run| == |commands| + 1
    && run[0].links == {}
    && forall i :: 0 <= i < |commands| ==> Named(commands[i]) && Step(h, run[i], commands[i], run[i + 1])
  }

  lemma {:induction false} RecordKept(h: Hash, run: seq<World>, commands: seq<Command>, i: nat)
    requires HexDigest(h) && Execution(h, run, commands) && i < |run|
    requires forall k :: 0 <= k < i ==> KeepsRecord(run[k], commands[k])
    ensures NoLeak(run[i])
  {
    hide Step, HexDigest, KeepsRecord;
    if i == 0 {
    } else {
      RecordKept(h, run, commands, i - 1);
      StepKeepsNoLeak(h, run[i - 1], commands[i - 1], run[i - 1 + 1]);
    }
  }

  /** No outcome of any call of the run leaks. */
  ghost predicate CannotLeak(h: Hash, run: seq<World>, commands: seq<Command>)
    requires |run| > |commands|
  {
    forall i, c', w' :: 0 <= i < |commands| && SameCall(commands[i], c') && Step(h, run[i], c', w') ==> NoLeak(w')
  }

  /** Exactly when no device leaks, over any sequence of commands with any
      configuration at each: every failed up had its new links on record, and
      volumes were purged only when that forgot no link. And exactly when none
      could leak, however its calls had gone: every call was safe beforehand. */
  lemma NoDeviceLeaks(h: Hash, run: seq<World>, commands: seq<Command>)
    requires HexDigest(h) && Execution(h, run, commands)
    ensures (forall i :: 0 <= i < |run| ==> NoLeak(run[i])) <==>
            (forall i :: 0 <= i < |commands| ==> KeepsRecord(run[i], commands[i]))
    ensures CannotLeak(h, run, commands) <==> (forall i :: 0 <= i < |commands| ==> SafeCall(h, run[i], commands[i]))
  {
    hide Step, HexDigest, KeepsRecord, NoLeak, SafeCall, CannotLeak;
    if forall i :: 0 <= i < |run| ==> NoLeak(run[i]) {
      forall i | 0 <= i < |commands| ensures KeepsRecord(run[i], commands[i]) {
        assert NoLeak(run[i]) && NoLeak(run[i + 1]);
        StepKeepsNoLeak(h, run[i], commands[i], run[i + 1]);
      }
    }
    if forall i :: 0 <= i < |commands| ==> KeepsRecord(run[i], commands[i]) {
      forall i | 0 <= i < |run| ensures NoLeak(run[i]) { RecordKept(h, run, commands, i); }
    }
    if CannotLeak(h, run, commands) {
      forall i | 0 <= i < |commands| ensures SafeCall(h, run[i], commands[i]) { NeverLeaksSafe(h, run, commands, i); }
    }
    if forall i :: 0 <= i < |commands| ==> SafeCall(h, run[i], commands[i]) {
      SafeNeverLeaks(h, run, commands);
    }
  }

  lemma NeverLeaksSafe(h: Hash, run: seq<World>, commands: seq<Command>, i: nat)
    requires HexDigest(h) && Execution(h, run, commands) && CannotLeak(h, run, commands) && i < |commands|
    ensures SafeCall(h, run[i], commands[i])
  {
    hide HexDigest, NoLeak, SafeCall, Step;
    if i == 0 {
      assert NoLeak(run[0]) by { NothingToLeak(run[0]); }
    } else {
      assert SameCall(commands[i - 1], commands[i - 1]) && Step(h, run[i - 1], commands[i - 1], run[i - 1 + 1]);
    }
    StepSelects(h, run[i], commands[i], run[i + 1]);
    CallIsSafe(h, run[i], commands[i]);
  }

  lemma NothingToLeak(w: World)
    requires w.links == {}
    ensures NoLeak(w)
  {
  }

  lemma StepSelects(h: Hash, w: World, c: Command, w': World)
    requires Step(h, w, c, w')
    ensures c.FailedUp? ==> c.selected <= c.st.services.Keys
  {
  }

  lemma {:induction false} SafeSoFar(h: Hash, run: seq<World>, commands: seq<Command>, i: nat)
    requires HexDigest(h) && Execution(h, run, commands) && i <= |commands|
    requires forall k :: 0 <= k < i ==> SafeCall(h, run[k], commands[k])
    ensures NoLeak(run[i])
  {
    hide Step, HexDigest, SafeCall, NoLeak;
    if i == 0 {
      NothingToLeak(run[0]);
    } else {
      SafeSoFar(h, run, commands, i - 1);
      StepKeepsNoLeak(h, run[i - 1], commands[i - 1], run[i - 1 + 1]);
    }
  }

  lemma SafeNeverLeaks(h: Hash, run: seq<World>, commands: seq<Command>)
    requires HexDigest(h) && Execution(h, run, commands)
    requires forall i :: 0 <= i < |commands| ==> SafeCall(h, run[i], commands[i])
    ensures CannotLeak(h, run, commands)
  {
    hide Step, HexDigest, SafeCall, NoLeak;
    forall i, c', w' | 0 <= i < |commands| && SameCall(commands[i], c') && Step(h, run[i], c', w') ensures NoLeak(w') {
      SafeSoFar(h, run, commands, i);
      StepSelects(h, run[i], commands[i], run[i + 1]);
      CallIsSafe(h, run[i], commands[i]);
    }
  }

  /** So commands that reach their end never leak a device. */
  lemma CompletedNeverLeak(h: Hash, run: seq<World>, commands: seq<Command>)
    requires HexDigest(h) && Execution(h, run, commands)
    requires forall c :: c in commands ==> !c.FailedUp? && !c.PurgeVolumes?
    ensures forall i :: 0 <= i < |run| ==> NoLeak(run[i])
  {
    hide Step, HexDigest, NoLeak;
    assert forall i :: 0 <= i < |commands| ==> KeepsRecord(run[i], commands[i]);
    NoDeviceLeaks(h, run, commands);
  }

  // ---- leaks ----

  function Leaked(w: World): set<string> {
    w.links - Items(w.store.provisioned)
  }

  /** What a command can add to the leaked links. */
  function NewlyLeaked(w: World, c: Command): set<string> {
    match c
    case FailedUp(_, _, made, _) => made - Items(w.store.provisioned)
    case PurgeVolumes => w.links
    case _ => {}
  }

  /** Also after a leak, no other command loses track of a link. */
  lemma StepLeaks(h: Hash, w: World, c: Command, w': World)
    requires HexDigest(h) && Step(h, w, c, w') && "" !in w.links
    ensures Leaked(w') <= Leaked(w) + NewlyLeaked(w, c)
  {
    hide TapsOf, AnyAttached, BridgeName, HexDigest;
    match c
    case Up(st, selected, noProvision) =>
      UpNamesNonEmpty(h, st, selected);
    case FailedUp(st, selected, made, gone) =>
    case Down(st, selected, removeVolumes) =>
      assert Items(w.store.provisioned) <= DownCandidates(h, st, w.store);
    case PurgeNetworks(stack, config, answering) =>
    case PurgeVMs(found) =>
    case PurgeVolumes =>
    case Remove(selected) =>
  }

  /** A first up that fails after creating the bridge and a tap: they are on no
      record, and not even `purge all` finds them, because there is no state file. */
  lemma FailedUpLeaks(h: Hash)
    ensures var st, made := Stack("s", map["a" := ["n"]]), {"br-s", "mvc-s-a-n"};
            var w := World({}, Store("", [], map[], []));
            var w' := w.(links := made);
            && Step(h, w, FailedUp(st, {"a"}, made, {}), w')
            && NoLeak(w) && !NoLeak(w')
            && forall found, answering, w'' :: PurgeAll(h, w', found, answering, w'') ==> w''.links == made
  {
    var st, made := Stack("s", map["a" := ["n"]]), {"br-s", "mvc-s-a-n"};
    assert TapID(h, "s", "a", "n") == "mvc-s-a-n" && BridgeName(h, "s") == "br-s";
    assert "n" in st.services["a"] && "mvc-s-a-n" in TapsOf(h, "s", st.services, {"a"});
    assert AnyAttached(st.services, st.services.Keys);
    var w := World({}, Store("", [], map[], []));
    assert "br-s" in w.(links := made).links && "br-s" !in Items(w.store.provisioned);
    assert w.links - {} + made == made;
  }

  /** `purge all`: stop the machines, sweep with no configuration, drop volumes. */
  ghost predicate PurgeAll(h: Hash, w: World, found: set<string>, answering: set<string>, w': World) {
    // A stack directory without a state file is skipped.
    if w.store.stack == "" then w' == w
    else exists a, b ::
      Step(h, w, PurgeVMs(found), a) && Step(h, a, PurgeNetworks(w.store.stack, None, answering), b) && w' == VolumesPurged(b)
  }

  /** With no API socket answering any more, `purge all` leaves no link at all. */
  lemma PurgeAllClears(h: Hash, w: World, found: set<string>, w': World)
    requires HexDigest(h) && NoLeak(w) && PurgeAll(h, w, found, {}, w')
    ensures w'.links == {} && NoLeak(w')
  {
    if w.store.stack != "" {
      var a, b :| Step(h, w, PurgeVMs(found), a) && Step(h, a, PurgeNetworks(w.store.stack, None, {}), b) && w' == VolumesPurged(b);
      assert Alive(a.store, {}) == {};
      assert KeptByPurge(h, w.store.stack, None, a.store, {}) == {};
    }
  }

  // ---- partial commands and other services' taps ----

  /** No tap of the stack is confused with another. */
  ghost predicate Unambiguous(h: Hash, stack: string, attached: map<string, seq<string>>, others: map<string, seq<string>>) {
    forall s, n, t, m :: s in attached && n in attached[s] && t in others && m in others[t] && s != t ==>
      TapID(h, stack, s, n) != TapID(h, stack, t, m)
  }

  lemma UnambiguousNames(h: Hash, stack: string, attached: map<string, seq<string>>, others: map<string, seq<string>>)
    requires HexDigest(h)
    requires forall s :: s in attached || s in others ==> '-' !in s
    requires forall s, n, t, m :: s in attached && n in attached[s] && t in others && m in others[t] ==>
               NoClash(h, FullTapName(stack, s, n), FullTapName(stack, t, m))
    ensures Unambiguous(h, stack, attached, others)
  {
    forall s, n, t, m | s in attached && n in attached[s] && t in others && m in others[t] && s != t
      ensures TapID(h, stack, s, n) != TapID(h, stack, t, m)
    {
      if TapID(h, stack, s, n) == TapID(h, stack, t, m) {
        TapIDInjective(h, stack, s, n, t, m);
      }
    }
  }

  predicate Attached(st: Stack, store: Store, s: string, n: string) {
    (s in st.services && n in st.services[s]) || (s in store.services && n in store.services[s].networks)
  }

  /** Some selected attachment reads the same. */
  predicate SharesName(st: Stack, selected: set<string>, s: string, n: string) {
    exists t, m :: t in st.services && t in selected && m in st.services[t] && t + "-" + m == s + "-" + n
  }

  /** The truncated digest does not confuse the tap with a selected one. */
  ghost predicate NoClashWith(h: Hash, st: Stack, selected: set<string>, s: string, n: string)
    requires HexDigest(h)
  {
    forall t, m :: t in st.services && t in selected && m in st.services[t] ==>
      NoClash(h, FullTapName(st.name, s, n), FullTapName(st.name, t, m))
  }

  lemma SharedTaps(h: Hash, st: Stack, selected: set<string>, s: string, n: string)
    requires HexDigest(h) && NoClashWith(h, st, selected, s, n)
    ensures TapID(h, st.name, s, n) in TapsOf(h, st.name, st.services, selected) <==> SharesName(st, selected, s, n)
  {
    forall t, m | t in st.services && t in selected && m in st.services[t]
      ensures TapID(h, st.name, s, n) == TapID(h, st.name, t, m) <==> s + "-" + n == t + "-" + m
    {
      assert NoClash(h, FullTapName(st.name, s, n), FullTapName(st.name, t, m));
      TapIDsEqual(h, st.name, s, n, t, m);
    }
    hide TapID;
  }

  /** No service name with a hyphen, no shared name with another service. */
  lemma HyphenFreeNames(st: Stack, selected: set<string>, s: string, n: string)
    requires s !in selected && '-' !in s && forall t :: t in selected ==> '-' !in t
    ensures !SharesName(st, selected, s, n)
  {
    forall t, m | t in selected ensures t + "-" + m != s + "-" + n {
      if t + ['-'] + m == s + ['-'] + n { FirstSeparator(t, m, s, n, '-'); }
    }
  }

  /** Exactly when a partial down keeps the tap of a service outside the
      selection, whether the configuration or only the state still has that
      service: when it is no tap of a selected service, that is, when no selected
      attachment reads the same. */
  lemma PartialDownKeepsTaps(h: Hash, w: World, st: Stack, selected: set<string>, removeVolumes: bool, w': World, s: string, n: string)
    requires HexDigest(h) && Step(h, w, Down(st, selected, removeVolumes), w')
    requires s !in selected && Attached(st, w.store, s, n) && TapID(h, st.name, s, n) in w.links
    ensures TapID(h, st.name, s, n) in w'.links <==> TapID(h, st.name, s, n) !in TapsOf(h, st.name, st.services, selected)
    ensures NoClashWith(h, st, selected, s, n) ==> (TapID(h, st.name, s, n) in w'.links <==> !SharesName(st, selected, s, n))
  {
    hide NoClashWith, SharesName;
    if NoClashWith(h, st, selected, s, n) { SharedTaps(h, st, selected, s, n); }
    NamesFit(h, st.name, s, n, st.name);
    hide TapID;
    var x := TapID(h, st.name, s, n);
    assert x in Retained(h, st, w.store, selected) by {
      if s in st.services && n in st.services[s] {
        assert x in TapsOf(h, st.name, st.services, st.services.Keys - selected);
      } else {
        assert x in TapsOf(h, st.name, Networks(w.store.services), w.store.services.Keys - selected);
      }
    }
  }

  function SpecFor(h: Hash, st: Stack, owner: int, group: int, multiQueue: string -> bool, p: Assignments.Pair): Taps.TapSpec {
    Taps.TapSpec(TapID(h, st.name, p.svc, p.net), BridgeName(h, st.name), owner, group, multiQueue(p.svc))
  }

  predicate AttachedPair(st: Stack, chosen: set<string>, p: Assignments.Pair) {
    p.svc in st.services && p.svc in chosen && p.net in st.services[p.svc]
  }

  /** The specs name the taps of the selected services and the stack's bridge. */
  ghost predicate TapSpecsFor(h: Hash, st: Stack, selected: set<string>, taps: seq<Taps.TapSpec>) {
    Taps.Names(taps) == TapsOf(h, st.name, st.services, selected) && forall t :: t in taps ==> t.bridge == BridgeName(h, st.name)
  }

  /** The attachments of the chosen services, in some order. */
  method CollectAttachments(st: Stack, chosen: set<string>) returns (pairs: seq<Assignments.Pair>)
    ensures forall p :: p in pairs <==> AttachedPair(st, chosen, p)
  {
    pairs := [];
    var rest := st.services.Keys;
    while rest != {}
      invariant rest <= st.services.Keys
      invariant forall p :: p in pairs <==> AttachedPair(st, chosen, p) && p.svc !in rest
      decreases rest
    {
      var s :| s in rest;
      rest := rest - {s};
      if s in chosen {
        var nets := st.services[s];
        ghost var before := pairs;
        for i := 0 to |nets|
          invariant forall p :: p in pairs <==> p in before || (p.svc == s && p.net in nets[..i])
        {
          assert nets[..i + 1] == nets[..i] + [nets[i]];
          pairs := pairs + [Assignments.Pair(s, nets[i])];
        }
        assert nets[..|nets|] == nets;
      }
    }
  }

  lemma SortedPairs(pairs: seq<Assignments.Pair>)
    ensures var r := SortBy(Assignments.PairLess, pairs); Sorted(Assignments.PairLess, r) && forall p :: p in r <==> p in pairs
  {
    hide Assignments.PairLess, SortBy;
    Assignments.PairOrder();
    SortBySorts(Assignments.PairLess, pairs);
    var r := SortBy(Assignments.PairLess, pairs);
    assert forall p :: (p in r <==> p in multiset(r)) && (p in pairs <==> p in multiset(pairs));
  }

  /** tapSpecs: one spec per attachment of a selected service, sorted. */
  method TapSpecs(h: Hash, st: Stack, selected: seq<string>, owner: int, group: int, multiQueue: string -> bool)
    returns (taps: seq<Taps.TapSpec>, ghost order: seq<Assignments.Pair>)
    ensures Sorted(Assignments.PairLess, order) && forall p :: p in order <==> AttachedPair(st, Items(selected), p)
    ensures |taps| == |order| && forall i :: 0 <= i < |order| ==> taps[i] == SpecFor(h, st, owner, group, multiQueue, order[i])
    ensures |taps| == |order| && forall i :: 0 <= i < |order| ==>
              && order[i].svc in st.services && order[i].svc in selected && order[i].net in st.services[order[i].svc]
              && taps[i].name == TapID(h, st.name, order[i].svc, order[i].net) && taps[i].bridge == BridgeName(h, st.name)
              && taps[i].owner == owner && taps[i].group == group && taps[i].multiQueue == multiQueue(order[i].svc)
    ensures TapSpecsFor(h, st, Items(selected), taps)
  {
    hide Sorted, SpecFor, AttachedPair, TapSpecsFor, Assignments.PairLess, SortBy;
    var pairs := CollectAttachments(st, set s | s in selected);
    SortedPairs(pairs);
    var sorted := SortBy(Assignments.PairLess, pairs);
    taps := [];
    for i := 0 to |sorted|
      invariant |taps| == i && forall k :: 0 <= k < i ==> taps[k] == SpecFor(h, st, owner, group, multiQueue, sorted[k])
    {
      taps := taps + [SpecFor(h, st, owner, group, multiQueue, sorted[i])];
    }
    order := sorted;
    SpecsNameTaps(h, st, Items(selected), owner, group, multiQueue, sorted, taps);
    SpecFields(h, st, selected, owner, group, multiQueue, sorted, taps);
  }

  lemma SpecFields(h: Hash, st: Stack, selected: seq<string>, owner: int, group: int, multiQueue: string -> bool,
                   order: seq<Assignments.Pair>, taps: seq<Taps.TapSpec>)
    requires forall p :: p in order <==> AttachedPair(st, Items(selected), p)
    requires |taps| == |order| && forall i :: 0 <= i < |order| ==> taps[i] == SpecFor(h, st, owner, group, multiQueue, order[i])
    ensures forall i :: 0 <= i < |order| ==>
              && order[i].svc in st.services && order[i].svc in selected && order[i].net in st.services[order[i].svc]
              && taps[i].name == TapID(h, st.name, order[i].svc, order[i].net) && taps[i].bridge == BridgeName(h, st.name)
              && taps[i].owner == owner && taps[i].group == group && taps[i].multiQueue == multiQueue(order[i].svc)
  {
    hide TapID, BridgeName;
    forall i | 0 <= i < |order|
      ensures order[i].svc in st.services && order[i].svc in selected && order[i].net in st.services[order[i].svc]
    {
      assert order[i] in order;
    }
  }

  lemma SpecsNameTaps(h: Hash, st: Stack, selected: set<string>, owner: int, group: int, multiQueue: string -> bool,
                      order: seq<Assignments.Pair>, taps: seq<Taps.TapSpec>)
    requires forall p :: p in order <==> AttachedPair(st, selected, p)
    requires |taps| == |order| && forall i :: 0 <= i < |order| ==> taps[i] == SpecFor(h, st, owner, group, multiQueue, order[i])
    ensures TapSpecsFor(h, st, selected, taps)
  {
    hide TapID, BridgeName;
    forall x ensures x in Taps.Names(taps) <==> x in TapsOf(h, st.name, st.services, selected) {
      if x in Taps.Names(taps) {
        var i :| 0 <= i < |taps| && taps[i].name == x;
        assert order[i] in order;
      }
      if x in TapsOf(h, st.name, st.services, selected) {
        var s, n :| s in st.services && s in selected && n in st.services[s] && x == TapID(h, st.name, s, n);
        assert AttachedPair(st, selected, Assignments.Pair(s, n));
        var i :| 0 <= i < |order| && order[i] == Assignments.Pair(s, n);
        assert taps[i] in taps;
      }
    }
  }

  /** Where names are unambiguous the tap of a service outside the selection is
      no tap of a selected one. */
  lemma UnselectedTap(h: Hash, st: Stack, store: Store, selected: set<string>, s: string, n: string)
    requires HexDigest(h) && s !in selected && Attached(st, store, s, n)
    requires Unambiguous(h, st.name, st.services, st.services)
    requires Unambiguous(h, st.name, st.services, Networks(store.services))
    ensures TapID(h, st.name, s, n) !in TapsOf(h, st.name, st.services, selected)
  {
    hide TapID;
    assert (s in st.services && n in st.services[s]) ||
           (s in Networks(store.services) && n in Networks(store.services)[s]);
  }

  /** A link that EnsureTaps leaves alone: the same one, and where it was if that
      was the bridge. */
  ghost predicate Spared(was: Taps.Links, now: Taps.Links, x: string, bridge: string) {
    && x in was && x in now && (now[x] == was[x] || now[x] == was[x].(master := None))
    && (bridge in was && was[x].master == Some(was[bridge].id) ==> now[x] == was[x])
  }

  /** A partial up neither deletes nor recreates the tap of a service outside the
      selection, in the configuration or only in the state or in neither, whether
      or not ensuring the taps succeeds, unless it is at the same time the tap of
      a selected service: exactly when a selected attachment reads the same. */
  lemma PartialUpSparesTaps(h: Hash, st: Stack, selected: set<string>, s: string, n: string, net: Taps.Net, taps: seq<Taps.TapSpec>)
    requires HexDigest(h) && TapSpecsFor(h, st, selected, taps) && net.Valid() && TapID(h, st.name, s, n) in net.links
    ensures var x, now := TapID(h, st.name, s, n), Taps.EnsureAll(net, taps).0.links;
            x !in TapsOf(h, st.name, st.services, selected) ==> x !in UpNames(h, st, selected) && Spared(net.links, now, x, BridgeName(h, st.name))
    ensures NoClashWith(h, st, selected, s, n) ==>
              (TapID(h, st.name, s, n) in UpNames(h, st, selected) <==> SharesName(st, selected, s, n))
  {
    hide NoClashWith, SharesName;
    if NoClashWith(h, st, selected, s, n) { SharedTaps(h, st, selected, s, n); }
    forall t, m ensures TapID(h, st.name, t, m) != BridgeName(h, st.name) { NamesFit(h, st.name, t, m, st.name); }
    hide TapID, BridgeName, Taps.EnsureAll;
    Taps.OthersKept(net, taps, Taps.Names(taps));
    var x := TapID(h, st.name, s, n);
    if x !in TapsOf(h, st.name, st.services, selected) {
      assert Taps.KeptLink(net.links, Taps.EnsureAll(net, taps).0.links, Taps.Names(taps), x);
    }
  }

  // ---- the commands' sets, written out ----

  /** The attachments of the chosen services: their taps, and the bridge. */
  lemma AttachmentsAre(h: Hash, stack: string, attached: map<string, seq<string>>, chosen: set<string>, x: string)
    ensures x in Attachments(h, stack, attached, chosen) <==>
            exists s, n :: s in attached && s in chosen && n in attached[s] && (x == TapID(h, stack, s, n) || x == BridgeName(h, stack))
    ensures x in TapsOf(h, stack, attached, chosen) <==>
            exists s, n :: s in attached && s in chosen && n in attached[s] && x == TapID(h, stack, s, n)
    ensures AnyAttached(attached, chosen) <==> exists s, n :: s in attached && s in chosen && n in attached[s]
  {
    hide TapID, BridgeName;
    if AnyAttached(attached, chosen) {
      var s :| s in attached && s in chosen && attached[s] != [];
      assert attached[s][0] in attached[s];
    }
    if s, n :| s in attached && s in chosen && n in attached[s] && (x == TapID(h, stack, s, n) || x == BridgeName(h, stack)) {
      assert attached[s] != [];
    }
  }

  lemma InItems(names: seq<string>, x: string)
    ensures x in Items(names) <==> x in names
  {
  }

  /** The same for recorded services. */
  lemma RecordedAre(h: Hash, stack: string, services: map<string, ServiceState>, chosen: set<string>, x: string)
    ensures x in Attachments(h, stack, Networks(services), chosen) <==>
            exists s, n :: s in services && s in chosen && n in services[s].networks && (x == TapID(h, stack, s, n) || x == BridgeName(h, stack))
    ensures x in TapsOf(h, stack, Networks(services), chosen) <==>
            exists s, n :: s in services && s in chosen && n in services[s].networks && x == TapID(h, stack, s, n)
  {
    hide TapID, BridgeName, Attachments, TapsOf;
    AttachmentsAre(h, stack, Networks(services), chosen, x);
  }

  /** What an up adds: the selected services' taps, and the bridge if any service
      at all has a network. */
  lemma UpNamesAre(h: Hash, st: Stack, selected: set<string>, x: string)
    ensures x in UpNames(h, st, selected) <==>
            || (exists s, n :: s in st.services && s in selected && n in st.services[s] && x == TapID(h, st.name, s, n))
            || (x == BridgeName(h, st.name) && exists s, n :: s in st.services && n in st.services[s])
  {
    hide TapID, BridgeName, AnyAttached, TapsOf;
    AttachmentsAre(h, st.name, st.services, selected, x);
    AttachmentsAre(h, st.name, st.services, st.services.Keys, x);
    assert AnyAttached(st.services, st.services.Keys) <==> exists s, n :: s in st.services && n in st.services[s];
  }

  /** Name by name what an up leaves on the host and on record. */
  lemma UpExactly(h: Hash, w: World, st: Stack, selected: set<string>, noProvision: bool, w': World, x: string)
    requires HexDigest(h) && Step(h, w, Up(st, selected, noProvision), w')
    ensures var provisioned :=
              && !noProvision
              && ((exists s, n :: s in st.services && s in selected && n in st.services[s] && x == TapID(h, st.name, s, n))
                  || (x == BridgeName(h, st.name) && exists s, n :: s in st.services && n in st.services[s]));
            && (x in w'.links <==> x in w.links || provisioned)
            && (x != "" ==> (x in w'.store.provisioned <==> x in w.store.provisioned || provisioned))
  {
    hide TapID, BridgeName, UpNames, HexDigest, Items;
    UpNamesAre(h, st, selected, x);
    InItems(w.store.provisioned, x);
    InItems(w'.store.provisioned, x);
  }

  /** Name by name what a completed down leaves: on record are the taps and the
      bridge of the services outside the selection that the configuration or the
      state attaches. Of the links it leaves these, as far as they are no bridge
      and no tap the configuration gives a selected service, and what is neither
      recorded nor a name of the configuration or the state. */
  lemma DownExactly(h: Hash, w: World, st: Stack, selected: set<string>, removeVolumes: bool, w': World, x: string)
    requires HexDigest(h) && Step(h, w, Down(st, selected, removeVolumes), w')
    ensures var retained :=
              || (exists s, n :: s in st.services && s !in selected && n in st.services[s] &&
                    (x == TapID(h, st.name, s, n) || x == BridgeName(h, st.name)))
              || (exists s, n :: s in w.store.services && s !in selected && n in w.store.services[s].networks &&
                    (x == TapID(h, st.name, s, n) || x == BridgeName(h, st.name)));
            var planned := exists s, n :: s in st.services && s in selected && n in st.services[s] && x == TapID(h, st.name, s, n);
            var known :=
              || x in w.store.provisioned
              || (exists s, n :: s in st.services && n in st.services[s] && x == TapID(h, st.name, s, n))
              || (exists s, n :: s in w.store.services && n in w.store.services[s].networks && x == TapID(h, st.name, s, n));
            && (x in w'.store.provisioned <==> x != "" && retained)
            && (x != "" ==> (x in w'.links <==>
                  x in w.links && x != BridgeName(h, st.name) && !planned && (retained || !known)))
  {
    hide TapID, BridgeName, TapsOf, AnyAttached, HexDigest, AfterDown, Networks, Items;
    InItems(w.store.provisioned, x);
    InItems(w'.store.provisioned, x);
    AttachmentsAre(h, st.name, st.services, st.services.Keys - selected, x);
    AttachmentsAre(h, st.name, st.services, selected, x);
    AttachmentsAre(h, st.name, st.services, st.services.Keys, x);
    RecordedAre(h, st.name, w.store.services, w.store.services.Keys - selected, x);
    RecordedAre(h, st.name, w.store.services, w.store.services.Keys, x);
  }

  /** Name by name what a purge of the networks leaves. It spares what the
      configuration names, and what a service with a recorded pid or an answering
      socket is attached to; of everything else on record, or named by the
      state, it leaves neither the link nor the record. */
  lemma PurgeExactly(h: Hash, w: World, stack: string, config: Option<Stack>, answering: set<string>, w': World, x: string)
    requires Step(h, w, PurgeNetworks(stack, config, answering), w') && x != ""
    ensures var spared :=
              || (config.Some? && exists s, n ::
                    s in config.value.services && n in config.value.services[s] &&
                    (x == TapID(h, config.value.name, s, n) || x == BridgeName(h, config.value.name)))
              || (exists s, n :: s in w.store.services && (w.store.services[s].pid > 0 || s in answering) &&
                    n in w.store.services[s].networks && (x == TapID(h, stack, s, n) || x == BridgeName(h, stack)));
            var known :=
              || x in w.store.provisioned
              || (w.store.networks != [] && x == BridgeName(h, stack))
              || (exists s, n :: s in w.store.services && n in w.store.services[s].networks && x == TapID(h, stack, s, n));
            && (x in w'.links <==> x in w.links && (spared || !known))
            && (x in w'.store.provisioned <==> x in w.store.provisioned && spared)
  {
    hide TapID, BridgeName, TapsOf, AnyAttached, Networks, StoreNames, Attachments, Items;
    InItems(w.store.provisioned, x);
    InItems(w'.store.provisioned, x);
    KeptAre(h, stack, config, w.store, answering, x);
    StoreNamesAre(h, stack, w.store, x);
    hide KeptByPurge;
    if x in w.store.provisioned && x !in KeptByPurge(h, stack, config, w.store, answering) {
      assert x in PurgeOrphans(h, stack, config, w.store, answering);
    }
  }

  lemma StoreNamesAre(h: Hash, stack: string, store: Store, x: string)
    ensures x in StoreNames(h, stack, store) <==>
            || (store.networks != [] && x == BridgeName(h, stack))
            || (exists s, n :: s in store.services && n in store.services[s].networks && x == TapID(h, stack, s, n))
  {
    hide TapID, BridgeName, TapsOf, Networks;
    RecordedAre(h, stack, store.services, store.services.Keys, x);
  }

  lemma KeptAre(h: Hash, stack: string, config: Option<Stack>, store: Store, answering: set<string>, x: string)
    ensures x in KeptByPurge(h, stack, config, store, answering) <==>
              || (config.Some? && exists s, n ::
                    s in config.value.services && n in config.value.services[s] &&
                    (x == TapID(h, config.value.name, s, n) || x == BridgeName(h, config.value.name)))
              || (exists s, n :: s in store.services && (store.services[s].pid > 0 || s in answering) &&
                    n in store.services[s].networks && (x == TapID(h, stack, s, n) || x == BridgeName(h, stack)))
  {
    hide TapID, BridgeName, TapsOf, AnyAttached, Networks, Attachments;
    RecordedAre(h, stack, store.services, Alive(store, answering), x);
    if config.Some? {
      UpNamesAre(h, config.value, config.value.services.Keys, x);
    }
  }

  /** So a purge of the networks takes neither tap nor bridge from a machine that
      may be running, nor from the configuration. */
  lemma PurgeSparesLive(h: Hash, w: World, stack: string, config: Option<Stack>, answering: set<string>, w': World, s: string, n: string)
    requires HexDigest(h) && Step(h, w, PurgeNetworks(stack, config, answering), w')
    ensures s in w.store.services && (w.store.services[s].pid > 0 || s in answering) && n in w.store.services[s].networks ==>
              forall x :: x == TapID(h, stack, s, n) || x == BridgeName(h, stack) ==>
                && (x in w'.links <==> x in w.links)
                && (x in w'.store.provisioned <==> x in w.store.provisioned)
    ensures config.Some? && s in config.value.services && n in config.value.services[s] ==>
              forall x :: x == TapID(h, config.value.name, s, n) || x == BridgeName(h, config.value.name) ==>
                && (x in w'.links <==> x in w.links)
                && (x in w'.store.provisioned <==> x in w.store.provisioned)
  {
    forall name | name == stack || (config.Some? && name == config.value.name)
      ensures TapID(h, name, s, n) != "" && BridgeName(h, name) != ""
    {
      NamesFit(h, name, s, n, name);
    }
    hide TapID, BridgeName, Step, HexDigest;
    PurgeExactly(h, w, stack, config, answering, w', TapID(h, stack, s, n));
    PurgeExactly(h, w, stack, config, answering, w', BridgeName(h, stack));
    if config.Some? {
      PurgeExactly(h, w, stack, config, answering, w', TapID(h, config.value.name, s, n));
      PurgeExactly(h, w, stack, config, answering, w', BridgeName(h, config.value.name));
    }
  }

  // ---- the bridge ----

  /** The links a command can create. */
  function Makes(h: Hash, c: Command): set<string> {
    match c
    case Up(st, selected, noProvision) => if noProvision then {} else UpNames(h, st, selected)
    case FailedUp(_, _, made, _) => made
    case _ => {}
  }

  lemma OnlyProvisioningAdds(h: Hash, w: World, c: Command, w': World)
    requires Step(h, w, c, w')
    ensures w'.links <= w.links + Makes(h, c)
  {
    hide TapsOf, AnyAttached, BridgeName;
  }

  /** From a down until some later command creates it again the stack has no
      bridge, over any run; also where services that stay up are attached to it,
      so that the planner keeps it and the state goes on recording it. */
  lemma {:induction false} DownDeletesBridge(h: Hash, run: seq<World>, commands: seq<Command>, i: nat, j: nat)
    requires HexDigest(h) && Execution(h, run, commands) && i < j <= |commands| && commands[i].Down?
    requires forall k :: i < k < j ==> BridgeName(h, commands[i].st.name) !in Makes(h, commands[k])
    ensures BridgeName(h, commands[i].st.name) !in run[j].links
    ensures var st, selected := commands[i].st, commands[i].selected;
            AnyAttached(st.services, st.services.Keys - selected) ==>
              !TeardownBridge(st, selected) && BridgeName(h, st.name) in Items(run[i + 1].store.provisioned)
    decreases j
  {
    var st := commands[i].st;
    NamesFit(h, st.name, "", "", st.name);
    assert Step(h, run[i], commands[i], run[i + 1]);
    if i + 1 < j {
      DownDeletesBridge(h, run, commands, i, j - 1);
      assert Step(h, run[j - 1], commands[j - 1], run[j - 1 + 1]);
      OnlyProvisioningAdds(h, run[j - 1], commands[j - 1], run[j]);
    }
  }

  /** The sets of a down of one of two services on one network. */
  lemma DownOfOne(h: Hash, st: Stack, store: Store, a: string, b: string, n: string)
    requires a != b && st.services == map[a := [n], b := [n]] && Networks(store.services) == st.services
    ensures TapsOf(h, st.name, st.services, {a}) == {TapID(h, st.name, a, n)}
    ensures Retained(h, st, store, {a}) == {BridgeName(h, st.name), TapID(h, st.name, b, n)}
  {
    hide TapID, BridgeName;
    OneTap(h, st.name, st.services, a, n);
    OneTap(h, st.name, st.services, b, n);
    assert st.services.Keys - {a} == {b};
    assert store.services.Keys == Networks(store.services).Keys;
  }

  /** A down of one of two services takes the bridge from the other. */
  lemma BridgeOfOther(h: Hash, w: World, st: Stack, a: string, b: string, n: string, left: seq<string>)
    requires HexDigest(h) && a != b && st.services == map[a := [n], b := [n]] && Networks(w.store.services) == st.services
    requires TapID(h, st.name, a, n) != TapID(h, st.name, b, n)
    requires Items(left) == {BridgeName(h, st.name), TapID(h, st.name, b, n)}
    requires w.links == Items(left) + {TapID(h, st.name, a, n)} && w.links == Items(w.store.provisioned)
    ensures var w' := World({TapID(h, st.name, b, n)}, w.store.(services := AfterDown(w.store.services, {a}, false), provisioned := left));
            Step(h, w, Down(st, {a}, false), w')
  {
    OtherIsRetained(h, w, st, a, b, n);
    hide TapID, BridgeName, TapsOf, Retained, AfterDown, DownOrphans, Networks, Items, HexDigest, Step;
    var y := TapID(h, st.name, b, n);
    OneLinkLeft(BridgeName(h, st.name), TapID(h, st.name, a, n), y, DownOrphans(h, st, w.store, {a}));
    DownIsStep(h, w, st, {a}, false, {y}, left);
  }

  lemma DownIsStep(h: Hash, w: World, st: Stack, selected: set<string>, removeVolumes: bool, links: set<string>, left: seq<string>)
    requires selected <= w.store.services.Keys
    requires links == w.links - TapsOf(h, st.name, st.services, selected) - {BridgeName(h, st.name)} - DownOrphans(h, st, w.store, selected)
    requires Items(left) == Retained(h, st, w.store, selected) - {""}
    ensures var w' := World(links, w.store.(services := AfterDown(w.store.services, selected, removeVolumes), provisioned := left));
            Step(h, w, Down(st, selected, removeVolumes), w')
  {
    hide TapID, BridgeName, TapsOf, Retained, AfterDown, DownOrphans;
  }

  lemma OtherIsRetained(h: Hash, w: World, st: Stack, a: string, b: string, n: string)
    requires HexDigest(h) && a != b && st.services == map[a := [n], b := [n]] && Networks(w.store.services) == st.services
    ensures TapsOf(h, st.name, st.services, {a}) == {TapID(h, st.name, a, n)}
    ensures Retained(h, st, w.store, {a}) == {BridgeName(h, st.name), TapID(h, st.name, b, n)}
    ensures TapID(h, st.name, b, n) !in DownOrphans(h, st, w.store, {a}) && TapID(h, st.name, b, n) != ""
    ensures BridgeName(h, st.name) != "" && BridgeName(h, st.name) != TapID(h, st.name, b, n)
    ensures a in w.store.services
  {
    assert BridgeName(h, st.name) != "" && TapID(h, st.name, b, n) != "" && BridgeName(h, st.name) != TapID(h, st.name, b, n) by {
      NamesFit(h, st.name, b, n, st.name);
    }
    DownOfOne(h, st, w.store, a, b, n);
    hide TapID, BridgeName, TapsOf, Retained, DownCandidates, DownPlanned;
    assert a in Networks(w.store.services);
  }

  lemma OneLinkLeft(bridge: string, x: string, y: string, orphans: set<string>)
    requires x != y && bridge != y && y !in orphans && bridge != "" && y != ""
    ensures {bridge, y} + {x} - {x} - {bridge} - orphans == {y}
    ensures {bridge, y} - {""} == {bridge, y}
  {
  }

  lemma ReadableNames(h: Hash)
    ensures TapID(h, "s", "a", "n") == "mvc-s-a-n" && TapID(h, "s", "b", "n") == "mvc-s-b-n" && BridgeName(h, "s") == "br-s"
    ensures TapID(h, "s", "a", "n") != TapID(h, "s", "b", "n")
  {
    assert "mvc-s-a-n"[6] != "mvc-s-b-n"[6];
  }

  lemma TwoItems(x: string, y: string)
    ensures Items([x, y]) == {x, y} && x in [x, y]
  {
    assert [x, y][0] == x && [x, y][1] == y;
  }

  lemma ThreeItems(x: string, y: string, z: string)
    ensures Items([x, y, z]) == {x, y, z}
  {
    assert [x, y, z][0] == x && [x, y, z][1] == y && [x, y, z][2] == z;
  }

  function TwoServices(): map<string, ServiceState> {
    map["a" := ServiceState("1", ["n"], Running, 7, 0, false), "b" := ServiceState("2", ["n"], Running, 8, 0, false)]
  }

  /** One such down: the bridge was there, and service b, which stays up, keeps its
      tap and loses its bridge, which the state goes on recording. */
  lemma BridgeTakenAway(h: Hash)
    requires HexDigest(h)
    ensures var st := Stack("s", map["a" := ["n"], "b" := ["n"]]);
            var names := ["br-s", "mvc-s-a-n", "mvc-s-b-n"];
            var w := World(Items(names), Store("s", ["n"], TwoServices(), names));
            && BridgeName(h, "s") in w.links && TapID(h, "s", "b", "n") == "mvc-s-b-n"
            && exists w' :: Step(h, w, Down(st, {"a"}, false), w') && w'.links == {"mvc-s-b-n"} &&
                            BridgeName(h, "s") in w'.store.provisioned
  {
    ReadableNames(h);
    hide TapID, BridgeName, AfterDown, Step, Items, HexDigest;
    var st := Stack("s", map["a" := ["n"], "b" := ["n"]]);
    var br, x, y := BridgeName(h, "s"), TapID(h, "s", "a", "n"), TapID(h, "s", "b", "n");
    var names := [br, x, y];
    ThreeItems(br, x, y);
    TwoItems(br, y);
    var w := World(Items(names), Store("s", ["n"], TwoServices(), names));
    assert Networks(TwoServices()) == st.services;
    BridgeOfOther(h, w, st, "a", "b", "n", [br, y]);
  }

  /** The taps and the attachment of a single service on a single network. */
  lemma OneTap(h: Hash, stack: string, attached: map<string, seq<string>>, s: string, n: string)
    requires s in attached && attached[s] == [n]
    ensures TapsOf(h, stack, attached, {s}) == {TapID(h, stack, s, n)} && AnyAttached(attached, {s})
  {
    hide TapID;
  }
}
