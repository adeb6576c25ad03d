/** The `up` loop: start services in order, gate on health, and record what
    happened. */
module StartLoop {
  import opened Common
  import opened Dependencies
  import opened StartOrder

  /** The parts of a service's configuration the loop looks at. */
  datatype ServiceConfig = ServiceConfig(healthcheck: bool, virtiofs: bool, ports: nat)

  type Pid = n: nat | n > 0 witness 1

  /** What the host does for each service: None or false is an error. */
  datatype Env = Env(
    volumes: string -> bool,
    virtiofsd: string -> Option<Pid>,
    sockets: string -> bool,
    start: string -> Option<Pid>,
    forwarders: string -> bool,
    probe: string -> Option<bool>,
    stopVM: string -> bool,
    stopVirtiofsd: string -> bool)

  datatype Event = Started(svc: string, pid: Pid) | Healthy(svc: string) | Degraded(svc: string)

  datatype Status = Running | Stopped | HealthyStatus | DegradedStatus

  datatype Progress = Progress(
    pids: map<string, nat>,
    virtiofsdPIDs: map<string, nat>,
    statuses: map<string, Status>,
    degraded: Option<string>,
    events: seq<Event>)

  predicate HasHealthcheck(cfg: map<string, ServiceConfig>, s: string) {
    s in cfg && cfg[s].healthcheck
  }

  predicate HasShare(cfg: map<string, ServiceConfig>, s: string) {
    s in cfg && cfg[s].virtiofs
  }

  function ConfigOf(cfg: map<string, ServiceConfig>, s: string): ServiceConfig {
    if s in cfg then cfg[s] else ServiceConfig(false, false, 0)
  }

  ghost predicate StartedBefore(events: seq<Event>, i: int, s: string) {
    exists j :: 0 <= j < i && j < |events| && events[j].Started? && events[j].svc == s
  }

  ghost predicate HealthyBefore(events: seq<Event>, i: int, s: string) {
    exists j :: 0 <= j < i && j < |events| && events[j] == Healthy(s)
  }

  /** Whenever a VM is started, each selected direct dependency was started
      earlier and, if it has a healthcheck, was reported healthy. */
  ghost predicate Gated(g: Graph, cfg: map<string, ServiceConfig>, order: seq<string>, events: seq<Event>) {
    forall i, d :: 0 <= i < |events| && events[i].Started? && d in Deps(g, events[i].svc) && d in order ==>
      StartedBefore(events, i, d) && (HasHealthcheck(cfg, d) ==> HealthyBefore(events, i, d))
  }

  /** The events are about the services started so far, each of which has one,
      and the healthy ones have another. */
  ghost predicate Logged(cfg: map<string, ServiceConfig>, started: seq<string>, p: Progress) {
    && (p.degraded.Some? ==> Degraded(p.degraded.value) in p.events)
    && (forall i :: 0 <= i < |p.events| ==> p.events[i].svc in started)
    && (forall i :: 0 <= i < |p.events| && p.events[i].Degraded? ==> i == |p.events| - 1 && p.degraded.Some?)
    && (forall s :: s in started ==> StartedBefore(p.events, |p.events|, s))
    && (forall s :: s in started && HasHealthcheck(cfg, s) && p.degraded != Some(s) ==> HealthyBefore(p.events, |p.events|, s))
  }

  predicate IsPid(recorded: nat, given: Option<Pid>, stopped: bool) {
    given.Some? && recorded == if stopped then 0 else given.value
  }

  /** The recorded pids are those the host gave, but for a degraded service
      that was stopped again. */
  ghost predicate VMPids(env: Env, started: seq<string>, p: Progress) {
    && (forall s :: s in p.pids <==> s in started)
    && (forall s :: s in p.pids ==> IsPid(p.pids[s], env.start(s), p.degraded == Some(s) && env.stopVM(s)))
  }

  ghost predicate VirtiofsdPids(cfg: map<string, ServiceConfig>, env: Env, started: seq<string>, p: Progress) {
    && (forall s :: s in p.virtiofsdPIDs <==> s in started && HasShare(cfg, s))
    && (forall s :: s in p.virtiofsdPIDs ==>
          IsPid(p.virtiofsdPIDs[s], env.virtiofsd(s), p.degraded == Some(s) && env.stopVirtiofsd(s)))
  }

  /** The events tell what the host did. */
  ghost predicate TrueEvents(env: Env, events: seq<Event>) {
    forall i :: 0 <= i < |events| ==>
      match events[i]
      case Started(s, n) => env.start(s) == Some(n)
      case Healthy(s) => env.probe(s) == Some(true)
      case Degraded(s) => env.probe(s) == Some(false)
  }

  ghost predicate StatusesRecorded(cfg: map<string, ServiceConfig>, started: seq<string>, p: Progress) {
    && (forall s :: s in p.statuses <==> s in started && HasHealthcheck(cfg, s))
    && (forall s :: s in p.statuses ==> p.statuses[s] == if p.degraded == Some(s) then DegradedStatus else HealthyStatus)
  }

  /** The recorded pids and statuses. */
  ghost predicate Recorded(cfg: map<string, ServiceConfig>, env: Env, started: seq<string>, p: Progress) {
    VMPids(env, started, p) && VirtiofsdPids(cfg, env, started, p) && StatusesRecorded(cfg, started, p)
  }

  /** The first n services of the order, and no others, have been started; all
      of them but a degraded last one have passed their healthcheck. */
  ghost predicate Reached(cfg: map<string, ServiceConfig>, env: Env, order: seq<string>, n: nat, p: Progress) {
    && n <= |order|
    && (p.degraded.Some? ==> n > 0 && p.degraded.value == order[n - 1] && HasHealthcheck(cfg, order[n - 1]))
    && Logged(cfg, order[..n], p) && Recorded(cfg, env, order[..n], p)
    && TrueEvents(env, p.events) && (forall s :: s in order[..n] ==> !TurnFails(cfg, env, s))
  }

  lemma GatedSnoc(g: Graph, cfg: map<string, ServiceConfig>, order: seq<string>, events: seq<Event>, e: Event)
    requires Gated(g, cfg, order, events)
    requires e.Started? ==> forall d :: d in Deps(g, e.svc) && d in order ==>
               StartedBefore(events, |events|, d) && (HasHealthcheck(cfg, d) ==> HealthyBefore(events, |events|, d))
    ensures Gated(g, cfg, order, events + [e])
  {
    var all := events + [e];
    forall i, d | 0 <= i < |all| && all[i].Started? && d in Deps(g, all[i].svc) && d in order
      ensures StartedBefore(all, i, d) && (HasHealthcheck(cfg, d) ==> HealthyBefore(all, i, d))
    {
      var j :| 0 <= j < i && j < |events| && events[j].Started? && events[j].svc == d;
      assert all[j] == events[j];
      if HasHealthcheck(cfg, d) {
        var k :| 0 <= k < i && k < |events| && events[k] == Healthy(d);
        assert all[k] == events[k];
      }
    }
  }

  lemma StillBefore(events: seq<Event>, e: Event)
    ensures forall s :: StartedBefore(events, |events|, s) ==> StartedBefore(events + [e], |events| + 1, s)
    ensures forall s :: HealthyBefore(events, |events|, s) ==> HealthyBefore(events + [e], |events| + 1, s)
    ensures e.Started? ==> StartedBefore(events + [e], |events| + 1, e.svc)
    ensures e.Healthy? ==> HealthyBefore(events + [e], |events| + 1, e.svc)
  {
    var all := events + [e];
    assert all[|events|] == e;
    forall s | StartedBefore(events, |events|, s) ensures StartedBefore(all, |events| + 1, s) {
      var j :| 0 <= j < |events| && events[j].Started? && events[j].svc == s;
      assert all[j] == events[j];
    }
    forall s | HealthyBefore(events, |events|, s) ensures HealthyBefore(all, |events| + 1, s) {
      var j :| 0 <= j < |events| && events[j] == Healthy(s);
      assert all[j] == events[j];
    }
  }

  /** How a service's turn ended: no healthcheck, or its verdict. */
  datatype Verdict = Unchecked | Passed | Failed(vmStopped: bool, virtiofsdStopped: bool)

  /** The effect of starting svc on the progress. */
  function Turn(p: Progress, svc: string, pid: Pid, virtiofsdPID: nat, v: Verdict): Progress {
    var q := p.(virtiofsdPIDs := if virtiofsdPID > 0 then p.virtiofsdPIDs[svc := virtiofsdPID] else p.virtiofsdPIDs,
                pids := p.pids[svc := pid],
                events := p.events + [Started(svc, pid)]);
    match v
    case Unchecked => q
    case Passed => q.(statuses := q.statuses[svc := HealthyStatus], events := q.events + [Healthy(svc)])
    case Failed(vm, fs) =>
      q.(statuses := q.statuses[svc := DegradedStatus], events := q.events + [Degraded(svc)], degraded := Some(svc),
         pids := if vm then q.pids[svc := 0] else q.pids,
         virtiofsdPIDs := if fs then q.virtiofsdPIDs[svc := 0] else q.virtiofsdPIDs)
  }

  /** What the host says of a service's turn that does not abort. */
  ghost predicate TurnOf(cfg: map<string, ServiceConfig>, env: Env, svc: string, pid: Pid, fs: nat, v: Verdict) {
    && env.start(svc) == Some(pid)
    && (HasShare(cfg, svc) ==> env.virtiofsd(svc).Some?)
    && fs == (if HasShare(cfg, svc) then env.virtiofsd(svc).value else 0)
    && (v.Unchecked? <==> !HasHealthcheck(cfg, svc))
    && (v.Passed? ==> env.probe(svc) == Some(true))
    && (v.Failed? ==>
          && env.probe(svc) == Some(false) && v.vmStopped == env.stopVM(svc)
          && v.virtiofsdStopped == (fs > 0 && env.stopVirtiofsd(svc)))
  }

  lemma TurnLogged(cfg: map<string, ServiceConfig>, started: seq<string>, p: Progress, svc: string, pid: Pid, fs: nat, v: Verdict)
    requires Logged(cfg, started, p) && svc !in started && p.degraded.None?
    requires v.Unchecked? <==> !HasHealthcheck(cfg, svc)
    ensures Logged(cfg, started + [svc], Turn(p, svc, pid, fs, v))
  {
    hide StartedBefore, HealthyBefore;
    var events := p.events + [Started(svc, pid)];
    StillBefore(p.events, Started(svc, pid));
    assert forall s :: s in started + [svc] <==> s in started || s == svc;
    match v
    case Unchecked =>
    case Passed => StillBefore(events, Healthy(svc));
    case Failed(_, _) => StillBefore(events, Degraded(svc));
  }

  lemma ThisPid(pid: Pid, given: Option<Pid>)
    requires given == Some(pid)
    ensures IsPid(pid, given, false) && IsPid(0, given, true)
  {
  }

  lemma TurnPids(cfg: map<string, ServiceConfig>, env: Env, started: seq<string>, p: Progress, svc: string, pid: Pid, fs: nat, v: Verdict)
    requires VMPids(env, started, p) && svc !in started && p.degraded.None?
    requires TurnOf(cfg, env, svc, pid, fs, v)
    ensures VMPids(env, started + [svc], Turn(p, svc, pid, fs, v))
  {
    hide HasHealthcheck, HasShare, IsPid;
    assert forall s :: s in started + [svc] <==> s in started || s == svc;
    ThisPid(pid, env.start(svc));
  }

  lemma TurnFields(p: Progress, svc: string, pid: Pid, fs: nat, v: Verdict)
    requires v.Failed? && v.virtiofsdStopped ==> fs > 0
    ensures var q := Turn(p, svc, pid, fs, v);
            && q.degraded == (if v.Failed? then Some(svc) else p.degraded)
            && q.virtiofsdPIDs == if fs == 0 then p.virtiofsdPIDs
                                  else p.virtiofsdPIDs[svc := if v.Failed? && v.virtiofsdStopped then 0 else fs]
  {
  }

  lemma TurnVirtiofsd(cfg: map<string, ServiceConfig>, env: Env, started: seq<string>, p: Progress, svc: string, pid: Pid, fs: nat, v: Verdict)
    requires VirtiofsdPids(cfg, env, started, p) && svc !in started && p.degraded.None?
    requires TurnOf(cfg, env, svc, pid, fs, v)
    ensures VirtiofsdPids(cfg, env, started + [svc], Turn(p, svc, pid, fs, v))
  {
    hide HasHealthcheck, HasShare, IsPid, Turn;
    TurnFields(p, svc, pid, fs, v);
    assert forall s :: s in started + [svc] <==> s in started || s == svc;
    if HasShare(cfg, svc) { ThisPid(fs, env.virtiofsd(svc)); }
  }

  lemma TurnTrue(cfg: map<string, ServiceConfig>, env: Env, p: Progress, svc: string, pid: Pid, fs: nat, v: Verdict)
    requires TrueEvents(env, p.events) && TurnOf(cfg, env, svc, pid, fs, v)
    ensures TrueEvents(env, Turn(p, svc, pid, fs, v).events)
  {
  }

  lemma TurnStatuses(cfg: map<string, ServiceConfig>, started: seq<string>, p: Progress, svc: string, pid: Pid, fs: nat, v: Verdict)
    requires StatusesRecorded(cfg, started, p) && svc !in started && p.degraded.None?
    requires v.Unchecked? <==> !HasHealthcheck(cfg, svc)
    ensures StatusesRecorded(cfg, started + [svc], Turn(p, svc, pid, fs, v))
  {
    hide HasHealthcheck;
    assert forall s :: s in started + [svc] <==> s in started || s == svc;
  }

  lemma TurnGated(g: Graph, cfg: map<string, ServiceConfig>, order: seq<string>, n: nat, p: Progress, pid: Pid, fs: nat, v: Verdict)
    requires n < |order| && Logged(cfg, order[..n], p) && Gated(g, cfg, order, p.events) && p.degraded.None?
    requires forall d :: d in Deps(g, order[n]) && d in order ==> d in order[..n]
    ensures Gated(g, cfg, order, Turn(p, order[n], pid, fs, v).events)
  {
    hide StartedBefore, HealthyBefore, Gated;
    var svc := order[n];
    GatedSnoc(g, cfg, order, p.events, Started(svc, pid));
    var events := p.events + [Started(svc, pid)];
    if v.Passed? { GatedSnoc(g, cfg, order, events, Healthy(svc)); }
    if v.Failed? { GatedSnoc(g, cfg, order, events, Degraded(svc)); }
  }

  lemma TurnReached(g: Graph, cfg: map<string, ServiceConfig>, env: Env, order: seq<string>, n: nat, p: Progress,
                    pid: Pid, fs: nat, v: Verdict)
    requires n < |order| && Distinct(order)
    requires forall d :: d in Deps(g, order[n]) && d in order ==> d in order[..n]
    requires Reached(cfg, env, order, n, p) && Gated(g, cfg, order, p.events) && p.degraded.None?
    requires TurnOf(cfg, env, order[n], pid, fs, v) && !TurnFails(cfg, env, order[n])
    ensures Reached(cfg, env, order, n + 1, Turn(p, order[n], pid, fs, v))
    ensures Gated(g, cfg, order, Turn(p, order[n], pid, fs, v).events)
  {
    hide Logged, VMPids, VirtiofsdPids, StatusesRecorded, Gated, TrueEvents, TurnFails, HasShare;
    assert order[..n + 1] == order[..n] + [order[n]] && order[n] !in order[..n];
    TurnLogged(cfg, order[..n], p, order[n], pid, fs, v);
    TurnTrue(cfg, env, p, order[n], pid, fs, v);
    TurnPids(cfg, env, order[..n], p, order[n], pid, fs, v);
    TurnVirtiofsd(cfg, env, order[..n], p, order[n], pid, fs, v);
    TurnStatuses(cfg, order[..n], p, order[n], pid, fs, v);
    assert Gated(g, cfg, order, Turn(p, order[n], pid, fs, v).events) by { TurnGated(g, cfg, order, n, p, pid, fs, v); }
  }

  /** The turn gets as far as a running VM. */
  predicate VMStarts(cfg: map<string, ServiceConfig>, env: Env, svc: string) {
    && env.volumes(svc)
    && (ConfigOf(cfg, svc).virtiofs ==> env.virtiofsd(svc).Some? && env.sockets(svc))
    && env.start(svc).Some?
  }

  /** The outcomes that abort `up` during a service's turn. */
  predicate TurnFails(cfg: map<string, ServiceConfig>, env: Env, svc: string) {
    || !VMStarts(cfg, env, svc)
    || (ConfigOf(cfg, svc).ports > 0 && !env.forwarders(svc))
    || (ConfigOf(cfg, svc).healthcheck && env.probe(svc).None?)
  }

  /** Written out: the host refuses a volume, virtiofsd or one of its sockets,
      the VM, a forwarder, or the probe itself. */
  lemma TurnFailsWhen(cfg: map<string, ServiceConfig>, env: Env, svc: string)
    ensures TurnFails(cfg, env, svc) <==>
              || !env.volumes(svc)
              || (svc in cfg && cfg[svc].virtiofs && (env.virtiofsd(svc) == None || !env.sockets(svc)))
              || env.start(svc) == None
              || (svc in cfg && cfg[svc].ports > 0 && !env.forwarders(svc))
              || (svc in cfg && cfg[svc].healthcheck && env.probe(svc) == None)
  {
  }

  /** The services whose VM was started, in order. */
  function Starts(events: seq<Event>): seq<string> {
    if events == [] then []
    else
      var e := events[|events| - 1];
      Starts(events[..|events| - 1]) + (if e.Started? then [e.svc] else [])
  }

  lemma StartsSnoc(events: seq<Event>, e: Event)
    ensures Starts(events + [e]) == Starts(events) + (if e.Started? then [e.svc] else [])
    ensures Starts([]) == []
  {
    assert (events + [e])[..|events|] == events;
  }

  lemma TurnStarts(p: Progress, svc: string, pid: Pid, fs: nat, v: Verdict)
    ensures p.events <= Turn(p, svc, pid, fs, v).events
    ensures Starts(Turn(p, svc, pid, fs, v).events) == Starts(p.events) + [svc]
  {
    var events := p.events + [Started(svc, pid)];
    StartsSnoc(p.events, Started(svc, pid));
    StartsSnoc(events, Healthy(svc));
    StartsSnoc(events, Degraded(svc));
  }

  /** What an aborted turn did: nothing, or the VM was started and nothing more. */
  function AbortedTurn(cfg: map<string, ServiceConfig>, env: Env, svc: string, events: seq<Event>): seq<Event> {
    if VMStarts(cfg, env, svc) then events + [Started(svc, env.start(svc).value)] else events
  }

  /** A degraded service has the last event. */
  ghost predicate DegradedLast(events: seq<Event>) {
    forall i :: 0 <= i < |events| && events[i].Degraded? ==> i == |events| - 1
  }

  /** Whatever the turn came to, starts are gated on direct dependencies. */
  lemma AbortGated(g: Graph, cfg: map<string, ServiceConfig>, env: Env, order: seq<string>, n: nat, p: Progress)
    requires n < |order| && Reached(cfg, env, order, n, p) && Gated(g, cfg, order, p.events) && p.degraded.None?
    requires forall d :: d in Deps(g, order[n]) && d in order ==> d in order[..n]
    ensures var events := AbortedTurn(cfg, env, order[n], p.events);
            && p.events <= events && Gated(g, cfg, order, events) && DegradedLast(events) && TrueEvents(env, events)
            && Starts(events) == Starts(p.events) + (if VMStarts(cfg, env, order[n]) then [order[n]] else [])
  {
    hide Gated, Recorded, StartedBefore, HealthyBefore;
    if VMStarts(cfg, env, order[n]) {
      var pid := env.start(order[n]).value;
      TurnGated(g, cfg, order, n, p, pid, 0, Unchecked);
      TurnStarts(p, order[n], pid, 0, Unchecked);
    }
  }

  /** One service's turn. None is an error that aborts `up` before anything is
      recorded; the events say what has happened either way. */
  method StartOne(g: Graph, cfg: map<string, ServiceConfig>, env: Env, order: seq<string>, n: nat, before: Progress)
    returns (after: Option<Progress>, events: seq<Event>)
    requires n < |order| && Distinct(order)
    requires forall d :: d in Deps(g, order[n]) && d in order ==> d in order[..n]
    requires Reached(cfg, env, order, n, before) && Gated(g, cfg, order, before.events) && before.degraded.None?
    ensures before.events <= events && Gated(g, cfg, order, events) && DegradedLast(events) && TrueEvents(env, events)
    ensures Starts(events) == Starts(before.events) + (if VMStarts(cfg, env, order[n]) then [order[n]] else [])
    ensures after.None? <==> TurnFails(cfg, env, order[n])
    ensures after.None? ==> events == AbortedTurn(cfg, env, order[n], before.events)
    ensures after.Some? ==> Reached(cfg, env, order, n + 1, after.value) && events == after.value.events
    ensures after.Some? ==> (after.value.degraded.Some? <==>
              HasHealthcheck(cfg, order[n]) && env.probe(order[n]) == Some(false))
  {
    hide Logged, Recorded, Gated, Reached, Distinct, DegradedLast, Starts, Deps, TrueEvents;
    var svc := order[n];
    var p := before;
    events := before.events;
    AbortGated(g, cfg, env, order, n, before);
    if !env.volumes(svc) {
      return None, events;
    }
    var virtiofsdPID: nat := 0;
    if ConfigOf(cfg, svc).virtiofs {
      var fs := env.virtiofsd(svc);
      if fs.None? || !env.sockets(svc) {
        return None, events;
      }
      virtiofsdPID := fs.value;
      p := p.(virtiofsdPIDs := p.virtiofsdPIDs[svc := virtiofsdPID]);
    }
    var pid := env.start(svc);
    if pid.None? {
      return None, events;
    }
    p := p.(pids := p.pids[svc := pid.value], events := p.events + [Started(svc, pid.value)]);
    events := p.events;
    if ConfigOf(cfg, svc).ports > 0 && !env.forwarders(svc) {
      return None, events;
    }
    ghost var verdict := Unchecked;
    if ConfigOf(cfg, svc).healthcheck {
      var healthy := env.probe(svc);
      if healthy.None? {
        return None, events;
      }
      if healthy.value {
        verdict := Passed;
        p := p.(statuses := p.statuses[svc := HealthyStatus], events := p.events + [Healthy(svc)]);
      } else {
        verdict := Failed(env.stopVM(svc), virtiofsdPID != 0 && env.stopVirtiofsd(svc));
        p := p.(statuses := p.statuses[svc := DegradedStatus], events := p.events + [Degraded(svc)], degraded := Some(svc));
        if env.stopVM(svc) {
          p := p.(pids := p.pids[svc := 0]);
        }
        if virtiofsdPID != 0 && env.stopVirtiofsd(svc) {
          p := p.(virtiofsdPIDs := p.virtiofsdPIDs[svc := 0]);
        }
      }
    }
    events := p.events;
    assert p == Turn(before, svc, pid.value, virtiofsdPID, verdict);
    TurnReached(g, cfg, env, order, n, before, pid.value, virtiofsdPID, verdict);
    TurnStarts(before, svc, pid.value, virtiofsdPID, verdict);
    ReachedEvents(cfg, env, order, n + 1, p);
    return Some(p), events;
  }

  lemma ReachedEvents(cfg: map<string, ServiceConfig>, env: Env, order: seq<string>, n: nat, p: Progress)
    requires Reached(cfg, env, order, n, p)
    ensures DegradedLast(p.events) && TrueEvents(env, p.events)
  {
  }

  /** The start loop of upRun. `reached` counts the services whose turn was
      completed. On every run, aborted or not, the VMs started are a prefix of
      the order, each after its selected direct dependencies were started and
      found healthy, and nothing follows a degraded service. */
  method StartServices(g: Graph, cfg: map<string, ServiceConfig>, env: Env, order: seq<string>)
    returns (result: Option<Progress>, reached: nat, events: seq<Event>)
    requires Distinct(order)
    requires forall i, d :: 0 <= i < |order| && d in Deps(g, order[i]) && d in order ==> d in order[..i]
    ensures Gated(g, cfg, order, events) && DegradedLast(events) && TrueEvents(env, events) && reached <= |order|
    ensures Starts(events) ==
            order[..reached] + (if result.None? && reached < |order| && VMStarts(cfg, env, order[reached]) then [order[reached]] else [])
    ensures result.Some? ==> Reached(cfg, env, order, reached, result.value) && events == result.value.events
    ensures result.Some? ==> (reached == |order| || result.value.degraded.Some?)
    ensures result.None? ==> reached < |order| && TurnFails(cfg, env, order[reached])
  {
    hide Starts, VMStarts;
    var p := Progress(map[], map[], map[], None, []);
    reached, events := 0, [];
    StartsSnoc([], Healthy(""));
    while reached < |order|
      invariant Reached(cfg, env, order, reached, p) && Gated(g, cfg, order, p.events)
      invariant p.degraded.None? && events == p.events && DegradedLast(events) && TrueEvents(env, events)
      invariant Starts(events) == order[..reached]
    {
      var next;
      next, events := StartOne(g, cfg, env, order, reached, p);
      if next.None? {
        return None, reached, events;
      }
      p := next.value;
      StartedWhenDone(cfg, env, order[reached]);
      assert order[..reached + 1] == order[..reached] + [order[reached]];
      reached := reached + 1;
      if p.degraded.Some? {
        break;
      }
    }
    assert order[..reached] + [] == order[..reached];
    return Some(p), reached, events;
  }

  lemma StartedWhenDone(cfg: map<string, ServiceConfig>, env: Env, svc: string)
    requires !TurnFails(cfg, env, svc)
    ensures VMStarts(cfg, env, svc)
  {
  }

  /** Nothing is started after a degraded service. */
  lemma DegradedEndsTheRun(cfg: map<string, ServiceConfig>, env: Env, order: seq<string>, n: nat, p: Progress, later: string)
    requires Reached(cfg, env, order, n, p) && later in order[n..] && Distinct(order)
    ensures forall i :: 0 <= i < |p.events| ==> p.events[i].svc != later
    ensures later !in p.pids && later !in p.statuses
  {
    var j :| 0 <= j < |order[n..]| && order[n..][j] == later;
    assert order[n + j] == later;
  }

  // ---- buildStore ----

  /** The fields of state.ServiceState that the lifecycle reads back. */
  datatype ServiceState = ServiceState(id: string, networks: seq<string>, status: Status, pid: nat, virtiofsdPID: nat, stale: bool)

  function Lookup(m: map<string, nat>, s: string): nat {
    if s in m then m[s] else 0
  }

  function StatusOf(p: Progress, s: string): Status {
    if s in p.statuses then p.statuses[s] else if Lookup(p.pids, s) > 0 then Running else Stopped
  }

  /** The entry buildStore makes for a configured service. */
  ghost predicate FreshEntry(networks: map<string, seq<string>>, p: Progress, prev: map<string, ServiceState>, newID: string -> string,
                             s: string, e: ServiceState)
    requires s in networks
  {
    && e.networks == networks[s] && !e.stale
    && e.pid == Lookup(p.pids, s) && e.virtiofsdPID == Lookup(p.virtiofsdPIDs, s)
    && e.status == StatusOf(p, s)
    && e.id == (if s in prev && prev[s].id != "" then prev[s].id else newID(s))
  }

  /** The body of buildStore's loop: one fresh entry, keeping the identity. */
  method BuildService(networks: map<string, seq<string>>, p: Progress, prev: map<string, ServiceState>, newID: string -> string, s: string)
    returns (e: ServiceState)
    requires s in networks
    ensures FreshEntry(networks, p, prev, newID, s, e)
  {
    var pid := Lookup(p.pids, s);
    var status := Stopped;
    if pid > 0 {
      status := Running;
    }
    if s in p.statuses {
      status := p.statuses[s];
    }
    var id := "";
    if s in prev {
      id := prev[s].id;
    }
    if id == "" {
      id := newID(s);
    }
    e := ServiceState(id, networks[s], status, pid, Lookup(p.virtiofsdPIDs, s), false);
  }

  /** buildStore's services: one fresh entry per configured service, and one
      stale entry per service the configuration has lost. */
  method BuildServices(networks: map<string, seq<string>>, p: Progress, prev: map<string, ServiceState>, newID: string -> string)
    returns (store: map<string, ServiceState>)
    ensures store.Keys == networks.Keys + prev.Keys
    ensures forall s :: s in networks ==> FreshEntry(networks, p, prev, newID, s, store[s])
    ensures forall s :: s in prev && s !in networks ==> store[s] == prev[s].(stale := true)
  {
    hide FreshEntry;
    store := map[];
    var names := networks.Keys;
    while names != {}
      invariant names <= networks.Keys && store.Keys == networks.Keys - names
      invariant forall s :: s in store ==> FreshEntry(networks, p, prev, newID, s, store[s])
      decreases names
    {
      var s :| s in names;
      names := names - {s};
      var e := BuildService(networks, p, prev, newID, s);
      store := store[s := e];
    }
    var lost := prev.Keys;
    while lost != {}
      invariant lost <= prev.Keys
      invariant store.Keys == networks.Keys + (prev.Keys - lost)
      invariant forall s :: s in networks ==> FreshEntry(networks, p, prev, newID, s, store[s])
      invariant forall s :: s in prev && s !in networks && s !in lost ==> store[s] == prev[s].(stale := true)
      decreases lost
    {
      var s :| s in lost;
      lost := lost - {s};
      if s !in store {
        store := store[s := prev[s].(stale := true)];
      }
    }
  }

  /** What the state says after the run: services never reached are stopped with
      no pid. The others have the pids the host gave them, but for a degraded
      one, which is marked so and loses each pid that could be stopped. */
  lemma RecordedState(cfg: map<string, ServiceConfig>, env: Env, order: seq<string>, n: nat, p: Progress, s: string)
    requires Reached(cfg, env, order, n, p)
    ensures s !in order[..n] ==> StatusOf(p, s) == Stopped && Lookup(p.pids, s) == 0 && Lookup(p.virtiofsdPIDs, s) == 0
    ensures s in order[..n] ==>
              var share := s in cfg && cfg[s].virtiofs;
              && env.start(s).Some? && (share ==> env.virtiofsd(s).Some?)
              && (p.degraded == Some(s) ==>
                    && StatusOf(p, s) == DegradedStatus
                    && Lookup(p.pids, s) == (if env.stopVM(s) then 0 else env.start(s).value)
                    && Lookup(p.virtiofsdPIDs, s) == (if share && !env.stopVirtiofsd(s) then env.virtiofsd(s).value else 0))
              && (p.degraded != Some(s) ==>
                    && StatusOf(p, s) == (if s in cfg && cfg[s].healthcheck then HealthyStatus else Running)
                    && Lookup(p.pids, s) == env.start(s).value
                    && Lookup(p.virtiofsdPIDs, s) == (if share then env.virtiofsd(s).value else 0))
  {
    hide Logged, TrueEvents, TurnFails;
  }

  /** The part of `up` from ordering to recording, as one. On every run, also
      one that ends in an error, each VM is started once and only after its
      selected direct dependencies were started and found healthy, nothing
      follows a degraded service, and the events tell what the host did. A run
      ends in an error exactly when the order has a cycle or the turn of a
      service it came to fails. A run that saves its state records for each
      configured service the pids of the processes it has left running, 0 for
      all others, the status those events make, and the identity it had. */
  method UpServices(g: Graph, cfg: map<string, ServiceConfig>, env: Env, selected: seq<string>,
                    networks: map<string, seq<string>>, prev: map<string, ServiceState>, newID: string -> string)
    returns (store: Option<map<string, ServiceState>>, events: seq<Event>)
    // The order of the events.
    ensures forall i, d :: 0 <= i < |events| && events[i].Started? && events[i].svc in g && d in g[events[i].svc] && d in selected ==>
              && (exists j :: 0 <= j < i && events[j].Started? && events[j].svc == d)
              && (d in cfg && cfg[d].healthcheck ==> exists j :: 0 <= j < i && events[j] == Healthy(d))
    ensures forall i :: 0 <= i < |events| && events[i].Degraded? ==> i == |events| - 1
    ensures forall i :: 0 <= i < |events| && events[i].Started? ==> events[i].svc in selected
    ensures forall i, j :: 0 <= i < j < |events| && events[i].Started? && events[j].Started? ==> events[i].svc != events[j].svc
    // Their truth.
    ensures forall s, n: Pid :: Started(s, n) in events ==> env.start(s) == Some(n)
    ensures forall s :: Healthy(s) in events ==> env.probe(s) == Some(true)
    ensures forall s :: Degraded(s) in events ==> env.probe(s) == Some(false)
    // When the run is an error.
    ensures !Acyclic(Induced(g, set n | n in selected :: n)) ==> store.None? && events == []
    ensures store.None? && Acyclic(Induced(g, set n | n in selected :: n)) ==>
              exists s :: s in selected && TurnFails(cfg, env, s)
    ensures store.Some? ==> forall s, n: Pid :: Started(s, n) in events ==> !TurnFails(cfg, env, s)
    ensures store.Some? ==> (exists s :: Degraded(s) in events) || forall s :: s in selected ==> exists n: Pid :: Started(s, n) in events
    // What is saved.
    ensures store.Some? ==> store.value.Keys == networks.Keys + prev.Keys
    ensures store.Some? ==> forall s :: s in prev && s !in networks ==> store.value[s] == prev[s].(stale := true)
    ensures store.Some? ==> forall s :: s in networks ==>
              && store.value[s].networks == networks[s] && !store.value[s].stale
              && store.value[s].id == (if s in prev && prev[s].id != "" then prev[s].id else newID(s))
    ensures store.Some? ==> forall s :: s in networks && (forall n: Pid :: Started(s, n) !in events) ==>
              store.value[s].status == Stopped && store.value[s].pid == 0 && store.value[s].virtiofsdPID == 0
    ensures store.Some? ==> forall s, n: Pid :: s in networks && Started(s, n) in events && Degraded(s) !in events ==>
              && store.value[s].pid == n
              && (s in cfg && cfg[s].virtiofs ==> env.virtiofsd(s).Some?)
              && store.value[s].virtiofsdPID == (if s in cfg && cfg[s].virtiofs then env.virtiofsd(s).value else 0)
              && store.value[s].status == (if s in cfg && cfg[s].healthcheck then HealthyStatus else Running)
    ensures store.Some? ==> forall s, n: Pid :: s in networks && Started(s, n) in events && Degraded(s) in events ==>
              && store.value[s].pid == (if env.stopVM(s) then 0 else n)
              && (s in cfg && cfg[s].virtiofs ==> env.virtiofsd(s).Some?)
              && store.value[s].virtiofsdPID ==
                 (if s in cfg && cfg[s].virtiofs && !env.stopVirtiofsd(s) then env.virtiofsd(s).value else 0)
              && store.value[s].status == DegradedStatus
  {
    hide Distinct, Deps, Acyclic, Starts, TurnFails, VMStarts, HasHealthcheck, StartedBefore, HealthyBefore, Reached, Gated, TrueEvents, DegradedLast, Induced, StatusOf, Lookup, FreshEntry;
    var order := ComputeStartOrder(g, selected);
    if order.None? {
      return None, [];
    }
    var p, n;
    p, n, events := StartServices(g, cfg, env, order.value);
    EventsTell(g, cfg, env, order.value, n, events);
    assert forall s :: s in order.value <==> s in selected;
    if p.None? {
      assert order.value[n] in order.value;
      return None, events;
    }
    var services := BuildServices(networks, p.value, prev, newID);
    StoreIsSaved(networks, prev, newID, cfg, env, order.value, n, p.value, services);
    AllStarted(cfg, env, order.value, n, p.value);
    return Some(services), events;
  }

  /** What gating, the starts and the events' truth come to. */
  lemma EventsTell(g: Graph, cfg: map<string, ServiceConfig>, env: Env, order: seq<string>, n: nat, events: seq<Event>)
    requires Gated(g, cfg, order, events) && DegradedLast(events) && TrueEvents(env, events)
    requires Distinct(order) && n <= |order|
    requires Starts(events) == order[..n] || (n < |order| && Starts(events) == order[..n] + [order[n]])
    ensures forall i, d :: 0 <= i < |events| && events[i].Started? && events[i].svc in g && d in g[events[i].svc] && d in order ==>
              && (exists j :: 0 <= j < i && events[j].Started? && events[j].svc == d)
              && (d in cfg && cfg[d].healthcheck ==> exists j :: 0 <= j < i && events[j] == Healthy(d))
    ensures forall i :: 0 <= i < |events| && events[i].Degraded? ==> i == |events| - 1
    ensures forall i :: 0 <= i < |events| && events[i].Started? ==> events[i].svc in order
    ensures forall i, j :: 0 <= i < j < |events| && events[i].Started? && events[j].Started? ==> events[i].svc != events[j].svc
    ensures forall s, n: Pid :: Started(s, n) in events ==> env.start(s) == Some(n)
    ensures forall s :: Healthy(s) in events ==> env.probe(s) == Some(true)
    ensures forall s :: Degraded(s) in events ==> env.probe(s) == Some(false)
  {
    hide Starts, Deps, Gated, StartedBefore, HealthyBefore, HasHealthcheck, Distinct;
    GatedTells(g, cfg, order, events);
    assert Starts(events) <= order && Distinct(Starts(events)) by { StartsArePrefix(order, n, Starts(events)); }
    StartsOnce(events);
  }

  lemma GatedTells(g: Graph, cfg: map<string, ServiceConfig>, order: seq<string>, events: seq<Event>)
    requires Gated(g, cfg, order, events)
    ensures forall i, d :: 0 <= i < |events| && events[i].Started? && events[i].svc in g && d in g[events[i].svc] && d in order ==>
              && (exists j :: 0 <= j < i && events[j].Started? && events[j].svc == d)
              && (d in cfg && cfg[d].healthcheck ==> exists j :: 0 <= j < i && events[j] == Healthy(d))
  {
    forall i, d | 0 <= i < |events| && events[i].Started? && events[i].svc in g && d in g[events[i].svc] && d in order
      ensures exists j :: 0 <= j < i && events[j].Started? && events[j].svc == d
      ensures d in cfg && cfg[d].healthcheck ==> exists j :: 0 <= j < i && events[j] == Healthy(d)
    {
      assert d in Deps(g, events[i].svc);
      assert StartedBefore(events, i, d);
      assert HasHealthcheck(cfg, d) ==> HealthyBefore(events, i, d);
    }
  }

  lemma StartsArePrefix(order: seq<string>, n: nat, starts: seq<string>)
    requires Distinct(order) && n <= |order|
    requires starts == order[..n] || (n < |order| && starts == order[..n] + [order[n]])
    ensures Distinct(starts) && starts <= order
  {
    if starts != order[..n] { assert starts == order[..n + 1]; }
  }

  lemma {:induction false} StartsOnce(events: seq<Event>)
    requires Distinct(Starts(events))
    ensures forall i, j :: 0 <= i < j < |events| && events[i].Started? && events[j].Started? ==> events[i].svc != events[j].svc
    ensures forall i :: 0 <= i < |events| && events[i].Started? ==> events[i].svc in Starts(events)
  {
    if events != [] {
      var init := events[..|events| - 1];
      assert Starts(init) <= Starts(events);
      StartsOnce(init);
      assert forall i :: 0 <= i < |init| ==> events[i] == init[i];
      var e := events[|events| - 1];
      if e.Started? {
        assert Starts(events)[|Starts(init)|] == e.svc;
      }
    }
  }

  /** The services started have an event of it, with the pid the host gave. */
  lemma StartedEvents(cfg: map<string, ServiceConfig>, env: Env, order: seq<string>, n: nat, p: Progress, s: string)
    requires Reached(cfg, env, order, n, p)
    ensures s in order[..n] ==> env.start(s).Some? && Started(s, env.start(s).value) in p.events
    ensures forall m: Pid :: Started(s, m) in p.events ==> s in order[..n] && env.start(s) == Some(m)
    ensures Degraded(s) in p.events <==> p.degraded == Some(s)
  {
    hide Recorded, TurnFails, HasHealthcheck;
    if s in order[..n] {
      var j :| 0 <= j < |p.events| && p.events[j].Started? && p.events[j].svc == s;
      assert p.events[j] == Started(s, p.events[j].pid);
    }
    if Degraded(s) in p.events {
      var i :| 0 <= i < |p.events| && p.events[i] == Degraded(s);
      var j :| 0 <= j < |p.events| && p.events[j] == Degraded(p.degraded.value);
    }
  }

  lemma AllStarted(cfg: map<string, ServiceConfig>, env: Env, order: seq<string>, n: nat, p: Progress)
    requires Reached(cfg, env, order, n, p) && (n == |order| || p.degraded.Some?)
    ensures forall s, m: Pid :: Started(s, m) in p.events ==> !TurnFails(cfg, env, s)
    ensures (exists s :: Degraded(s) in p.events) || forall s :: s in order ==> exists m: Pid :: Started(s, m) in p.events
  {
    hide Logged, Recorded, TurnFails;
    forall s ensures forall m: Pid :: Started(s, m) in p.events ==> !TurnFails(cfg, env, s) {
      StartedEvents(cfg, env, order, n, p, s);
    }
    if p.degraded.Some? {
      StartedEvents(cfg, env, order, n, p, p.degraded.value);
    } else {
      assert order[..n] == order;
      forall s | s in order ensures exists m: Pid :: Started(s, m) in p.events {
        StartedEvents(cfg, env, order, n, p, s);
      }
    }
  }

  lemma StoreIsSaved(networks: map<string, seq<string>>, prev: map<string, ServiceState>, newID: string -> string,
                     cfg: map<string, ServiceConfig>, env: Env, order: seq<string>, n: nat, p: Progress, store: map<string, ServiceState>)
    requires Reached(cfg, env, order, n, p) && networks.Keys <= store.Keys
    requires forall s :: s in networks ==> FreshEntry(networks, p, prev, newID, s, store[s])
    ensures forall s :: s in networks ==>
              && store[s].networks == networks[s] && !store[s].stale
              && store[s].id == (if s in prev && prev[s].id != "" then prev[s].id else newID(s))
    ensures forall s :: s in networks && (forall n: Pid :: Started(s, n) !in p.events) ==>
              store[s].status == Stopped && store[s].pid == 0 && store[s].virtiofsdPID == 0
    ensures forall s, n: Pid :: s in networks && Started(s, n) in p.events && Degraded(s) !in p.events ==>
              && store[s].pid == n
              && (s in cfg && cfg[s].virtiofs ==> env.virtiofsd(s).Some?)
              && store[s].virtiofsdPID == (if s in cfg && cfg[s].virtiofs then env.virtiofsd(s).value else 0)
              && store[s].status == (if s in cfg && cfg[s].healthcheck then HealthyStatus else Running)
    ensures forall s, n: Pid :: s in networks && Started(s, n) in p.events && Degraded(s) in p.events ==>
              && store[s].pid == (if env.stopVM(s) then 0 else n)
              && (s in cfg && cfg[s].virtiofs ==> env.virtiofsd(s).Some?)
              && store[s].virtiofsdPID ==
                 (if s in cfg && cfg[s].virtiofs && !env.stopVirtiofsd(s) then env.virtiofsd(s).value else 0)
              && store[s].status == DegradedStatus
  {
    hide Reached, StatusOf, Lookup;
    forall s | s in networks
      ensures (forall n: Pid :: Started(s, n) !in p.events) ==>
                store[s].status == Stopped && store[s].pid == 0 && store[s].virtiofsdPID == 0
      ensures forall n: Pid :: Started(s, n) in p.events && Degraded(s) !in p.events ==>
                && store[s].pid == n
                && (s in cfg && cfg[s].virtiofs ==> env.virtiofsd(s).Some?)
                && store[s].virtiofsdPID == (if s in cfg && cfg[s].virtiofs then env.virtiofsd(s).value else 0)
                && store[s].status == (if s in cfg && cfg[s].healthcheck then HealthyStatus else Running)
      ensures forall n: Pid :: Started(s, n) in p.events && Degraded(s) in p.events ==>
                && store[s].pid == (if env.stopVM(s) then 0 else n)
                && (s in cfg && cfg[s].virtiofs ==> env.virtiofsd(s).Some?)
                && store[s].virtiofsdPID ==
                   (if s in cfg && cfg[s].virtiofs && !env.stopVirtiofsd(s) then env.virtiofsd(s).value else 0)
                && store[s].status == DegradedStatus
    {
      RecordedState(cfg, env, order, n, p, s);
      StartedEvents(cfg, env, order, n, p, s);
    }
  }
}
