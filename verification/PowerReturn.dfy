/**
 What switches a host on again: in every run the last call that was carried out decides whether Nova is enabled and
 maintenance off, and a reboot or return that nobody interferes with ends with the host back in service.
*/
module PowerReturn {
  import opened Common
  import HostLock
  import opened PowerWorkflow

  /** How a system came about: what was enabled and on maintenance first, and everything that happened since. */
  datatype History = History(nova: set<string>, maintenance: set<string>, actions: seq<Action>, ttl: nat)

  /** The system before the k-th action. */
  function SystemAt(h: History, k: nat): Option<System>
    requires k <= |h.actions|
  {
    Reached(h.nova, h.maintenance, h.actions[..k], h.ttl)
  }

  /** The action ends this task on the host, after at least so many of its API calls. */
  predicate Makes(s: System, a: Action, host: string, t: Task, calls: nat) {
    && a.Finish? && a.id in s.executions && s.executions[a.id].host == host
    && PcAfter(s.executions[a.id].workflow, s.executions[a.id].log) == At(t)
    && calls <= CallsMade(a.outcome)
  }

  predicate EnablesNova(s: System, a: Action, host: string) {
    Makes(s, a, host, NovaEnable, 1)
  }

  /** fail_safe_host calls Nova first and Masakari second. */
  predicate DisablesNova(s: System, a: Action, host: string) {
    Makes(s, a, host, NovaDisable, 1) || Makes(s, a, host, FailSafeHost, 1)
  }

  predicate SetsMaintenance(s: System, a: Action, host: string) {
    Makes(s, a, host, MaintenanceOn, 1) || Makes(s, a, host, FailSafeHost, 2)
  }

  predicate EndsMaintenance(s: System, a: Action, host: string) {
    Makes(s, a, host, MaintenanceOff, 1)
  }

  lemma StepSwitches(s: System, a: Action, ttl: nat, host: string)
    requires Next(s, a, ttl).Some?
    ensures var s' := Next(s, a, ttl).value;
      && (host in s'.novaEnabled <==> EnablesNova(s, a, host) || (host in s.novaEnabled && !DisablesNova(s, a, host)))
      && (host in s'.onMaintenance <==>
          SetsMaintenance(s, a, host) || (host in s.onMaintenance && !EndsMaintenance(s, a, host)))
  {
    hide PcAfter, LockOp;
  }

  // ---------------------------------------------------------------- the last call decides

  /** Something that an action can do to a host. */
  type Effect = (System, Action, string) -> bool

  ghost predicate HappensAt(h: History, k: nat, host: string, effect: Effect) {
    k < |h.actions| && SystemAt(h, k).Some? && effect(SystemAt(h, k).value, h.actions[k], host)
  }

  ghost predicate NotSince(h: History, from: nat, host: string, effect: Effect) {
    forall j: nat :: from <= j ==> !HappensAt(h, j, host, effect)
  }

  /** `on` happened and `off` not since; or it was on from the beginning and `off` never happened. */
  ghost predicate LastIs(h: History, host: string, on: Effect, off: Effect, initially: set<string>) {
    || (exists k: nat :: HappensAt(h, k, host, on) && NotSince(h, k + 1, host, off))
    || (host in initially && NotSince(h, 0, host, off))
  }

  lemma {:induction false} HappensBefore(h: History, k: nat, host: string, effect: Effect)
    requires k + 1 < |h.actions|
    ensures HappensAt(h, k, host, effect) <==>
            HappensAt(h.(actions := h.actions[..|h.actions| - 1]), k, host, effect)
  {
    hide Reached;
    assert h.actions[..|h.actions| - 1][..k] == h.actions[..k];
  }

  lemma {:induction false} NotSinceStep(h: History, from: nat, host: string, effect: Effect)
    requires h.actions != [] && from < |h.actions|
    ensures NotSince(h, from, host, effect) <==>
            && NotSince(h.(actions := h.actions[..|h.actions| - 1]), from, host, effect)
            && !HappensAt(h, |h.actions| - 1, host, effect)
  {
    hide HappensAt;
    var before := h.(actions := h.actions[..|h.actions| - 1]);
    forall j: nat | j + 1 < |h.actions|
      ensures HappensAt(h, j, host, effect) <==> HappensAt(before, j, host, effect)
    {
      HappensBefore(h, j, host, effect);
    }
    forall j: nat | |h.actions| <= j + 1
      ensures !HappensAt(before, j, host, effect) && (|h.actions| <= j ==> !HappensAt(h, j, host, effect))
    {
      OutOfRange(before, j, host, effect);
      if |h.actions| <= j {
        OutOfRange(h, j, host, effect);
      }
    }
  }

  lemma OutOfRange(h: History, k: nat, host: string, effect: Effect)
    requires |h.actions| <= k
    ensures !HappensAt(h, k, host, effect)
  {
  }

  lemma {:induction false} LastIsStep(h: History, host: string, on: Effect, off: Effect, initially: set<string>)
    requires h.actions != []
    ensures LastIs(h, host, on, off, initially) <==>
            || HappensAt(h, |h.actions| - 1, host, on)
            || (LastIs(h.(actions := h.actions[..|h.actions| - 1]), host, on, off, initially)
                && !HappensAt(h, |h.actions| - 1, host, off))
  {
    hide HappensAt, NotSince;
    var last := |h.actions| - 1;
    var before := h.(actions := h.actions[..last]);
    NotSinceStep(h, 0, host, off);
    forall k: nat | k < last
      ensures HappensAt(h, k, host, on) <==> HappensAt(before, k, host, on)
      ensures NotSince(h, k + 1, host, off) <==>
              NotSince(before, k + 1, host, off) && !HappensAt(h, last, host, off)
    {
      HappensBefore(h, k, host, on);
      NotSinceStep(h, k + 1, host, off);
    }
    NothingSinceLast(h, host, off);
    forall k: nat | last <= k
      ensures !HappensAt(before, k, host, on) && (last < k ==> !HappensAt(h, k, host, on))
    {
      OutOfRange(before, k, host, on);
      if last < k {
        OutOfRange(h, k, host, on);
      }
    }
    if LastIs(h, host, on, off, initially) && !HappensAt(h, last, host, on) {
      if k: nat :| HappensAt(h, k, host, on) && NotSince(h, k + 1, host, off) {
        assert k < last;
      }
    }
    if LastIs(before, host, on, off, initially) && !HappensAt(h, last, host, off) {
      if k: nat :| HappensAt(before, k, host, on) && NotSince(before, k + 1, host, off) {
        assert k < last;
      }
    }
  }

  lemma NothingSinceLast(h: History, host: string, effect: Effect)
    ensures NotSince(h, |h.actions|, host, effect)
  {
  }

  /**
   In every run of any mix of workflows: Nova is enabled for a host exactly when the last call about it was one that
   enables, and a host is on maintenance exactly when the last call about that set it.
   */
  lemma {:induction false} LastCallDecides(h: History, host: string)
    requires SystemAt(h, |h.actions|).Some?
    ensures var s := SystemAt(h, |h.actions|).value;
      && (host in s.novaEnabled <==> LastIs(h, host, EnablesNova, DisablesNova, h.nova))
      && (host in s.onMaintenance <==> LastIs(h, host, SetsMaintenance, EndsMaintenance, h.maintenance))
    decreases |h.actions|
  {
    hide Next, LastIs, EnablesNova, DisablesNova, SetsMaintenance, EndsMaintenance;
    assert h.actions[..|h.actions|] == h.actions;
    if h.actions == [] {
      NothingHappened(h, host);
    } else {
      var last := |h.actions| - 1;
      var before := h.(actions := h.actions[..last]);
      assert before.actions[..last] == h.actions[..last];
      LastCallDecides(before, host);
      StepSwitches(SystemAt(h, last).value, h.actions[last], h.ttl, host);
      LastIsStep(h, host, EnablesNova, DisablesNova, h.nova);
      LastIsStep(h, host, SetsMaintenance, EndsMaintenance, h.maintenance);
    }
  }

  lemma NothingHappened(h: History, host: string)
    requires h.actions == []
    ensures LastIs(h, host, EnablesNova, DisablesNova, h.nova) <==> host in h.nova
    ensures LastIs(h, host, SetsMaintenance, EndsMaintenance, h.maintenance) <==> host in h.maintenance
  {
    hide EnablesNova, DisablesNova, SetsMaintenance, EndsMaintenance;
  }

  // ---------------------------------------------------------------- a reboot or return left alone

  function Tasks(log: seq<Event>): (tasks: seq<Task>)
    ensures |tasks| == |log| && forall k :: 0 <= k < |log| ==> tasks[k] == log[k].task
  {
    seq(|log|, k requires 0 <= k < |log| => log[k].task)
  }

  /** An execution that succeeds has carried out all of its tasks, in this order, and none of them failed. */
  lemma {:induction false} SucceededDidEverything(w: Workflow, log: seq<Event>)
    requires Legal(w, log) && PcAfter(w, log) == Succeeded
    ensures forall k :: 0 <= k < |log| ==> log[k].ok
    ensures Tasks(log) == match w
      case PlannedPowerOff =>
        [AcquireLock, Resolve, MaintenanceOn, NovaDisable, DrainInstances, RefreshLock, AssertHostSafe,
         RequestOff, WaitOff, AuditSuccess, ReleaseLock]
      case PlannedReboot =>
        [AcquireLock, Resolve, MaintenanceOn, NovaDisable, DrainInstances, RefreshLock, AssertHostSafe,
         RequestOff, WaitOff, RequestOn, WaitOn, WaitNova, VerifyHostReturn, NovaEnable, MaintenanceOff,
         AuditSuccess, ReleaseLock]
      case PowerOnAndReturn =>
        [AcquireLock, Resolve, RequestOn, WaitOn, WaitNova, VerifyHostReturn, NovaEnable, MaintenanceOff,
         AuditSuccess, ReleaseLock]
  {
    hide Legal, PcAfter;
    var m := LegalLogsHaveShape(w, log);
    ShapeEndsAtPc(w, log, m);
    assert m == |log| == PathLength(w);
    assert forall k :: 0 <= k < |log| ==> Tasks(log)[k] == PathTask(w, k);
  }

  ghost predicate Tried(log: seq<Event>, t: Task) {
    exists k :: 0 <= k < |log| && log[k].task == t
  }

  /** What the execution switched on is on, as long as it has not gone to fail_safe_host. */
  ghost predicate BackInService(x: Execution, novaEnabled: set<string>, onMaintenance: set<string>) {
    !Tried(x.log, FailSafeHost) ==>
      && (Did(x.log, NovaEnable) ==> x.host in novaEnabled)
      && (Did(x.log, MaintenanceOff) ==> x.host !in onMaintenance)
  }

  /** No other execution is about the host. */
  ghost predicate Alone(s: System, id: string)
    requires id in s.executions
  {
    forall other :: other in s.executions && s.executions[other].host == s.executions[id].host ==> other == id
  }

  ghost predicate StaysOn(s: System) {
    forall id :: id in s.executions && Alone(s, id) ==> BackInService(s.executions[id], s.novaEnabled, s.onMaintenance)
  }

  lemma TriedSnoc(log: seq<Event>, e: Event, t: Task)
    ensures Tried(log + [e], t) <==> Tried(log, t) || e.task == t
  {
    var log' := log + [e];
    assert log'[|log|] == e;
    if Tried(log, t) {
      var k :| 0 <= k < |log| && log[k].task == t;
      assert log'[k] == log[k];
    }
    if Tried(log', t) {
      var k :| 0 <= k < |log'| && log'[k].task == t;
      assert k < |log| ==> log[k] == log'[k];
    }
  }

  /** Switching off comes before switching on. */
  lemma {:induction false} OffComesFirst(w: Workflow, log: seq<Event>)
    requires Legal(w, log) && PcAfter(w, log) in {At(NovaDisable), At(MaintenanceOn)}
    ensures !Did(log, NovaEnable) && !Did(log, MaintenanceOff)
  {
    hide Legal, PcAfter;
    var m := LegalLogsHaveShape(w, log);
    ShapeEndsAtPc(w, log, m);
    forall k | 0 <= k < |log|
      ensures log[k].task != NovaEnable && log[k].task != MaintenanceOff
    {
      assert log[k].task == PathTask(w, k) && k < m <= 3;
    }
  }

  lemma {:induction false} OwnStepServes(x: Execution, e: Event, calls: nat, nova: set<string>,
                                         maintenance: set<string>)
    requires BackInService(x, nova, maintenance) && (e.ok ==> 2 <= calls)
    requires Legal(x.workflow, x.log) && PcAfter(x.workflow, x.log) == At(e.task)
    ensures BackInService(x.(log := x.log + [e]), NovaAfter(e.task, x.host, calls, nova),
                          MaintenanceAfter(e.task, x.host, calls, maintenance))
  {
    hide Legal, PcAfter, Did, Tried;
    TriedSnoc(x.log, e, FailSafeHost);
    DidSnoc(x.log, e, NovaEnable);
    DidSnoc(x.log, e, MaintenanceOff);
    if e.task == NovaDisable || e.task == MaintenanceOn {
      OffComesFirst(x.workflow, x.log);
    }
  }

  lemma {:induction false} FinishStaysOn(s: System, id: string, o: Outcome, ttl: nat)
    requires LogsFit(s, ttl) && StaysOn(s) && FinishTask(s, id, o, ttl).Some?
    ensures StaysOn(FinishTask(s, id, o, ttl).value)
  {
    hide Legal, BackInService, PcAfter, LockOp;
    var s' := FinishTask(s, id, o, ttl).value;
    var x := s.executions[id];
    var e := Event(PcAfter(x.workflow, x.log).task, o.Success?, s.lock.now);
    forall i | i in s'.executions && Alone(s', i)
      ensures BackInService(s'.executions[i], s'.novaEnabled, s'.onMaintenance)
    {
      AloneBefore(s, s', i);
      if i == id {
        OwnStepServes(x, e, CallsMade(o), s.novaEnabled, s.onMaintenance);
      } else {
        assert s'.executions[id].host == x.host != s.executions[i].host;
        OtherHostServes(s.executions[i], e.task, x.host, CallsMade(o), s.novaEnabled, s.onMaintenance);
      }
    }
  }

  lemma AloneBefore(s: System, s': System, id: string)
    requires id in s.executions && id in s'.executions && Alone(s', id)
    requires forall i :: i in s.executions ==> i in s'.executions && s'.executions[i].host == s.executions[i].host
    ensures Alone(s, id)
  {
  }

  lemma OtherHostServes(x: Execution, t: Task, host: string, calls: nat, nova: set<string>, maintenance: set<string>)
    requires BackInService(x, nova, maintenance) && host != x.host
    ensures BackInService(x, NovaAfter(t, host, calls, nova), MaintenanceAfter(t, host, calls, maintenance))
  {
  }

  lemma {:induction false} ReachedStaysOn(nova: set<string>, maintenance: set<string>, actions: seq<Action>, ttl: nat)
    requires Reached(nova, maintenance, actions, ttl).Some?
    ensures StaysOn(Reached(nova, maintenance, actions, ttl).value)
  {
    hide LogsFit, LeasesBacked, AllSectionsApart, StaysOff, FinishTask, BackInService;
    if actions != [] {
      var before, a := actions[..|actions| - 1], actions[|actions| - 1];
      ReachedStaysOn(nova, maintenance, before, ttl);
      ReachedInvariant(nova, maintenance, before, ttl);
      var s, s' := Reached(nova, maintenance, before, ttl).value, Reached(nova, maintenance, actions, ttl).value;
      if a.Finish? {
        FinishStaysOn(s, a.id, a.outcome, ttl);
      } else {
        forall i | i in s'.executions && Alone(s', i)
          ensures BackInService(s'.executions[i], s'.novaEnabled, s'.onMaintenance)
        {
          if i in s.executions {
            AloneBefore(s, s', i);
          } else {
            NothingServed(s'.executions[i], s'.novaEnabled, s'.onMaintenance);
          }
        }
      }
    }
  }

  lemma NothingServed(x: Execution, nova: set<string>, maintenance: set<string>)
    requires x.log == []
    ensures BackInService(x, nova, maintenance)
  {
  }

  /** A reboot or return that succeeds has switched everything on and never went to fail_safe_host. */
  lemma {:induction false} SucceededSwitchedOn(w: Workflow, log: seq<Event>)
    requires Legal(w, log) && PcAfter(w, log) == Succeeded && !w.PlannedPowerOff?
    ensures Did(log, NovaEnable) && Did(log, MaintenanceOff) && !Tried(log, FailSafeHost)
  {
    hide Legal, PcAfter, PathTask;
    var m := LegalLogsHaveShape(w, log);
    ShapeEndsAtPc(w, log, m);
    assert m == |log| == PathLength(w);
    forall k | 0 <= k < |log|
      ensures log[k].task != FailSafeHost
    {
      PathPositions(w, k);
    }
    var k := ReturnTasks(w);
    assert log[k].task == NovaEnable && log[k + 1].task == MaintenanceOff;
  }

  lemma ReturnTasks(w: Workflow) returns (k: nat)
    requires !w.PlannedPowerOff?
    ensures k + 1 < PathLength(w) && PathTask(w, k) == NovaEnable && PathTask(w, k + 1) == MaintenanceOff
  {
    k := if w.PlannedReboot? then 13 else 6;
  }

  /** A reboot or return that succeeds on a host no other execution is about leaves it enabled and off maintenance. */
  lemma {:induction false} ReturnedHostIsInService(nova: set<string>, maintenance: set<string>, actions: seq<Action>,
                                                   ttl: nat, id: string)
    requires Reached(nova, maintenance, actions, ttl).Some?
    requires var s := Reached(nova, maintenance, actions, ttl).value;
      && id in s.executions && Alone(s, id) && !s.executions[id].workflow.PlannedPowerOff?
      && PcAfter(s.executions[id].workflow, s.executions[id].log) == Succeeded
    ensures var s := Reached(nova, maintenance, actions, ttl).value;
      s.executions[id].host in s.novaEnabled && s.executions[id].host !in s.onMaintenance
  {
    hide Legal, PcAfter, Reached, Did, Tried, LeasesBacked, AllSectionsApart, StaysOff;
    ReachedStaysOn(nova, maintenance, actions, ttl);
    ReachedInvariant(nova, maintenance, actions, ttl);
    var s := Reached(nova, maintenance, actions, ttl).value;
    var x := s.executions[id];
    SucceededSwitchedOn(x.workflow, x.log);
    assert BackInService(x, s.novaEnabled, s.onMaintenance);
  }
}
