/**
 Planned power-offs, reboots and returns on one host: what the lease does for a host that other executions switch on
 again.
*/
module PowerMixed {
  import opened Common
  import HostLock
  import opened PowerWorkflow

  predicate SwitchesOn(t: Task) {
    t.NovaEnable? || t.MaintenanceOff?
  }

  /** The execution has tried to switch its host on again. */
  ghost predicate SwitchedOn(log: seq<Event>) {
    exists k :: 0 <= k < |log| && SwitchesOn(log[k].task)
  }

  /** Whenever an execution switched the host on, it did so while it could rely on its own lease. */
  ghost predicate OnTime(s: System, host: string, ttl: nat) {
    forall id, k :: id in s.executions && s.executions[id].host == host && 0 <= k < |s.executions[id].log| ==>
      EventOnTime(s.executions[id].log, k, ttl)
  }

  predicate EventOnTime(log: seq<Event>, k: nat, ttl: nat)
    requires k < |log|
  {
    SwitchesOn(log[k].task) ==> log[k].at < LeaseEnd(log[..k], ttl)
  }

  /** As long as everyone is on time, what the holder of the lease has switched off is off. */
  ghost predicate HolderParked(s: System, id: string, ttl: nat)
    requires id in s.executions
  {
    var x := s.executions[id];
    OnTime(s, x.host, ttl) && HostLock.Holds(s.lock, id, x.host) && !SwitchedOn(x.log) ==>
      Parked(x, s.novaEnabled, s.onMaintenance)
  }

  ghost predicate HoldersParked(s: System, ttl: nat) {
    forall id :: id in s.executions ==> HolderParked(s, id, ttl)
  }

  // ---------------------------------------------------------------- what every step keeps

  lemma SwitchedOnSnoc(log: seq<Event>, e: Event)
    ensures SwitchedOn(log + [e]) <==> SwitchedOn(log) || SwitchesOn(e.task)
  {
    var log' := log + [e];
    assert log'[|log|] == e;
    if SwitchedOn(log) {
      var k :| 0 <= k < |log| && SwitchesOn(log[k].task);
      assert log'[k] == log[k];
    }
    if SwitchedOn(log') {
      var k :| 0 <= k < |log'| && SwitchesOn(log'[k].task);
      assert k < |log| ==> log[k] == log'[k];
    }
  }

  /** Logs only grow, so who is on time now always was. */
  lemma OnTimeBefore(s: System, id: string, x: Execution, e: Event, s': System, host: string, ttl: nat)
    requires id in s.executions && x == s.executions[id]
    requires s'.executions == s.executions[id := x.(log := x.log + [e])] && OnTime(s', host, ttl)
    ensures OnTime(s, host, ttl)
    ensures x.host == host && SwitchesOn(e.task) ==> e.at < LeaseEnd(x.log, ttl)
  {
    hide LeaseEnd;
    var log' := x.log + [e];
    forall i, k | i in s.executions && s.executions[i].host == host && 0 <= k < |s.executions[i].log|
      ensures EventOnTime(s.executions[i].log, k, ttl)
    {
      assert EventOnTime(s'.executions[i].log, k, ttl);
      assert i == id ==> log'[..k] == x.log[..k] && log'[k] == x.log[k];
    }
    if x.host == host {
      assert EventOnTime(s'.executions[id].log, |x.log|, ttl);
      assert log'[..|x.log|] == x.log && log'[|x.log|] == e;
    }
  }

  /** Only the first task of an execution can give it the lease. */
  lemma HeldBefore(lock: HostLock.Store, op: HostLock.Op, owner: string, host: string)
    requires HostLock.Holds(HostLock.After(lock, op), owner, host) && !op.Tick?
    requires op.Acquire? ==> op.owner != owner
    ensures HostLock.Holds(lock, owner, host)
  {
    HostLock.KeysOfHostsDiffer(op.host, host);
  }

  lemma TickTakesAway(lock: HostLock.Store, ms: nat, owner: string, host: string)
    requires HostLock.Holds(HostLock.After(lock, HostLock.Tick(ms)), owner, host)
    ensures HostLock.Holds(lock, owner, host)
  {
  }

  lemma AcquireComesFirst(w: Workflow, log: seq<Event>)
    requires Legal(w, log) && PcAfter(w, log) == At(AcquireLock)
    ensures log == []
  {
    var m := LegalLogsHaveShape(w, log);
    ShapeEndsAtPc(w, log, m);
    if m < PathLength(w) {
      PathPositions(w, m);
    }
  }

  lemma NothingDone(x: Execution, e: Event, nova: set<string>, maintenance: set<string>)
    requires x.log == [] && e.task.AcquireLock?
    ensures Parked(x.(log := x.log + [e]), nova, maintenance)
  {
    DidSnoc([], e, NovaDisable);
    DidSnoc([], e, FailSafeHost);
    DidSnoc([], e, MaintenanceOn);
  }

  lemma {:induction false} FinishKeepsOwn(s: System, id: string, o: Outcome, ttl: nat)
    requires LogsFit(s, ttl) && HoldersParked(s, ttl) && FinishTask(s, id, o, ttl).Some?
    ensures HolderParked(FinishTask(s, id, o, ttl).value, id, ttl)
  {
    hide Parked, Legal, LeaseEnd, PcAfter, OnTime, SwitchedOn;
    var s' := FinishTask(s, id, o, ttl).value;
    var x := s.executions[id];
    var e := Event(PcAfter(x.workflow, x.log).task, o.Success?, s.lock.now);
    var op := LockOp(e.task, id, x.host, ttl);
    SwitchedOnSnoc(x.log, e);
    if OnTime(s', x.host, ttl) && HostLock.Holds(s'.lock, id, x.host) && !SwitchedOn(s'.executions[id].log) {
      OnTimeBefore(s, id, x, e, s', x.host, ttl);
      if e.task.AcquireLock? {
        AcquireComesFirst(x.workflow, x.log);
        NothingDone(x, e, s'.novaEnabled, s'.onMaintenance);
      } else {
        if op.Some? && 0 < CallsMade(o) {
          HeldBefore(s.lock, op.value, id, x.host);
        }
        assert HolderParked(s, id, ttl);
        OwnStepParks(x, e, CallsMade(o), s.novaEnabled, s.onMaintenance);
      }
    }
  }

  lemma {:induction false} FinishKeepsOthers(s: System, id: string, o: Outcome, ttl: nat, other: string)
    requires LeasesBacked(s, ttl) && HoldersParked(s, ttl) && FinishTask(s, id, o, ttl).Some?
    requires other in s.executions && other != id
    ensures HolderParked(FinishTask(s, id, o, ttl).value, other, ttl)
  {
    hide Parked, LeaseEnd, PcAfter, OnTime, SwitchedOn;
    var s' := FinishTask(s, id, o, ttl).value;
    var x, y := s.executions[id], s.executions[other];
    var e := Event(PcAfter(x.workflow, x.log).task, o.Success?, s.lock.now);
    var op := LockOp(e.task, id, x.host, ttl);
    if OnTime(s', y.host, ttl) && HostLock.Holds(s'.lock, other, y.host) && !SwitchedOn(y.log) {
      OnTimeBefore(s, id, x, e, s', y.host, ttl);
      if op.Some? && 0 < CallsMade(o) {
        HeldBefore(s.lock, op.value, other, y.host);
      }
      assert HolderParked(s, other, ttl);
      assert LeaseBacked(s.lock, id, x, ttl);
      OthersStepKeepsParked(y, e.task, x.host, CallsMade(o), s.novaEnabled, s.onMaintenance);
    }
  }

  lemma {:induction false} StartKeepsHolders(s: System, id: string, w: Workflow, h: string, ttl: nat)
    requires HoldersParked(s, ttl) && id !in s.executions
    ensures HoldersParked(s.(executions := s.executions[id := Execution(w, h, [])]), ttl)
  {
    hide LeaseEnd, SwitchedOn, EventOnTime;
    var s' := s.(executions := s.executions[id := Execution(w, h, [])]);
    forall i | i in s'.executions
      ensures HolderParked(s', i, ttl)
    {
      if i != id {
        assert HolderParked(s, i, ttl);
        if OnTime(s', s.executions[i].host, ttl) {
          OnTimeWithout(s, s', s.executions[i].host, ttl);
        }
      }
    }
  }

  lemma OnTimeWithout(s: System, s': System, host: string, ttl: nat)
    requires OnTime(s', host, ttl)
    requires forall i :: i in s.executions ==> i in s'.executions && s'.executions[i] == s.executions[i]
    ensures OnTime(s, host, ttl)
  {
    hide EventOnTime;
    forall i, k | i in s.executions && s.executions[i].host == host && 0 <= k < |s.executions[i].log|
      ensures EventOnTime(s.executions[i].log, k, ttl)
    {
      assert EventOnTime(s'.executions[i].log, k, ttl);
    }
  }

  lemma {:induction false} PassKeepsHolders(s: System, ms: nat, ttl: nat)
    requires HoldersParked(s, ttl)
    ensures HoldersParked(s.(lock := HostLock.After(s.lock, HostLock.Tick(ms))), ttl)
  {
    hide LeaseEnd, SwitchedOn, EventOnTime;
    var s' := s.(lock := HostLock.After(s.lock, HostLock.Tick(ms)));
    forall i | i in s'.executions
      ensures HolderParked(s', i, ttl)
    {
      assert HolderParked(s, i, ttl);
      if HostLock.Holds(s'.lock, i, s.executions[i].host) {
        TickTakesAway(s.lock, ms, i, s.executions[i].host);
      }
      if OnTime(s', s.executions[i].host, ttl) {
        OnTimeWithout(s, s', s.executions[i].host, ttl);
      }
    }
  }

  /** In every run, whoever holds the lease of a host finds off what it has switched off, as long as all are on time. */
  lemma {:induction false} ReachedHoldersParked(nova: set<string>, maintenance: set<string>, actions: seq<Action>,
                                                ttl: nat)
    requires Reached(nova, maintenance, actions, ttl).Some?
    ensures HoldersParked(Reached(nova, maintenance, actions, ttl).value, ttl)
  {
    hide HolderParked, LogsFit, LeasesBacked, AllSectionsApart, StaysOff, FinishTask;
    if actions != [] {
      var before, a := actions[..|actions| - 1], actions[|actions| - 1];
      ReachedHoldersParked(nova, maintenance, before, ttl);
      ReachedInvariant(nova, maintenance, before, ttl);
      var s := Reached(nova, maintenance, before, ttl).value;
      match a
      case Start(id, w, h) => StartKeepsHolders(s, id, w, h, ttl);
      case Pass(ms) => PassKeepsHolders(s, ms, ttl);
      case Finish(id, o) =>
        SameExecutions(s, id, o, ttl);
        FinishKeepsOwn(s, id, o, ttl);
        forall other | other in s.executions && other != id
          ensures HolderParked(FinishTask(s, id, o, ttl).value, other, ttl)
        {
          FinishKeepsOthers(s, id, o, ttl, other);
        }
    }
  }

  lemma SameExecutions(s: System, id: string, o: Outcome, ttl: nat)
    requires FinishTask(s, id, o, ttl).Some?
    ensures id in s.executions && FinishTask(s, id, o, ttl).value.executions.Keys == s.executions.Keys
  {
  }

  // ---------------------------------------------------------------- the power-off request

  lemma FirstTasksSwitchNothingOn(w: Workflow, k: nat)
    requires !w.PowerOnAndReturn? && k < 7
    ensures !SwitchesOn(PathTask(w, k))
  {
  }

  lemma {:induction false} NotSwitchedOnYet(w: Workflow, log: seq<Event>)
    requires Legal(w, log) && PcAfter(w, log) == At(RequestOff)
    ensures !SwitchedOn(log)
  {
    hide PathTask, SwitchesOn;
    var m := LegalLogsHaveShape(w, log);
    ShapeEndsAtPc(w, log, m);
    PathPositions(w, m);
    forall k | 0 <= k < |log|
      ensures !SwitchesOn(log[k].task)
    {
      assert OnPath(w, log, m) && k < m;
      FirstTasksSwitchNothingOn(w, k);
    }
  }

  /**
   For any mix of the three workflows: if every execution that switched the host on did so within its own lease, then
   a power-off request within the time to live of its own refresh finds Nova disabled and maintenance on.
   */
  lemma {:induction false} PowerOffFindsHostParked(nova: set<string>, maintenance: set<string>, actions: seq<Action>,
                                                   ttl: nat, id: string)
    requires Reached(nova, maintenance, actions, ttl).Some?
    requires var s := Reached(nova, maintenance, actions, ttl).value;
      && id in s.executions
      && PcAfter(s.executions[id].workflow, s.executions[id].log) == At(RequestOff)
      && OnTime(s, s.executions[id].host, ttl)
      && (Refreshed(s.executions[id].log) ==> s.lock.now < s.executions[id].log[5].at + ttl)
    ensures var s := Reached(nova, maintenance, actions, ttl).value;
      s.executions[id].host !in s.novaEnabled && s.executions[id].host in s.onMaintenance
  {
    hide LeaseEnd, OnTime, SwitchedOn;
    var s := Reached(nova, maintenance, actions, ttl).value;
    var x := s.executions[id];
    ReachedInvariant(nova, maintenance, actions, ttl);
    ReachedHoldersParked(nova, maintenance, actions, ttl);
    PowerOffUnderLease(nova, maintenance, actions, ttl, id);
    AboutToRequestOff(x.workflow, x.log);
    NotSwitchedOnYet(x.workflow, x.log);
    assert HolderParked(s, id, ttl);
  }
}
