/** When a task of the workbook can succeed, what the lock tasks do, and that an undisturbed execution gets through. */
module PowerProgress {
  import opened Common
  import HostLock
  import opened PowerWorkflow

  // ---------------------------------------------------------------- single tasks

  /** What Redis must answer for the task to succeed. */
  predicate MaySucceed(s: System, id: string, host: string, t: Task) {
    match t
    case AcquireLock => !HostLock.Live(s.lock, HostLock.Key(host))
    case RefreshLock => HostLock.Holds(s.lock, id, host)
    case ReleaseLock => HostLock.Holds(s.lock, id, host)
    case ReleaseLockError => HostLock.Holds(s.lock, id, host)
    case _ => true
  }

  /** An execution can be started exactly under a new id that is not empty; it begins with nothing done. */
  lemma StartsExactly(s: System, id: string, w: Workflow, host: string, ttl: nat)
    ensures Next(s, Start(id, w, host), ttl).Some? <==> id != "" && id !in s.executions
    ensures Next(s, Start(id, w, host), ttl).Some? ==>
              var s' := Next(s, Start(id, w, host), ttl).value;
              && s'.lock == s.lock && s'.novaEnabled == s.novaEnabled && s'.onMaintenance == s.onMaintenance
              && s'.executions == s.executions[id := Execution(w, host, [])]
  {
  }

  /** A started execution can finish its task: with a failure always, with success exactly when Redis allows it. */
  lemma FinishesExactly(s: System, id: string, o: Outcome, ttl: nat)
    requires id in s.executions
    ensures var x := s.executions[id]; var pc := PcAfter(x.workflow, x.log);
      FinishTask(s, id, o, ttl).Some? <==> pc.At? && (o.Success? ==> MaySucceed(s, id, x.host, pc.task))
  {
    hide PcAfter;
  }

  /** After the acquisition and after a refresh the execution holds the lease for the time to live from then on, after
      either release nobody does, and no other task touches it. */
  lemma LockTasksDo(s: System, id: string, ttl: nat)
    requires 0 < ttl && FinishTask(s, id, Success, ttl).Some?
    ensures var x := s.executions[id];
      var t, key := PcAfter(x.workflow, x.log).task, HostLock.Key(x.host);
      var lock' := FinishTask(s, id, Success, ttl).value.lock;
      if t.AcquireLock? || t.RefreshLock? then
        HostLock.Holds(lock', id, x.host) && lock'.keys[key].deadline == s.lock.now + ttl
      else if t.ReleaseLock? || t.ReleaseLockError? then !HostLock.Live(lock', key)
      else lock' == s.lock
  {
    hide PcAfter;
  }

  /** A task that fails before its first call changes nothing but the log of its execution. */
  lemma FailureAtOnce(s: System, id: string, ttl: nat)
    requires FinishTask(s, id, Failure(0), ttl).Some?
    ensures var s' := FinishTask(s, id, Failure(0), ttl).value;
      s'.lock == s.lock && s'.novaEnabled == s.novaEnabled && s'.onMaintenance == s.onMaintenance
  {
    hide PcAfter;
  }

  /** fail_safe_host that fails between its two calls has disabled Nova, and maintenance is as it was. */
  lemma FailSafeHalfWay(s: System, id: string, ttl: nat)
    requires FinishTask(s, id, Failure(1), ttl).Some?
    requires PcAfter(s.executions[id].workflow, s.executions[id].log) == At(FailSafeHost)
    ensures var s' := FinishTask(s, id, Failure(1), ttl).value;
      s.executions[id].host !in s'.novaEnabled && s'.onMaintenance == s.onMaintenance && s'.lock == s.lock
  {
    hide PcAfter;
  }

  // ---------------------------------------------------------------- a whole execution

  /** One execution starts and finishes its first k tasks. */
  function Undisturbed(id: string, w: Workflow, host: string, k: nat): (actions: seq<Action>)
    ensures actions != []
  {
    if k == 0 then [Start(id, w, host)] else Undisturbed(id, w, host, k - 1) + [Finish(id, Success)]
  }

  ghost predicate Underway(s: System, id: string, w: Workflow, host: string, k: nat) {
    && s.executions.Keys == {id} && s.executions[id].workflow == w && s.executions[id].host == host
    && k <= PathLength(w) && |s.executions[id].log| == k && OnPath(w, s.executions[id].log, k)
    && (k == 0 ==> !HostLock.Live(s.lock, HostLock.Key(host)))
    && (0 < k < PathLength(w) ==> HostLock.Holds(s.lock, id, host))
  }

  lemma {:induction false} OneTaskOn(s: System, id: string, w: Workflow, host: string, k: nat, ttl: nat)
    requires 0 < ttl && k < PathLength(w) && Underway(s, id, w, host, k)
    ensures FinishTask(s, id, Success, ttl).Some?
    ensures Underway(FinishTask(s, id, Success, ttl).value, id, w, host, k + 1)
  {
    hide PathTask, PcAfter, FinishTask;
    var x := s.executions[id];
    ShapeEndsAtPc(w, x.log, k);
    PathPositions(w, k);
    FinishesExactly(s, id, Success, ttl);
    LockTasksDo(s, id, ttl);
    FinishStep(s, id, Success, ttl);
    FinishEventIs(s, id, ttl);
    LengthIsPositive(w);
  }

  lemma FinishEventIs(s: System, id: string, ttl: nat)
    requires FinishTask(s, id, Success, ttl).Some?
    ensures FinishEvent(s, id, Success, ttl).ok
    ensures At(FinishEvent(s, id, Success, ttl).task) == PcAfter(s.executions[id].workflow, s.executions[id].log)
  {
    hide PcAfter;
  }

  lemma LengthIsPositive(w: Workflow)
    ensures 1 < PathLength(w) && PathTask(w, 0) == AcquireLock && PathTask(w, PathLength(w) - 1) == ReleaseLock
  {
  }

  lemma StartedIsUnderway(nova: set<string>, maintenance: set<string>, id: string, w: Workflow, host: string, ttl: nat)
    requires id != ""
    ensures Reached(nova, maintenance, [Start(id, w, host)], ttl).Some?
    ensures Underway(Reached(nova, maintenance, [Start(id, w, host)], ttl).value, id, w, host, 0)
  {
    assert [Start(id, w, host)][..0] == [];
  }

  lemma ReachedNext(nova: set<string>, maintenance: set<string>, actions: seq<Action>, id: string, o: Outcome, ttl: nat)
    requires Reached(nova, maintenance, actions, ttl).Some?
    ensures Reached(nova, maintenance, actions + [Finish(id, o)], ttl) ==
            FinishTask(Reached(nova, maintenance, actions, ttl).value, id, o, ttl)
  {
    hide FinishTask;
    assert (actions + [Finish(id, o)])[..|actions|] == actions;
  }

  lemma {:induction false} UndisturbedIsUnderway(nova: set<string>, maintenance: set<string>, id: string, w: Workflow,
                                                 host: string, ttl: nat, k: nat)
    requires id != "" && 0 < ttl && k <= PathLength(w)
    ensures Reached(nova, maintenance, Undisturbed(id, w, host, k), ttl).Some?
    ensures Underway(Reached(nova, maintenance, Undisturbed(id, w, host, k), ttl).value, id, w, host, k)
  {
    hide Underway, FinishTask, Reached;
    if k == 0 {
      StartedIsUnderway(nova, maintenance, id, w, host, ttl);
    } else {
      UndisturbedIsUnderway(nova, maintenance, id, w, host, ttl, k - 1);
      ReachedNext(nova, maintenance, Undisturbed(id, w, host, k - 1), id, Success, ttl);
      OneTaskOn(Reached(nova, maintenance, Undisturbed(id, w, host, k - 1), ttl).value, id, w, host, k - 1, ttl);
    }
  }

  /** Left alone, and with every call succeeding, each of the three workflows succeeds. */
  lemma {:induction false} UndisturbedSucceeds(nova: set<string>, maintenance: set<string>, id: string, w: Workflow,
                                               host: string, ttl: nat)
    requires id != "" && 0 < ttl
    ensures var end := Reached(nova, maintenance, Undisturbed(id, w, host, PathLength(w)), ttl);
      && end.Some? && end.value.executions.Keys == {id}
      && PcAfter(end.value.executions[id].workflow, end.value.executions[id].log) == Succeeded
      && end.value.executions[id].workflow == w && end.value.executions[id].host == host
  {
    hide Reached, Undisturbed, PcAfter;
    UndisturbedIsUnderway(nova, maintenance, id, w, host, ttl, PathLength(w));
    var s := Reached(nova, maintenance, Undisturbed(id, w, host, PathLength(w)), ttl).value;
    ShapeEndsAtPc(w, s.executions[id].log, PathLength(w));
  }
}
