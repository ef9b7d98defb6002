/**
 The workbook's mutating workflows as a state machine: any number of executions on any hosts run their tasks in
 any interleaving, every task may fail at any moment (also after its effect), and time passes in between.
*/
module PowerWorkflow {
  import opened Common
  import HostLock

  datatype Workflow = PlannedPowerOff | PlannedReboot | PowerOnAndReturn

  datatype Task =
    | AcquireLock | Resolve | MaintenanceOn | NovaDisable | DrainInstances | RefreshLock | AssertHostSafe
    | RequestOff | WaitOff | RequestOn | WaitOn | WaitNova | VerifyHostReturn | NovaEnable | MaintenanceOff
    | AuditSuccess | ReleaseLock | FailSafeHost | AuditFailure | ReleaseLockError

  datatype Pc = At(task: Task) | Succeeded | Failed

  /** The on-success edges (and on-complete ones) of the workbook. */
  function OnSuccess(w: Workflow, t: Task): Pc {
    match t
    case AcquireLock => At(Resolve)
    case Resolve => At(if w.PowerOnAndReturn? then RequestOn else MaintenanceOn)
    case MaintenanceOn => At(NovaDisable)
    case NovaDisable => At(DrainInstances)
    case DrainInstances => At(RefreshLock)
    case RefreshLock => At(AssertHostSafe)
    case AssertHostSafe => At(RequestOff)
    case RequestOff => At(WaitOff)
    case WaitOff => At(if w.PlannedPowerOff? then AuditSuccess else RequestOn)
    case RequestOn => At(WaitOn)
    case WaitOn => At(WaitNova)
    case WaitNova => At(VerifyHostReturn)
    case VerifyHostReturn => At(NovaEnable)
    case NovaEnable => At(MaintenanceOff)
    case MaintenanceOff => At(AuditSuccess)
    case AuditSuccess => At(ReleaseLock)
    case ReleaseLock => Succeeded
    case FailSafeHost => At(AuditFailure)
    case AuditFailure => At(ReleaseLockError)
    case ReleaseLockError => Failed
  }

  /** The on-error edges (and on-complete ones). */
  function OnError(t: Task): Pc {
    match t
    case AcquireLock => Failed
    case ReleaseLock => Failed
    case FailSafeHost => At(AuditFailure)
    case AuditFailure => At(ReleaseLockError)
    case ReleaseLockError => Failed
    case _ => At(FailSafeHost)
  }

  /** A finished task of an execution: which one, whether it succeeded, and when. */
  datatype Event = Event(task: Task, ok: bool, at: nat)

  /** Where an execution stands after its log of finished tasks. */
  function PcAfter(w: Workflow, log: seq<Event>): Pc {
    if log == [] then At(AcquireLock)
    else
      var e := log[|log| - 1];
      if e.ok then OnSuccess(w, e.task) else OnError(e.task)
  }

  /** A log that the edges allow. */
  predicate Legal(w: Workflow, log: seq<Event>) {
    forall k :: 0 <= k < |log| ==> PcAfter(w, log[..k]) == At(log[k].task)
  }

  // ---------------------------------------------------------------- what the edges add up to

  /** The k-th of the tasks that hand the host over: maintenance, Nova, drain, the safety gates and the power-off. */
  function OffTask(k: nat): Task {
    if k == 0 then MaintenanceOn else if k == 1 then NovaDisable else if k == 2 then DrainInstances
    else if k == 3 then RefreshLock else if k == 4 then AssertHostSafe else if k == 5 then RequestOff else WaitOff
  }

  /** The k-th of the tasks that bring the host back and end the execution. */
  function BackTask(k: nat): Task {
    if k == 0 then RequestOn else if k == 1 then WaitOn else if k == 2 then WaitNova
    else if k == 3 then VerifyHostReturn else if k == 4 then NovaEnable else if k == 5 then MaintenanceOff
    else EndTask(k - 6)
  }

  function EndTask(k: nat): Task {
    if k == 0 then AuditSuccess else ReleaseLock
  }

  function PathLength(w: Workflow): nat {
    match w
    case PlannedPowerOff => 11
    case PlannedReboot => 17
    case PowerOnAndReturn => 10
  }

  /** The k-th task of an execution in which nothing fails. */
  function PathTask(w: Workflow, k: nat): Task {
    if k == 0 then AcquireLock
    else if k == 1 then Resolve
    else match w
      case PowerOnAndReturn => BackTask(k - 2)
      case PlannedPowerOff => if k < 9 then OffTask(k - 2) else EndTask(k - 9)
      case PlannedReboot => if k < 9 then OffTask(k - 2) else BackTask(k - 9)
  }

  /** How many tasks follow the failure of a task, and which. */
  function TailLength(t: Task): nat {
    if t.AcquireLock? || t.ReleaseLock? then 0 else 3
  }

  function TailTask(k: nat): Task {
    if k == 0 then FailSafeHost else if k == 1 then AuditFailure else ReleaseLockError
  }

  /** The first m tasks are the start of the success path and succeeded. */
  ghost predicate OnPath(w: Workflow, log: seq<Event>, m: nat) {
    && m <= |log| && m <= PathLength(w)
    && forall k :: 0 <= k < m ==> log[k].ok && log[k].task == PathTask(w, k)
  }

  /** From position m on there is the failure of the next task of the path and then the fail-safe tail in order. */
  ghost predicate FailedAt(w: Workflow, log: seq<Event>, m: nat) {
    && m < |log| && m < PathLength(w) && !log[m].ok && log[m].task == PathTask(w, m)
    && |log| - m - 1 <= TailLength(log[m].task)
    && forall k :: m < k < |log| ==> log[k].task == TailTask(k - m - 1)
  }

  ghost predicate Shape(w: Workflow, log: seq<Event>, m: nat) {
    OnPath(w, log, m) && (m < |log| ==> FailedAt(w, log, m))
  }

  lemma PathEdge(w: Workflow, k: nat)
    requires k < PathLength(w)
    ensures OnSuccess(w, PathTask(w, k)) == if k + 1 < PathLength(w) then At(PathTask(w, k + 1)) else Succeeded
    ensures OnError(PathTask(w, k)) == if TailLength(PathTask(w, k)) == 0 then Failed else At(TailTask(0))
  {
  }

  /** A log of that shape stands at the next task of its path or of its tail. */
  lemma ShapeEndsAtPc(w: Workflow, log: seq<Event>, m: nat)
    requires Shape(w, log, m)
    ensures m == |log| ==> PcAfter(w, log) == if m < PathLength(w) then At(PathTask(w, m)) else Succeeded
    ensures m < |log| ==>
              PcAfter(w, log) == if |log| - m - 1 < TailLength(log[m].task) then At(TailTask(|log| - m - 1)) else Failed
  {
    if m == |log| {
      if 0 < m {
        PathEdge(w, m - 1);
      }
    } else if m == |log| - 1 {
      PathEdge(w, m);
    }
  }

  lemma ShapeGrows(w: Workflow, log: seq<Event>, m: nat, e: Event) returns (m': nat)
    requires Shape(w, log, m) && PcAfter(w, log) == At(e.task)
    ensures Shape(w, log + [e], m')
  {
    ShapeEndsAtPc(w, log, m);
    var log' := log + [e];
    if m == |log| && e.ok {
      m' := m + 1;
      assert forall k :: 0 <= k < m ==> log'[k] == log[k];
    } else {
      m' := m;
      assert forall k :: 0 <= k < |log| ==> log'[k] == log[k];
    }
  }

  /** Every log that the edges allow has that shape. */
  lemma {:induction false} LegalLogsHaveShape(w: Workflow, log: seq<Event>) returns (m: nat)
    requires Legal(w, log)
    ensures Shape(w, log, m)
  {
    if log == [] {
      m := 0;
    } else {
      var last := |log| - 1;
      var before := log[..last];
      assert forall k :: 0 <= k < last ==> before[..k] == log[..k];
      m := LegalLogsHaveShape(w, before);
      m := ShapeGrows(w, before, m, log[last]);
      assert before + [log[last]] == log;
    }
  }

  lemma PathPositions(w: Workflow, k: nat)
    requires k < PathLength(w)
    ensures PathTask(w, k) == RequestOff ==> k == 7 && !w.PowerOnAndReturn?
    ensures PathTask(w, k) == NovaEnable ==> 0 < k && PathTask(w, k - 1) == VerifyHostReturn && !w.PlannedPowerOff?
    ensures PathTask(w, k) == MaintenanceOff ==> !w.PlannedPowerOff?
    ensures PathTask(w, k) == RefreshLock ==> k == 5
    ensures PathTask(w, k) !in {FailSafeHost, AuditFailure, ReleaseLockError}
    ensures PathTask(w, k) == AcquireLock ==> k == 0
    ensures PathTask(w, k) == ReleaseLock ==> k == PathLength(w) - 1
  {
  }

  /** Power-off gate: before any power-off request its execution has successfully, in this order and with nothing
      in between, drained the host, refreshed the lock and found the host safe; and before that taken the lock,
      resolved the host, set maintenance and disabled Nova. */
  lemma {:induction false} PowerOffGate(w: Workflow, log: seq<Event>, k: nat)
    requires Legal(w, log) && k < |log| && log[k].task == RequestOff
    ensures !w.PowerOnAndReturn? && k == 7 && (forall j :: 0 <= j < 7 ==> log[j].ok)
    ensures log[4].task == DrainInstances && log[5].task == RefreshLock && log[6].task == AssertHostSafe
    ensures log[0].task == AcquireLock && log[1].task == Resolve
    ensures log[2].task == MaintenanceOn && log[3].task == NovaDisable
  {
    var m := LegalLogsHaveShape(w, log);
    if k <= m {
      PathPositions(w, k);
    }
  }

  /** The scheduler is enabled only directly after a successful verification of the returned host. */
  lemma {:induction false} ReturnGate(w: Workflow, log: seq<Event>, k: nat)
    requires Legal(w, log) && k < |log| && log[k].task == NovaEnable
    ensures 0 < k && log[k - 1].task == VerifyHostReturn && log[k - 1].ok
  {
    var m := LegalLogsHaveShape(w, log);
    if k <= m {
      PathPositions(w, k);
    }
  }

  /** Fail-safe before release: the error path releases the lock exactly when a task between the acquisition and
      the release has failed, and then fail_safe_host and the audit event come directly before it. */
  lemma {:induction false} FailSafeBeforeRelease(w: Workflow, log: seq<Event>, k: nat)
    requires Legal(w, log) && k < |log| && log[k].task == ReleaseLockError
    ensures 3 < k && k == |log| - 1 && !log[k - 3].ok && (forall j :: 0 <= j < k - 3 ==> log[j].ok)
    ensures log[k - 2].task == FailSafeHost && log[k - 1].task == AuditFailure
  {
    assert PathTask(w, 0) == AcquireLock;
    hide Legal, PcAfter, PathTask;
    var m := LegalLogsHaveShape(w, log);
    if k <= m {
      PathPositions(w, k);
    }
    PathPositions(w, m);
    assert k == m + 3;
  }

  /** After the failure of any task that runs under the lock the next task is fail_safe_host, and the execution
      never reaches the success path again. */
  lemma {:induction false} FailureLeadsToFailSafe(w: Workflow, log: seq<Event>, m: nat)
    requires Legal(w, log) && m < |log| && !log[m].ok && !log[m].task.AcquireLock? && !log[m].task.ReleaseLock?
    requires !log[m].task.FailSafeHost? && !log[m].task.AuditFailure? && !log[m].task.ReleaseLockError?
    ensures m + 1 < |log| ==> log[m + 1].task == FailSafeHost
    ensures forall k :: m < k < |log| ==> log[k].task in {FailSafeHost, AuditFailure, ReleaseLockError}
    ensures PcAfter(w, log) != Succeeded
  {
    var first := LegalLogsHaveShape(w, log);
    assert m == first;
    ShapeEndsAtPc(w, log, first);
  }

  // ---------------------------------------------------------------- the system of executions

  datatype Execution = Execution(workflow: Workflow, host: string, log: seq<Event>)

  /** The shared world: Redis, the compute services that are enabled, the hosts on maintenance, the executions. */
  datatype System = System(
    lock: HostLock.Store,
    novaEnabled: set<string>,
    onMaintenance: set<string>,
    executions: map<string, Execution>)

  /** A failing task may have carried out some of its API calls before the failure. */
  datatype Outcome = Success | Failure(calls: nat)

  datatype Action =
    | Start(id: string, workflow: Workflow, host: string)
    | Finish(id: string, outcome: Outcome)
    | Pass(ms: nat)

  /** The Redis command of a lock task; the execution id is the lock owner. */
  function LockOp(t: Task, id: string, host: string, ttl: nat): Option<HostLock.Op> {
    match t
    case AcquireLock => Some(HostLock.Acquire(id, host, ttl))
    case RefreshLock => Some(HostLock.Refresh(id, host, ttl))
    case ReleaseLock => Some(HostLock.Release(id, host))
    case ReleaseLockError => Some(HostLock.Release(id, host))
    case _ => None
  }

  function CallsMade(o: Outcome): nat {
    if o.Success? then 2 else o.calls
  }

  function NovaAfter(t: Task, host: string, calls: nat, enabled: set<string>): set<string> {
    if calls == 0 then enabled
    else match t
      case NovaDisable => enabled - {host}
      case FailSafeHost => enabled - {host}
      case NovaEnable => enabled + {host}
      case _ => enabled
  }

  function MaintenanceAfter(t: Task, host: string, calls: nat, on: set<string>): set<string> {
    match t
    case MaintenanceOn => if calls == 0 then on else on + {host}
    case MaintenanceOff => if calls == 0 then on else on - {host}
    case FailSafeHost => if calls < 2 then on else on + {host}
    case _ => on
  }

  /** Execution `id` finishes its current task.  A lock task succeeds only when Redis grants it. */
  function FinishTask(s: System, id: string, o: Outcome, ttl: nat): Option<System> {
    if id !in s.executions then None
    else
      var x := s.executions[id];
      var pc := PcAfter(x.workflow, x.log);
      if !pc.At? then None
      else
        var op := LockOp(pc.task, id, x.host, ttl);
        if o.Success? && op.Some? && !HostLock.Granted(s.lock, op.value) then None
        else Some(System(
          if op.Some? && 0 < CallsMade(o) then HostLock.After(s.lock, op.value) else s.lock,
          NovaAfter(pc.task, x.host, CallsMade(o), s.novaEnabled),
          MaintenanceAfter(pc.task, x.host, CallsMade(o), s.onMaintenance),
          s.executions[id := x.(log := x.log + [Event(pc.task, o.Success?, s.lock.now)])]))
  }

  function Next(s: System, a: Action, ttl: nat): Option<System> {
    match a
    case Start(id, w, h) =>
      if id == "" || id in s.executions then None else Some(s.(executions := s.executions[id := Execution(w, h, [])]))
    case Finish(id, o) => FinishTask(s, id, o, ttl)
    case Pass(ms) => Some(s.(lock := HostLock.After(s.lock, HostLock.Tick(ms))))
  }

  /** The system after a sequence of actions, or None when one of them was not possible. */
  function Reached(nova: set<string>, maintenance: set<string>, actions: seq<Action>, ttl: nat): Option<System> {
    if actions == [] then Some(System(HostLock.Store(0, map[]), nova, maintenance, map[]))
    else match Reached(nova, maintenance, actions[..|actions| - 1], ttl)
      case None => None
      case Some(s) => Next(s, actions[|actions| - 1], ttl)
  }

  // ---------------------------------------------------------------- invariants of all reachable systems

  /** Until when the execution may rely on its lease, as far as it has been told; 0 when it may not. */
  function LeaseEnd(log: seq<Event>, ttl: nat): nat {
    if log == [] then 0
    else
      var e := log[|log| - 1];
      if e.ok && (e.task.AcquireLock? || e.task.RefreshLock?) then e.at + ttl
      else if e.task.ReleaseLock? || e.task.ReleaseLockError? then 0
      else LeaseEnd(log[..|log| - 1], ttl)
  }

  predicate Refreshed(log: seq<Event>) {
    5 < |log| && log[5].task == RefreshLock && log[5].ok
  }

  predicate Requested(log: seq<Event>) {
    7 < |log| && log[7].task == RequestOff
  }

  /** From the lock refresh until the power-off request, but no longer than the lease that the refresh bought;
      empty when the safety check between them failed. */
  function SectionEnd(log: seq<Event>, ttl: nat): nat
    requires Refreshed(log)
  {
    var start := log[5].at;
    if Requested(log) then (if log[7].at < start + ttl then log[7].at else start + ttl)
    else if 6 < |log| && !log[6].ok then start
    else start + ttl
  }

  ghost predicate LogsFit(s: System, ttl: nat) {
    forall id :: id in s.executions ==>
      var x := s.executions[id];
      Legal(x.workflow, x.log) && forall k :: 0 <= k < |x.log| ==> x.log[k].at <= s.lock.now
  }

  /** What the execution has been told about its lease is what Redis has stored, or less. */
  ghost predicate LeaseBacked(lock: HostLock.Store, id: string, x: Execution, ttl: nat) {
    && LeaseEnd(x.log, ttl) <= lock.now + ttl
    && (lock.now < LeaseEnd(x.log, ttl) ==>
          HostLock.Holds(lock, id, x.host) && LeaseEnd(x.log, ttl) <= lock.keys[HostLock.Key(x.host)].deadline)
  }

  ghost predicate LeasesBacked(s: System, ttl: nat) {
    forall id :: id in s.executions ==> LeaseBacked(s.lock, id, s.executions[id], ttl)
  }

  ghost predicate SectionsApart(a: Execution, b: Execution, ttl: nat) {
    a.host == b.host && Refreshed(a.log) && Refreshed(b.log) ==>
      SectionEnd(a.log, ttl) <= b.log[5].at || SectionEnd(b.log, ttl) <= a.log[5].at
  }

  ghost predicate AllSectionsApart(s: System, ttl: nat) {
    forall id, id' :: id in s.executions && id' in s.executions && id != id' ==>
      SectionsApart(s.executions[id], s.executions[id'], ttl)
  }

  ghost predicate OnlyPowerOffs(s: System, host: string) {
    forall id :: id in s.executions && s.executions[id].host == host ==> s.executions[id].workflow.PlannedPowerOff?
  }

  predicate Did(log: seq<Event>, t: Task) {
    exists k :: 0 <= k < |log| && log[k].task == t && log[k].ok
  }

  /** What the execution switched off is off. */
  ghost predicate Parked(x: Execution, novaEnabled: set<string>, onMaintenance: set<string>) {
    && (Did(x.log, NovaDisable) || Did(x.log, FailSafeHost) ==> x.host !in novaEnabled)
    && (Did(x.log, MaintenanceOn) || Did(x.log, FailSafeHost) ==> x.host in onMaintenance)
  }

  /** As long as only planned power-offs touch a host, what they switched off stays off. */
  ghost predicate StaysOff(s: System) {
    forall id :: id in s.executions && OnlyPowerOffs(s, s.executions[id].host) ==>
      Parked(s.executions[id], s.novaEnabled, s.onMaintenance)
  }

  ghost predicate Invariant(s: System, ttl: nat) {
    LogsFit(s, ttl) && LeasesBacked(s, ttl) && AllSectionsApart(s, ttl) && StaysOff(s)
  }

  lemma LegalSnoc(w: Workflow, log: seq<Event>, e: Event)
    requires Legal(w, log) && PcAfter(w, log) == At(e.task)
    ensures Legal(w, log + [e])
  {
    forall k | 0 <= k < |log + [e]|
      ensures PcAfter(w, (log + [e])[..k]) == At((log + [e])[k].task)
    {
      assert (log + [e])[..k] == log[..k];
      if k == |log| {
        assert log[..k] == log;
      }
    }
  }

  lemma ShapeOfOpenSection(w: Workflow, log: seq<Event>, m: nat)
    requires Shape(w, log, m) && Refreshed(log) && !Requested(log) && !(6 < |log| && !log[6].ok)
    ensures |log| <= 7 && (6 < |log| ==> log[6].task == AssertHostSafe)
  {
    PathPositions(w, 5);
  }

  /** Between the refresh and the request the lease of the execution is the one that the refresh bought. */
  lemma OpenSectionLease(w: Workflow, log: seq<Event>, ttl: nat)
    requires Legal(w, log) && Refreshed(log) && !Requested(log) && !(6 < |log| && !log[6].ok)
    ensures LeaseEnd(log, ttl) == log[5].at + ttl
  {
    var m := LegalLogsHaveShape(w, log);
    ShapeOfOpenSection(w, log, m);
    if |log| == 7 {
      assert LeaseEnd(log, ttl) == LeaseEnd(log[..6], ttl);
    }
  }

  /** The event that a finished task adds to the log. */
  function FinishEvent(s: System, id: string, o: Outcome, ttl: nat): Event
    requires FinishTask(s, id, o, ttl).Some?
  {
    Event(PcAfter(s.executions[id].workflow, s.executions[id].log).task, o.Success?, s.lock.now)
  }

  lemma FinishStep(s: System, id: string, o: Outcome, ttl: nat)
    requires FinishTask(s, id, o, ttl).Some?
    ensures id in s.executions
    ensures var x, e := s.executions[id], FinishEvent(s, id, o, ttl);
      var s', op := FinishTask(s, id, o, ttl).value, LockOp(e.task, id, x.host, ttl);
      && PcAfter(x.workflow, x.log) == At(e.task) && e.at == s.lock.now == s'.lock.now
      && (e.ok && op.Some? ==> HostLock.Granted(s.lock, op.value))
      && s'.executions == s.executions[id := x.(log := x.log + [e])]
  {
    hide PcAfter;
  }

  lemma FinishKeepsLogs(s: System, id: string, o: Outcome, ttl: nat)
    requires LogsFit(s, ttl) && FinishTask(s, id, o, ttl).Some?
    ensures LogsFit(FinishTask(s, id, o, ttl).value, ttl)
  {
    hide FinishTask, FinishEvent, Legal, PcAfter;
    FinishStep(s, id, o, ttl);
    var x, s' := s.executions[id], FinishTask(s, id, o, ttl).value;
    LegalSnoc(x.workflow, x.log, FinishEvent(s, id, o, ttl));
    forall i | i in s'.executions
      ensures Legal(s'.executions[i].workflow, s'.executions[i].log)
      ensures forall k :: 0 <= k < |s'.executions[i].log| ==> s'.executions[i].log[k].at <= s'.lock.now
    {
      if i != id {
        assert s'.executions[i] == s.executions[i];
      }
    }
  }

  lemma OwnLeaseBacked(lock: HostLock.Store, id: string, x: Execution, e: Event, calls: nat, ttl: nat)
    requires LeaseBacked(lock, id, x, ttl) && e.at == lock.now
    requires var op := LockOp(e.task, id, x.host, ttl);
      e.ok && op.Some? ==> HostLock.Granted(lock, op.value) && 0 < calls
    ensures var op := LockOp(e.task, id, x.host, ttl);
      LeaseBacked(if op.Some? && 0 < calls then HostLock.After(lock, op.value) else lock, id,
                  x.(log := x.log + [e]), ttl)
  {
    assert (x.log + [e])[..|x.log|] == x.log;
  }

  lemma OtherLeaseBacked(lock: HostLock.Store, id: string, x: Execution, op: HostLock.Op, ttl: nat)
    requires LeaseBacked(lock, id, x, ttl) && !op.Tick? && op.owner != id
    ensures LeaseBacked(HostLock.After(lock, op), id, x, ttl)
  {
    if lock.now < LeaseEnd(x.log, ttl) {
      HostLock.OthersCannotTouchTheLease(lock, op, id, x.host);
    }
  }

  lemma FinishKeepsLeases(s: System, id: string, o: Outcome, ttl: nat)
    requires LogsFit(s, ttl) && LeasesBacked(s, ttl) && FinishTask(s, id, o, ttl).Some?
    ensures LeasesBacked(FinishTask(s, id, o, ttl).value, ttl)
  {
    var s' := FinishTask(s, id, o, ttl).value;
    var x := s.executions[id];
    var e := Event(PcAfter(x.workflow, x.log).task, o.Success?, s.lock.now);
    var op := LockOp(e.task, id, x.host, ttl);
    OwnLeaseBacked(s.lock, id, x, e, CallsMade(o), ttl);
    forall id' | id' in s.executions && id' != id
      ensures LeaseBacked(s'.lock, id', s.executions[id'], ttl)
    {
      if op.Some? {
        OtherLeaseBacked(s.lock, id', s.executions[id'], op.value, ttl);
      }
    }
  }

  lemma SectionShrinks(w: Workflow, log: seq<Event>, e: Event, ttl: nat)
    requires Legal(w, log) && PcAfter(w, log) == At(e.task) && Refreshed(log)
    requires forall k :: 0 <= k < |log| ==> log[k].at <= e.at
    ensures Refreshed(log + [e]) && SectionEnd(log + [e], ttl) <= SectionEnd(log, ttl)
  {
  }

  lemma SectionIsOver(s: System, id: string, ttl: nat)
    requires LogsFit(s, ttl) && LeasesBacked(s, ttl) && id in s.executions && Refreshed(s.executions[id].log)
    requires !HostLock.Holds(s.lock, id, s.executions[id].host)
    ensures SectionEnd(s.executions[id].log, ttl) <= s.lock.now
  {
    var x := s.executions[id];
    if !Requested(x.log) && !(6 < |x.log| && !x.log[6].ok) {
      OpenSectionLease(x.workflow, x.log, ttl);
    }
  }

  lemma RefreshComesSixth(w: Workflow, log: seq<Event>, e: Event)
    requires Legal(w, log) && PcAfter(w, log) == At(e.task)
    ensures Refreshed(log + [e]) && !Refreshed(log) ==> |log| == 5 && e.task == RefreshLock && e.ok
  {
    if |log| != 5 {
      assert 5 < |log| ==> (log + [e])[5] == log[5];
    }
  }

  lemma FinishKeepsSections(s: System, id: string, o: Outcome, ttl: nat)
    requires LogsFit(s, ttl) && LeasesBacked(s, ttl) && AllSectionsApart(s, ttl) && FinishTask(s, id, o, ttl).Some?
    ensures AllSectionsApart(FinishTask(s, id, o, ttl).value, ttl)
  {
    hide FinishTask, FinishEvent, Legal, PcAfter, SectionEnd, LeasesBacked;
    FinishStep(s, id, o, ttl);
    var s' := FinishTask(s, id, o, ttl).value;
    var x := s.executions[id];
    var e := FinishEvent(s, id, o, ttl);
    RefreshComesSixth(x.workflow, x.log, e);
    if Refreshed(x.log) {
      SectionShrinks(x.workflow, x.log, e, ttl);
    }
    forall id' | id' in s.executions && id' != id
      ensures SectionsApart(s'.executions[id], s.executions[id'], ttl)
      ensures SectionsApart(s.executions[id'], s'.executions[id], ttl)
    {
      var y := s.executions[id'];
      assert SectionsApart(x, y, ttl);
      if Refreshed(y.log) && Refreshed(x.log + [e]) && !Refreshed(x.log) && y.host == x.host {
        SectionIsOver(s, id', ttl);
      }
    }
  }

  lemma DidSnoc(log: seq<Event>, e: Event, t: Task)
    ensures Did(log + [e], t) <==> Did(log, t) || (e.task == t && e.ok)
  {
    var log' := log + [e];
    if Did(log, t) {
      var k :| 0 <= k < |log| && log[k].task == t && log[k].ok;
      assert log'[k] == log[k];
    }
    if e.task == t && e.ok {
      assert log'[|log|] == e;
    }
    if Did(log', t) {
      var k :| 0 <= k < |log'| && log'[k].task == t && log'[k].ok;
      assert k < |log| ==> log[k] == log'[k];
    }
  }

  lemma NeverSwitchesOn(w: Workflow, log: seq<Event>)
    requires w.PlannedPowerOff? && Legal(w, log)
    ensures PcAfter(w, log) != At(NovaEnable) && PcAfter(w, log) != At(MaintenanceOff)
  {
    var m := LegalLogsHaveShape(w, log);
    ShapeEndsAtPc(w, log, m);
    if m < PathLength(w) {
      PathPositions(w, m);
    }
  }

  lemma OwnStepParks(x: Execution, e: Event, calls: nat, nova: set<string>, maintenance: set<string>)
    requires Parked(x, nova, maintenance) && (e.ok ==> 2 <= calls)
    requires e.task != NovaEnable && e.task != MaintenanceOff
    ensures Parked(x.(log := x.log + [e]), NovaAfter(e.task, x.host, calls, nova),
                   MaintenanceAfter(e.task, x.host, calls, maintenance))
  {
    DidSnoc(x.log, e, NovaDisable);
    DidSnoc(x.log, e, FailSafeHost);
    DidSnoc(x.log, e, MaintenanceOn);
  }

  lemma OthersStepKeepsParked(x: Execution, t: Task, host: string, calls: nat, nova: set<string>,
                              maintenance: set<string>)
    requires Parked(x, nova, maintenance)
    requires host == x.host ==> t != NovaEnable && t != MaintenanceOff
    ensures Parked(x, NovaAfter(t, host, calls, nova), MaintenanceAfter(t, host, calls, maintenance))
  {
  }

  /** No execution changes its host or its workflow. */
  lemma OnlyPowerOffsBefore(s: System, s': System, host: string)
    requires OnlyPowerOffs(s', host)
    requires forall i :: i in s.executions ==>
               && i in s'.executions
               && s'.executions[i].workflow == s.executions[i].workflow && s'.executions[i].host == s.executions[i].host
    ensures OnlyPowerOffs(s, host)
  {
  }

  lemma FinishStaysOff(s: System, id: string, o: Outcome, ttl: nat)
    requires LogsFit(s, ttl) && StaysOff(s) && FinishTask(s, id, o, ttl).Some?
    ensures StaysOff(FinishTask(s, id, o, ttl).value)
  {
    var s' := FinishTask(s, id, o, ttl).value;
    var x := s.executions[id];
    var e := Event(PcAfter(x.workflow, x.log).task, o.Success?, s.lock.now);
    forall id' | id' in s'.executions && OnlyPowerOffs(s', s'.executions[id'].host)
      ensures Parked(s'.executions[id'], s'.novaEnabled, s'.onMaintenance)
    {
      OnlyPowerOffsBefore(s, s', s'.executions[id'].host);
      if s'.executions[id'].host == x.host {
        assert s'.executions[id].workflow.PlannedPowerOff?;
        NeverSwitchesOn(x.workflow, x.log);
      }
      if id' == id {
        OwnStepParks(x, e, CallsMade(o), s.novaEnabled, s.onMaintenance);
      } else {
        OthersStepKeepsParked(s.executions[id'], e.task, x.host, CallsMade(o), s.novaEnabled, s.onMaintenance);
      }
    }
  }

  lemma {:induction false} ReachedInvariant(nova: set<string>, maintenance: set<string>, actions: seq<Action>, ttl: nat)
    requires Reached(nova, maintenance, actions, ttl).Some?
    ensures Invariant(Reached(nova, maintenance, actions, ttl).value, ttl)
  {
    if actions != [] {
      var before, a := actions[..|actions| - 1], actions[|actions| - 1];
      ReachedInvariant(nova, maintenance, before, ttl);
      var s := Reached(nova, maintenance, before, ttl).value;
      match a
      case Start(id, w, h) => StartKeepsInvariant(s, id, w, h, ttl);
      case Pass(ms) => PassKeepsInvariant(s, ms, ttl);
      case Finish(id, o) =>
        FinishKeepsLogs(s, id, o, ttl);
        FinishKeepsLeases(s, id, o, ttl);
        FinishKeepsSections(s, id, o, ttl);
        FinishStaysOff(s, id, o, ttl);
    }
  }

  lemma StartKeepsInvariant(s: System, id: string, w: Workflow, h: string, ttl: nat)
    requires Invariant(s, ttl) && id !in s.executions
    ensures Invariant(s.(executions := s.executions[id := Execution(w, h, [])]), ttl)
  {
    var s' := s.(executions := s.executions[id := Execution(w, h, [])]);
    forall id' | id' in s'.executions && OnlyPowerOffs(s', s'.executions[id'].host)
      ensures Parked(s'.executions[id'], s'.novaEnabled, s'.onMaintenance)
    {
      OnlyPowerOffsBefore(s, s', s'.executions[id'].host);
    }
  }

  lemma {:induction false} PassKeepsInvariant(s: System, ms: nat, ttl: nat)
    requires Invariant(s, ttl)
    ensures Invariant(s.(lock := HostLock.After(s.lock, HostLock.Tick(ms))), ttl)
  {
    hide Legal, SectionEnd, LeaseEnd, Parked, Refreshed;
    var s' := s.(lock := HostLock.After(s.lock, HostLock.Tick(ms)));
    assert forall h :: OnlyPowerOffs(s', h) ==> OnlyPowerOffs(s, h);
  }

  // ---------------------------------------------------------------- main results

  /** The log of an execution that is about to request a power-off. */
  lemma AboutToRequestOff(w: Workflow, log: seq<Event>)
    requires Legal(w, log) && PcAfter(w, log) == At(RequestOff)
    ensures |log| == 7 && Refreshed(log) && log[6].ok
    ensures Did(log, NovaDisable) && Did(log, MaintenanceOn)
  {
    var m := LegalLogsHaveShape(w, log);
    ShapeEndsAtPc(w, log, m);
    PathPositions(w, m);
    assert log[3].task == NovaDisable && log[2].task == MaintenanceOn;
  }

  /** A power-off request within the time to live of the execution's own lock refresh is made while Redis really
      holds that execution's lease, so no other execution holds it. */
  lemma PowerOffUnderLease(nova: set<string>, maintenance: set<string>, actions: seq<Action>, ttl: nat, id: string)
    requires Reached(nova, maintenance, actions, ttl).Some?
    requires var s := Reached(nova, maintenance, actions, ttl).value;
      && id in s.executions
      && PcAfter(s.executions[id].workflow, s.executions[id].log) == At(RequestOff)
    ensures var s := Reached(nova, maintenance, actions, ttl).value;
      var x := s.executions[id];
      && Refreshed(x.log)
      && (s.lock.now < x.log[5].at + ttl ==>
            && HostLock.Holds(s.lock, id, x.host)
            && forall id' :: HostLock.Holds(s.lock, id', x.host) ==> id' == id)
  {
    ReachedInvariant(nova, maintenance, actions, ttl);
    var s := Reached(nova, maintenance, actions, ttl).value;
    var x := s.executions[id];
    AboutToRequestOff(x.workflow, x.log);
    OpenSectionLease(x.workflow, x.log, ttl);
    assert LeaseBacked(s.lock, id, x, ttl);
  }

  /** Critical sections: for two executions on one host that both requested power off within the time to live of
      their refresh, one had made its request before the other one refreshed. */
  lemma PowerOffSectionsDisjoint(nova: set<string>, maintenance: set<string>, actions: seq<Action>, ttl: nat,
                                 id: string, id': string)
    requires Reached(nova, maintenance, actions, ttl).Some? && id != id'
    requires var s := Reached(nova, maintenance, actions, ttl).value;
      && id in s.executions && id' in s.executions && s.executions[id].host == s.executions[id'].host
      && Requested(s.executions[id].log) && Requested(s.executions[id'].log)
      && s.executions[id].log[7].at < s.executions[id].log[5].at + ttl
      && s.executions[id'].log[7].at < s.executions[id'].log[5].at + ttl
    ensures var s := Reached(nova, maintenance, actions, ttl).value;
      var a, b := s.executions[id].log, s.executions[id'].log;
      a[7].at <= b[5].at || b[7].at <= a[5].at
  {
    ReachedInvariant(nova, maintenance, actions, ttl);
    var s := Reached(nova, maintenance, actions, ttl).value;
    PowerOffGate(s.executions[id].workflow, s.executions[id].log, 7);
    PowerOffGate(s.executions[id'].workflow, s.executions[id'].log, 7);
    assert SectionsApart(s.executions[id], s.executions[id'], ttl);
  }

  /** On a host that only planned power-offs touch, a power-off is requested with Nova disabled and maintenance on,
      and an execution that failed but completed fail_safe_host leaves exactly that behind when it releases. */
  lemma PowerOffLeavesHostParked(nova: set<string>, maintenance: set<string>, actions: seq<Action>, ttl: nat,
                                 id: string)
    requires Reached(nova, maintenance, actions, ttl).Some?
    requires var s := Reached(nova, maintenance, actions, ttl).value;
      && id in s.executions && OnlyPowerOffs(s, s.executions[id].host)
      && var x := s.executions[id];
         PcAfter(x.workflow, x.log) == At(RequestOff)
         || (PcAfter(x.workflow, x.log) == At(ReleaseLockError) && Did(x.log, FailSafeHost))
    ensures var s := Reached(nova, maintenance, actions, ttl).value;
      var host := s.executions[id].host;
      host !in s.novaEnabled && host in s.onMaintenance
  {
    ReachedInvariant(nova, maintenance, actions, ttl);
    var s := Reached(nova, maintenance, actions, ttl).value;
    var x := s.executions[id];
    if PcAfter(x.workflow, x.log) == At(RequestOff) {
      AboutToRequestOff(x.workflow, x.log);
    }
    assert Parked(x, s.novaEnabled, s.onMaintenance);
  }
}
