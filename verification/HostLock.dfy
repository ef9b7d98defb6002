/**
 The Redis lease that serialises power operations on a host: SET NX PX to acquire, two scripts to refresh and
 to release.  The store is shared by any number of owners; the clock only moves forward.
*/
module HostLock {
  import opened Common

  /** A key with an expiry; Redis serves it strictly before the deadline. */
  datatype Entry = Entry(owner: string, deadline: nat)

  /** Time and keys of one Redis server. */
  datatype Store = Store(now: nat, keys: map<string, Entry>)

  predicate Live(s: Store, key: string) {
    key in s.keys && s.now < s.keys[key].deadline
  }

  /** One atomic step: a command of some client, or the passing of time. */
  datatype Op =
    | Acquire(owner: string, host: string, ttl: nat)
    | Refresh(owner: string, host: string, ttl: nat)
    | Release(owner: string, host: string)
    | Tick(ms: nat)

  function Key(host: string): string {
    "powerops:host:" + host
  }

  lemma KeysOfHostsDiffer(h1: string, h2: string)
    ensures Key(h1) == Key(h2) ==> h1 == h2
  {
    assert Key(h1)[14..] == h1 && Key(h2)[14..] == h2;
  }

  /** The store after the step. */
  function After(s: Store, op: Op): Store {
    match op
    case Acquire(o, h, ttl) => if Live(s, Key(h)) then s else s.(keys := s.keys[Key(h) := Entry(o, s.now + ttl)])
    case Refresh(o, h, ttl) => if Holds(s, o, h) then s.(keys := s.keys[Key(h) := Entry(o, s.now + ttl)]) else s
    case Release(o, h) => if Holds(s, o, h) then s.(keys := s.keys - {Key(h)}) else s
    case Tick(ms) => s.(now := s.now + ms)
  }

  /** What the client is told; the passing of time answers nothing. */
  function Granted(s: Store, op: Op): bool {
    match op
    case Acquire(o, h, _) => !Live(s, Key(h))
    case Refresh(o, h, _) => Holds(s, o, h)
    case Release(o, h) => Holds(s, o, h)
    case Tick(_) => false
  }

  predicate Holds(s: Store, owner: string, host: string) {
    Live(s, Key(host)) && s.keys[Key(host)].owner == owner
  }

  // ---------------------------------------------------------------- the commands and the lock object

  class Redis {
    var now: nat
    var keys: map<string, Entry>

    constructor ()
      ensures State() == Store(0, map[])
    {
      now, keys := 0, map[];
    }

    function State(): Store
      reads this
    {
      Store(now, keys)
    }

    /** A read drops an expired key first. */
    method Get(key: string) returns (value: Option<string>)
      ensures value == if Live(State(), key) then Some(keys[key].owner) else None
    {
      value := if key in keys && now < keys[key].deadline then Some(keys[key].owner) else None;
    }

    method SetNxPx(key: string, value: string, px: nat) returns (ok: bool)
      modifies this
      ensures now == old(now) && ok == !Live(old(State()), key)
      ensures keys == if ok then old(keys)[key := Entry(value, now + px)] else old(keys)
    {
      var current := Get(key);
      ok := current.None?;
      if ok {
        keys := keys[key := Entry(value, now + px)];
      }
    }

    method EvalRefresh(key: string, owner: string, px: nat) returns (reply: int)
      modifies this
      ensures now == old(now)
      ensures reply == if Live(old(State()), key) && old(keys)[key].owner == owner then 1 else 0
      ensures keys == if reply == 1 then old(keys)[key := Entry(owner, now + px)] else old(keys)
    {
      var current := Get(key);
      if current == Some(owner) {
        keys := keys[key := Entry(owner, now + px)];
        return 1;
      }
      return 0;
    }

    method EvalRelease(key: string, owner: string) returns (reply: int)
      modifies this
      ensures now == old(now)
      ensures reply == if Live(old(State()), key) && old(keys)[key].owner == owner then 1 else 0
      ensures keys == if reply == 1 then old(keys) - {key} else old(keys)
    {
      var current := Get(key);
      if current == Some(owner) {
        keys := keys - {key};
        return 1;
      }
      return 0;
    }
  }

  /** A lock request names a host and an owner and asks for a positive time to live. */
  predicate ValidLock(host: string, owner: string, ttlSeconds: int) {
    host != "" && owner != "" && 0 < ttlSeconds
  }

  class RedisHostLock {
    const client: Redis
    const host: string
    const owner: string
    const ttlMs: nat

    constructor (client: Redis, host: string, ttlSeconds: int, owner: string)
      requires ValidLock(host, owner, ttlSeconds)
      ensures this.client == client && this.host == host && this.owner == owner && ttlMs == ttlSeconds * 1000
    {
      this.client, this.host, this.owner := client, host, owner;
      ttlMs := ttlSeconds * 1000;
    }

    /** Constructing a lock fails without a host, without an owner, or without a positive time to live. */
    static method Create(client: Redis, host: string, ttlSeconds: int, owner: string)
      returns (r: Result<RedisHostLock, ActionError>)
      ensures r.Ok? <==> ValidLock(host, owner, ttlSeconds)
      ensures r.Ok? ==> r.value.client == client && r.value.host == host && r.value.owner == owner
                        && r.value.ttlMs == ttlSeconds * 1000 && fresh(r.value)
      ensures r.Err? ==> r.error == InvalidLockRequest
    {
      if host == "" || owner == "" {
        return Err(InvalidLockRequest);
      }
      if ttlSeconds <= 0 {
        return Err(InvalidLockRequest);
      }
      var lock := new RedisHostLock(client, host, ttlSeconds, owner);
      r := Ok(lock);
    }

    method AcquireLock() returns (ok: bool)
      modifies client
      ensures ok == Granted(old(client.State()), Acquire(owner, host, ttlMs))
      ensures client.State() == After(old(client.State()), Acquire(owner, host, ttlMs))
    {
      ok := client.SetNxPx(Key(host), owner, ttlMs);
    }

    method RefreshLock() returns (ok: bool)
      modifies client
      ensures ok == Granted(old(client.State()), Refresh(owner, host, ttlMs))
      ensures client.State() == After(old(client.State()), Refresh(owner, host, ttlMs))
    {
      var reply := client.EvalRefresh(Key(host), owner, ttlMs);
      ok := reply != 0;
    }

    method ReleaseLock() returns (ok: bool)
      modifies client
      ensures ok == Granted(old(client.State()), Release(owner, host))
      ensures client.State() == After(old(client.State()), Release(owner, host))
    {
      var reply := client.EvalRelease(Key(host), owner);
      ok := reply != 0;
    }
  }

  // ---------------------------------------------------------------- the workflow actions

  /** The identifiers Mistral hands to an action; an empty string stands for a missing one. */
  datatype ActionContext = ActionContext(workflowExecutionId: string, executionId: string)

  datatype ActionError = MissingExecutionId | InvalidLockRequest | AlreadyHeld | OwnershipLost

  function Owner(ctx: ActionContext): string {
    if ctx.workflowExecutionId != "" then ctx.workflowExecutionId else ctx.executionId
  }

  /** An action fails without touching Redis when it is badly called, and otherwise is one lock command. */
  function ActionResult(s: Store, ctx: ActionContext, ttlSeconds: int, host: string, op: Op, refusal: ActionError)
    : Result<string, ActionError>
  {
    if Owner(ctx) == "" then Err(MissingExecutionId)
    else if !ValidLock(host, Owner(ctx), ttlSeconds) then Err(InvalidLockRequest)
    else if Granted(s, op) then Ok(Owner(ctx))
    else Err(refusal)
  }

  method AcquireHostLockAction(redis: Redis, ctx: ActionContext, host: string, ttlSeconds: int)
    returns (r: Result<string, ActionError>)
    modifies redis
    ensures var op := Acquire(Owner(ctx), host, if 0 < ttlSeconds then ttlSeconds * 1000 else 0);
            && r == ActionResult(old(redis.State()), ctx, ttlSeconds, host, op, AlreadyHeld)
            && redis.State() == if r.Ok? then After(old(redis.State()), op) else old(redis.State())
  {
    if Owner(ctx) == "" {
      return Err(MissingExecutionId);
    }
    var lock := RedisHostLock.Create(redis, host, ttlSeconds, Owner(ctx));
    if lock.Err? {
      return Err(lock.error);
    }
    var ok := lock.value.AcquireLock();
    r := if ok then Ok(Owner(ctx)) else Err(AlreadyHeld);
  }

  method RefreshHostLockAction(redis: Redis, ctx: ActionContext, host: string, ttlSeconds: int)
    returns (r: Result<string, ActionError>)
    modifies redis
    ensures var op := Refresh(Owner(ctx), host, if 0 < ttlSeconds then ttlSeconds * 1000 else 0);
            && r == ActionResult(old(redis.State()), ctx, ttlSeconds, host, op, OwnershipLost)
            && redis.State() == if r.Ok? then After(old(redis.State()), op) else old(redis.State())
  {
    if Owner(ctx) == "" {
      return Err(MissingExecutionId);
    }
    var lock := RedisHostLock.Create(redis, host, ttlSeconds, Owner(ctx));
    if lock.Err? {
      return Err(lock.error);
    }
    var ok := lock.value.RefreshLock();
    r := if ok then Ok(Owner(ctx)) else Err(OwnershipLost);
  }

  method ReleaseHostLockAction(redis: Redis, ctx: ActionContext, host: string, ttlSeconds: int)
    returns (r: Result<string, ActionError>)
    modifies redis
    ensures var op := Release(Owner(ctx), host);
            && r == ActionResult(old(redis.State()), ctx, ttlSeconds, host, op, OwnershipLost)
            && redis.State() == if r.Ok? then After(old(redis.State()), op) else old(redis.State())
  {
    if Owner(ctx) == "" {
      return Err(MissingExecutionId);
    }
    var lock := RedisHostLock.Create(redis, host, ttlSeconds, Owner(ctx));
    if lock.Err? {
      return Err(lock.error);
    }
    var ok := lock.value.ReleaseLock();
    r := if ok then Ok(Owner(ctx)) else Err(OwnershipLost);
  }

  // ---------------------------------------------------------------- runs and the windows the owners see

  /** The store after a run of steps by any owners on any hosts. */
  function Run(ops: seq<Op>): Store {
    if ops == [] then Store(0, map[]) else After(Run(ops[..|ops| - 1]), ops[|ops| - 1])
  }

  /** Every lock object has a positive time to live. */
  predicate PositiveTtls(ops: seq<Op>) {
    forall k :: 0 <= k < |ops| ==>
      (ops[k].Acquire? ==> 0 < ops[k].ttl) && (ops[k].Refresh? ==> 0 < ops[k].ttl)
  }

  /** The time span in which an owner may believe it holds the lease. */
  datatype Window = Window(from: nat, to: nat)

  /** The windows of one owner on one host after one more step, computed from nothing but the answers to its own
      commands: a grant opens a window that lasts its time to live, a confirmed refresh moves the end of the latest
      one, a confirmed release ends it. */
  function WindowsAfter(ws: seq<Window>, s: Store, op: Op, owner: string, host: string): seq<Window> {
    if op.Tick? || op.owner != owner || op.host != host || !Granted(s, op) then ws
    else match op
      case Acquire(_, _, ttl) => ws + [Window(s.now, s.now + ttl)]
      case Refresh(_, _, ttl) => if ws == [] then ws else ws[..|ws| - 1] + [ws[|ws| - 1].(to := s.now + ttl)]
      case Release(_, _) => if ws == [] then ws else ws[..|ws| - 1] + [ws[|ws| - 1].(to := s.now)]
  }

  function Windows(ops: seq<Op>, owner: string, host: string): seq<Window> {
    if ops == [] then []
    else
      var before := ops[..|ops| - 1];
      WindowsAfter(Windows(before, owner, host), Run(before), ops[|ops| - 1], owner, host)
  }

  predicate Apart(a: Window, b: Window) {
    a.to <= b.from || b.to <= a.from
  }

  /** The windows on one host, by owner. */
  type View = string -> seq<Window>

  ghost predicate IsWindow(view: View, owner: string, k: int) {
    0 <= k < |view(owner)|
  }

  /** No two windows on the host overlap, neither of different owners nor of one owner. */
  ghost predicate AllApart(view: View) {
    forall o1, o2, j, k :: IsWindow(view, o1, j) && IsWindow(view, o2, k) && (o1 != o2 || j != k) ==>
      Apart(view(o1)[j], view(o2)[k])
  }

  /** Every window is over at the given time, except the latest one of `current`. */
  ghost predicate OverBy(view: View, time: nat, current: Option<string>) {
    forall o, k :: IsWindow(view, o, k) && !(current == Some(o) && k == |view(o)| - 1) ==> view(o)[k].to <= time
  }

  /** The latest window of the owner in the store is the one that the store backs; it lasts as long as the key,
      and all others ended before it began.  When the store backs nothing, every window is over. */
  ghost predicate Backed(s: Store, host: string, view: View) {
    if Live(s, Key(host)) then
      var e := s.keys[Key(host)];
      var ws := view(e.owner);
      && ws != [] && ws[|ws| - 1].from <= s.now && ws[|ws| - 1].to == e.deadline
      && OverBy(view, ws[|ws| - 1].from, Some(e.owner))
    else
      OverBy(view, s.now, None)
  }

  ghost predicate LeaseInvariant(s: Store, host: string, view: View) {
    AllApart(view) && Backed(s, host, view)
  }

  ghost predicate OnlyChanged(view: View, view': View, owner: string) {
    forall o :: o != owner ==> view'(o) == view(o)
  }

  lemma GrantKeepsInvariant(s: Store, host: string, view: View, owner: string, ttl: nat, view': View)
    requires LeaseInvariant(s, host, view) && 0 < ttl && !Live(s, Key(host))
    requires OnlyChanged(view, view', owner) && view'(owner) == view(owner) + [Window(s.now, s.now + ttl)]
    ensures LeaseInvariant(After(s, Acquire(owner, host, ttl)), host, view')
  {
    forall o, k | IsWindow(view', o, k) && !(o == owner && k == |view'(o)| - 1)
      ensures IsWindow(view, o, k) && view'(o)[k] == view(o)[k] && view(o)[k].to <= s.now
    {
    }
  }

  lemma MoveEndKeepsInvariant(s: Store, host: string, view: View, owner: string, to: nat, s': Store, view': View)
    requires LeaseInvariant(s, host, view) && Holds(s, owner, host) && s.now <= to
    requires OnlyChanged(view, view', owner) && |view'(owner)| == |view(owner)|
    requires forall k :: 0 <= k < |view(owner)| ==>
               view'(owner)[k] == if k == |view(owner)| - 1 then view(owner)[k].(to := to) else view(owner)[k]
    requires s'.now == s.now
    requires if Live(s', Key(host)) then s'.keys[Key(host)] == Entry(owner, to) else to == s.now
    ensures LeaseInvariant(s', host, view')
  {
    var last := |view(owner)| - 1;
    forall o, k | IsWindow(view', o, k) && !(o == owner && k == last)
      ensures IsWindow(view, o, k) && view'(o)[k] == view(o)[k] && view(o)[k].to <= view(owner)[last].from
    {
    }
  }

  lemma TickKeepsInvariant(s: Store, host: string, view: View, ms: nat)
    requires LeaseInvariant(s, host, view)
    ensures LeaseInvariant(After(s, Tick(ms)), host, view)
  {
  }

  lemma UnseenKeepsInvariant(s: Store, host: string, view: View, s': Store, view': View)
    requires LeaseInvariant(s, host, view) && forall o :: view'(o) == view(o)
    requires s'.now == s.now && (Key(host) in s'.keys <==> Key(host) in s.keys)
    requires Key(host) in s.keys ==> s'.keys[Key(host)] == s.keys[Key(host)]
    ensures LeaseInvariant(s', host, view')
  {
    assert forall o, k :: IsWindow(view', o, k) ==> IsWindow(view, o, k);
  }

  lemma StepKeepsInvariant(s: Store, host: string, view: View, op: Op, view': View)
    requires LeaseInvariant(s, host, view)
    requires (op.Acquire? || op.Refresh?) ==> 0 < op.ttl
    requires forall o :: view'(o) == WindowsAfter(view(o), s, op, o, host)
    ensures LeaseInvariant(After(s, op), host, view')
  {
    if op.Tick? {
      TickKeepsInvariant(s, host, view, op.ms);
      UnseenKeepsInvariant(After(s, op), host, view, After(s, op), view');
    } else if op.host != host || !Granted(s, op) {
      KeysOfHostsDiffer(op.host, host);
      UnseenKeepsInvariant(s, host, view, After(s, op), view');
    } else if op.Acquire? {
      GrantKeepsInvariant(s, host, view, op.owner, op.ttl, view');
    } else {
      var to := if op.Refresh? then s.now + op.ttl else s.now;
      MoveEndKeepsInvariant(s, host, view, op.owner, to, After(s, op), view');
    }
  }

  lemma {:induction false} WindowsInvariant(ops: seq<Op>, host: string)
    requires PositiveTtls(ops)
    ensures LeaseInvariant(Run(ops), host, o => Windows(ops, o, host))
  {
    if ops == [] {
      assert forall o :: Windows(ops, o, host) == [];
    } else {
      var before, op := ops[..|ops| - 1], ops[|ops| - 1];
      WindowsInvariant(before, host);
      StepKeepsInvariant(Run(before), host, o => Windows(before, o, host), op, o => Windows(ops, o, host));
    }
  }

  /** Mutual exclusion over all runs: whatever the owners do and in whatever order, the windows of two different
      owners on one host never overlap. */
  lemma LeaseMutualExclusion(ops: seq<Op>, host: string, o1: string, o2: string)
    requires PositiveTtls(ops) && o1 != o2
    ensures forall j, k :: 0 <= j < |Windows(ops, o1, host)| && 0 <= k < |Windows(ops, o2, host)| ==>
                             Apart(Windows(ops, o1, host)[j], Windows(ops, o2, host)[k])
  {
    WindowsInvariant(ops, host);
    var view: View := o => Windows(ops, o, host);
    forall j, k | 0 <= j < |Windows(ops, o1, host)| && 0 <= k < |Windows(ops, o2, host)|
      ensures Apart(Windows(ops, o1, host)[j], Windows(ops, o2, host)[k])
    {
      assert IsWindow(view, o1, j) && IsWindow(view, o2, k);
    }
  }

  /** Whoever is inside its latest window really holds the key in Redis, with that very deadline. */
  lemma InsideWindowMeansHolding(ops: seq<Op>, host: string, owner: string, k: nat)
    requires PositiveTtls(ops)
    requires k < |Windows(ops, owner, host)| && Run(ops).now < Windows(ops, owner, host)[k].to
    ensures Holds(Run(ops), owner, host) && Run(ops).keys[Key(host)].deadline == Windows(ops, owner, host)[k].to
  {
    WindowsInvariant(ops, host);
    var view: View := o => Windows(ops, o, host);
    assert IsWindow(view, owner, k);
  }

  /** A command of one owner leaves a live lease of another owner alone, on every host. */
  lemma OthersCannotTouchTheLease(s: Store, op: Op, owner: string, host: string)
    requires Holds(s, owner, host) && !op.Tick? && op.owner != owner
    ensures Holds(After(s, op), owner, host)
    ensures After(s, op).keys[Key(host)] == s.keys[Key(host)]
    ensures op.host == host ==> !Granted(s, op) && After(s, op) == s
  {
    KeysOfHostsDiffer(op.host, host);
  }

  // ---------------------------------------------------------------- the tasks of one workflow

  /** The store after further steps. */
  function AfterAll(s: Store, ops: seq<Op>): Store {
    if ops == [] then s else After(AfterAll(s, ops[..|ops| - 1]), ops[|ops| - 1])
  }

  lemma {:induction false} RunsOn(first: seq<Op>, later: seq<Op>)
    ensures AfterAll(Run(first), later) == Run(first + later)
  {
    if later != [] {
      RunsOn(first, later[..|later| - 1]);
      assert (first + later)[..|first + later| - 1] == first + later[..|later| - 1];
    } else {
      assert first + later == first;
    }
  }

  /** Only other owners do anything. */
  predicate OthersOnly(ops: seq<Op>, owner: string) {
    forall k :: 0 <= k < |ops| ==> ops[k].Tick? || ops[k].owner != owner
  }

  lemma {:induction false} ClockMovesOn(s: Store, ops: seq<Op>)
    ensures s.now <= AfterAll(s, ops).now
  {
    if ops != [] {
      ClockMovesOn(s, ops[..|ops| - 1]);
    }
  }

  /** Until its deadline a lease survives whatever others do. */
  lemma {:induction false} LeaseSurvivesOthers(s: Store, ops: seq<Op>, owner: string, host: string)
    requires Holds(s, owner, host) && OthersOnly(ops, owner) && AfterAll(s, ops).now < s.keys[Key(host)].deadline
    ensures Holds(AfterAll(s, ops), owner, host)
    ensures AfterAll(s, ops).keys[Key(host)] == s.keys[Key(host)]
  {
    if ops != [] {
      var before, op := ops[..|ops| - 1], ops[|ops| - 1];
      LeaseSurvivesOthers(s, before, owner, host);
      if !op.Tick? {
        OthersCannotTouchTheLease(AfterAll(s, before), op, owner, host);
      }
    }
  }

  /** And it ends there: from the deadline on, and not before, the host is free for any owner. */
  lemma FreeFromTheDeadline(s: Store, owner: string, host: string, ttl: nat, ms: nat, other: string, otherTtl: nat)
    requires !Live(s, Key(host)) && 0 < ttl
    ensures var later := After(After(s, Acquire(owner, host, ttl)), Tick(ms));
      && (Granted(later, Acquire(other, host, otherTtl)) <==> ttl <= ms)
      && (Granted(later, Refresh(owner, host, ttl)) <==> ms < ttl)
      && (Granted(later, Release(owner, host)) <==> ms < ttl)
  {
  }

  /** The tasks of one workflow execution are one owner, those of different ones are different owners. */
  lemma OwnersAreWorkflows(a: ActionContext, b: ActionContext)
    requires a.workflowExecutionId != "" && b.workflowExecutionId != ""
    ensures Owner(a) == Owner(b) <==> a.workflowExecutionId == b.workflowExecutionId
    ensures Owner(a) == a.workflowExecutionId
  {
  }

  /** What an action answers: it needs an owner, then a host and a positive time to live, and then Redis decides. */
  lemma ActionAnswers(s: Store, ctx: ActionContext, ttlSeconds: int, host: string, op: Op, refusal: ActionError)
    requires 0 < ttlSeconds && refusal != MissingExecutionId && refusal != InvalidLockRequest
    requires op in {Acquire(Owner(ctx), host, ttlSeconds * 1000), Refresh(Owner(ctx), host, ttlSeconds * 1000),
                    Release(Owner(ctx), host)}
    ensures var r, free := ActionResult(s, ctx, ttlSeconds, host, op, refusal), !Live(s, Key(host));
      var held := Live(s, Key(host)) && s.keys[Key(host)].owner == Owner(ctx);
      if ctx.workflowExecutionId == "" && ctx.executionId == "" then r == Err(MissingExecutionId)
      else if host == "" then r == Err(InvalidLockRequest)
      else if (if op.Acquire? then free else held) then r == Ok(Owner(ctx))
      else r == Err(refusal)
  {
  }

  /** A time to live that is not positive is refused. */
  lemma InvalidExactly(s: Store, ctx: ActionContext, ttlSeconds: int, host: string, op: Op, refusal: ActionError)
    requires refusal != MissingExecutionId && refusal != InvalidLockRequest
    ensures ActionResult(s, ctx, ttlSeconds, host, op, refusal) == Err(InvalidLockRequest) <==>
            !(ctx.workflowExecutionId == "" && ctx.executionId == "") && (host == "" || ttlSeconds <= 0)
  {
  }

  /** What one task of a workflow execution has acquired, a later one can refresh, and release, as long as the time to
      live is not over, whatever other executions do in between. */
  lemma {:induction false} LaterTasksKeepTheLease(s: Store, a: ActionContext, b: ActionContext, host: string,
                                                  ttlSeconds: int, between: seq<Op>)
    requires a.workflowExecutionId != "" && b.workflowExecutionId == a.workflowExecutionId && 0 < ttlSeconds
    requires var op := Acquire(Owner(a), host, ttlSeconds * 1000);
      && ActionResult(s, a, ttlSeconds, host, op, AlreadyHeld).Ok?
      && OthersOnly(between, Owner(a)) && AfterAll(After(s, op), between).now < s.now + ttlSeconds * 1000
    ensures var later := AfterAll(After(s, Acquire(Owner(a), host, ttlSeconds * 1000)), between);
      && ActionResult(later, b, ttlSeconds, host, Refresh(Owner(b), host, ttlSeconds * 1000), OwnershipLost).Ok?
      && ActionResult(later, b, ttlSeconds, host, Release(Owner(b), host), OwnershipLost).Ok?
  {
    OwnersAreWorkflows(a, b);
    ClockMovesOn(After(s, Acquire(Owner(a), host, ttlSeconds * 1000)), between);
    LeaseSurvivesOthers(After(s, Acquire(Owner(a), host, ttlSeconds * 1000)), between, Owner(a), host);
  }
}
