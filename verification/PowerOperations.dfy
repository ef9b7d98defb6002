/**
 The polling operations of the power workflows over arbitrary answers of the remote services: every read of a
 node, and every listing of servers, returns whatever the trace says.
*/
module PowerOperations {
  import opened Common
  import opened Arithmetic

  /** One reading of an Ironic node; an empty string stands for an absent value. */
  datatype Observation = Observation(power: string, pending: string, error: bool)

  datatype Node = Node(name: string, state: Observation)

  datatype Server = Server(id: string, status: string, hypervisor: string)

  datatype ServerCommand = LiveMigrate(id: string) | Stop(id: string)

  datatype Service = Service(host: string, enabled: bool)

  datatype MasakariHost = MasakariHost(name: string, onMaintenance: bool)

  datatype Error =
    | MappingError | BadArgument | UnsupportedTarget | UnsupportedPolicy
    | ConflictingTarget | BmcFailure | PowerTimeout
    | HostNotEmpty | ServerInError | DrainTimeout

  const POWER_TARGETS := {"power on", "power off", "rebooting", "soft power off", "soft rebooting"}
  const INSTANCE_POLICIES := {"require_empty", "live_migrate", "stop"}

  // ---------------------------------------------------------------- polling budget

  /** How often a loop polls: once per started interval, and once more. */
  function Attempts(timeout: int, interval: int): Result<nat, Error> {
    if timeout <= 0 || interval <= 0 then Err(BadArgument) else Ok((timeout + interval - 1) / interval + 1)
  }

  /** A loop that uses up its attempts sleeps at least the timeout and less than one interval longer. */
  lemma PollingBudget(timeout: int, interval: int)
    requires 0 < timeout && 0 < interval
    ensures var n := Attempts(timeout, interval).value;
      2 <= n && timeout <= (n - 1) * interval < timeout + interval
  {
    var n, t := Attempts(timeout, interval).value, timeout + interval - 1;
    assert t == interval * (t / interval) + t % interval;
    assert (n - 1) * interval == interval * (t / interval);
    DivAtLeastOne(t, interval);
  }

  lemma AttemptsAreDefined(timeout: int, interval: int)
    ensures Attempts(timeout, interval).Ok? <==> 0 < timeout && 0 < interval
  {
  }

  // ---------------------------------------------------------------- waiting for a power state

  /** How the observation of a node may end: at which reading, or not at all. */
  datatype PollEnd = Confirmed(at: nat) | Failed(at: nat) | Conflict(at: nat) | TimedOut

  type Trace = nat -> Observation

  /** Pending targets that do not contradict the wanted state. */
  function Compatible(target: string): set<string> {
    if target == "power off" then {target, "soft power off"}
    else if target == "rebooting" then {target, "soft rebooting"}
    else {target}
  }

  predicate Contradicts(o: Observation, target: string, compatible: set<string>) {
    o.pending != "" && o.pending !in compatible && o.power != target
  }

  /** The readings from i up to `end`, with the number of consecutive wanted ones before i. */
  function Poll(r: Trace, target: string, compatible: set<string>, n: nat, i: nat, end: nat, stable: nat): PollEnd
    decreases end - i
  {
    if i >= end then TimedOut
    else if r(i).error then Failed(i)
    else if Contradicts(r(i), target, compatible) then Conflict(i)
    else
      var stable' := if r(i).power == target then stable + 1 else 0;
      if n <= stable' then Confirmed(i) else Poll(r, target, compatible, n, i + 1, end, stable')
  }

  /** The last n readings up to k, all made since `begin`, show the wanted state. */
  ghost predicate StableAt(r: Trace, target: string, n: nat, begin: nat, k: nat) {
    begin + n <= k + 1 && forall j: nat :: k < j + n && j <= k ==> r(j).power == target
  }

  /** Reading j aborts the wait. */
  predicate Aborts(r: Trace, target: string, compatible: set<string>, j: nat) {
    r(j).error || Contradicts(r(j), target, compatible)
  }

  /** None of the readings before k aborts or completes a stable window. */
  ghost predicate QuietBefore(r: Trace, target: string, compatible: set<string>, n: nat, begin: nat, k: nat) {
    forall j :: begin <= j < k ==> !Aborts(r, target, compatible, j) && !StableAt(r, target, n, begin, j)
  }

  ghost predicate Streak(r: Trace, target: string, begin: nat, i: nat, stable: nat) {
    && begin + stable <= i
    && (forall j: nat :: i <= j + stable && j < i ==> r(j).power == target)
    && (begin + stable < i ==> r(i - stable - 1).power != target)
  }

  lemma StreakDecides(r: Trace, target: string, n: nat, begin: nat, i: nat, stable: nat)
    requires Streak(r, target, begin, i, stable) && stable < n && begin <= i
    ensures StableAt(r, target, n, begin, i) <==> r(i).power == target && n == stable + 1
  {
    var breaker := if begin + stable < i then r(i - stable - 1) else r(i);
  }

  lemma {:induction false} PollFollowsTheTrace(r: Trace, target: string, compatible: set<string>, n: nat,
                                               begin: nat, i: nat, end: nat, stable: nat)
    requires begin <= i <= end && stable < n && Streak(r, target, begin, i, stable)
    requires QuietBefore(r, target, compatible, n, begin, i)
    ensures match Poll(r, target, compatible, n, i, end, stable)
      case Confirmed(k) =>
        begin <= k < end && QuietBefore(r, target, compatible, n, begin, k)
        && StableAt(r, target, n, begin, k) && !Aborts(r, target, compatible, k)
      case Failed(k) => begin <= k < end && QuietBefore(r, target, compatible, n, begin, k)
        && r(k).error && Aborts(r, target, compatible, k)
      case Conflict(k) =>
        begin <= k < end && QuietBefore(r, target, compatible, n, begin, k)
        && !r(k).error && Contradicts(r(k), target, compatible) && Aborts(r, target, compatible, k)
      case TimedOut => QuietBefore(r, target, compatible, n, begin, end)
    decreases end - i
  {
    if i < end && !Aborts(r, target, compatible, i) {
      StreakDecides(r, target, n, begin, i, stable);
      var stable' := if r(i).power == target then stable + 1 else 0;
      if stable' < n {
        PollFollowsTheTrace(r, target, compatible, n, begin, i + 1, end, stable');
      }
    }
  }

  /** Stable-window characterisation: the wait succeeds at reading k exactly when k is the first reading that ends n
      consecutive wanted ones and no reading up to k reports an error or a contradicting pending target. */
  lemma ConfirmedExactly(r: Trace, target: string, compatible: set<string>, n: nat, begin: nat, end: nat, k: nat)
    requires 0 < n && begin <= end
    ensures Poll(r, target, compatible, n, begin, end, 0) == Confirmed(k) <==>
            && begin <= k < end
            && StableAt(r, target, n, begin, k)
            && (forall j :: begin <= j < k ==> !StableAt(r, target, n, begin, j))
            && (forall j :: begin <= j <= k ==> !Aborts(r, target, compatible, j))
  {
    PollFollowsTheTrace(r, target, compatible, n, begin, begin, end, 0);
  }

  /** The wait gives up with an error exactly when it should: at the first reading that aborts, if no window was
      complete before; and it times out exactly when neither happens before the attempts are used up. */
  lemma NotConfirmedExactly(r: Trace, target: string, compatible: set<string>, n: nat, begin: nat, end: nat)
    requires 0 < n && begin <= end
    ensures var p := Poll(r, target, compatible, n, begin, end, 0);
      && (p.TimedOut? <==> QuietBefore(r, target, compatible, n, begin, end))
      && forall k: nat :: (p == Failed(k) || p == Conflict(k)) <==>
           begin <= k < end && Aborts(r, target, compatible, k) && QuietBefore(r, target, compatible, n, begin, k)
  {
    PollFollowsTheTrace(r, target, compatible, n, begin, begin, end, 0);
    var p := Poll(r, target, compatible, n, begin, end, 0);
    forall k: nat
      ensures (p == Failed(k) || p == Conflict(k)) <==>
              begin <= k < end && Aborts(r, target, compatible, k) && QuietBefore(r, target, compatible, n, begin, k)
    {
      if begin <= k < end && Aborts(r, target, compatible, k) && QuietBefore(r, target, compatible, n, begin, k) {
        assert p.TimedOut? ==> !Aborts(r, target, compatible, k);
      }
    }
  }

  /** A node that shows the wanted state without errors from reading j on is confirmed in time, if j leaves room for
      n readings and nothing aborted before. */
  lemma SteadyNodeIsConfirmed(r: Trace, target: string, compatible: set<string>, n: nat, begin: nat, end: nat, j: nat)
    requires 0 < n && begin <= j && j + n <= end
    requires forall i :: j <= i < end ==> r(i).power == target && !r(i).error
    requires forall i :: begin <= i < j ==> !Aborts(r, target, compatible, i)
    ensures Poll(r, target, compatible, n, begin, end, 0).Confirmed?
    ensures Poll(r, target, compatible, n, begin, end, 0).at < j + n
  {
    PollFollowsTheTrace(r, target, compatible, n, begin, begin, end, 0);
    assert StableAt(r, target, n, begin, j + n - 1);
  }

  // ---------------------------------------------------------------- requesting a power state

  datatype Decision = Send(target: string) | Skip | Refuse

  /** Soft requests replace the hard target by its soft variant. */
  function EffectiveTarget(target: string, soft: bool): string {
    if soft && target == "power off" then "soft power off"
    else if soft && target == "rebooting" then "soft rebooting"
    else target
  }

  function Decide(o: Observation, target: string, soft: bool): Decision {
    var effective := EffectiveTarget(target, soft);
    if o.power == target || o.pending == effective then Skip
    else if o.pending != "" then Refuse
    else Send(effective)
  }

  /** A request for a target sends the target or, where there is one and it is asked for, the soft variant; the wait for
      the target is compatible with exactly these. */
  lemma RequestsAndWaitsMatch(target: string, soft: bool)
    ensures EffectiveTarget(target, soft) ==
            if soft && target in {"power off", "rebooting"} then "soft " + target else target
    ensures Compatible(target) == {EffectiveTarget(target, false), EffectiveTarget(target, true)}
    ensures target in POWER_TARGETS ==> Compatible(target) <= POWER_TARGETS
  {
    assert "soft " + "power off" == "soft power off" && "soft " + "rebooting" == "soft rebooting";
  }

  /** A request is refused exactly when the wait would give up on the same reading, or when the other one of the hard
      and the soft variant is pending; it is skipped when there is nothing left to ask for. */
  lemma RefusedExactly(o: Observation, target: string, soft: bool)
    ensures Decide(o, target, soft).Refuse? <==>
            || Contradicts(o, target, Compatible(target))
            || (o.power != target && o.pending != "" && o.pending in Compatible(target)
                && o.pending != EffectiveTarget(target, soft))
    ensures Decide(o, target, soft).Skip? <==> o.power == target || o.pending == EffectiveTarget(target, soft)
  {
  }

  /** What was sent and is now pending does not disturb the wait, and is not sent a second time. */
  lemma PendingRequestIsAwaited(o: Observation, target: string, soft: bool, next: Observation)
    requires Decide(o, target, soft).Send? && next.pending == Decide(o, target, soft).target
    ensures !Contradicts(next, target, Compatible(target))
    ensures Decide(next, target, soft).Skip?
  {
    RequestsAndWaitsMatch(target, soft);
  }

  /** Request and wait as one operation: a node that shows what was sent as pending, or nothing, until it has the wanted
      state, and keeps that, is confirmed in time. */
  lemma {:induction false} RequestThenWait(o: Observation, target: string, soft: bool, r: Trace, n: nat, begin: nat,
                                           end: nat, j: nat)
    requires Decide(o, target, soft).Send? && 0 < n && begin <= j && j + n <= end
    requires forall i :: begin <= i < j ==> !r(i).error && r(i).pending in {"", Decide(o, target, soft).target}
    requires forall i :: j <= i < end ==> r(i).power == target && !r(i).error
    ensures Poll(r, target, Compatible(target), n, begin, end, 0).Confirmed?
    ensures Poll(r, target, Compatible(target), n, begin, end, 0).at < j + n
  {
    hide Poll, Decide, Contradicts, Compatible;
    forall i | begin <= i < j
      ensures !Aborts(r, target, Compatible(target), i)
    {
      if r(i).pending == "" {
        NothingPending(r(i), target, Compatible(target));
      } else {
        PendingRequestIsAwaited(o, target, soft, r(i));
      }
    }
    SteadyNodeIsConfirmed(r, target, Compatible(target), n, begin, end, j);
  }

  lemma NothingPending(o: Observation, target: string, compatible: set<string>)
    requires o.pending == ""
    ensures !Contradicts(o, target, compatible)
  {
  }

  // ---------------------------------------------------------------- draining a host

  function OnHost(servers: seq<Server>, host: string): seq<Server> {
    if servers == [] then []
    else (if servers[0].hypervisor == host then [servers[0]] else []) + OnHost(servers[1..], host)
  }

  /** The gate before a power-off: no server left, or only stopped ones where that is allowed. */
  predicate SafeToPowerOff(servers: seq<Server>, allowShutoff: bool) {
    servers == [] || (allowShutoff && forall k :: 0 <= k < |servers| ==> servers[k].status == "SHUTOFF")
  }

  predicate AnyInError(servers: seq<Server>) {
    exists k :: 0 <= k < |servers| && servers[k].status == "ERROR"
  }

  function Migrations(servers: seq<Server>): (c: seq<ServerCommand>)
    ensures |c| == |servers| && forall k :: 0 <= k < |c| ==> c[k] == LiveMigrate(servers[k].id)
  {
    seq(|servers|, k requires 0 <= k < |servers| => LiveMigrate(servers[k].id))
  }

  function Stops(servers: seq<Server>): (c: seq<ServerCommand>)
    ensures |c| == |servers| && forall k :: 0 <= k < |c| ==> c[k] == Stop(servers[k].id)
  {
    seq(|servers|, k requires 0 <= k < |servers| => Stop(servers[k].id))
  }

  type Listings = nat -> seq<Server>

  datatype DrainEnd = Drained(at: nat) | InError(at: nat) | StillThere

  function DrainPoll(l: Listings, host: string, allowShutoff: bool, i: nat, end: nat): DrainEnd
    decreases end - i
  {
    if i >= end then StillThere
    else if SafeToPowerOff(OnHost(l(i), host), allowShutoff) then Drained(i)
    else if AnyInError(OnHost(l(i), host)) then InError(i)
    else DrainPoll(l, host, allowShutoff, i + 1, end)
  }

  /** The servers on the host are those of the listing whose hypervisor it is, each as often as it is listed. */
  lemma {:induction false} OnHostExactly(servers: seq<Server>, host: string, x: Server)
    ensures multiset(OnHost(servers, host))[x] == if x.hypervisor == host then multiset(servers)[x] else 0
  {
    if servers != [] {
      OnHostExactly(servers[1..], host, x);
      assert servers == [servers[0]] + servers[1..];
    }
  }

  /** A server on the host that keeps it from being powered off. */
  ghost predicate Occupied(servers: seq<Server>, host: string, allowShutoff: bool) {
    exists s :: s in servers && s.hypervisor == host && !(allowShutoff && s.status == "SHUTOFF")
  }

  ghost predicate Faulty(servers: seq<Server>, host: string) {
    exists s :: s in servers && s.hypervisor == host && s.status == "ERROR"
  }

  lemma OnHostMembers(servers: seq<Server>, host: string)
    ensures forall s :: s in OnHost(servers, host) <==> s in servers && s.hypervisor == host
  {
    hide OnHost;
    forall s
      ensures s in OnHost(servers, host) <==> s in servers && s.hypervisor == host
    {
      OnHostExactly(servers, host, s);
      assert s in OnHost(servers, host) <==> 0 < multiset(OnHost(servers, host))[s];
      assert s in servers <==> 0 < multiset(servers)[s];
    }
  }

  lemma {:induction false} GatesLookAtTheHost(servers: seq<Server>, host: string, allowShutoff: bool)
    ensures SafeToPowerOff(OnHost(servers, host), allowShutoff) <==> !Occupied(servers, host, allowShutoff)
    ensures AnyInError(OnHost(servers, host)) <==> Faulty(servers, host)
  {
    hide OnHost;
    var there := OnHost(servers, host);
    OnHostMembers(servers, host);
    if !SafeToPowerOff(there, allowShutoff) {
      var k :| 0 <= k < |there| && !(allowShutoff && there[k].status == "SHUTOFF");
      assert there[k] in there;
    }
    if AnyInError(there) {
      var k :| 0 <= k < |there| && there[k].status == "ERROR";
      assert there[k] in there;
    }
    if s :| s in there && s.status == "ERROR" {
      var k :| 0 <= k < |there| && there[k] == s;
    }
    if s :| s in there && !(allowShutoff && s.status == "SHUTOFF") {
      var k :| 0 <= k < |there| && there[k] == s;
    }
  }

  /** The drain succeeds at listing k exactly when k is the first one that passes the power-off gate and no listing
      before it shows a server in error; so the gate holds on the last listing the drain looked at. */
  lemma {:induction false} DrainedExactly(l: Listings, host: string, allowShutoff: bool, i: nat, end: nat, k: nat)
    requires i <= end
    ensures DrainPoll(l, host, allowShutoff, i, end) == Drained(k) <==>
            && i <= k < end
            && SafeToPowerOff(OnHost(l(k), host), allowShutoff)
            && forall j :: i <= j < k ==>
                !SafeToPowerOff(OnHost(l(j), host), allowShutoff) && !AnyInError(OnHost(l(j), host))
    decreases end - i
  {
    if i < end {
      DrainedExactly(l, host, allowShutoff, i + 1, end, k);
    }
  }

  // ---------------------------------------------------------------- the operations

  /** The remote services as one connection: what they answer is fixed by the traces, what was asked is recorded. */
  class Connection {
    const nodes: seq<Node>
    const readings: Trace
    const listings: Listings
    var observed: nat
    var lists: nat
    var slept: nat
    var powerCommands: seq<string>
    var serverCommands: seq<ServerCommand>
    var services: seq<Service>
    var masakariHosts: seq<MasakariHost>

    /** Calls that changed a service or a Masakari record. */
    var stateCalls: nat

    constructor (nodes: seq<Node>, readings: Trace, listings: Listings, services: seq<Service>,
                 hosts: seq<MasakariHost>)
      ensures observed == lists == slept == stateCalls == 0 && powerCommands == [] && serverCommands == []
      ensures this.nodes == nodes && this.readings == readings && this.listings == listings
      ensures this.services == services && masakariHosts == hosts
    {
      this.nodes, this.readings, this.listings := nodes, readings, listings;
      observed, lists, slept, powerCommands, serverCommands := 0, 0, 0, [], [];
      this.services, masakariHosts, stateCalls := services, hosts, 0;
    }

    method GetNode() returns (o: Observation)
      modifies this`observed
      ensures o == readings(old(observed)) && observed == old(observed) + 1
    {
      o := readings(observed);
      observed := observed + 1;
    }

    method ListServers(host: string) returns (s: seq<Server>)
      modifies this`lists
      ensures s == OnHost(listings(old(lists)), host) && lists == old(lists) + 1
    {
      s := OnHost(listings(lists), host);
      lists := lists + 1;
    }

    method Sleep(seconds: nat)
      modifies this`slept
      ensures slept == old(slept) + seconds
    {
      slept := slept + seconds;
    }
  }

  /** The nodes with the given name, as the comprehension in the source collects them. */
  function NamedNodes(nodes: seq<Node>, host: string): seq<Node> {
    if nodes == [] then []
    else (if nodes[0].name == host then [nodes[0]] else []) + NamedNodes(nodes[1..], host)
  }

  /** These are all nodes of the name, each as often as it is listed. */
  lemma {:induction false} NamedNodesExactly(nodes: seq<Node>, host: string, x: Node)
    ensures multiset(NamedNodes(nodes, host))[x] == if x.name == host then multiset(nodes)[x] else 0
  {
    if nodes != [] {
      NamedNodesExactly(nodes[1..], host, x);
      assert nodes == [nodes[0]] + nodes[1..];
    }
  }

  method RequestPower(c: Connection, host: string, target: string, soft: bool) returns (r: Result<Decision, Error>)
    modifies c`powerCommands
    ensures r == if target !in POWER_TARGETS then Err(UnsupportedTarget)
                 else if |NamedNodes(c.nodes, host)| != 1 then Err(MappingError)
                 else var d := Decide(NamedNodes(c.nodes, host)[0].state, target, soft);
                      if d.Refuse? then Err(ConflictingTarget) else Ok(d)
    ensures c.powerCommands == old(c.powerCommands) + if r.Ok? && r.value.Send? then [r.value.target] else []
  {
    if target !in POWER_TARGETS {
      return Err(UnsupportedTarget);
    }
    var matches := NamedNodes(c.nodes, host);
    if |matches| != 1 {
      return Err(MappingError);
    }
    var o := matches[0].state;
    var effective := target;
    if soft && target == "power off" {
      effective := "soft power off";
    } else if soft && target == "rebooting" {
      effective := "soft rebooting";
    }
    if o.power == target || o.pending == effective {
      return Ok(Skip);
    }
    if o.pending != "" && o.pending != effective {
      return Err(ConflictingTarget);
    }
    c.powerCommands := c.powerCommands + [effective];
    r := Ok(Send(effective));
  }

  /** Readings and seconds that a wait with the given end has used up. */
  function ReadsUsed(p: PollEnd, begin: nat, attempts: nat): int {
    if p.TimedOut? then attempts else p.at - begin + 1
  }

  method WaitPower(c: Connection, host: string, target: string, timeout: int, interval: int, n: int)
    returns (r: Result<nat, Error>)
    modifies c`observed, c`slept
    ensures n < 2 ==> r == Err(BadArgument) && c.observed == old(c.observed) && c.slept == old(c.slept)
    ensures 2 <= n && |NamedNodes(c.nodes, host)| != 1 ==>
              r == Err(MappingError) && c.observed == old(c.observed) && c.slept == old(c.slept)
    ensures 2 <= n && |NamedNodes(c.nodes, host)| == 1 && (timeout <= 0 || interval <= 0) ==>
              r == Err(BadArgument) && c.observed == old(c.observed) && c.slept == old(c.slept)
    ensures 2 <= n && |NamedNodes(c.nodes, host)| == 1 && 0 < timeout && 0 < interval ==>
              var begin, attempts := old(c.observed), Attempts(timeout, interval).value;
              var p := Poll(c.readings, target, Compatible(target), n, begin, begin + attempts, 0);
              && r == (match p
                       case Confirmed(k) => Ok(k)
                       case Failed(_) => Err(BmcFailure)
                       case Conflict(_) => Err(ConflictingTarget)
                       case TimedOut => Err(PowerTimeout))
              && c.observed == begin + ReadsUsed(p, begin, attempts)
              && c.slept == old(c.slept) + (c.observed - begin - 1) * interval
    ensures r.Ok? ==> r.value == c.observed - 1
    ensures r == Err(PowerTimeout) ==> c.observed == old(c.observed) + Attempts(timeout, interval).value
  {
    if n < 2 {
      return Err(BadArgument);
    }
    if |NamedNodes(c.nodes, host)| != 1 {
      return Err(MappingError);
    }
    if timeout <= 0 || interval <= 0 {
      return Err(BadArgument);
    }
    PollingBudget(timeout, interval);
    var attempts := Attempts(timeout, interval).value;
    ghost var begin, end := c.observed, c.observed + attempts;
    ghost var all := Poll(c.readings, target, Compatible(target), n, begin, end, 0);
    var stable := 0;
    for attempt := 0 to attempts
      invariant c.observed == begin + attempt
      invariant c.slept == old(c.slept) + (if attempt < attempts then attempt else attempt - 1) * interval
      invariant Poll(c.readings, target, Compatible(target), n, c.observed, end, stable) == all
    {
      var o := c.GetNode();
      if o.error {
        return Err(BmcFailure);
      }
      var compatible := {target};
      if target == "power off" {
        compatible := compatible + {"soft power off"};
      } else if target == "rebooting" {
        compatible := compatible + {"soft rebooting"};
      }
      assert compatible == Compatible(target);
      if o.pending != "" && o.pending !in compatible && o.power != target {
        return Err(ConflictingTarget);
      }
      stable := if o.power == target then stable + 1 else 0;
      if stable >= n {
        return Ok(c.observed - 1);
      }
      if attempt + 1 < attempts {
        c.Sleep(interval);
        assert attempt * interval + interval == (attempt + 1) * interval;
      }
    }
    r := Err(PowerTimeout);
  }

  /** What drain_host sends, seen from its first listing. */
  function DrainCommands(policy: string, initial: seq<Server>): seq<ServerCommand> {
    if policy == "live_migrate" then Migrations(initial)
    else if policy == "stop" then Stops(initial)
    else []
  }

  /** Migrating asks every server to leave, stopping asks every server to stop, and no other policy asks anything. */
  lemma CommandsPerServer(policy: string, initial: seq<Server>)
    ensures policy == "live_migrate" || policy == "stop" ==> |DrainCommands(policy, initial)| == |initial|
    ensures policy == "live_migrate" ==>
              forall k :: 0 <= k < |initial| ==> DrainCommands(policy, initial)[k] == LiveMigrate(initial[k].id)
    ensures policy == "stop" ==>
              forall k :: 0 <= k < |initial| ==> DrainCommands(policy, initial)[k] == Stop(initial[k].id)
    ensures policy !in {"live_migrate", "stop"} ==> DrainCommands(policy, initial) == []
  {
    assert "live_migrate" != "stop" by {
      assert |"live_migrate"| != |"stop"|;
    }
  }

  /** One command for every server of the first listing. */
  method SendDrainCommands(c: Connection, policy: string, initial: seq<Server>)
    requires policy in {"live_migrate", "stop"}
    modifies c`serverCommands
    ensures c.serverCommands == old(c.serverCommands) + DrainCommands(policy, initial)
  {
    for k := 0 to |initial|
      invariant c.serverCommands == old(c.serverCommands) + DrainCommands(policy, initial)[..k]
    {
      var command := if policy == "live_migrate" then LiveMigrate(initial[k].id) else Stop(initial[k].id);
      c.serverCommands := c.serverCommands + [command];
    }
  }

  /** Listings that a drain with the given end has looked at. */
  function ListingsUsed(d: DrainEnd, begin: nat, attempts: nat): int {
    if d.StillThere? then attempts else d.at - begin + 1
  }

  function DrainResult(d: DrainEnd): Result<nat, Error> {
    match d
    case Drained(k) => Ok(k)
    case InError(_) => Err(ServerInError)
    case StillThere => Err(DrainTimeout)
  }

  lemma DrainPollStep(l: Listings, host: string, allowShutoff: bool, i: nat, end: nat)
    requires i < end
    ensures DrainPoll(l, host, allowShutoff, i, end) ==
            if SafeToPowerOff(OnHost(l(i), host), allowShutoff) then Drained(i)
            else if AnyInError(OnHost(l(i), host)) then InError(i)
            else DrainPoll(l, host, allowShutoff, i + 1, end)
  {
  }

  lemma DrainPollOver(l: Listings, host: string, allowShutoff: bool, end: nat)
    ensures DrainPoll(l, host, allowShutoff, end, end) == StillThere
  {
  }

  /** Until listing k the host has been occupied, and no server on it has been in error. */
  ghost predicate StillDraining(l: Listings, host: string, allowShutoff: bool, i: nat, k: nat) {
    forall j :: i <= j < k ==> Occupied(l(j), host, allowShutoff) && !Faulty(l(j), host)
  }

  /** How a drain ends, in terms of the servers listed: with success at the first listing that leaves the host free,
      with an error at the first one before that with a server in error, and without either when they are used up. */
  lemma {:induction false} DrainEndsExactly(l: Listings, host: string, allowShutoff: bool, i: nat, end: nat)
    requires i <= end
    ensures var r := DrainResult(DrainPoll(l, host, allowShutoff, i, end)); match r
      case Ok(k) => i <= k < end && !Occupied(l(k), host, allowShutoff) && StillDraining(l, host, allowShutoff, i, k)
      case Err(e) =>
        if e == ServerInError then
          exists k :: i <= k < end && Occupied(l(k), host, allowShutoff) && Faulty(l(k), host)
                      && StillDraining(l, host, allowShutoff, i, k)
        else e == DrainTimeout && StillDraining(l, host, allowShutoff, i, end)
    decreases end - i
  {
    hide Occupied, Faulty, SafeToPowerOff, AnyInError, OnHost;
    if i < end {
      GatesLookAtTheHost(l(i), host, allowShutoff);
      DrainEndsExactly(l, host, allowShutoff, i + 1, end);
      if Occupied(l(i), host, allowShutoff) {
        if Faulty(l(i), host) {
          assert StillDraining(l, host, allowShutoff, i, i);
        } else {
          forall k | StillDraining(l, host, allowShutoff, i + 1, k)
            ensures StillDraining(l, host, allowShutoff, i, k)
          {
          }
        }
      }
    }
  }

  /** The polling loop of either policy: migrated servers must be gone, stopped ones may stay when shut off. */
  method AwaitDrained(c: Connection, host: string, stop: bool, attempts: nat, interval: nat)
    returns (r: Result<nat, Error>)
    requires 0 < attempts
    modifies c`lists, c`slept
    ensures old(c.lists) < c.lists
    ensures var begin := old(c.lists);
            var d := DrainPoll(c.listings, host, stop, begin, begin + attempts);
            && r == DrainResult(d)
            && c.lists == begin + ListingsUsed(d, begin, attempts)
            && c.slept == old(c.slept) + (c.lists - begin - 1) * interval
    ensures r.Ok? ==> r.value == c.lists - 1
  {
    hide DrainPoll, OnHost;
    ghost var begin, end := c.lists, c.lists + attempts;
    ghost var all := DrainPoll(c.listings, host, stop, begin, end);
    for attempt := 0 to attempts
      invariant c.lists == begin + attempt
      invariant c.slept == old(c.slept) + (if attempt < attempts then attempt else attempt - 1) * interval
      invariant DrainPoll(c.listings, host, stop, c.lists, end) == all
    {
      DrainPollStep(c.listings, host, stop, c.lists, end);
      var remaining := c.ListServers(host);
      if remaining == [] || (stop && forall k :: 0 <= k < |remaining| ==> remaining[k].status == "SHUTOFF") {
        return Ok(c.lists - 1);
      }
      if exists k :: 0 <= k < |remaining| && remaining[k].status == "ERROR" {
        return Err(ServerInError);
      }
      if attempt + 1 < attempts {
        c.Sleep(interval);
        assert attempt * interval + interval == (attempt + 1) * interval;
      }
    }
    DrainPollOver(c.listings, host, stop, end);
    r := Err(DrainTimeout);
  }

  method DrainHost(c: Connection, host: string, policy: string, timeout: int, interval: int)
    returns (r: Result<nat, Error>)
    modifies c`lists, c`slept, c`serverCommands
    ensures policy !in INSTANCE_POLICIES ==> r == Err(UnsupportedPolicy) && c.lists == old(c.lists)
    ensures policy in INSTANCE_POLICIES ==> old(c.lists) < c.lists
    ensures c.serverCommands == old(c.serverCommands) + DrainCommands(policy, OnHost(c.listings(old(c.lists)), host))
    ensures policy == "require_empty" ==>
              r == if OnHost(c.listings(old(c.lists)), host) == [] then Ok(old(c.lists)) else Err(HostNotEmpty)
    ensures policy in {"live_migrate", "stop"} && (timeout <= 0 || interval <= 0) ==> r == Err(BadArgument)
    ensures policy in {"live_migrate", "stop"} && 0 < timeout && 0 < interval ==>
              var begin, attempts := old(c.lists) + 1, Attempts(timeout, interval).value;
              var d := DrainPoll(c.listings, host, policy == "stop", begin, begin + attempts);
              && r == DrainResult(d)
              && c.lists == begin + ListingsUsed(d, begin, attempts)
              && c.slept == old(c.slept) + (c.lists - begin - 1) * interval
    ensures policy !in {"live_migrate", "stop"} || timeout <= 0 || interval <= 0 ==> c.slept == old(c.slept)
    ensures policy in INSTANCE_POLICIES && (policy == "require_empty" || timeout <= 0 || interval <= 0) ==>
              c.lists == old(c.lists) + 1
    ensures r.Ok? ==> r.value == c.lists - 1 && SafeToPowerOff(OnHost(c.listings(r.value), host), policy == "stop")
  {
    if policy !in INSTANCE_POLICIES {
      return Err(UnsupportedPolicy);
    }
    var initial := c.ListServers(host);
    if policy == "require_empty" {
      if initial != [] {
        return Err(HostNotEmpty);
      }
      return Ok(c.lists - 1);
    }
    SendDrainCommands(c, policy, initial);
    if timeout <= 0 || interval <= 0 {
      return Err(BadArgument);
    }
    PollingBudget(timeout, interval);
    var attempts := Attempts(timeout, interval).value;
    ghost var begin := c.lists;
    r := AwaitDrained(c, host, policy == "stop", attempts, interval);
    if r.Ok? {
      DrainedExactly(c.listings, host, policy == "stop", begin, begin + attempts, r.value);
    }
  }

  method AssertHostEmpty(c: Connection, host: string, allowShutoff: bool) returns (r: Result<nat, Error>)
    modifies c`lists
    ensures c.lists == old(c.lists) + 1
    ensures r == if SafeToPowerOff(OnHost(c.listings(old(c.lists)), host), allowShutoff)
                 then Ok(old(c.lists)) else Err(HostNotEmpty)
  {
    var servers := c.ListServers(host);
    if servers != [] && !(allowShutoff && forall k :: 0 <= k < |servers| ==> servers[k].status == "SHUTOFF") {
      return Err(HostNotEmpty);
    }
    r := Ok(c.lists - 1);
  }

  /** Draining establishes the gate: if the next listing shows what the last one of a successful drain showed, the
      safety check passes with the allowance that the workbook derives from the policy. */
  method DrainThenAssert(c: Connection, host: string, policy: string, timeout: int, interval: int)
    returns (drained: Result<nat, Error>, safe: Result<nat, Error>)
    modifies c`lists, c`slept, c`serverCommands
    ensures drained.Ok? ==> 0 < c.lists
    ensures drained.Ok? && OnHost(c.listings(c.lists - 1), host) == OnHost(c.listings(drained.value), host) ==> safe.Ok?
  {
    hide DrainPoll, OnHost, SafeToPowerOff;
    drained := DrainHost(c, host, policy, timeout, interval);
    safe := AssertHostEmpty(c, host, policy == "stop");
  }

  // ---------------------------------------------------------------- parking a host

  /** Positions of the entries for the host; the source insists on exactly one. */
  function ServicesOf(s: seq<Service>, host: string, i: nat): (found: seq<nat>)
    requires i <= |s|
    ensures forall k :: 0 <= k < |found| ==> i <= found[k] < |s| && s[found[k]].host == host
    ensures forall j :: i <= j < |s| && s[j].host == host ==> j in found
    decreases |s| - i
  {
    if i == |s| then [] else (if s[i].host == host then [i] else []) + ServicesOf(s, host, i + 1)
  }

  function HostsNamed(s: seq<MasakariHost>, host: string, i: nat): (found: seq<nat>)
    requires i <= |s|
    ensures forall k :: 0 <= k < |found| ==> i <= found[k] < |s| && s[found[k]].name == host
    ensures forall j :: i <= j < |s| && s[j].name == host ==> j in found
    decreases |s| - i
  {
    if i == |s| then [] else (if s[i].name == host then [i] else []) + HostsNamed(s, host, i + 1)
  }

  method SetNovaService(c: Connection, host: string, enabled: bool) returns (r: Result<bool, Error>)
    modifies c`services, c`stateCalls
    ensures c.stateCalls == old(c.stateCalls) + if c.services != old(c.services) then 1 else 0
    ensures var found := ServicesOf(old(c.services), host, 0);
      if |found| != 1 then r == Err(MappingError) && c.services == old(c.services)
      else r == Ok(enabled) && c.services == old(c.services)[found[0] := Service(host, enabled)]
  {
    var found := ServicesOf(c.services, host, 0);
    if |found| != 1 {
      return Err(MappingError);
    }
    var service := c.services[found[0]];
    if service.enabled != enabled {
      c.services := c.services[found[0] := service.(enabled := enabled)];
      c.stateCalls := c.stateCalls + 1;
    }
    r := Ok(enabled);
  }

  method SetMasakariMaintenance(c: Connection, host: string, enabled: bool) returns (r: Result<bool, Error>)
    modifies c`masakariHosts, c`stateCalls
    ensures c.stateCalls == old(c.stateCalls) + if c.masakariHosts != old(c.masakariHosts) then 1 else 0
    ensures var found := HostsNamed(old(c.masakariHosts), host, 0);
      if |found| != 1 then r == Err(MappingError) && c.masakariHosts == old(c.masakariHosts)
      else r == Ok(enabled) && c.masakariHosts == old(c.masakariHosts)[found[0] := MasakariHost(host, enabled)]
  {
    var found := HostsNamed(c.masakariHosts, host, 0);
    if |found| != 1 {
      return Err(MappingError);
    }
    var item := c.masakariHosts[found[0]];
    if item.onMaintenance != enabled {
      c.masakariHosts := c.masakariHosts[found[0] := item.(onMaintenance := enabled)];
      c.stateCalls := c.stateCalls + 1;
    }
    r := Ok(enabled);
  }

  /** Changing the only entry of a host changes all there is of it, and nothing else. */
  lemma OnlyServiceOfHost(s: seq<Service>, host: string, enabled: bool)
    requires |ServicesOf(s, host, 0)| == 1
    ensures var s' := s[ServicesOf(s, host, 0)[0] := Service(host, enabled)];
      && (exists k :: 0 <= k < |s'| && s'[k] == Service(host, enabled))
      && forall k :: 0 <= k < |s| ==> s'[k] == if s[k].host == host then Service(host, enabled) else s[k]
  {
    var at := ServicesOf(s, host, 0)[0];
    var s' := s[at := Service(host, enabled)];
    assert s'[at] == Service(host, enabled);
    forall k | 0 <= k < |s| && s[k].host == host
      ensures k == at
    {
      assert k in ServicesOf(s, host, 0);
    }
  }

  lemma OnlyMasakariHost(s: seq<MasakariHost>, host: string, on: bool)
    requires |HostsNamed(s, host, 0)| == 1
    ensures var s' := s[HostsNamed(s, host, 0)[0] := MasakariHost(host, on)];
      && (exists k :: 0 <= k < |s'| && s'[k] == MasakariHost(host, on))
      && forall k :: 0 <= k < |s| ==> s'[k] == if s[k].name == host then MasakariHost(host, on) else s[k]
  {
    var at := HostsNamed(s, host, 0)[0];
    var s' := s[at := MasakariHost(host, on)];
    assert s'[at] == MasakariHost(host, on);
    forall k | 0 <= k < |s| && s[k].name == host
      ensures k == at
    {
      assert k in HostsNamed(s, host, 0);
    }
  }

  /** Success means that there is exactly one Nova service and one Masakari record of the host, and leaves the one
      disabled and the other on maintenance with everything else as it was; a missing Masakari record still leaves
      Nova disabled. */
  method FailSafeHost(c: Connection, host: string) returns (r: Result<bool, Error>)
    modifies c`services, c`masakariHosts, c`stateCalls
    ensures c.stateCalls <= old(c.stateCalls) + 2
    ensures r.Ok? <==>
            |ServicesOf(old(c.services), host, 0)| == 1 && |HostsNamed(old(c.masakariHosts), host, 0)| == 1
    ensures |c.services| == |old(c.services)| && |c.masakariHosts| == |old(c.masakariHosts)|
    ensures |ServicesOf(old(c.services), host, 0)| == 1 ==>
              && (exists k :: 0 <= k < |c.services| && c.services[k] == Service(host, false))
              && forall k :: 0 <= k < |c.services| ==>
                   c.services[k] == if old(c.services)[k].host == host then Service(host, false) else old(c.services)[k]
    ensures r.Ok? ==>
              && (exists k :: 0 <= k < |c.masakariHosts| && c.masakariHosts[k] == MasakariHost(host, true))
              && forall k :: 0 <= k < |c.masakariHosts| ==>
                   c.masakariHosts[k] ==
                   if old(c.masakariHosts)[k].name == host then MasakariHost(host, true) else old(c.masakariHosts)[k]
    ensures |ServicesOf(old(c.services), host, 0)| != 1 ==> c.services == old(c.services)
    ensures r.Err? ==> c.masakariHosts == old(c.masakariHosts)
  {
    ghost var services, hosts := c.services, c.masakariHosts;
    r := SetNovaService(c, host, false);
    if r.Err? {
      return;
    }
    OnlyServiceOfHost(services, host, false);
    r := SetMasakariMaintenance(c, host, true);
    if r.Ok? {
      OnlyMasakariHost(hosts, host, true);
    }
  }
}
