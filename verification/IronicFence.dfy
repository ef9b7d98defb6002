/**
 The fencing task of Masakari: it powers a failed host off through Ironic and insists on stable evidence.  It is
 the unattended twin of the planned power-off, and this module relates the two.
*/
module IronicFence {
  import opened Common
  import opened PowerOperations

  const OFF := "power off"
  const SOFT_OFF := "soft power off"

  /** The first look at the node: send the command, skip it, or refuse. */
  function FenceDecision(o: Observation): Decision {
    if o.pending != "" && o.pending != OFF && o.power != OFF then Refuse
    else if o.power != OFF && o.pending != OFF then Send(OFF)
    else Skip
  }

  /** Fencing polls with the same window, but tolerates no pending target except the hard power-off. */
  function FencePoll(r: Trace, n: nat, begin: nat, end: nat): PollEnd {
    Poll(r, OFF, {OFF}, n, begin, end, 0)
  }

  /** The planned power-off's wait on the same readings. */
  function PlannedPoll(r: Trace, n: nat, begin: nat, end: nat): PollEnd {
    Poll(r, OFF, Compatible(OFF), n, begin, end, 0)
  }

  function EndResult(p: PollEnd): Result<nat, Error> {
    match p
    case Confirmed(k) => Ok(k)
    case Failed(_) => Err(BmcFailure)
    case Conflict(_) => Err(ConflictingTarget)
    case TimedOut => Err(PowerTimeout)
  }

  /** The confirmation loop: read, judge, sleep, and count consecutive readings of a host that is off. */
  method AwaitOff(c: Connection, attempts: nat, interval: nat, n: nat) returns (r: Result<nat, Error>)
    requires 0 < n && 0 < attempts
    modifies c`observed, c`slept
    ensures var begin := old(c.observed);
            var p := FencePoll(c.readings, n, begin, begin + attempts);
            && r == EndResult(p)
            && c.observed == begin + ReadsUsed(p, begin, attempts)
            && c.slept == old(c.slept) + (c.observed - begin - 1) * interval
    ensures r.Ok? ==> r.value == c.observed - 1
    ensures r == Err(PowerTimeout) ==> c.observed == old(c.observed) + attempts
  {
    ghost var begin, end := c.observed, c.observed + attempts;
    ghost var all := FencePoll(c.readings, n, begin, end);
    var stable := 0;
    for attempt := 0 to attempts
      invariant c.observed == begin + attempt
      invariant c.slept == old(c.slept) + (if attempt < attempts then attempt else attempt - 1) * interval
      invariant stable < n
      invariant Poll(c.readings, OFF, {OFF}, n, c.observed, end, stable) == all
    {
      var reading := c.GetNode();
      if reading.error {
        return Err(BmcFailure);
      }
      if reading.pending != "" && reading.pending != OFF && reading.power != OFF {
        return Err(ConflictingTarget);
      }
      stable := if reading.power == OFF then stable + 1 else 0;
      if stable >= n {
        return Ok(c.observed - 1);
      }
      if attempt + 1 < attempts {
        c.Sleep(interval);
        assert attempt * interval + interval == (attempt + 1) * interval;
      }
    }
    r := Err(PowerTimeout);
  }

  method Execute(c: Connection, host: string, powerTimeout: int, pollInterval: int, n: nat)
    returns (r: Result<nat, Error>)
    requires 0 < powerTimeout && 0 < pollInterval && 0 < n
    modifies c`powerCommands, c`observed, c`slept
    ensures |NamedNodes(c.nodes, host)| != 1 ==>
              r == Err(MappingError) && c.powerCommands == old(c.powerCommands) && c.observed == old(c.observed)
    ensures |NamedNodes(c.nodes, host)| == 1 ==>
              var d := FenceDecision(NamedNodes(c.nodes, host)[0].state);
              var begin, attempts := old(c.observed), Attempts(powerTimeout, pollInterval).value;
              var p := FencePoll(c.readings, n, begin, begin + attempts);
              if d.Refuse? then
                r == Err(ConflictingTarget) && c.powerCommands == old(c.powerCommands) && c.observed == begin
              else
                && c.powerCommands == old(c.powerCommands) + (if d.Send? then [OFF] else [])
                && r == EndResult(p)
                && c.observed == begin + ReadsUsed(p, begin, attempts)
                && c.slept == old(c.slept) + (c.observed - begin - 1) * pollInterval
  {
    var matches := NamedNodes(c.nodes, host);
    if |matches| != 1 {
      return Err(MappingError);
    }
    var o := matches[0].state;
    if o.pending != "" && o.pending != OFF && o.power != OFF {
      return Err(ConflictingTarget);
    }
    if o.power != OFF && o.pending != OFF {
      c.powerCommands := c.powerCommands + [OFF];
    }
    PollingBudget(powerTimeout, pollInterval);
    r := AwaitOff(c, Attempts(powerTimeout, pollInterval).value, pollInterval, n);
  }

  /** The request phase of fencing sends, skips and refuses exactly as the planned hard power-off does. */
  lemma FenceDecidesLikeRequest(o: Observation)
    ensures FenceDecision(o) == Decide(o, OFF, false)
    ensures FenceDecision(o).Send? ==> FenceDecision(o).target == OFF
  {
    assert EffectiveTarget(OFF, false) == OFF;
  }

  /** The reading shows a host that is still up with only a soft power-off under way. */
  predicate SoftPending(o: Observation) {
    o.pending == SOFT_OFF && o.power != OFF
  }

  lemma AbortsDiffer(r: Trace, j: nat)
    ensures Aborts(r, OFF, {OFF}, j) <==> Aborts(r, OFF, Compatible(OFF), j) || SoftPending(r(j))
  {
    assert OFF != SOFT_OFF by {
      assert |OFF| != |SOFT_OFF|;
    }
  }

  /** Refinement: fencing confirms at reading k exactly when the planned wait on the same readings confirms at k and
      no reading up to k shows a soft power-off of a host that is still up. */
  lemma FencingRefinesPlannedWait(r: Trace, n: nat, begin: nat, end: nat, k: nat)
    requires 0 < n && begin <= end
    ensures FencePoll(r, n, begin, end) == Confirmed(k) <==>
            PlannedPoll(r, n, begin, end) == Confirmed(k) && forall j :: begin <= j <= k ==> !SoftPending(r(j))
  {
    ConfirmedExactly(r, OFF, {OFF}, n, begin, end, k);
    ConfirmedExactly(r, OFF, Compatible(OFF), n, begin, end, k);
    forall j: nat
      ensures Aborts(r, OFF, {OFF}, j) <==> Aborts(r, OFF, Compatible(OFF), j) || SoftPending(r(j))
    {
      AbortsDiffer(r, j);
    }
  }

  /** How fencing ends: at the first reading that completes the window, or aborts before, or not at all. */
  lemma {:induction false} FencingEndsExactly(r: Trace, n: nat, begin: nat, end: nat)
    requires 0 < n && begin <= end
    ensures match EndResult(FencePoll(r, n, begin, end))
      case Ok(k) => begin <= k < end && QuietBefore(r, OFF, {OFF}, n, begin, k) && StableAt(r, OFF, n, begin, k)
        && !Aborts(r, OFF, {OFF}, k)
      case Err(BmcFailure) =>
        exists k: nat :: begin <= k < end && QuietBefore(r, OFF, {OFF}, n, begin, k) && r(k).error
      case Err(ConflictingTarget) =>
        exists k: nat :: begin <= k < end && QuietBefore(r, OFF, {OFF}, n, begin, k)
                         && !r(k).error && Contradicts(r(k), OFF, {OFF})
      case Err(e) => e == PowerTimeout && QuietBefore(r, OFF, {OFF}, n, begin, end)
  {
    hide Poll, QuietBefore, StableAt, Contradicts;
    NothingSeen(r, n, begin);
    PollFollowsTheTrace(r, OFF, {OFF}, n, begin, begin, end, 0);
  }

  lemma NothingSeen(r: Trace, n: nat, begin: nat)
    ensures Streak(r, OFF, begin, begin, 0) && QuietBefore(r, OFF, {OFF}, n, begin, begin)
  {
  }

  /** The two really differ: a host that a soft power-off is about to switch off passes the planned wait, while
      fencing refuses at the first reading. */
  lemma SoftPowerOffDefeatsFencing() returns (r: Trace)
    ensures PlannedPoll(r, 2, 0, 10) == Confirmed(2)
    ensures FencePoll(r, 2, 0, 10) == Conflict(0)
  {
    var going, gone := Observation("power on", SOFT_OFF, false), Observation(OFF, "", false);
    r := (k: nat) => if k == 0 then going else gone;
    AbortsDiffer(r, 0);
    assert OFF != "power on" by {
      assert |OFF| != |"power on"|;
    }
    ConfirmedExactly(r, OFF, Compatible(OFF), 2, 0, 10, 2);
  }
}
