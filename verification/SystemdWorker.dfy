/** The bounded wait for a systemd unit, and the budget systemd gets for restarting it. */
module SystemdWorker {
  import opened Common
  import Arithmetic

  /** Seconds between two looks at the unit. */
  const DELAY := 5

  /** The state of the unit at every look from now on; none where systemd does not list it. */
  type Observations = nat -> Option<string>

  /** The number of pauses before the wait is given up. */
  function Patience(timeout: int): nat {
    if timeout < 0 then 0 else timeout / DELAY + 1
  }

  /** The wait lasts until the pauses exceed the timeout for the first time. */
  lemma PatienceIsFirst(timeout: int, pauses: nat)
    ensures DELAY * pauses > timeout <==> Patience(timeout) <= pauses
  {
    if 0 <= timeout {
      var q := timeout / DELAY;
      assert timeout == DELAY * q + timeout % DELAY;
    }
  }

  /**
   Succeeds at the first look that finds the state, if it comes in time.  Giving up costs exactly one look more than
   there are pauses, and the time slept exceeds the timeout by at most one pause.
   */
  method WaitForUnit(observed: Observations, timeout: int, state: string) returns (ok: bool, looks: nat, slept: nat)
    ensures looks > 0 && slept == 5 * (looks - 1)
    ensures ok ==> observed(looks - 1) == Some(state) && looks - 1 <= Patience(timeout)
    ensures forall k :: 0 <= k < looks - 1 ==> observed(k) != Some(state)
    ensures ok <==> exists k :: 0 <= k <= Patience(timeout) && observed(k) == Some(state)
    ensures !ok && 0 <= timeout ==> looks == timeout / 5 + 2 && timeout < slept <= timeout + 5
    ensures !ok && timeout < 0 ==> looks == 1 && slept == 0
  {
    looks, slept := 0, 0;
    while true
      invariant slept == DELAY * looks && looks <= Patience(timeout)
      invariant forall k :: 0 <= k < looks ==> observed(k) != Some(state)
      decreases Patience(timeout) - looks
    {
      var now := observed(looks);
      looks := looks + 1;
      PatienceIsFirst(timeout, looks - 1);
      if now == Some(state) {
        return true, looks, slept;
      } else if slept > timeout {
        return false, looks, slept;
      }
      slept := slept + DELAY;
    }
  }

  // ---------------------------------------------------------------- restarting

  /** Division rounding down, as Python's does for negative operands too. */
  function FloorDiv(a: int, b: int): int
    requires b != 0
  {
    if b > 0 then a / b else (-a) / (-b)
  }

  lemma FloorDivBounds(a: int, b: int)
    requires b != 0
    ensures b > 0 ==> b * FloorDiv(a, b) <= a < b * FloorDiv(a, b) + b
    ensures b < 0 ==> b * FloorDiv(a, b) + b < a <= b * FloorDiv(a, b)
  {
    if b < 0 {
      var q := (-a) / (-b);
      assert -a == (-b) * q + (-a) % (-b);
      assert (-b) * q == -(b * q);
    }
  }

  function RestartDuration(timeout: int, retries: int): int
    requires retries != 0
  {
    FloorDiv(timeout, retries) - 1
  }

  /**
   All retries fit into the timeout, as they must for systemd to stop trying, exactly when there is a positive number
   of them; and then they leave at least one and less than two seconds per retry unused.
   */
  lemma RetriesFitExactly(timeout: int, retries: int)
    requires retries != 0
    ensures RestartDuration(timeout, retries) * retries < timeout <==> retries > 0
    ensures retries > 0 ==> retries <= timeout - RestartDuration(timeout, retries) * retries < 2 * retries
  {
    var q := FloorDiv(timeout, retries);
    FloorDivBounds(timeout, retries);
    Arithmetic.MulDistributes(retries, q, -1);
    assert RestartDuration(timeout, retries) * retries == retries * (q + -1) == retries * q - retries;
  }
}
