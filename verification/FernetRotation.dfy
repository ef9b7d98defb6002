/**
 The round-robin schedule of the fernet key rotation cron job.  Every one of N hosts gets its own list of
 cron entries; what matters is what the lists of all hosts together do.
*/
module FernetRotation {
  import opened Common
  import opened Arithmetic

  const HOUR_SPAN := 60
  const DAY_SPAN := 24 * HOUR_SPAN
  const WEEK_SPAN := 7 * DAY_SPAN

  datatype Field = Any | At(n: nat)
  datatype Cron = Cron(min: Field, hour: Field, day: Field)
  datatype Error = RotationIntervalTooLong

  /** The period after which the schedule of N hosts with interval r repeats. */
  function Span(n: nat, r: nat): nat {
    if r * n > DAY_SPAN then WEEK_SPAN else if r * n > HOUR_SPAN then DAY_SPAN else HOUR_SPAN
  }

  /** The minutes visited by a loop that starts at `time` and advances by `step` while an interval still fits. */
  function TimesFrom(time: nat, step: nat, r: nat, span: nat): seq<nat>
    requires 0 < step
    decreases span - time
  {
    if time + r > span then [] else [time] + TimesFrom(time + step, step, r, span)
  }

  lemma StepIsPositive(n: nat, r: nat)
    requires 0 < n && 0 < r
    ensures 0 < r * n
  {
  }

  /** The raw `time` values of host i. */
  function HostTimes(i: nat, n: nat, r: nat): seq<nat>
    requires i < n && 0 < r
  {
    StepIsPositive(n, r);
    TimesFrom(r * i, r * n, r, Span(n, r))
  }

  /** The cron entry that the branch for `span` writes for `time`, with the source's own fields. */
  function Entry(span: nat, time: nat): Cron {
    if span == WEEK_SPAN then Cron(At(time % HOUR_SPAN), At(time % HOUR_SPAN), At(time / DAY_SPAN))
    else if span == DAY_SPAN then Cron(At(time % HOUR_SPAN), At(time / HOUR_SPAN), Any)
    else Cron(At(time), Any, Any)
  }

  /** The cron entries of the remaining minutes, in order. */
  function Entries(span: nat, times: seq<nat>): (crons: seq<Cron>)
    ensures |crons| == |times| && forall k :: 0 <= k < |times| ==> crons[k] == Entry(span, times[k])
  {
    if times == [] then [] else [Entry(span, times[0])] + Entries(span, times[1..])
  }

  function Remaining(span: nat, time: nat, step: nat, r: nat): seq<Cron>
    requires 0 < step
  {
    Entries(span, TimesFrom(time, step, r, span))
  }

  /** What one round of a generator loop appends is what its remaining rounds lose. */
  lemma RemainingShrinks(crons: seq<Cron>, span: nat, time: nat, step: nat, r: nat)
    requires 0 < step && time + r <= span
    ensures crons + Remaining(span, time, step, r) ==
            crons + [Entry(span, time)] + Remaining(span, time + step, step, r)
  {
    assert TimesFrom(time, step, r, span)[1..] == TimesFrom(time + step, step, r, span);
    assert Remaining(span, time, step, r) == [Entry(span, time)] + Remaining(span, time + step, step, r);
  }

  /** The loop of the branch for multiples of a day. */
  method WeekCrons(offset: nat, step: nat, interval: nat) returns (crons: seq<Cron>)
    requires 0 < step
    ensures crons == Remaining(WEEK_SPAN, offset, step, interval)
  {
    var time := offset;
    crons := [];
    while time + interval <= WEEK_SPAN
      invariant crons + Remaining(WEEK_SPAN, time, step, interval) == Remaining(WEEK_SPAN, offset, step, interval)
      decreases WEEK_SPAN - time
    {
      RemainingShrinks(crons, WEEK_SPAN, time, step, interval);
      var cron := Cron(At(time % HOUR_SPAN), At(time % HOUR_SPAN), At(time / DAY_SPAN));
      crons := crons + [cron];
      time := time + step;
    }
  }

  /** The loop of the branch for multiples of an hour. */
  method DayCrons(offset: nat, step: nat, interval: nat) returns (crons: seq<Cron>)
    requires 0 < step
    ensures crons == Remaining(DAY_SPAN, offset, step, interval)
  {
    var time := offset;
    crons := [];
    while time + interval <= DAY_SPAN
      invariant crons + Remaining(DAY_SPAN, time, step, interval) == Remaining(DAY_SPAN, offset, step, interval)
      decreases DAY_SPAN - time
    {
      RemainingShrinks(crons, DAY_SPAN, time, step, interval);
      var cron := Cron(At(time % HOUR_SPAN), At(time / HOUR_SPAN), Any);
      crons := crons + [cron];
      time := time + step;
    }
  }

  /** The loop of the branch for multiples of a minute. */
  method HourCrons(offset: nat, step: nat, interval: nat) returns (crons: seq<Cron>)
    requires 0 < step
    ensures crons == Remaining(HOUR_SPAN, offset, step, interval)
  {
    var time := offset;
    crons := [];
    while time + interval <= HOUR_SPAN
      invariant crons + Remaining(HOUR_SPAN, time, step, interval) == Remaining(HOUR_SPAN, offset, step, interval)
      decreases HOUR_SPAN - time
    {
      RemainingShrinks(crons, HOUR_SPAN, time, step, interval);
      var cron := Cron(At(time), Any, Any);
      crons := crons + [cron];
      time := time + step;
    }
  }

  /** The generator: one of three loops, chosen by how often each single host rotates. */
  method Generate(hostIndex: nat, totalHosts: nat, totalRotationMins: nat) returns (r: Result<seq<Cron>, Error>)
    requires hostIndex < totalHosts ==> 0 < totalRotationMins
    ensures hostIndex >= totalHosts ==> r == Ok([])
    ensures hostIndex < totalHosts && totalRotationMins > WEEK_SPAN ==> r == Err(RotationIntervalTooLong)
    ensures hostIndex < totalHosts && totalRotationMins <= WEEK_SPAN ==>
              r == Ok(Entries(Span(totalHosts, totalRotationMins), HostTimes(hostIndex, totalHosts, totalRotationMins)))
  {
    if hostIndex >= totalHosts {
      return Ok([]);
    }
    StepIsPositive(totalHosts, totalRotationMins);
    var hostRotationMins := totalRotationMins * totalHosts;
    var hostRotationOffset := totalRotationMins * hostIndex;
    var crons;
    if totalRotationMins > WEEK_SPAN {
      return Err(RotationIntervalTooLong);
    } else if hostRotationMins > DAY_SPAN {
      crons := WeekCrons(hostRotationOffset, hostRotationMins, totalRotationMins);
    } else if hostRotationMins > HOUR_SPAN {
      crons := DayCrons(hostRotationOffset, hostRotationMins, totalRotationMins);
    } else {
      crons := HourCrons(hostRotationOffset, hostRotationMins, totalRotationMins);
    }
    r := Ok(crons);
  }

  // ---------------------------------------------------------------- which host rotates when

  /** The members of an arithmetic progression: its first one, and those of the progression from the next one on. */
  lemma ProgressionStep(time: nat, step: nat, t: nat)
    requires 0 < step && time <= t
    ensures (t - time) % step == 0 <==> t == time || (time + step <= t && (t - (time + step)) % step == 0)
  {
    if t < time + step {
      DivModUnique(t - time, step, 0, t - time);
    } else {
      ModSub(t - time, step);
    }
  }

  lemma {:induction false} TimesFromMembers(time: nat, step: nat, r: nat, span: nat, t: nat)
    requires 0 < step
    ensures t in TimesFrom(time, step, r, span) <==> time <= t && (t - time) % step == 0 && t + r <= span
    decreases span - time
  {
    if time <= t {
      ProgressionStep(time, step, t);
    }
    if time + r <= span {
      TimesFromMembers(time + step, step, r, span, t);
    }
  }

  /** Factoring the interval out of k whole rounds of n hosts and i hosts more. */
  lemma FactorInterval(r: nat, n: nat, k: nat, i: nat)
    ensures r * (n * k + i) == r * n * k + r * i
  {
    MulDistributes(r, n * k, i);
    MulAssociates(r, n, k);
  }

  lemma OffsetHasOwner(i: nat, n: nat, r: nat, t: nat)
    requires i < n && 0 < r && 0 < r * n
    requires r * i <= t && (t - r * i) % (r * n) == 0
    ensures t % r == 0 && t / r % n == i
  {
    var k := (t - r * i) / (r * n);
    assert t - r * i == r * n * k;
    FactorInterval(r, n, k, i);
    MulMonotone(0, k, n);
    DivModUnique(t, r, n * k + i, 0);
    DivModUnique(n * k + i, n, k, i);
  }

  lemma OwnerHasOffset(i: nat, n: nat, r: nat, t: nat)
    requires i < n && 0 < r && 0 < r * n
    requires t % r == 0 && t / r % n == i
    ensures r * i <= t && (t - r * i) % (r * n) == 0
  {
    var m := t / r;
    RoundsAndRest(i, n, r, t, m, m / n);
  }

  lemma RoundsAndRest(i: nat, n: nat, r: nat, t: nat, m: nat, k: nat)
    requires 0 < r * n && t == r * m && m == n * k + i
    ensures r * i <= t && (t - r * i) % (r * n) == 0
  {
    FactorInterval(r, n, k, i);
    MulMonotone(0, k, r * n);
    DivModUnique(t - r * i, r * n, k, 0);
  }

  /** Partition: the minutes of host i are the multiples r*m of the interval with r*(m+1) inside the span and
      m congruent to i; so every such multiple belongs to exactly one host, whatever r, n and the span are. */
  lemma RotationPartition(i: nat, n: nat, r: nat, t: nat)
    requires i < n && 0 < r
    ensures t in HostTimes(i, n, r) <==> t % r == 0 && t + r <= Span(n, r) && t / r % n == i
  {
    StepIsPositive(n, r);
    TimesFromMembers(r * i, r * n, r, Span(n, r), t);
    if t in HostTimes(i, n, r) {
      OffsetHasOwner(i, n, r, t);
    } else if t % r == 0 && t / r % n == i {
      OwnerHasOffset(i, n, r, t);
    }
  }

  /** No host lists a minute twice. */
  lemma {:induction false} TimesFromIncrease(time: nat, step: nat, r: nat, span: nat)
    requires 0 < step
    ensures forall k :: 0 <= k < |TimesFrom(time, step, r, span)| ==> time <= TimesFrom(time, step, r, span)[k]
    ensures forall j, k :: 0 <= j < k < |TimesFrom(time, step, r, span)| ==>
                             TimesFrom(time, step, r, span)[j] + step <= TimesFrom(time, step, r, span)[k]
    decreases span - time
  {
    if time + r <= span {
      TimesFromIncrease(time + step, step, r, span);
    }
  }

  // ---------------------------------------------------------------- the schedule repeated for ever

  /** Some host rotates in absolute minute t. */
  ghost predicate Fires(n: nat, r: nat, t: nat)
    requires 0 < r
  {
    exists i: nat :: i < n && t % Span(n, r) in HostTimes(i, n, r)
  }

  lemma FiresExactly(n: nat, r: nat, t: nat)
    requires 0 < r && 0 < n
    ensures Fires(n, r, t) <==> (t % Span(n, r)) % r == 0 && t % Span(n, r) + r <= Span(n, r)
  {
    var u := t % Span(n, r);
    if Fires(n, r, t) {
      var i: nat :| i < n && u in HostTimes(i, n, r);
      RotationPartition(i, n, r, u);
    }
    if u % r == 0 && u + r <= Span(n, r) {
      var i := u / r % n;
      RotationPartition(i, n, r, u);
    }
  }

  lemma IntervalFitsSpan(n: nat, r: nat)
    requires 0 < r <= WEEK_SPAN && 0 < n
    ensures r <= Span(n, r)
  {
    MulMonotone(1, n, r);
  }

  /** When the next rotation after the one at u (a minute inside the span) takes place. */
  function NextOffset(span: nat, r: nat, u: nat): nat
    requires u < span
  {
    if u + r + r <= span then r else span - u
  }

  /** Gap bound over an unbounded run: after a rotation of any host the next r-1 minutes are free, and the next
      rotation of any host follows after at least r and strictly less than 2r minutes. */
  lemma RotationGap(n: nat, r: nat, t: nat)
    requires 0 < r <= WEEK_SPAN && 0 < n && Fires(n, r, t)
    ensures forall v :: t < v < t + r ==> !Fires(n, r, v)
    ensures exists v :: t + r <= v < t + 2 * r && Fires(n, r, v)
  {
    var span := Span(n, r);
    var u := t % span;
    FiresExactly(n, r, t);
    forall v | t < v < t + r
      ensures !Fires(n, r, v)
    {
      DivModUnique(v, span, t / span, u + (v - t));
      FiresExactly(n, r, v);
      if (u + (v - t)) % r == 0 {
        SameRemainder(u, u + (v - t), r);
      }
    }
    IntervalFitsSpan(n, r);
    var v := t + NextOffset(span, r, u);
    if u + r + r <= span {
      DivModUnique(v, span, t / span, u + r);
      ModSub(u + r, r);
    } else {
      DivModUnique(v, span, t / span + 1, 0);
      DivModUnique(0, r, 0, 0);
    }
    FiresExactly(n, r, v);
  }

  // ---------------------------------------------------------------- what cron makes of the entries

  predicate FieldMatches(f: Field, value: nat) {
    f.Any? || f.n == value
  }

  /** Cron runs entry c in minute w, counted from a Sunday 00:00. */
  predicate Matches(c: Cron, w: nat) {
    && FieldMatches(c.min, w % HOUR_SPAN)
    && FieldMatches(c.hour, w / HOUR_SPAN % 24)
    && FieldMatches(c.day, w / DAY_SPAN % 7)
  }

  predicate InRange(c: Cron) {
    && (c.min.At? ==> c.min.n < 60)
    && (c.hour.At? ==> c.hour.n < 24)
    && (c.day.At? ==> c.day.n < 7)
  }

  /** The entry written for `time` runs exactly in the minutes congruent to `time` modulo the span. */
  ghost predicate Faithful(span: nat, time: nat)
    requires 0 < span
  {
    InRange(Entry(span, time)) && forall w: nat :: Matches(Entry(span, time), w) <==> w % span == time
  }

  /** A minute of a day is its hour and its minute of the hour. */
  lemma DayDigits(t: nat)
    ensures t % DAY_SPAN == HOUR_SPAN * (t / HOUR_SPAN % 24) + t % HOUR_SPAN
    ensures t / DAY_SPAN == t / HOUR_SPAN / 24
  {
    var min, hours := t % HOUR_SPAN, t / HOUR_SPAN;
    DivModUnique(t, DAY_SPAN, hours / 24, HOUR_SPAN * (hours % 24) + min);
  }

  /** The clock shows the same time of the same weekday in w and in w modulo a week. */
  lemma WeekDigits(w: nat)
    ensures w % WEEK_SPAN % HOUR_SPAN == w % HOUR_SPAN
    ensures w % WEEK_SPAN / HOUR_SPAN % 24 == w / HOUR_SPAN % 24
    ensures w % WEEK_SPAN / DAY_SPAN == w / DAY_SPAN % 7
  {
    var k, t := w / WEEK_SPAN, w % WEEK_SPAN;
    DivModUnique(w, HOUR_SPAN, 168 * k + t / HOUR_SPAN, t % HOUR_SPAN);
    DivModUnique(168 * k + t / HOUR_SPAN, 24, 7 * k + t / HOUR_SPAN / 24, t / HOUR_SPAN % 24);
    DivModUnique(w, DAY_SPAN, 7 * k + t / DAY_SPAN, t % DAY_SPAN);
    DivModUnique(7 * k + t / DAY_SPAN, 7, k, t / DAY_SPAN);
  }

  lemma DayBranchMatches(time: nat, w: nat)
    requires time < DAY_SPAN
    ensures Matches(Entry(DAY_SPAN, time), w) <==> w % DAY_SPAN == time
  {
    DayDigits(w);
    DivModUnique(time, HOUR_SPAN, time / HOUR_SPAN, time % HOUR_SPAN);
    if w % DAY_SPAN == time {
      DivModUnique(time, HOUR_SPAN, w / HOUR_SPAN % 24, w % HOUR_SPAN);
    }
  }

  lemma HourAndMinuteBranchesAreFaithful(span: nat, time: nat)
    requires span == HOUR_SPAN || span == DAY_SPAN
    requires time < span
    ensures Faithful(span, time)
  {
    forall w: nat
      ensures Matches(Entry(span, time), w) <==> w % span == time
    {
      if span == DAY_SPAN {
        DayBranchMatches(time, w);
      }
    }
  }

  lemma WeekEntryMatches(time: nat, w: nat)
    requires time < WEEK_SPAN && time % HOUR_SPAN == time / HOUR_SPAN % 24
    ensures Matches(Entry(WEEK_SPAN, time), w) <==> w % WEEK_SPAN == time
  {
    WeekDigits(w);
    DayDigits(time);
    DayDigits(w % WEEK_SPAN);
  }

  /** In the weekly branch the hour field holds the minute of the hour; the entry is right only when they agree. */
  lemma WeekEntryFaithfulExactly(time: nat)
    requires time < WEEK_SPAN
    ensures Faithful(WEEK_SPAN, time) <==> time % HOUR_SPAN == time / HOUR_SPAN % 24
  {
    if time % HOUR_SPAN == time / HOUR_SPAN % 24 {
      forall w: nat
        ensures Matches(Entry(WEEK_SPAN, time), w) <==> w % WEEK_SPAN == time
      {
        WeekEntryMatches(time, w);
      }
    } else {
      DivModUnique(time, WEEK_SPAN, 0, time);
      assert !Matches(Entry(WEEK_SPAN, time), time);
    }
  }

  /** Whether the weekly cron entries of all hosts can be trusted, decided from the interval alone: only one
      rotation fits a week, or the interval is d days, h hours and h minutes and the multiples of h that occur
      stay below 24 (h == 0 is the whole number of days). */
  predicate WeekIntervalIsSafe(r: nat)
    requires 0 < r
  {
    var rotations := WEEK_SPAN / r;
    rotations <= 1 || (r % DAY_SPAN % 61 == 0 && r % DAY_SPAN / 61 * (rotations - 1) < 24)
  }

  lemma MultipleInDay(r: nat, m: nat)
    ensures (r * m) % DAY_SPAN == (r % DAY_SPAN * m) % DAY_SPAN
  {
    var q, low := r / DAY_SPAN, r % DAY_SPAN;
    var k := (low * m) / DAY_SPAN;
    assert r * m == (DAY_SPAN * q + low) * m == DAY_SPAN * (q * m) + low * m;
    DivModUnique(r * m, DAY_SPAN, q * m + k, (low * m) % DAY_SPAN);
  }

  /** hour equals minute exactly for the multiples of 61 minutes in a day. */
  lemma HourEqualsMinute(x: nat)
    ensures x % HOUR_SPAN == x / HOUR_SPAN % 24 <==> x % DAY_SPAN % 61 == 0
  {
    DayDigits(x);
    var min, hour := x % HOUR_SPAN, x / HOUR_SPAN % 24;
    DivModUnique(HOUR_SPAN * hour + min, 61, if min < hour then hour - 1 else hour,
                 if min < hour then 61 + min - hour else min - hour);
  }

  lemma MultipleFaithful(r: nat, m: nat)
    requires r * m < WEEK_SPAN
    ensures Faithful(WEEK_SPAN, r * m) <==> (r % DAY_SPAN * m) % DAY_SPAN % 61 == 0
  {
    WeekEntryFaithfulExactly(r * m);
    MultipleInDay(r, m);
    HourEqualsMinute(r * m);
  }

  /** The m-th rotation is scheduled exactly when m is below the number of rotations that fit the span. */
  lemma RotationIndex(r: nat, m: nat, span: nat)
    requires 0 < r
    ensures r * m + r <= span <==> m < span / r
  {
    if m < span / r {
      MulMonotone(m + 1, span / r, r);
      assert r * (m + 1) == r * m + r;
    } else {
      MulMonotone(span / r, m, r);
    }
  }

  /** As long as the hours do not carry, hour and minute of the m-th rotation stay equal. */
  lemma NoCarry(h: nat, m: nat)
    requires h * m < 24
    ensures (61 * h * m) % DAY_SPAN % 61 == 0
  {
    MulAssociates(61, h, m);
    DivModUnique(61 * h * m, DAY_SPAN, 0, 61 * h * m);
    DivModUnique(61 * h * m, 61, h * m, 0);
  }

  lemma SafeMultiples(r: nat, m: nat)
    requires 0 < r && WeekIntervalIsSafe(r) && m < WEEK_SPAN / r
    ensures Faithful(WEEK_SPAN, r * m)
  {
    RotationIndex(r, m, WEEK_SPAN);
    MultipleFaithful(r, m);
    if m == 0 {
      DivModUnique(0, DAY_SPAN, 0, 0);
    } else {
      var h := r % DAY_SPAN / 61;
      MulMonotone(m, WEEK_SPAN / r - 1, h);
      NoCarry(h, m);
    }
  }

  /** The first multiple that reaches 24 hours carries over and drags 24 minutes behind it. */
  lemma CarryBreaks(h: nat, m: nat)
    requires h < 24 && 24 <= h * m < 24 + h
    ensures (61 * h * m) % DAY_SPAN % 61 == 24
  {
    var k := h * m - 24;
    MulAssociates(61, h, m);
    DivModUnique(61 * h * m, DAY_SPAN, 1, 61 * k + 24);
    DivModUnique(61 * k + 24, 61, k, 24);
  }

  /** The first multiple of h that reaches 24. */
  lemma FirstCarry(h: nat, rotations: nat) returns (m: nat)
    requires 0 < h && 24 <= h * (rotations - 1)
    ensures m < rotations && 24 <= h * m < 24 + h
  {
    m := (24 + h - 1) / h;
    assert 24 + h - 1 == h * m + (24 + h - 1) % h;
    assert h * (m - 1) == h * m - h;
    if rotations <= m {
      MulMonotone(rotations - 1, m - 1, h);
    }
  }

  /** Hours and minutes of the interval itself differ. */
  lemma UnequalInterval(r: nat)
    requires 0 < r && 1 < WEEK_SPAN / r && r % DAY_SPAN % 61 != 0
    ensures !Faithful(WEEK_SPAN, r * 1)
  {
    hide Faithful;
    RotationIndex(r, 1, WEEK_SPAN);
    MultipleFaithful(r, 1);
    DivModUnique(r % DAY_SPAN, DAY_SPAN, 0, r % DAY_SPAN);
  }

  /** Hours and minutes of the interval agree, but those of its m-th multiple have carried. */
  lemma CarriedMultiple(r: nat, h: nat, m: nat)
    requires 0 < r && m < WEEK_SPAN / r && r % DAY_SPAN == 61 * h && h < 24 && 24 <= h * m < 24 + h
    ensures !Faithful(WEEK_SPAN, r * m)
  {
    hide Faithful;
    RotationIndex(r, m, WEEK_SPAN);
    MultipleFaithful(r, m);
    assert r % DAY_SPAN * m == 61 * h * m;
    CarryBreaks(h, m);
  }

  lemma UnsafeMultiple(r: nat) returns (m: nat)
    requires 0 < r && !WeekIntervalIsSafe(r)
    ensures m < WEEK_SPAN / r && !Faithful(WEEK_SPAN, r * m)
  {
    hide Faithful;
    var low := r % DAY_SPAN;
    if low % 61 != 0 {
      m := 1;
      UnequalInterval(r);
    } else {
      var h := low / 61;
      m := FirstCarry(h, WEEK_SPAN / r);
      CarriedMultiple(r, h, m);
    }
  }

  /** Every scheduled minute of every host is faithful. */
  ghost predicate WeekScheduleFaithful(n: nat, r: nat)
    requires 0 < r
  {
    forall i: nat, t: nat :: i < n && t in HostTimes(i, n, r) ==> Faithful(WEEK_SPAN, t)
  }

  /** Exactly when the weekly branch keeps its promise: the entries of all n hosts are faithful if and only if the
      interval passes the test above. */
  lemma WeekScheduleFaithfulExactly(n: nat, r: nat)
    requires 0 < n && 0 < r <= WEEK_SPAN && Span(n, r) == WEEK_SPAN
    ensures WeekIntervalIsSafe(r) <==> WeekScheduleFaithful(n, r)
  {
    if WeekIntervalIsSafe(r) {
      forall i: nat, t: nat | i < n && t in HostTimes(i, n, r)
        ensures Faithful(WEEK_SPAN, t)
      {
        SafeScheduledMinute(i, n, r, t);
      }
    } else {
      var i, t := UnsafeScheduledMinute(n, r);
    }
  }

  lemma SafeScheduledMinute(i: nat, n: nat, r: nat, t: nat)
    requires i < n && 0 < r && Span(n, r) == WEEK_SPAN && WeekIntervalIsSafe(r) && t in HostTimes(i, n, r)
    ensures Faithful(WEEK_SPAN, t)
  {
    RotationPartition(i, n, r, t);
    var m := t / r;
    assert t == r * m;
    RotationIndex(r, m, WEEK_SPAN);
    SafeMultiples(r, m);
  }

  lemma UnsafeScheduledMinute(n: nat, r: nat) returns (i: nat, t: nat)
    requires 0 < n && 0 < r && Span(n, r) == WEEK_SPAN && !WeekIntervalIsSafe(r)
    ensures i < n && t in HostTimes(i, n, r) && !Faithful(WEEK_SPAN, t)
  {
    var m := UnsafeMultiple(r);
    RotationIndex(r, m, WEEK_SPAN);
    i, t := m % n, r * m;
    DivModUnique(t, r, m, 0);
    RotationPartition(i, n, r, t);
  }

  /** A schedule is trustworthy when it is not weekly or its weekly interval is safe. */
  predicate ScheduleIsSafe(n: nat, r: nat)
    requires 0 < r
  {
    Span(n, r) == WEEK_SPAN ==> WeekIntervalIsSafe(r)
  }

  lemma SafeEntries(i: nat, n: nat, r: nat, t: nat)
    requires i < n && 0 < r <= WEEK_SPAN && ScheduleIsSafe(n, r) && t in HostTimes(i, n, r)
    ensures Faithful(Span(n, r), t)
  {
    RotationPartition(i, n, r, t);
    if Span(n, r) == WEEK_SPAN {
      SafeScheduledMinute(i, n, r, t);
    } else {
      HourAndMinuteBranchesAreFaithful(Span(n, r), t);
    }
  }

  /** In a safe schedule cron starts a rotation in minute w on exactly one host if the schedule calls for one
      then, and on no host otherwise. */
  lemma CronRunsTheSchedule(n: nat, r: nat, w: nat)
    requires 0 < n && 0 < r <= WEEK_SPAN && ScheduleIsSafe(n, r)
    ensures forall i: nat, c :: i < n && c in Entries(Span(n, r), HostTimes(i, n, r)) && Matches(c, w) ==>
                                  Fires(n, r, w) && i == w % Span(n, r) / r % n
    ensures Fires(n, r, w) ==>
              exists c :: c in Entries(Span(n, r), HostTimes(w % Span(n, r) / r % n, n, r)) && Matches(c, w)
  {
    var span := Span(n, r);
    forall i: nat, c | i < n && c in Entries(span, HostTimes(i, n, r)) && Matches(c, w)
      ensures Fires(n, r, w) && i == w % span / r % n
    {
      var k :| 0 <= k < |HostTimes(i, n, r)| && c == Entry(span, HostTimes(i, n, r)[k]);
      var t := HostTimes(i, n, r)[k];
      SafeEntries(i, n, r, t);
      RotationPartition(i, n, r, t);
      assert w % span == t;
    }
    if Fires(n, r, w) {
      var t := w % span;
      FiresExactly(n, r, w);
      var i := t / r % n;
      RotationPartition(i, n, r, t);
      var k :| 0 <= k < |HostTimes(i, n, r)| && HostTimes(i, n, r)[k] == t;
      SafeEntries(i, n, r, t);
      var c := Entry(span, t);
      assert Entries(span, HostTimes(i, n, r))[k] == c;
      assert c in Entries(span, HostTimes(i, n, r)) && Matches(c, w);
    }
  }

  // ---------------------------------------------------------------- which span is chosen

  /** The span is the least of hour, day and week that holds one round of all hosts, where one does. */
  lemma SpanIsLeast(n: nat, r: nat)
    ensures Span(n, r) == 60 || Span(n, r) == 1440 || Span(n, r) == 10080
    ensures r * n <= 60 <==> Span(n, r) <= 60
    ensures r * n <= 1440 <==> Span(n, r) <= 1440
    ensures r * n <= 10080 ==> r * n <= Span(n, r)
  {
  }

  /** So every host gets its turn exactly when one round fits a week. */
  lemma {:induction false} EveryHostRotatesExactly(n: nat, r: nat)
    requires 0 < n && 0 < r
    ensures (forall i: nat :: i < n ==> HostTimes(i, n, r) != []) <==> r * n <= 10080
  {
    forall i: nat | i < n
      ensures HostTimes(i, n, r) != [] <==> r * i + r <= Span(n, r)
    {
      StepIsPositive(n, r);
    }
    forall i: nat | i < n
      ensures r * i + r <= r * n
    {
      MulMonotone(i + 1, n, r);
      MulDistributes(r, i, 1);
    }
    SpanIsLeast(n, r);
    if 10080 < r * n {
      MulDistributes(r, n - 1, 1);
      assert HostTimes(n - 1, n, r) == [];
    }
  }

  /** When one round fits a day, cron follows the schedule, whatever the interval. */
  lemma {:induction false} DailyRoundsAreRun(n: nat, r: nat, w: nat)
    requires 0 < n && 0 < r && r * n <= 1440
    ensures forall i: nat, c :: i < n && c in Entries(Span(n, r), HostTimes(i, n, r)) && Matches(c, w) ==>
                                  Fires(n, r, w) && i == w % Span(n, r) / r % n
    ensures Fires(n, r, w) ==>
              exists c :: c in Entries(Span(n, r), HostTimes(w % Span(n, r) / r % n, n, r)) && Matches(c, w)
  {
    hide Fires, Matches, HostTimes;
    SpanIsLeast(n, r);
    MulMonotone(1, n, r);
    CronRunsTheSchedule(n, r, w);
  }

  // ---------------------------------------------------------------- when two hosts get the same weekly entry

  /** Two minutes get the same weekly entry exactly when they lie on one day and whole hours apart. */
  lemma SameWeekEntryExactly(t: nat, u: nat)
    ensures Entry(WEEK_SPAN, t) == Entry(WEEK_SPAN, u) <==>
            t / DAY_SPAN == u / DAY_SPAN && t % HOUR_SPAN == u % HOUR_SPAN
  {
  }

  /** Hosts i and j get the same weekly entry for their minutes t and u. */
  predicate SameEntry(i: nat, j: nat, t: nat, u: nat, n: nat, r: nat)
    requires i < n && j < n && 0 < r
  {
    t in HostTimes(i, n, r) && u in HostTimes(j, n, r) && Entry(WEEK_SPAN, t) == Entry(WEEK_SPAN, u)
  }

  ghost predicate HostsCollide(n: nat, r: nat)
    requires 0 < r
  {
    exists i: nat, j: nat, t: nat, u: nat :: i < n && j < n && i != j && SameEntry(i, j, t, u, n, r)
  }

  /** Some multiple of the interval is a whole number of hours and less than a day. */
  predicate WholeHoursWithinDay(r: nat) {
    exists q: nat :: 0 < q < DAY_SPAN && IsWholeHours(r, q)
  }

  predicate IsWholeHours(r: nat, q: nat) {
    r * q < DAY_SPAN && r * q % HOUR_SPAN == 0
  }

  /** In the weekly branch two different hosts get the same entry exactly when that is so, whatever their number. */
  lemma {:induction false} HostsCollideExactly(n: nat, r: nat)
    requires 0 < n && 0 < r <= WEEK_SPAN && Span(n, r) == WEEK_SPAN
    ensures HostsCollide(n, r) <==> WholeHoursWithinDay(r)
  {
    if HostsCollide(n, r) {
      var i: nat, j: nat, t: nat, u: nat :| i < n && j < n && i != j && SameEntry(i, j, t, u, n, r);
      RotationPartition(i, n, r, t);
      RotationPartition(j, n, r, u);
      SameWeekEntryExactly(t, u);
      if t < u {
        CollisionGap(r, t, u);
      } else {
        CollisionGap(r, u, t);
      }
    }
    if WholeHoursWithinDay(r) {
      var q: nat :| 0 < q < DAY_SPAN && IsWholeHours(r, q);
      CollidingHosts(n, r, q);
    }
  }

  /** The distance between two colliding minutes is such a multiple. */
  lemma CollisionGap(r: nat, t: nat, u: nat)
    requires 0 < r && t < u && t % r == 0 && u % r == 0
    requires t / DAY_SPAN == u / DAY_SPAN && t % HOUR_SPAN == u % HOUR_SPAN
    ensures WholeHoursWithinDay(r)
  {
    var q := u / r - t / r;
    assert u - t == r * q by {
      assert u == r * (u / r) && t == r * (t / r);
      MulDistributes(r, u / r, -(t / r));
    }
    assert u - t < DAY_SPAN;
    DivModUnique(u - t, HOUR_SPAN, u / HOUR_SPAN - t / HOUR_SPAN, 0);
    if q <= 0 {
      MulMonotone(q, 0, r);
    }
    MulMonotone(1, r, q);
    assert IsWholeHours(r, q);
  }

  /** Host 0 at the start of the week and host q that many hours later share their entry. */
  lemma CollidingHosts(n: nat, r: nat, q: nat)
    requires 0 < r && Span(n, r) == WEEK_SPAN && 0 < q && IsWholeHours(r, q)
    ensures HostsCollide(n, r)
  {
    if n <= q {
      MulMonotone(n, q, r);
    }
    MulMonotone(1, q, r);
    DivModUnique(r * q, r, q, 0);
    DivModUnique(q, n, 0, q);
    DivModUnique(0, r, 0, 0);
    DivModUnique(0, n, 0, 0);
    RotationPartition(0, n, r, 0);
    RotationPartition(q, n, r, r * q);
    SameWeekEntryExactly(0, r * q);
    assert SameEntry(0, q, 0, r * q, n, r);
  }

  /** A concrete failure of the weekly branch: with 720 minutes and three hosts, hosts 0 and 1 get the same entry
      for their first rotation, so both rotate at the start of Sunday and nobody does at noon. */
  lemma TwelveHoursThreeHostsCollide()
    ensures Span(3, 720) == WEEK_SPAN && !WeekIntervalIsSafe(720)
    ensures 0 in HostTimes(0, 3, 720) && 720 in HostTimes(1, 3, 720)
    ensures Entry(WEEK_SPAN, 0) == Entry(WEEK_SPAN, 720)
  {
    RotationPartition(0, 3, 720, 0);
    RotationPartition(1, 3, 720, 720);
  }
}
