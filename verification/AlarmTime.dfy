/** The arithmetic of alarm deadlines.

    The tick counter and the deadlines are 32-bit and wrap; one rollover bit stands
    in for the missing high bits.  Here they are compared with tick numbers that
    never wrap. */
module AlarmTime {
  import opened Words

  /** The ticks from one wrap of the counter to the next. */
  const EPOCH := TWO32

  /** The fields of an alarm that decide when it expires. */
  datatype Timer = Timer(time: U32, rollover: bool)

  /** Starting an alarm at counter value `now`. */
  function Arm(nticks: U32, now: U32): Timer {
    var time := (nticks + now + 1) % EPOCH;
    Timer(time, time < now)
  }

  /** The tick that sets the counter to `now` reaches the alarm. */
  function Reach(t: Timer, now: U32): Timer {
    if t.rollover && now == 0 then t.(rollover := false) else t
  }

  predicate Expired(t: Timer, now: U32) {
    t.time <= now && !t.rollover
  }

  /** The callback asked to be called again after `period` ticks. */
  function Rearm(t: Timer, period: U32, now: U32): Timer {
    var time := (t.time + period) % EPOCH;
    Timer(time, time < now || t.rollover)
  }

  /** The counter after tick number `n`. */
  function Counter(n: nat): U32 {
    n % EPOCH
  }

  /** After tick number `n`, the alarm stands for tick number `due`. */
  ghost predicate Tracks(t: Timer, n: nat, due: nat) {
    && n < due < n + EPOCH
    && t.time == due % EPOCH
    && (t.rollover <==> n / EPOCH < due / EPOCH)
  }

  lemma ArmTracks(nticks: U32, n: nat)
    requires nticks < EPOCH - 1
    ensures Tracks(Arm(nticks, Counter(n)), n, n + nticks + 1)
  {
  }

  /** The next tick calls back exactly the alarms that stand for it; the others still
      stand for their tick, and one that is re-armed stands for `period` ticks after
      the one it stood for. */
  lemma TickTracks(t: Timer, n: nat, due: nat, period: U32)
    requires Tracks(t, n, due)
    ensures var u := Reach(t, Counter(n + 1));
            && (Expired(u, Counter(n + 1)) <==> due == n + 1)
            && (due != n + 1 ==> Tracks(u, n + 1, due))
            && (due == n + 1 && 0 < period ==> Tracks(Rearm(u, period, Counter(n + 1)), n + 1, due + period))
  {
  }

  // ---------------------------------------------------------------- whole runs of one alarm

  /** The numbers of the ticks, out of the `ticks` after number `n`, at which the alarm
      calls back, when its calls return `periods` in turn and zero after that. */
  function Calls(t: Timer, n: nat, ticks: nat, periods: seq<U32>): seq<nat>
    decreases ticks
  {
    if ticks == 0 then []
    else
      var now := Counter(n + 1);
      var u := Reach(t, now);
      if !Expired(u, now) then Calls(u, n + 1, ticks - 1, periods)
      else if periods == [] || periods[0] == 0 then [n + 1]
      else [n + 1] + Calls(Rearm(u, periods[0], now), n + 1, ticks - 1, periods[1..])
  }

  /** The ticks at which it should: `due`, and each following one `period` later. */
  function Schedule(due: nat, last: nat, periods: seq<U32>): seq<nat>
    decreases |periods|
  {
    if last < due then []
    else if periods == [] || periods[0] == 0 then [due]
    else [due] + Schedule(due + periods[0], last, periods[1..])
  }

  /** An alarm keeps its schedule for ever, without drift, through any number of
      wraps of the counter. */
  lemma {:induction false} KeepsSchedule(t: Timer, n: nat, due: nat, ticks: nat, periods: seq<U32>)
    requires Tracks(t, n, due)
    ensures Calls(t, n, ticks, periods) == Schedule(due, n + ticks, periods)
    decreases ticks
  {
    if 0 < ticks {
      var now := Counter(n + 1);
      var u := Reach(t, now);
      TickTracks(t, n, due, if periods == [] then 0 else periods[0]);
      if due != n + 1 {
        KeepsSchedule(u, n + 1, due, ticks - 1, periods);
      } else if periods != [] && periods[0] != 0 {
        KeepsSchedule(Rearm(u, periods[0], now), n + 1, due + periods[0], ticks - 1, periods[1..]);
      }
    }
  }

  /** Started after tick `n` with `nticks`, an alarm first calls back at tick
      `n + nticks + 1` and keeps its schedule from there. */
  lemma StartedAlarmKeepsSchedule(nticks: U32, n: nat, ticks: nat, periods: seq<U32>)
    requires nticks < EPOCH - 1
    ensures Calls(Arm(nticks, Counter(n)), n, ticks, periods) == Schedule(n + nticks + 1, n + ticks, periods)
  {
    ArmTracks(nticks, n);
    KeepsSchedule(Arm(nticks, Counter(n)), n, n + nticks + 1, ticks, periods);
  }

  /** One tick that calls nobody. */
  lemma QuietTick(t: Timer, n: nat, ticks: nat, periods: seq<U32>)
    requires 0 < ticks && !Expired(Reach(t, Counter(n + 1)), Counter(n + 1))
    ensures Calls(t, n, ticks, periods) == Calls(Reach(t, Counter(n + 1)), n + 1, ticks - 1, periods)
  {
  }

  lemma BusyTick(t: Timer, n: nat, ticks: nat, periods: seq<U32>)
    requires 0 < ticks && Expired(Reach(t, Counter(n + 1)), Counter(n + 1))
    ensures Calls(t, n, ticks, periods) != [] && Calls(t, n, ticks, periods)[0] == n + 1
  {
  }

  /** The largest argument, at the largest counter value: the rollover bit is clear
      although the deadline is in the next epoch, and the next tick makes that right. */
  lemma LastTickOfEpoch(n: nat, ticks: nat, periods: seq<U32>)
    requires Counter(n) == EPOCH - 1 && ticks == EPOCH
    ensures Calls(Arm(EPOCH - 1, Counter(n)), n, ticks, periods) == Schedule(n + ticks, n + ticks, periods)
  {
    var t := Arm(EPOCH - 1, Counter(n));
    var u := Reach(t, Counter(n + 1));
    assert !Expired(u, Counter(n + 1)) && Tracks(u, n + 1, n + ticks);
    QuietTick(t, n, ticks, periods);
    KeepsSchedule(u, n + 1, n + ticks, ticks - 1, periods);
  }

  /** The largest argument at any other counter value: the alarm calls at once. */
  lemma CallsAtOnce(n: nat, ticks: nat, periods: seq<U32>)
    requires Counter(n) < EPOCH - 1 && 0 < ticks
    ensures Calls(Arm(EPOCH - 1, Counter(n)), n, ticks, periods) != []
    ensures Calls(Arm(EPOCH - 1, Counter(n)), n, ticks, periods)[0] == n + 1
  {
    var t := Arm(EPOCH - 1, Counter(n));
    assert Expired(Reach(t, Counter(n + 1)), Counter(n + 1));
    BusyTick(t, n, ticks, periods);
  }

  lemma EarlyRearm(n: nat, period: U32)
    requires Counter(n) < EPOCH - 1 && 2 <= period
    ensures var (t, now) := (Arm(EPOCH - 1, Counter(n)), Counter(n + 1));
            && Reach(t, now) == t && Expired(t, now)
            && Tracks(Rearm(t, period, now), n + 1, n + period)
  {
  }

  /** That first call is early; a call after `period` ticks, unless that is the very next
      tick, is timed from when the alarm was started, and so are all that follow. */
  lemma EarlyCallThenOnSchedule(n: nat, ticks: nat, period: U32, periods: seq<U32>)
    requires Counter(n) < EPOCH - 1 && 0 < ticks && 2 <= period
    ensures Calls(Arm(EPOCH - 1, Counter(n)), n, ticks, [period] + periods) ==
            [n + 1] + Schedule(n + period, n + ticks, periods)
  {
    hide Arm, Reach, Rearm, Expired, Tracks;
    EarlyRearm(n, period);
    assert ([period] + periods)[1..] == periods;
    KeepsSchedule(Rearm(Arm(EPOCH - 1, Counter(n)), period, Counter(n + 1)), n + 1, n + period, ticks - 1, periods);
  }

  lemma LastOnSchedule(due: nat, periods: seq<U32>)
    ensures Schedule(due, due, periods) == [due]
  {
  }

  /** Exactly when the first call comes as promised: always, except for the largest
      argument, which works only when the counter is at its largest value. */
  lemma FirstCallOnTime(nticks: U32, n: nat, ticks: nat, periods: seq<U32>)
    requires ticks == nticks + 1
    ensures Calls(Arm(nticks, Counter(n)), n, ticks, periods) == [n + ticks]
       <==> nticks < EPOCH - 1 || Counter(n) == EPOCH - 1
  {
    LastOnSchedule(n + ticks, periods);
    if nticks < EPOCH - 1 {
      StartedAlarmKeepsSchedule(nticks, n, ticks, periods);
    } else if Counter(n) == EPOCH - 1 {
      LastTickOfEpoch(n, ticks, periods);
    } else {
      CallsAtOnce(n, ticks, periods);
    }
  }
}
