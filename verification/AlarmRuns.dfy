/** What follows for alarms, over one tick and over many: they are called at their ticks,
    no sooner and no later, whatever the callbacks of other alarms do. */
module AlarmRuns {
  import opened AlarmPlan
  import opened AlarmTime
  import opened Words

  // ---------------------------------------------------------------- punctuality

  ghost predicate OnTime(e: Entry, n: nat) {
    e.exact ==> Tracks(e.timer, n, e.due)
  }

  ghost predicate Punctual(list: seq<Entry>, n: nat) {
    forall e :: e in list ==> OnTime(e, n)
  }

  lemma TurnIsPunctual(e: Entry, period: U32, n: nat)
    requires OnTime(e, n)
    ensures e.exact ==> (Fires(e, n + 1) <==> e.due == n + 1)
    ensures Punctual(Stay(e, period, n + 1), n + 1)
  {
    if e.exact {
      TickTracks(e.timer, n, e.due, period);
    }
  }

  lemma ActIsPunctual(s: Spot, act: Action, n: nat, m: nat)
    requires Punctual(s.past, n) && Punctual(s.ahead, m)
    ensures Punctual(Act(s, act, n).past, n) && Punctual(Act(s, act, n).ahead, m)
  {
    match act
    case Begin(a, nticks) =>
      if nticks < EPOCH - 1 {
        ArmTracks(nticks, n);
      }
    case End(a) =>
      forall e | e in Drop(s.past, a) ensures e in s.past {
        DropKeeps(s.past, a, e);
      }
      forall e | e in Drop(s.ahead, a) ensures e in s.ahead {
        DropKeeps(s.ahead, a, e);
      }
  }

  lemma {:induction false} ActsArePunctual(s: Spot, acts: seq<Action>, n: nat, m: nat)
    requires Punctual(s.past, n) && Punctual(s.ahead, m)
    ensures Punctual(ActAll(s, acts, n).past, n) && Punctual(ActAll(s, acts, n).ahead, m)
    decreases |acts|
  {
    if acts != [] {
      ActIsPunctual(s, acts[0], n, m);
      ActsArePunctual(Act(s, acts[0], n), acts[1..], n, m);
    }
  }

  lemma VisitIsPunctual(s: Spot, call: Callback, n: nat)
    requires s.ahead != [] && Punctual(s.past, n + 1) && Punctual(s.ahead, n)
    ensures Punctual(Visit(s, call, n + 1).past, n + 1) && Punctual(Visit(s, call, n + 1).ahead, n)
  {
    var e := s.ahead[0];
    TurnIsPunctual(e, call.period, n);
    var t := Spot(s.past + Stay(e, call.period, n + 1), s.ahead[1..]);
    assert Punctual(t.past, n + 1) && Punctual(t.ahead, n);
    ActsArePunctual(t, call.actions, n + 1, n);
  }

  lemma {:induction false} WalkIsPunctual(s: Spot, n: nat, plan: seq<Callback>)
    requires Punctual(s.past, n + 1) && Punctual(s.ahead, n)
    ensures Punctual(WalkList(s, n + 1, plan), n + 1)
    decreases |s.ahead|
  {
    if s.ahead != [] {
      VisitIsPunctual(s, First(plan), n);
      WalkIsPunctual(Visit(s, First(plan), n + 1), n, Left(s, n + 1, plan));
    }
  }

  /** After a tick all alarms, old and new, still stand for their ticks. */
  lemma TickIsPunctual(list: seq<Entry>, n: nat, plan: seq<Callback>)
    requires Punctual(list, n)
    ensures Punctual(After(list, n + 1, plan), n + 1)
  {
    WalkIsPunctual(Spot([], list), n, plan);
  }

  // ---------------------------------------------------------------- who is called

  ghost predicate FiresIn(list: seq<Entry>, a: Alarm, n: nat) {
    exists e :: e in list && e.alarm == a && Fires(e, n)
  }

  lemma FiringIsListed(list: seq<Entry>, a: Alarm, n: nat)
    requires FiresIn(list, a, n)
    ensures Lists(list, a)
  {
    var e :| e in list && e.alarm == a && Fires(e, n);
    var i :| 0 <= i < |list| && list[i] == e;
  }

  /** What is ahead only loses entries. */
  lemma {:induction false} ActsOnlyDrop(s: Spot, acts: seq<Action>, n: nat)
    requires AlarmsDistinct(s.ahead)
    ensures AlarmsDistinct(ActAll(s, acts, n).ahead)
    ensures forall e :: e in ActAll(s, acts, n).ahead ==> e in s.ahead
    decreases |acts|
  {
    if acts != [] {
      var t := Act(s, acts[0], n);
      if acts[0].End? {
        DropDistinct(s.ahead, acts[0].alarm);
        forall e | e in t.ahead ensures e in s.ahead {
          DropKeeps(s.ahead, acts[0].alarm, e);
        }
      }
      ActsOnlyDrop(t, acts[1..], n);
    }
  }

  lemma ActsAddNothingAhead(s: Spot, acts: seq<Action>, n: nat, a: Alarm)
    requires AlarmsDistinct(s.ahead) && !Lists(s.ahead, a)
    ensures !Lists(ActAll(s, acts, n).ahead, a)
  {
    var t := ActAll(s, acts, n);
    ActsOnlyDrop(s, acts, n);
    forall i | 0 <= i < |t.ahead| ensures t.ahead[i].alarm != a {
      assert t.ahead[i] in s.ahead;
    }
  }

  /** The alarm the walk is at is listed nowhere else. */
  lemma FirstsAreApart(s: Spot)
    requires s.ahead != [] && AlarmsDistinct(s.past + s.ahead)
    ensures !Lists(s.past, s.ahead[0].alarm) && !Lists(s.ahead[1..], s.ahead[0].alarm) && AlarmsDistinct(s.ahead)
  {
    var list, k := s.past + s.ahead, |s.past|;
    assert forall i :: 0 <= i < |s.past| ==> list[i] == s.past[i];
    assert forall i :: 0 <= i < |s.ahead| ==> list[k + i] == s.ahead[i];
  }

  lemma VisitOnlyDrops(s: Spot, call: Callback, n: nat)
    requires s.ahead != [] && AlarmsDistinct(s.ahead)
    ensures var t := Visit(s, call, n).ahead;
            AlarmsDistinct(t) && forall e :: e in t ==> e in s.ahead && e.alarm != s.ahead[0].alarm
  {
    var t := Spot(s.past + Stay(s.ahead[0], call.period, n), s.ahead[1..]);
    ActsOnlyDrop(t, call.actions, n);
    forall e | e in t.ahead ensures e in s.ahead && e.alarm != s.ahead[0].alarm {
      var i :| 0 <= i < |t.ahead| && t.ahead[i] == e;
      assert s.ahead[i + 1] == e;
    }
  }

  /** A tick calls each alarm at most once, and only alarms that were registered when it
      came and whose test succeeds. */
  lemma {:induction false} CallsOnce(s: Spot, n: nat, plan: seq<Callback>)
    requires AlarmsDistinct(s.ahead)
    ensures Distinct(WalkCalls(s, n, plan))
    ensures forall a :: a in WalkCalls(s, n, plan) ==> FiresIn(s.ahead, a, n)
    decreases |s.ahead|
  {
    if s.ahead != [] {
      var t, rest := Visit(s, First(plan), n), Left(s, n, plan);
      VisitOnlyDrops(s, First(plan), n);
      CallsOnce(t, n, rest);
      var calls := WalkCalls(t, n, rest);
      forall a | a in calls ensures FiresIn(s.ahead, a, n) && a != s.ahead[0].alarm {
        var e :| e in t.ahead && e.alarm == a && Fires(e, n);
      }
      assert s.ahead[0] in s.ahead && s.ahead[0].alarm !in calls;
      var head := if Fires(s.ahead[0], n) then [s.ahead[0].alarm] else [];
      assert WalkCalls(s, n, plan) == head + calls;
      assert Distinct(head + calls);
    }
  }

  /** A callback made before the walk comes to the alarm stops it. */
  ghost predicate StoppedAhead(s: Spot, n: nat, plan: seq<Callback>, a: Alarm)
    decreases |s.ahead|
  {
    && s.ahead != [] && s.ahead[0].alarm != a
    && ((Fires(s.ahead[0], n) && End(a) in First(plan).actions)
        || StoppedAhead(Visit(s, First(plan), n), n, Left(s, n, plan), a))
  }

  lemma {:induction false} ActsStop(s: Spot, acts: seq<Action>, n: nat, e: Entry)
    ensures e in ActAll(s, acts, n).ahead <==> e in s.ahead && End(e.alarm) !in acts
    decreases |acts|
  {
    if acts != [] {
      if acts[0].End? {
        DropKeeps(s.ahead, acts[0].alarm, e);
      }
      ActsStop(Act(s, acts[0], n), acts[1..], n, e);
    }
  }

  /** A tick calls an alarm if and only if its test succeeds and no callback has stopped it
      before. */
  lemma {:induction false} CalledUnlessStopped(s: Spot, n: nat, plan: seq<Callback>, e: Entry)
    requires AlarmsDistinct(s.ahead) && e in s.ahead
    ensures e.alarm in WalkCalls(s, n, plan) <==> Fires(e, n) && !StoppedAhead(s, n, plan, e.alarm)
    decreases |s.ahead|
  {
    hide Fires, ActAll;
    var head, call := s.ahead[0], First(plan);
    var t, rest := Visit(s, call, n), Left(s, n, plan);
    VisitOnlyDrops(s, call, n);
    CallsOnce(t, n, rest);
    if head.alarm == e.alarm {
      assert e == head;
    } else {
      var at := Spot(s.past + Stay(head, call.period, n), s.ahead[1..]);
      assert e in at.ahead;
      ActsStop(at, call.actions, n, e);
      if e in t.ahead {
        CalledUnlessStopped(t, n, rest, e);
      }
    }
  }

  /** One tick, for alarms that stand for their ticks. */
  lemma TickCallsThoseDue(list: seq<Entry>, n: nat, plan: seq<Callback>, e: Entry)
    requires AlarmsDistinct(list) && Punctual(list, n) && e in list && e.exact
    ensures e.alarm in Called(list, n + 1, plan) <==>
            e.due == n + 1 && !StoppedAhead(Spot([], list), n + 1, plan, e.alarm)
  {
    CalledUnlessStopped(Spot([], list), n + 1, plan, e);
    TurnIsPunctual(e, 0, n);
  }

  // ---------------------------------------------------------------- one alarm among others

  /** No callback starts or stops the alarm. */
  ghost predicate LeftAlone(plan: seq<Callback>, a: Alarm) {
    forall c, act :: c in plan && act in c.actions ==> act.alarm != a
  }

  lemma {:induction false} ActsLeaveAlone(s: Spot, acts: seq<Action>, n: nat, a: Alarm)
    requires forall act :: act in acts ==> act.alarm != a
    ensures Of(ActAll(s, acts, n).past, a) == Of(s.past, a) && Of(ActAll(s, acts, n).ahead, a) == Of(s.ahead, a)
    decreases |acts|
  {
    if acts != [] {
      var act := acts[0];
      assert act in acts;
      match act {
        case Begin(b, nticks) => OfAdd([Started(b, nticks, n)], s.past, a);
        case End(b) =>
          OfDrop(s.past, b, a);
          OfDrop(s.ahead, b, a);
      }
      ActsLeaveAlone(Act(s, act, n), acts[1..], n, a);
    }
  }

  lemma FirstIsAlone(plan: seq<Callback>, a: Alarm)
    requires LeftAlone(plan, a)
    ensures LeftAlone(Rest(plan), a) && forall act :: act in First(plan).actions ==> act.alarm != a
  {
    if plan != [] {
      assert plan[0] in plan;
      assert forall c :: c in plan[1..] ==> c in plan;
    }
  }

  lemma OfStay(e: Entry, period: U32, n: nat, a: Alarm)
    ensures Of(Stay(e, period, n), a) == if e.alarm == a then Stay(e, period, n) else []
  {
    var stay := Stay(e, period, n);
    if stay != [] {
      assert stay == [stay[0]] && stay[1..] == [];
    }
  }

  lemma VisitLeavesAlone(s: Spot, call: Callback, n: nat, a: Alarm)
    requires s.ahead != [] && forall act :: act in call.actions ==> act.alarm != a
    ensures var t := Visit(s, call, n);
            && Of(t.past, a) == Of(s.past, a) + (if s.ahead[0].alarm == a then Stay(s.ahead[0], call.period, n) else [])
            && Of(t.ahead, a) == Of(s.ahead[1..], a)
  {
    var stay := Stay(s.ahead[0], call.period, n);
    OfAdd(s.past, stay, a);
    OfStay(s.ahead[0], call.period, n, a);
    ActsLeaveAlone(Spot(s.past + stay, s.ahead[1..]), call.actions, n, a);
  }

  /** The period that the callback of the alarm returns, when the calls act out a plan. */
  function PeriodOf(calls: seq<Alarm>, plan: seq<Callback>, a: Alarm): U32 {
    if calls == [] then 0
    else if calls[0] == a then First(plan).period
    else PeriodOf(calls[1..], Rest(plan), a)
  }

  /** An alarm that is not ahead is not called, and stays as it is. */
  lemma {:induction false} WalkPassesBy(s: Spot, n: nat, plan: seq<Callback>, a: Alarm)
    requires LeftAlone(plan, a) && Of(s.ahead, a) == []
    ensures Of(WalkList(s, n, plan), a) == Of(s.past, a) && a !in WalkCalls(s, n, plan)
    decreases |s.ahead|
  {
    if s.ahead != [] {
      FirstIsAlone(plan, a);
      VisitLeavesAlone(s, First(plan), n, a);
      WalkPassesBy(Visit(s, First(plan), n), n, Left(s, n, plan), a);
    }
  }

  /** An alarm that is ahead is called if and only if its test succeeds, and what is left
      of it is decided by its own callback. */
  lemma {:induction false} WalkMeets(s: Spot, n: nat, plan: seq<Callback>, a: Alarm, e: Entry)
    requires LeftAlone(plan, a) && Of(s.past, a) == [] && Of(s.ahead, a) == [e]
    ensures a in WalkCalls(s, n, plan) <==> Fires(e, n)
    ensures Of(WalkList(s, n, plan), a) == Stay(e, PeriodOf(WalkCalls(s, n, plan), plan, a), n)
    decreases |s.ahead|
  {
    FirstIsAlone(plan, a);
    VisitLeavesAlone(s, First(plan), n, a);
    var t, rest, head := Visit(s, First(plan), n), Left(s, n, plan), s.ahead[0];
    var calls := WalkCalls(t, n, rest);
    assert WalkCalls(s, n, plan) == if Fires(head, n) then [head.alarm] + calls else calls;
    if head.alarm == a {
      assert Of(s.ahead, a)[0] == head && Of(s.ahead, a)[1..] == Of(s.ahead[1..], a);
      WalkPassesBy(t, n, rest, a);
    } else {
      WalkMeets(t, n, rest, a, e);
      assert ([head.alarm] + calls)[1..] == calls;
    }
  }

  // ---------------------------------------------------------------- many ticks

  /** What happens to the scheduler: a tick, with the plan its callbacks act out, and between
      ticks the foreground starting or stopping an alarm. */
  datatype Deed = Pass(plan: seq<Callback>) | Foreground(act: Action)

  /** The list when that has happened after tick number `n`. */
  function Done(list: seq<Entry>, n: nat, deed: Deed): seq<Entry> {
    if deed.Pass? then After(list, n + 1, deed.plan) else Act(Spot(list, []), deed.act, n).past
  }

  /** The number of the last tick then. */
  function Now(n: nat, deed: Deed): nat {
    if deed.Pass? then n + 1 else n
  }

  function Last(n: nat, run: seq<Deed>): (last: nat)
    ensures n <= last
    decreases |run|
  {
    if run == [] then n else Last(Now(n, run[0]), run[1..])
  }

  predicate IsCalled(list: seq<Entry>, n: nat, deed: Deed, a: Alarm) {
    deed.Pass? && a in Called(list, n + 1, deed.plan)
  }

  /** The ticks of a run at which the alarm is called. */
  function CallTicks(list: seq<Entry>, n: nat, run: seq<Deed>, a: Alarm): seq<nat>
    decreases |run|
  {
    if run == [] then []
    else
      var ticks := CallTicks(Done(list, n, run[0]), Now(n, run[0]), run[1..], a);
      if IsCalled(list, n, run[0], a) then [n + 1] + ticks else ticks
  }

  /** The period that its callback returns at one of them. */
  function PeriodAt(list: seq<Entry>, n: nat, deed: Deed, a: Alarm): U32 {
    if deed.Pass? then PeriodOf(Called(list, n + 1, deed.plan), deed.plan, a) else 0
  }

  function Periods(list: seq<Entry>, n: nat, run: seq<Deed>, a: Alarm): seq<U32>
    decreases |run|
  {
    if run == [] then []
    else
      var periods := Periods(Done(list, n, run[0]), Now(n, run[0]), run[1..], a);
      if IsCalled(list, n, run[0], a) then [PeriodAt(list, n, run[0], a)] + periods else periods
  }

  /** Nobody starts or stops the alarm. */
  ghost predicate Spares(deed: Deed, a: Alarm) {
    if deed.Pass? then LeftAlone(deed.plan, a) else deed.act.alarm != a
  }

  ghost predicate AlwaysAlone(run: seq<Deed>, a: Alarm) {
    forall deed :: deed in run ==> Spares(deed, a)
  }

  lemma NextIsAlone(run: seq<Deed>, a: Alarm)
    requires run != [] && AlwaysAlone(run, a)
    ensures Spares(run[0], a) && AlwaysAlone(run[1..], a)
  {
    assert run[0] in run;
  }

  /** The foreground leaves the entries of other alarms alone. */
  lemma ForegroundLeavesAlone(list: seq<Entry>, n: nat, act: Action, a: Alarm)
    requires act.alarm != a
    ensures Of(Done(list, n, Foreground(act)), a) == Of(list, a)
  {
    ActsLeaveAlone(Spot(list, []), [act], n, a);
    assert [act][1..] == [];
    assert ActAll(Spot(list, []), [act], n) == Act(Spot(list, []), act, n);
  }

  lemma {:induction false} GoneIsNotCalled(list: seq<Entry>, n: nat, run: seq<Deed>, a: Alarm)
    requires Of(list, a) == [] && AlwaysAlone(run, a)
    ensures CallTicks(list, n, run, a) == [] && Periods(list, n, run, a) == []
    decreases |run|
  {
    if run != [] {
      NextIsAlone(run, a);
      if run[0].Pass? {
        WalkPassesBy(Spot([], list), n + 1, run[0].plan, a);
      } else {
        ForegroundLeavesAlone(list, n, run[0].act, a);
      }
      GoneIsNotCalled(Done(list, n, run[0]), Now(n, run[0]), run[1..], a);
    }
  }

  lemma OneMore(list: seq<Entry>, n: nat, run: seq<Deed>, a: Alarm)
    requires run != []
    ensures var next, m := Done(list, n, run[0]), Now(n, run[0]);
            var ticks, periods := CallTicks(next, m, run[1..], a), Periods(next, m, run[1..], a);
            && Last(n, run) == Last(m, run[1..])
            && CallTicks(list, n, run, a) == (if IsCalled(list, n, run[0], a) then [n + 1] + ticks else ticks)
            && Periods(list, n, run, a) ==
               if IsCalled(list, n, run[0], a) then [PeriodAt(list, n, run[0], a)] + periods else periods
  {
  }

  lemma ScheduleStep(due: nat, n: nat, last: nat, period: U32, periods: seq<U32>, ticks: seq<nat>)
    requires n < due && n < last
    requires if due == n + 1 && period == 0 then ticks == []
             else ticks == Schedule(if due == n + 1 then due + period else due, last, periods)
    ensures Schedule(due, last, if due == n + 1 then [period] + periods else periods) ==
            if due == n + 1 then [n + 1] + ticks else ticks
  {
    assert ([period] + periods)[1..] == periods;
  }

  lemma NoMore(list: seq<Entry>, n: nat, run: seq<Deed>, e: Entry)
    requires run == [] && n < e.due
    ensures CallTicks(list, n, run, e.alarm) == Schedule(e.due, Last(n, run), Periods(list, n, run, e.alarm))
  {
  }

  /** What is left of an alarm: nothing, or the entry `f`. */
  ghost predicate Remains(list: seq<Entry>, n: nat, a: Alarm, goes: bool, f: Entry) {
    && Of(list, a) == (if goes then [] else [f])
    && (!goes ==> f.alarm == a && f.exact && OnTime(f, n) && n < f.due)
  }

  /** What the next tick does to an alarm. */
  lemma NextTick(list: seq<Entry>, n: nat, plan: seq<Callback>, e: Entry) returns (goes: bool, f: Entry)
    requires Remains(list, n, e.alarm, false, e) && LeftAlone(plan, e.alarm)
    ensures var calls := Called(list, n + 1, plan);
            var period := PeriodOf(calls, plan, e.alarm);
            && (e.alarm in calls <==> e.due == n + 1)
            && (goes <==> e.due == n + 1 && period == 0)
            && f.due == if e.due == n + 1 then e.due + period else e.due
    ensures Remains(After(list, n + 1, plan), n + 1, e.alarm, goes, f)
  {
    var period := PeriodOf(Called(list, n + 1, plan), plan, e.alarm);
    WalkMeets(Spot([], list), n + 1, plan, e.alarm, e);
    TurnIsPunctual(e, period, n);
    var left := Of(After(list, n + 1, plan), e.alarm);
    goes := left == [];
    f := if Fires(e, n + 1) then Later(Reached(e, n + 1), period, n + 1) else Reached(e, n + 1);
    assert left != [] ==> f in left;
  }

  /** What a tick does, as a step of a run. */
  lemma PassIsStep(list: seq<Entry>, n: nat, deed: Deed, a: Alarm)
    requires deed.Pass?
    ensures Done(list, n, deed) == After(list, n + 1, deed.plan) && Now(n, deed) == n + 1
    ensures IsCalled(list, n, deed, a) <==> a in Called(list, n + 1, deed.plan)
    ensures PeriodAt(list, n, deed, a) == PeriodOf(Called(list, n + 1, deed.plan), deed.plan, a)
    ensures Spares(deed, a) <==> LeftAlone(deed.plan, a)
  {
  }

  lemma ForegroundIsStep(list: seq<Entry>, n: nat, deed: Deed, e: Entry)
    requires deed.Foreground? && Remains(list, n, e.alarm, false, e) && Spares(deed, e.alarm)
    ensures Remains(Done(list, n, deed), n, e.alarm, false, e) && Now(n, deed) == n
    ensures !IsCalled(list, n, deed, e.alarm)
  {
    ForegroundLeavesAlone(list, n, deed.act, e.alarm);
  }

  /** Among any other alarms, whatever their callbacks and the foreground start and stop, an
      alarm that nobody else stops is called at exactly the ticks of its schedule: first at
      the tick it stands for, and each time one period after the last. */
  lemma {:induction false} ListedAlarmKeepsSchedule(list: seq<Entry>, n: nat, run: seq<Deed>, e: Entry)
    requires Remains(list, n, e.alarm, false, e) && AlwaysAlone(run, e.alarm)
    ensures CallTicks(list, n, run, e.alarm) == Schedule(e.due, Last(n, run), Periods(list, n, run, e.alarm))
    decreases |run|
  {
    hide *;
    StillAhead(list, n, e);
    if run == [] {
      NoMore(list, n, run, e);
      return;
    }
    var deed, rest := run[0], run[1..];
    var next, m := Done(list, n, deed), Now(n, deed);
    NextIsAlone(run, e.alarm);
    OneMore(list, n, run, e.alarm);
    if deed.Foreground? {
      ForegroundIsStep(list, n, deed, e);
      ListedAlarmKeepsSchedule(next, m, rest, e);
    } else {
      PassIsStep(list, n, deed, e.alarm);
      var goes, f := NextTick(list, n, deed.plan, e);
      if goes {
        Vanished(next, m, e.alarm, f);
        GoneIsNotCalled(next, m, rest, e.alarm);
      } else {
        StaysItself(next, m, e.alarm, f);
        ListedAlarmKeepsSchedule(next, m, rest, f);
      }
      ScheduleStep(e.due, n, Last(m, rest), PeriodAt(list, n, deed, e.alarm),
                   Periods(next, m, rest, e.alarm), CallTicks(next, m, rest, e.alarm));
    }
  }

  lemma StillAhead(list: seq<Entry>, n: nat, e: Entry)
    requires Remains(list, n, e.alarm, false, e)
    ensures n < e.due
  {
  }

  lemma Vanished(list: seq<Entry>, n: nat, a: Alarm, f: Entry)
    requires Remains(list, n, a, true, f)
    ensures Of(list, a) == []
  {
  }

  lemma StaysItself(list: seq<Entry>, n: nat, a: Alarm, f: Entry)
    requires Remains(list, n, a, false, f)
    ensures f.alarm == a
  {
  }

  /** From its start: an alarm that is not registered is started after tick `n`, and called
      at the ticks of the schedule that begins at `n + nticks + 1`. */
  lemma StartedAlarmIsCalled(list: seq<Entry>, n: nat, run: seq<Deed>, a: Alarm, nticks: U32)
    requires !Lists(list, a) && nticks < EPOCH - 1 && AlwaysAlone(run, a)
    ensures var started := Done(list, n, Foreground(Begin(a, nticks)));
            CallTicks(started, n, run, a) == Schedule(n + nticks + 1, Last(n, run), Periods(started, n, run, a))
  {
    var e := Started(a, nticks, n);
    ArmTracks(nticks, n);
    OfNothing(list, a);
    assert ([e] + list)[1..] == list && Of([e] + list, a) == [e];
    ListedAlarmKeepsSchedule([e] + list, n, run, e);
  }

  // ---------------------------------------------------------------- who is parked

  ghost predicate Accounted(s: Spot, parked: set<Alarm>, a: Alarm) {
    Lists(s.past, a) || Lists(s.ahead, a) || a in parked
  }

  lemma ListsAdd(x: seq<Entry>, y: seq<Entry>, a: Alarm)
    ensures Lists(x + y, a) <==> Lists(x, a) || Lists(y, a)
  {
    OfAdd(x, y, a);
    OfNothing(x, a);
    OfNothing(y, a);
    OfNothing(x + y, a);
  }

  lemma ListsItself(e: Entry)
    ensures Lists([e], e.alarm)
  {
    assert [e][0].alarm == e.alarm;
  }

  lemma ListsMember(list: seq<Entry>, k: nat)
    requires k < |list|
    ensures Lists(list, list[k].alarm)
  {
  }

  lemma ListsDrop(list: seq<Entry>, b: Alarm, a: Alarm)
    requires a != b
    ensures Lists(Drop(list, b), a) <==> Lists(list, a)
  {
    OfDrop(list, b, a);
    OfNothing(list, a);
    OfNothing(Drop(list, b), a);
  }

  lemma ActAccounts(s: Spot, parked: set<Alarm>, act: Action, n: nat, a: Alarm)
    requires Accounted(s, parked, a)
    ensures Accounted(Act(s, act, n), Park(parked, act), a)
  {
    match act
    case Begin(b, nticks) =>
      var e := Started(b, nticks, n);
      ListsAdd([e], s.past, a);
      assert [e][0].alarm == b;
    case End(b) =>
      if a != b {
        ListsDrop(s.past, b, a);
        ListsDrop(s.ahead, b, a);
      }
  }

  lemma {:induction false} ActsAccount(s: Spot, parked: set<Alarm>, acts: seq<Action>, n: nat, a: Alarm)
    requires Accounted(s, parked, a)
    ensures Accounted(ActAll(s, acts, n), ParkAll(parked, acts), a)
    decreases |acts|
  {
    if acts != [] {
      ActAccounts(s, parked, acts[0], n, a);
      ActsAccount(Act(s, acts[0], n), Park(parked, acts[0]), acts[1..], n, a);
    }
  }

  lemma VisitAccounts(s: Spot, parked: set<Alarm>, call: Callback, n: nat, a: Alarm)
    requires s.ahead != [] && Accounted(s, parked, a)
    ensures Accounted(Visit(s, call, n), ParkVisit(parked, s, call, n), a)
  {
    var e := s.ahead[0];
    var stay := Stay(e, call.period, n);
    var t := Spot(s.past + stay, s.ahead[1..]);
    var p := if Fires(e, n) && call.period == 0 then parked + {e.alarm} else parked;
    assert Accounted(t, p, a) by {
      ListsAdd(s.past, stay, a);
      ListsAdd([e], s.ahead[1..], a);
      assert s.ahead == [e] + s.ahead[1..];
      assert stay != [] ==> stay[0].alarm == e.alarm;
    }
    ActsAccount(t, p, call.actions, n, a);
  }

  /** Every alarm that a walk takes off the list has been stopped or has stopped itself. */
  lemma {:induction false} WalkAccounts(s: Spot, parked: set<Alarm>, n: nat, plan: seq<Callback>, a: Alarm)
    requires Accounted(s, parked, a)
    ensures Lists(WalkList(s, n, plan), a) || a in WalkParked(parked, s, n, plan)
    decreases |s.ahead|
  {
    if s.ahead != [] {
      VisitAccounts(s, parked, First(plan), n, a);
      WalkAccounts(Visit(s, First(plan), n), ParkVisit(parked, s, First(plan), n), n, Left(s, n, plan), a);
    }
  }

  /** So a callback leaves its alarm registered or stopped, and what its period then does
      completes the turn. */
  lemma CallCompletesVisit(s: Spot, parked: set<Alarm>, call: Callback, n: nat)
    requires s.ahead != [] && Fires(s.ahead[0], n) && AlarmsDistinct(s.past + s.ahead) && LegalVisit(parked, s, call, n)
    ensures var a, t, u := s.ahead[0].alarm, ActAll(AtCall(s, n), call.actions, n), Visit(s, call, n);
            && Resched(t.past + t.ahead, a, call.period, n) == u.past + u.ahead
            && ParkAll(parked, call.actions) + (if call.period == 0 then {a} else {}) == ParkVisit(parked, s, call, n)
            && (Lists(t.past + t.ahead, a) || a in ParkAll(parked, call.actions))
  {
    hide Fires, LegalVisit, Lists, Resched, Visit, ParkVisit, ActAll;
    var e, at := s.ahead[0], AtCall(s, n);
    FirstsAreApart(s);
    VisitInOrder(s, parked, call, n);
    var t := ActAll(at, call.actions, n);
    assert AlarmsDistinct(s.ahead[1..]);
    ActsAddNothingAhead(at, call.actions, n, e.alarm);
    ReschedAdd(t.past, t.ahead, e.alarm, call.period, n);
    ReschedNothing(t.ahead, e.alarm, call.period, n);
    ListsAdd(s.past, [Reached(e, n)], e.alarm);
    ListsItself(Reached(e, n));
    ActsAccount(at, parked, call.actions, n, e.alarm);
    ListsAdd(t.past, t.ahead, e.alarm);
  }

  /** What a tick means for alarms that are registered once each and stand for their ticks. */
  lemma TickOutcome(list: seq<Entry>, parked: set<Alarm>, n: nat, plan: seq<Callback>)
    requires AlarmsDistinct(list) && Punctual(list, n)
    ensures Punctual(After(list, n + 1, plan), n + 1)
    ensures Distinct(Called(list, n + 1, plan))
    ensures var called := Called(list, n + 1, plan); forall i :: 0 <= i < |called| ==> Lists(list, called[i])
    ensures forall e :: e in list && e.exact ==>
              (e.alarm in Called(list, n + 1, plan) <==>
               e.due == n + 1 && !StoppedAhead(Spot([], list), n + 1, plan, e.alarm))
    ensures forall a :: Lists(list, a) ==>
              Lists(After(list, n + 1, plan), a) || a in WalkParked(parked, Spot([], list), n + 1, plan)
  {
    hide AlarmsDistinct, Punctual, Distinct, WalkCalls, WalkList, WalkParked, StoppedAhead, Fires;
    TickIsPunctual(list, n, plan);
    CallsOnce(Spot([], list), n + 1, plan);
    var called := Called(list, n + 1, plan);
    forall i | 0 <= i < |called| ensures Lists(list, called[i]) {
      assert FiresIn(list, called[i], n + 1);
      FiringIsListed(list, called[i], n + 1);
    }
    forall e | e in list && e.exact
      ensures e.alarm in Called(list, n + 1, plan) <==>
              e.due == n + 1 && !StoppedAhead(Spot([], list), n + 1, plan, e.alarm)
    {
      TickCallsThoseDue(list, n, plan, e);
    }
    forall a | Lists(list, a)
      ensures Lists(After(list, n + 1, plan), a) || a in WalkParked(parked, Spot([], list), n + 1, plan)
    {
      WalkAccounts(Spot([], list), parked, n + 1, plan, a);
    }
  }
}
