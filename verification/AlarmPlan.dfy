/** What a tick does to the list of registered alarms, as values: which alarms it calls
    back, what their callbacks start and stop, and what is registered afterwards. */
module AlarmPlan {
  import opened AlarmTime
  import opened Words

  class Alarm {
    var next: Alarm?
    var previous: Alarm?
    var time: U32
    var rollover: bool

    // The number of the tick it stands for, which is exact unless it was started with
    // the largest argument.
    ghost var due: nat
    ghost var exact: bool

    constructor () {
      next, previous := null, null;
    }

    ghost function AsEntry(): Entry
      reads this`time, this`rollover, this`due, this`exact
    {
      Entry(this, Timer(time, rollover), due, exact)
    }
  }

  datatype Entry = Entry(alarm: Alarm, timer: Timer, due: nat, exact: bool)

  /** What a callback may do to the list: start an alarm, and stop one. */
  datatype Action = Begin(alarm: Alarm, nticks: U32) | End(alarm: Alarm)

  /** What one callback does, and after how many ticks it asks to be called again. */
  datatype Callback = Callback(actions: seq<Action>, period: U32)

  /** The list while it is walked: what has been walked over or put in front, and what is
      ahead. */
  datatype Spot = Spot(past: seq<Entry>, ahead: seq<Entry>)

  // ---------------------------------------------------------------- lists of entries

  ghost predicate Lists(list: seq<Entry>, a: Alarm) {
    exists i :: 0 <= i < |list| && list[i].alarm == a
  }

  ghost predicate AlarmsDistinct(list: seq<Entry>) {
    forall i, j :: 0 <= i < j < |list| ==> list[i].alarm != list[j].alarm
  }

  ghost predicate Distinct(nodes: seq<Alarm>) {
    forall i, j :: 0 <= i < j < |nodes| ==> nodes[i] != nodes[j]
  }

  /** The list without an alarm. */
  function Drop(list: seq<Entry>, a: Alarm): (r: seq<Entry>)
    ensures |r| <= |list|
  {
    if list == [] then []
    else if list[0].alarm == a then Drop(list[1..], a)
    else [list[0]] + Drop(list[1..], a)
  }

  /** The entries of one alarm. */
  function Of(list: seq<Entry>, a: Alarm): seq<Entry> {
    if list == [] then []
    else if list[0].alarm == a then [list[0]] + Of(list[1..], a)
    else Of(list[1..], a)
  }

  lemma {:induction false} OfAdd(x: seq<Entry>, y: seq<Entry>, a: Alarm)
    ensures Of(x + y, a) == Of(x, a) + Of(y, a)
  {
    if x == [] {
      assert x + y == y;
    } else {
      OfAdd(x[1..], y, a);
      assert (x + y)[1..] == x[1..] + y && (x + y)[0] == x[0];
      assert [x[0]] + (Of(x[1..], a) + Of(y, a)) == [x[0]] + Of(x[1..], a) + Of(y, a);
    }
  }

  lemma {:induction false} OfDrop(list: seq<Entry>, b: Alarm, a: Alarm)
    requires a != b
    ensures Of(Drop(list, b), a) == Of(list, a)
  {
    if list != [] {
      OfDrop(list[1..], b, a);
      OfAdd([list[0]], Drop(list[1..], b), a);
    }
  }

  lemma {:induction false} OfNothing(list: seq<Entry>, a: Alarm)
    ensures Of(list, a) == [] <==> !Lists(list, a)
  {
    if list != [] {
      OfNothing(list[1..], a);
      if Lists(list, a) && list[0].alarm != a {
        var i :| 0 <= i < |list| && list[i].alarm == a;
        assert list[1..][i - 1] == list[i];
      }
      if Lists(list[1..], a) {
        var i :| 0 <= i < |list[1..]| && list[1..][i].alarm == a;
        assert list[i + 1].alarm == a;
      }
    }
  }

  lemma {:induction false} DropAdd(x: seq<Entry>, y: seq<Entry>, a: Alarm)
    ensures Drop(x + y, a) == Drop(x, a) + Drop(y, a)
  {
    if x == [] {
      assert x + y == y;
    } else {
      DropAdd(x[1..], y, a);
      assert (x + y)[1..] == x[1..] + y && (x + y)[0] == x[0];
      assert [x[0]] + (Drop(x[1..], a) + Drop(y, a)) == [x[0]] + Drop(x[1..], a) + Drop(y, a);
    }
  }

  lemma {:induction false} DropNothing(list: seq<Entry>, a: Alarm)
    requires !Lists(list, a)
    ensures Drop(list, a) == list
  {
    if list != [] {
      assert list[0].alarm != a;
      forall i | 0 <= i < |list[1..]| ensures list[1..][i].alarm != a {
        assert list[i + 1].alarm != a;
      }
      DropNothing(list[1..], a);
    }
  }

  /** An alarm that is listed once is cut out where it is. */
  lemma {:induction false} DropAt(list: seq<Entry>, k: nat)
    requires k < |list| && AlarmsDistinct(list)
    ensures Drop(list, list[k].alarm) == list[..k] + list[k + 1..]
  {
    if k == 0 {
      DropNothing(list[1..], list[0].alarm);
    } else {
      DropAt(list[1..], k - 1);
    }
  }

  lemma {:induction false} DropKeeps(list: seq<Entry>, a: Alarm, e: Entry)
    ensures e in Drop(list, a) <==> e in list && e.alarm != a
  {
    if list != [] {
      DropKeeps(list[1..], a, e);
    }
  }

  lemma {:induction false} DropDistinct(list: seq<Entry>, a: Alarm)
    requires AlarmsDistinct(list)
    ensures AlarmsDistinct(Drop(list, a))
  {
    if list != [] {
      DropDistinct(list[1..], a);
      var rest := Drop(list[1..], a);
      forall i | 0 <= i < |rest| ensures rest[i].alarm != list[0].alarm {
        DropKeeps(list[1..], a, rest[i]);
      }
    }
  }

  // ---------------------------------------------------------------- one callback

  /** Starting puts an alarm at the front of the list, stopping takes it out. */
  function Act(s: Spot, act: Action, n: nat): (r: Spot)
    ensures |r.ahead| <= |s.ahead|
  {
    match act
    case Begin(a, nticks) => Spot([Started(a, nticks, n)] + s.past, s.ahead)
    case End(a) => Spot(Drop(s.past, a), Drop(s.ahead, a))
  }

  function ActAll(s: Spot, acts: seq<Action>, n: nat): (r: Spot)
    ensures |r.ahead| <= |s.ahead|
    decreases |acts|
  {
    if acts == [] then s else ActAll(Act(s, acts[0], n), acts[1..], n)
  }

  /** The alarms that have been stopped and not started again. */
  function Park(parked: set<Alarm>, act: Action): set<Alarm> {
    match act
    case Begin(a, _) => parked - {a}
    case End(a) => parked + {a}
  }

  function ParkAll(parked: set<Alarm>, acts: seq<Action>): set<Alarm>
    decreases |acts|
  {
    if acts == [] then parked else ParkAll(Park(parked, acts[0]), acts[1..])
  }

  /** What the callback of `self` may do: start an alarm that is not registered, other than
      itself, and stop one that is registered or has been stopped before. */
  ghost predicate Legal(s: Spot, parked: set<Alarm>, act: Action, self: Alarm) {
    match act
    case Begin(a, _) => a != self && !Lists(s.past, a) && !Lists(s.ahead, a)
    case End(a) => Lists(s.past, a) || Lists(s.ahead, a) || a in parked
  }

  ghost predicate LegalAll(s: Spot, parked: set<Alarm>, acts: seq<Action>, self: Alarm, n: nat)
    decreases |acts|
  {
    acts != [] ==>
      && Legal(s, parked, acts[0], self)
      && LegalAll(Act(s, acts[0], n), Park(parked, acts[0]), acts[1..], self, n)
  }

  /** No action stops the alarm that is next. */
  ghost predicate SparesNext(s: Spot, acts: seq<Action>) {
    s.ahead != [] ==> forall act :: act in acts && act.End? ==> act.alarm != s.ahead[0].alarm
  }

  lemma {:induction false} NextStays(s: Spot, acts: seq<Action>, n: nat)
    requires SparesNext(s, acts)
    ensures var t := ActAll(s, acts, n);
            (t.ahead == [] <==> s.ahead == []) && (s.ahead != [] ==> t.ahead[0] == s.ahead[0])
    decreases |acts|
  {
    if acts != [] {
      assert acts[0] in acts;
      NextStays(Act(s, acts[0], n), acts[1..], n);
    }
  }

  // ---------------------------------------------------------------- one tick

  /** The entry of an alarm started after tick number `n`. */
  function Started(alarm: Alarm, nticks: U32, n: nat): Entry {
    Entry(alarm, Arm(nticks, Counter(n)), n + nticks + 1, nticks < EPOCH - 1)
  }

  function Reached(e: Entry, n: nat): Entry {
    e.(timer := Reach(e.timer, Counter(n)))
  }

  predicate Fires(e: Entry, n: nat) {
    Expired(Reached(e, n).timer, Counter(n))
  }

  /** What is left of an entry when tick number `n` has been to it, if its callback
      returns `period`. */
  function Stay(e: Entry, period: U32, n: nat): seq<Entry> {
    if !Fires(e, n) then [Reached(e, n)]
    else if period == 0 then []
    else [Later(Reached(e, n), period, n)]
  }

  function Later(e: Entry, period: U32, n: nat): Entry {
    e.(timer := Rearm(e.timer, period, Counter(n)), due := e.due + period)
  }

  function First(plan: seq<Callback>): Callback {
    if plan == [] then Callback([], 0) else plan[0]
  }

  function Rest(plan: seq<Callback>): seq<Callback> {
    if plan == [] then [] else plan[1..]
  }

  /** One turn of the walk: the entry ahead, and what its callback does if it is called. */
  function Visit(s: Spot, call: Callback, n: nat): (r: Spot)
    requires s.ahead != []
    ensures |r.ahead| < |s.ahead|
  {
    var e := s.ahead[0];
    var t := Spot(s.past + Stay(e, call.period, n), s.ahead[1..]);
    if Fires(e, n) then ActAll(t, call.actions, n) else t
  }

  /** The callbacks still to be made after one turn. */
  function Left(s: Spot, n: nat, plan: seq<Callback>): seq<Callback>
    requires s.ahead != []
  {
    if Fires(s.ahead[0], n) then Rest(plan) else plan
  }

  /** The list when the walk is over, if the callbacks, as they are made, act out `plan`. */
  function WalkList(s: Spot, n: nat, plan: seq<Callback>): seq<Entry>
    decreases |s.ahead|
  {
    if s.ahead == [] then s.past else WalkList(Visit(s, First(plan), n), n, Left(s, n, plan))
  }

  /** The alarms the walk calls, in order. */
  function WalkCalls(s: Spot, n: nat, plan: seq<Callback>): seq<Alarm>
    decreases |s.ahead|
  {
    if s.ahead == [] then []
    else
      (if Fires(s.ahead[0], n) then [s.ahead[0].alarm] else [])
      + WalkCalls(Visit(s, First(plan), n), n, Left(s, n, plan))
  }

  function ParkVisit(parked: set<Alarm>, s: Spot, call: Callback, n: nat): set<Alarm>
    requires s.ahead != []
  {
    var e := s.ahead[0];
    if !Fires(e, n) then parked
    else ParkAll(if call.period == 0 then parked + {e.alarm} else parked, call.actions)
  }

  function WalkParked(parked: set<Alarm>, s: Spot, n: nat, plan: seq<Callback>): set<Alarm>
    decreases |s.ahead|
  {
    if s.ahead == [] then parked
    else WalkParked(ParkVisit(parked, s, First(plan), n), Visit(s, First(plan), n), n, Left(s, n, plan))
  }

  /** The list that a callback finds. */
  function AtCall(s: Spot, n: nat): Spot
    requires s.ahead != []
  {
    Spot(s.past + [Reached(s.ahead[0], n)], s.ahead[1..])
  }

  ghost predicate LegalVisit(parked: set<Alarm>, s: Spot, call: Callback, n: nat)
    requires s.ahead != []
  {
    Fires(s.ahead[0], n) ==> LegalAll(AtCall(s, n), parked, call.actions, s.ahead[0].alarm, n)
  }

  /** No callback does what it may not, and none stops the alarm that the walk has saved as
      the next one. */
  ghost predicate LegalWalk(parked: set<Alarm>, s: Spot, n: nat, plan: seq<Callback>)
    decreases |s.ahead|
  {
    s.ahead != [] ==>
      && LegalVisit(parked, s, First(plan), n)
      && (Fires(s.ahead[0], n) ==> SparesNext(AtCall(s, n), First(plan).actions))
      && LegalWalk(ParkVisit(parked, s, First(plan), n), Visit(s, First(plan), n), n, Left(s, n, plan))
  }

  /** The list after tick number `n`, and the alarms it calls. */
  function After(list: seq<Entry>, n: nat, plan: seq<Callback>): seq<Entry> {
    WalkList(Spot([], list), n, plan)
  }

  function Called(list: seq<Entry>, n: nat, plan: seq<Callback>): seq<Alarm> {
    WalkCalls(Spot([], list), n, plan)
  }

  // ---------------------------------------------------------------- the order of the code

  /** What becomes of the entries of an alarm whose callback has returned `period`. */
  function Resched(list: seq<Entry>, a: Alarm, period: U32, n: nat): seq<Entry> {
    if list == [] then []
    else
      var rest := Resched(list[1..], a, period, n);
      if list[0].alarm != a then [list[0]] + rest
      else if period == 0 then rest
      else [Later(list[0], period, n)] + rest
  }

  lemma {:induction false} ReschedAdd(x: seq<Entry>, y: seq<Entry>, a: Alarm, period: U32, n: nat)
    ensures Resched(x + y, a, period, n) == Resched(x, a, period, n) + Resched(y, a, period, n)
  {
    hide Later;
    if x == [] {
      assert x + y == y;
    } else {
      ReschedAdd(x[1..], y, a, period, n);
      assert (x + y)[1..] == x[1..] + y && (x + y)[0] == x[0];
      var e := if x[0].alarm != a then x[0] else Later(x[0], period, n);
      var p, q := Resched(x[1..], a, period, n), Resched(y, a, period, n);
      assert [e] + (p + q) == [e] + p + q;
    }
  }

  lemma {:induction false} ReschedNothing(list: seq<Entry>, a: Alarm, period: U32, n: nat)
    requires !Lists(list, a)
    ensures Resched(list, a, period, n) == list
  {
    if list != [] {
      assert list[0].alarm != a;
      forall i | 0 <= i < |list[1..]| ensures list[1..][i].alarm != a {
        assert list[i + 1].alarm != a;
      }
      ReschedNothing(list[1..], a, period, n);
    }
  }

  /** An alarm that is listed once is rescheduled where it is. */
  lemma {:induction false} ReschedAt(list: seq<Entry>, k: nat, period: U32, n: nat)
    requires k < |list| && AlarmsDistinct(list)
    ensures Resched(list, list[k].alarm, period, n) ==
            list[..k] + (if period == 0 then [] else [Later(list[k], period, n)]) + list[k + 1..]
  {
    hide Later;
    if k == 0 {
      ReschedNothing(list[1..], list[0].alarm, period, n);
    } else {
      ReschedAt(list[1..], k - 1, period, n);
    }
  }

  lemma {:induction false} ReschedByZero(list: seq<Entry>, a: Alarm, n: nat)
    ensures Resched(list, a, 0, n) == Drop(list, a)
  {
    if list != [] {
      ReschedByZero(list[1..], a, n);
    }
  }

  lemma {:induction false} ReschedDrop(list: seq<Entry>, a: Alarm, period: U32, n: nat, b: Alarm)
    ensures Drop(Resched(list, a, period, n), b) == Resched(Drop(list, b), a, period, n)
  {
    if list != [] {
      ReschedDrop(list[1..], a, period, n, b);
      ReschedAdd([list[0]], Drop(list[1..], b), a, period, n);
      DropAdd(Resched([list[0]], a, period, n), Resched(list[1..], a, period, n), b);
      assert Resched([list[0]], a, period, n) + Resched(list[1..], a, period, n) == Resched(list, a, period, n);
    }
  }

  /** The period is applied when the callback has returned; that gives what it would have
      given if applied before. */
  lemma {:induction false} ReschedAfterActs(s: Spot, a: Alarm, period: U32, n: nat, acts: seq<Action>)
    requires forall act :: act in acts && act.Begin? ==> act.alarm != a
    ensures var t := ActAll(s, acts, n);
            ActAll(Spot(Resched(s.past, a, period, n), s.ahead), acts, n) == Spot(Resched(t.past, a, period, n), t.ahead)
    decreases |acts|
  {
    if acts != [] {
      var act := acts[0];
      assert act in acts;
      match act {
        case Begin(b, nticks) =>
          ReschedAdd([Started(b, nticks, n)], s.past, a, period, n);
          assert Resched([Started(b, nticks, n)], a, period, n) == [Started(b, nticks, n)];
        case End(b) => ReschedDrop(s.past, a, period, n, b);
      }
      ReschedAfterActs(Act(s, act, n), a, period, n, acts[1..]);
    }
  }

  lemma {:induction false} ParkAfterActs(parked: set<Alarm>, a: Alarm, acts: seq<Action>)
    requires forall act :: act in acts && act.Begin? ==> act.alarm != a
    ensures ParkAll(parked + {a}, acts) == ParkAll(parked, acts) + {a}
    decreases |acts|
  {
    if acts != [] {
      assert acts[0] in acts;
      assert Park(parked + {a}, acts[0]) == Park(parked, acts[0]) + {a};
      ParkAfterActs(Park(parked, acts[0]), a, acts[1..]);
    }
  }

  lemma {:induction false} LegalActsSpareSelf(s: Spot, parked: set<Alarm>, acts: seq<Action>, self: Alarm, n: nat)
    requires LegalAll(s, parked, acts, self, n)
    ensures forall act :: act in acts && act.Begin? ==> act.alarm != self
    decreases |acts|
  {
    if acts != [] {
      LegalActsSpareSelf(Act(s, acts[0], n), Park(parked, acts[0]), acts[1..], self, n);
    }
  }

  /** So a turn is the callback's actions, with the alarm still registered, and then what
      its period says. */
  lemma VisitInOrder(s: Spot, parked: set<Alarm>, call: Callback, n: nat)
    requires s.ahead != [] && Fires(s.ahead[0], n) && !Lists(s.past, s.ahead[0].alarm) && LegalVisit(parked, s, call, n)
    ensures var a := s.ahead[0].alarm;
            var t := ActAll(AtCall(s, n), call.actions, n);
            && Visit(s, call, n) == Spot(Resched(t.past, a, call.period, n), t.ahead)
            && ParkVisit(parked, s, call, n) == ParkAll(parked, call.actions) + if call.period == 0 then {a} else {}
  {
    var e := s.ahead[0];
    var t := AtCall(s, n);
    LegalActsSpareSelf(t, parked, call.actions, e.alarm, n);
    ReschedAdd(s.past, [Reached(e, n)], e.alarm, call.period, n);
    ReschedNothing(s.past, e.alarm, call.period, n);
    assert Resched([Reached(e, n)], e.alarm, call.period, n) == Stay(e, call.period, n);
    ReschedAfterActs(t, e.alarm, call.period, n, call.actions);
    ParkAfterActs(parked, e.alarm, call.actions);
  }
}
