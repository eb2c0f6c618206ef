/** The walk of a tick whatever its callbacks do, the alarm saved as the next one included:
    when that has been stopped the walk is lost, and when it has been started again the walk
    goes on from its new place. */
module AlarmWalks {
  import opened AlarmPlan
  import opened AlarmRuns
  import opened AlarmTime
  import opened Words

  // ---------------------------------------------------------------- one turn

  /** The position of an alarm in the list, or its end. */
  function IndexOf(list: seq<Entry>, a: Alarm): (k: nat)
    ensures k <= |list| && (k < |list| ==> list[k].alarm == a)
  {
    if list == [] || list[0].alarm == a then 0 else 1 + IndexOf(list[1..], a)
  }

  lemma {:induction false} IndexOfListed(list: seq<Entry>, a: Alarm)
    ensures IndexOf(list, a) < |list| <==> Lists(list, a)
  {
    if list != [] && list[0].alarm != a {
      IndexOfListed(list[1..], a);
      ListsAdd([list[0]], list[1..], a);
      assert list == [list[0]] + list[1..];
    }
  }

  /** The list with the walk at that alarm. */
  function Seek(list: seq<Entry>, a: Alarm): Spot {
    Spot(list[..IndexOf(list, a)], list[IndexOf(list, a)..])
  }

  /** The callback stops the alarm saved as the next one. */
  ghost predicate Strays(s: Spot, call: Callback, n: nat)
    requires s.ahead != []
  {
    Fires(s.ahead[0], n) && !SparesNext(AtCall(s, n), call.actions)
  }

  /** It has not started it again when it returns. */
  ghost predicate Loses(s: Spot, call: Callback, n: nat)
    requires s.ahead != []
  {
    Strays(s, call, n) && !Lists(Visit(s, call, n).past + Visit(s, call, n).ahead, s.ahead[1].alarm)
  }

  /** Where the walk is after one turn. */
  ghost function Onward(s: Spot, call: Callback, n: nat): Spot
    requires s.ahead != []
  {
    var t := Visit(s, call, n);
    if Strays(s, call, n) then Seek(t.past + t.ahead, s.ahead[1].alarm) else t
  }

  // ---------------------------------------------------------------- the whole walk

  /** What a walk comes to: the list, the stopped alarms, the calls made, and the alarm it
      is lost at, if it is. */
  datatype Journey = Journey(list: seq<Entry>, parked: set<Alarm>, calls: seq<Alarm>, lost: Option<Alarm>)

  /** A turn comes nearer to the end, or uses up a callback of the plan. */
  lemma OnwardIsShorter(s: Spot, n: nat, plan: seq<Callback>)
    requires s.ahead != []
    ensures |Left(s, n, plan)| <= |plan|
    ensures |Left(s, n, plan)| < |plan| || |Onward(s, First(plan), n).ahead| < |s.ahead|
  {
  }

  ghost function Route(parked: set<Alarm>, s: Spot, n: nat, plan: seq<Callback>): Journey
    decreases |plan|, |s.ahead|
  {
    if s.ahead == [] then Journey(s.past, parked, [], None)
    else
      var call := First(plan);
      var t, made := Visit(s, call, n), if Fires(s.ahead[0], n) then [s.ahead[0].alarm] else [];
      if Loses(s, call, n) then
        Journey(t.past + t.ahead, ParkVisit(parked, s, call, n), made, Some(s.ahead[1].alarm))
      else
        var j := Route(ParkVisit(parked, s, call, n), Onward(s, call, n), n, Left(s, n, plan));
        j.(calls := made + j.calls)
  }

  /** Every callback does only what it may. */
  ghost predicate Permitted(parked: set<Alarm>, s: Spot, n: nat, plan: seq<Callback>)
    decreases |plan|, |s.ahead|
  {
    s.ahead != [] ==>
      && LegalVisit(parked, s, First(plan), n)
      && (!Loses(s, First(plan), n) ==>
            Permitted(ParkVisit(parked, s, First(plan), n), Onward(s, First(plan), n), n, Left(s, n, plan)))
  }

  /** When no callback stops the alarm saved as the next one, the walk ends, with the list
      and the calls of `WalkList` and `WalkCalls`. */
  lemma {:induction false} SparedRoute(parked: set<Alarm>, s: Spot, n: nat, plan: seq<Callback>)
    requires LegalWalk(parked, s, n, plan)
    ensures Permitted(parked, s, n, plan)
    ensures Route(parked, s, n, plan) ==
            Journey(WalkList(s, n, plan), WalkParked(parked, s, n, plan), WalkCalls(s, n, plan), None)
    decreases |s.ahead|
  {
    hide Fires, LegalVisit, SparesNext, Visit, ParkVisit;
    if s.ahead != [] {
      SparedRoute(ParkVisit(parked, s, First(plan), n), Visit(s, First(plan), n), n, Left(s, n, plan));
    }
  }

  // ---------------------------------------------------------------- step by step

  /** A walk bound for `j` has come to `s`. */
  ghost predicate Midway(j: Journey, n: nat, s: Spot, parked: set<Alarm>, todo: seq<Callback>, called: seq<Alarm>) {
    && Permitted(parked, s, n, todo)
    && var rest := Route(parked, s, n, todo); j == rest.(calls := called + rest.calls)
  }

  lemma SetOut(parked: set<Alarm>, s: Spot, n: nat, plan: seq<Callback>)
    requires Permitted(parked, s, n, plan)
    ensures Midway(Route(parked, s, n, plan), n, s, parked, plan, [])
  {
  }

  lemma GoOn(j: Journey, n: nat, s: Spot, parked: set<Alarm>, todo: seq<Callback>, called: seq<Alarm>)
    requires Midway(j, n, s, parked, todo, called) && s.ahead != []
    ensures var call, head := First(todo), s.ahead[0];
            var t, p := Visit(s, call, n), ParkVisit(parked, s, call, n);
            var now := if Fires(head, n) then called + [head.alarm] else called;
            && LegalVisit(parked, s, call, n)
            && if Loses(s, call, n) then j == Journey(t.past + t.ahead, p, now, Some(s.ahead[1].alarm))
               else Midway(j, n, Onward(s, call, n), p, Left(s, n, todo), now)
  {
    hide Fires, LegalVisit, Loses, Visit, ParkVisit, Onward;
  }

  lemma Arrive(j: Journey, n: nat, s: Spot, parked: set<Alarm>, todo: seq<Callback>, called: seq<Alarm>)
    requires Midway(j, n, s, parked, todo, called) && s.ahead == []
    ensures j == Journey(s.past, parked, called, None)
  {
  }

  // ---------------------------------------------------------------- a lost walk

  /** What a turn leaves of the fields of a stopped alarm. */
  function Stayed(e: Entry, period: U32, n: nat): Entry {
    if Fires(e, n) && period != 0 then Later(Reached(e, n), period, n) else Reached(e, n)
  }

  /** The callback of a stopped alarm, which is called at every turn that finds it expired,
      does only what it may, for that many turns. */
  ghost predicate LegalStay(e: Entry, list: seq<Entry>, parked: set<Alarm>, n: nat, turns: nat, plan: seq<Callback>)
    decreases turns
  {
    0 < turns && Fires(e, n) ==>
      var call := First(plan);
      && LegalAll(Spot(list, []), parked, call.actions, e.alarm, n)
      && LegalStay(Stayed(e, call.period, n), ActAll(Spot(list, []), call.actions, n).past,
                   ParkAll(parked, call.actions), n, turns - 1, Rest(plan))
  }

  /** An alarm that nobody starts stays stopped. */
  lemma {:induction false} ParkStays(parked: set<Alarm>, acts: seq<Action>, a: Alarm)
    requires a in parked && forall act :: act in acts && act.Begin? ==> act.alarm != a
    ensures a in ParkAll(parked, acts)
    decreases |acts|
  {
    if acts != [] {
      assert acts[0] in acts;
      ParkStays(Park(parked, acts[0]), acts[1..], a);
    }
  }

  lemma QuietStay(e: Entry, list: seq<Entry>, parked: set<Alarm>, n: nat, turns: nat, plan: seq<Callback>)
    requires !Fires(e, n)
    ensures !Fires(Reached(e, n), n) && LegalStay(Reached(e, n), list, parked, n, turns, plan)
  {
  }

  /** With callbacks that only return zero. */
  lemma {:induction false} IdleStay(e: Entry, list: seq<Entry>, parked: set<Alarm>, n: nat, turns: nat)
    ensures LegalStay(e, list, parked, n, turns, [])
    decreases turns
  {
    if 0 < turns && Fires(e, n) {
      IdleStay(Stayed(e, 0, n), list, parked, n, turns - 1);
    }
  }

  /** Two alarms due at the first tick, of which the first one called stops the other. */
  lemma TwoAlarms(a: Alarm, b: Alarm)
    requires a != b
    ensures var list, plan := [Started(b, 0, 0), Started(a, 0, 0)], [Callback([End(a)], 0)];
            Permitted({}, Spot([], list), 1, plan) && Route({}, Spot([], list), 1, plan).lost == Some(a)
  {
    var list, call := [Started(b, 0, 0), Started(a, 0, 0)], Callback([End(a)], 0);
    var s := Spot([], list);
    assert Fires(list[0], 1);
    var at := AtCall(s, 1);
    assert at.ahead[0].alarm == a && End(a) in call.actions && call.actions[1..] == [];
    assert Lists(at.ahead, a);
    assert LegalAll(at, {}, call.actions, b, 1);
    assert Strays(s, call, 1);
    var t := Visit(s, call, 1);
    assert t == ActAll(Spot([], list[1..]), call.actions, 1) == Act(Spot([], list[1..]), End(a), 1);
    assert list[1..][1..] == [];
    assert t == Spot([], []);
  }
}
