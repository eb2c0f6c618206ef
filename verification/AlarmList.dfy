/** The list of registered alarms: a circular doubly linked list threaded through the
    alarms themselves, edited by the tick routine while it walks along it. */
module AlarmList {
  import opened AlarmTime
  import opened AlarmPlan
  import opened AlarmRuns
  import opened AlarmWalks
  import opened Words

  datatype Status = Success | InvalidAlarm | NoClock

  /** The nodes form one circle, with `next` and `previous` inverse to each other. */
  ghost predicate Linked(nodes: seq<Alarm>)
    reads nodes`next, nodes`previous
  {
    && nodes != [] && Distinct(nodes)
    && (forall i {:trigger nodes[i].next} :: 0 <= i < |nodes| - 1 ==> nodes[i].next == nodes[i + 1])
    && nodes[|nodes| - 1].next == nodes[0]
    && (forall i {:trigger nodes[i].previous} :: 0 < i < |nodes| ==> nodes[i].previous == nodes[i - 1])
    && nodes[0].previous == nodes[|nodes| - 1]
  }

  /** `alt_llist_insert` */
  method Insert(list: Alarm, entry: Alarm, ghost nodes: seq<Alarm>)
    requires Linked(nodes) && nodes[0] == list && entry !in nodes
    modifies entry`next, entry`previous, nodes`next, nodes`previous
    ensures Linked([list, entry] + nodes[1..])
  {
    entry.previous := list;
    entry.next := list.next;
    list.next.previous := entry;
    list.next := entry;
    ghost var after := [list, entry] + nodes[1..];
    assert |nodes| > 1 ==> after[2] == nodes[1];
    forall i | 2 <= i < |after| ensures after[i] == nodes[i - 1] && after[i] != entry {
    }
    assert Distinct(after);
  }

  /** `alt_llist_remove`, of the entry at position `k` of the circle or, when `k` is past
      its end, of an entry removed before, which changes nothing. */
  method Remove(entry: Alarm, ghost nodes: seq<Alarm>, ghost k: nat)
    requires Linked(nodes) && 0 < k
    requires if k < |nodes| then nodes[k] == entry else entry !in nodes && entry.next == entry == entry.previous
    modifies nodes`next, nodes`previous, entry`next, entry`previous
    ensures entry.next == entry == entry.previous
    ensures k < |nodes| ==> Linked(nodes[..k] + nodes[k + 1..])
    ensures |nodes| <= k ==> unchanged(nodes) && unchanged(entry)
  {
    entry.next.previous := entry.previous;
    entry.previous.next := entry.next;
    entry.previous := entry;
    entry.next := entry;
  }

  /** The fields of the alarms are as the entries say. */
  ghost predicate Shows(list: seq<Alarm>, entries: seq<Entry>)
    reads list`time, list`rollover, list`due, list`exact
  {
    |entries| == |list| && forall i :: 0 <= i < |list| ==> entries[i] == list[i].AsEntry()
  }

  lemma ShowsAdded(alarm: Alarm, list: seq<Alarm>, entries: seq<Entry>)
    requires Shows(list, entries)
    ensures Shows([alarm] + list, [alarm.AsEntry()] + entries)
  {
  }

  lemma ShowsCut(list: seq<Alarm>, entries: seq<Entry>, k: nat)
    requires k < |list| && Shows(list, entries)
    ensures Shows(list[..k] + list[k + 1..], entries[..k] + entries[k + 1..])
  {
  }

  lemma ShowsSet(list: seq<Alarm>, entries: seq<Entry>, k: nat)
    requires k < |list| == |entries|
    requires forall i :: 0 <= i < |list| && i != k ==> entries[i] == list[i].AsEntry()
    ensures Shows(list, entries[..k] + [list[k].AsEntry()] + entries[k + 1..])
  {
  }

  lemma ListsListed(list: seq<Alarm>, entries: seq<Entry>, a: Alarm)
    requires Shows(list, entries)
    ensures Lists(entries, a) <==> a in list
  {
    if Lists(entries, a) {
      var i :| 0 <= i < |entries| && entries[i].alarm == a;
      assert list[i] == a;
    }
    if a in list {
      var i :| 0 <= i < |list| && list[i] == a;
      assert entries[i].alarm == a;
    }
  }

  /** Alarms that have been stopped point to themselves. */
  ghost predicate Parked(parked: set<Alarm>, nodes: seq<Alarm>)
    reads parked`next, parked`previous
  {
    forall a :: a in parked ==> a.next == a == a.previous && a !in nodes
  }

  /** The alarms that callbacks start and stop. */
  ghost predicate ActsOn(acts: seq<Action>, alarms: set<Alarm>) {
    forall act :: act in acts ==> act.alarm in alarms
  }

  ghost predicate PlanOn(plan: seq<Callback>, alarms: set<Alarm>) {
    forall call :: call in plan ==> ActsOn(call.actions, alarms)
  }

  lemma FirstIsOn(plan: seq<Callback>, alarms: set<Alarm>)
    requires PlanOn(plan, alarms)
    ensures ActsOn(First(plan).actions, alarms) && PlanOn(Rest(plan), alarms)
  {
    assert plan != [] ==> plan[0] in plan;
  }

  class Scheduler {
    const head: Alarm
    var nticks: U32
    var tickRate: U32
    ghost var ticks: nat
    ghost var listed: seq<Alarm>
    ghost var entries: seq<Entry>
    ghost var parked: set<Alarm>

    ghost function Nodes(): seq<Alarm>
      reads this
    {
      [head] + listed
    }

    /** A set of alarms that has all those registered now or before. */
    ghost predicate Has(alarms: set<Alarm>)
      reads this
    {
      head !in alarms && parked <= alarms && forall a :: a in listed ==> a in alarms
    }

    /** What holds at every step of every operation. */
    ghost predicate Sound()
      reads this, head, listed, parked
    {
      Linked(Nodes()) && Shows(listed, entries) && Parked(parked, Nodes()) && nticks == Counter(ticks)
    }

    ghost predicate Valid()
      reads this, head, listed, parked
    {
      Sound() && Punctual(entries, ticks)
    }

    constructor (rate: U32)
      ensures Valid() && listed == [] && entries == [] && parked == {} && ticks == 0 && tickRate == rate && fresh(head)
    {
      head := new Alarm();
      nticks, tickRate, ticks, listed, entries, parked := 0, rate, 0, [], [], {};
      new;
      head.next, head.previous := head, head;
    }

    lemma EachOnce()
      requires Sound()
      ensures AlarmsDistinct(entries) && Distinct(listed) && head !in listed
    {
      assert forall i :: 0 <= i < |listed| ==> Nodes()[i + 1] == listed[i];
    }

    lemma NextOf(k: nat)
      requires Sound() && k < |Nodes()|
      ensures Nodes()[k].next == if k < |listed| then listed[k] else head
    {
      assert k + 1 < |Nodes()| ==> Nodes()[k].next == Nodes()[k + 1];
    }

    lemma StillPunctual(act: Action)
      ensures Punctual(entries, ticks) ==> Punctual(Act(Spot(entries, []), act, ticks).past, ticks)
    {
      if Punctual(entries, ticks) {
        ActIsPunctual(Spot(entries, []), act, ticks, ticks);
      }
    }

    /** `alt_alarm_start`, on an alarm that is not registered. */
    method Start(alarm: Alarm?, n: U32, ghost alarms: set<Alarm>) returns (status: Status)
      requires Sound() && Has(alarms) && (alarm != null ==> alarm in alarms && alarm !in listed)
      modifies this`listed, this`entries, this`parked, head`next, head`previous, alarms`next, alarms`previous, alarm
      ensures Sound() && Has(alarms) && (old(Valid()) ==> Valid())
      ensures status == if tickRate == 0 then NoClock else if alarm == null then InvalidAlarm else Success
      ensures status == Success ==>
                && listed == [alarm] + old(listed) && entries == [Started(alarm, n, ticks)] + old(entries)
                && parked == old(parked) - {alarm}
      ensures status != Success ==>
                && unchanged(this) && unchanged(head) && unchanged(alarms) && (alarm != null ==> unchanged(alarm))
    {
      hide Linked, Parked, Punctual;
      if tickRate != 0 {
        if alarm != null {
          StillPunctual(Begin(alarm, n));
          var now := nticks;
          alarm.time := (n + now + 1) % EPOCH;
          if alarm.time < now {
            alarm.rollover := true;
          } else {
            alarm.rollover := false;
          }
          alarm.due, alarm.exact := ticks + n + 1, n < EPOCH - 1;
          Register(alarm, alarms);
          status := Success;
        } else {
          status := InvalidAlarm;
        }
      } else {
        status := NoClock;
      }
    }

    method Register(alarm: Alarm, ghost alarms: set<Alarm>)
      requires Sound() && Has(alarms) && alarm in alarms && alarm !in listed
      modifies this`listed, this`entries, this`parked, head`next, head`previous, alarms`next, alarms`previous
      ensures Sound() && Has(alarms)
      ensures listed == [alarm] + old(listed) && entries == [alarm.AsEntry()] + old(entries)
      ensures parked == old(parked) - {alarm}
    {
      hide Linked, Shows;
      Insert(head, alarm, Nodes());
      assert [head, alarm] + Nodes()[1..] == [head] + ([alarm] + listed);
      ShowsAdded(alarm, listed, entries);
      listed := [alarm] + listed;
      entries := [alarm.AsEntry()] + entries;
      parked := parked - {alarm};
    }

    /** The position of an alarm in the list, or its end when it is not there. */
    lemma PlaceOf(alarm: Alarm) returns (k: nat)
      requires Sound()
      ensures k <= |listed| == |entries|
      ensures if alarm in listed then k < |listed| && listed[k] == alarm else k == |listed|
      ensures k < |listed| ==> alarm != head && alarm !in listed[..k] + listed[k + 1..]
      ensures k < |entries| ==> entries[k].alarm == alarm
      ensures Drop(entries, alarm) == if k < |entries| then entries[..k] + entries[k + 1..] else entries
    {
      hide Linked;
      EachOnce();
      ListsListed(listed, entries, alarm);
      if alarm in listed {
        k :| 0 <= k < |listed| && listed[k] == alarm;
        DropAt(entries, k);
      } else {
        k := |listed|;
        DropNothing(entries, alarm);
      }
    }

    method Unregister(alarm: Alarm, ghost alarms: set<Alarm>)
      requires Sound() && Has(alarms) && (alarm in listed || alarm in parked)
      modifies this`listed, this`entries, this`parked, head`next, head`previous, alarms`next, alarms`previous
      ensures Sound() && Has(alarms)
      ensures entries == Drop(old(entries), alarm) && parked == old(parked) + {alarm}
      ensures forall a :: a in listed <==> a in old(listed) && a != alarm
      ensures alarm in old(parked) ==> unchanged(this) && unchanged(head) && unchanged(alarms)
    {
      hide Linked, Shows, Drop;
      ghost var k := PlaceOf(alarm);
      ghost var nodes := Nodes();
      assert k < |listed| ==> nodes[k + 1] == alarm;
      Remove(alarm, nodes, k + 1);
      if k < |listed| {
        ShowsCut(listed, entries, k);
        assert [head] + (listed[..k] + listed[k + 1..]) == nodes[..k + 1] + nodes[k + 2..];
        listed, entries := listed[..k] + listed[k + 1..], entries[..k] + entries[k + 1..];
        parked := parked + {alarm};
      }
    }

    /** `alt_alarm_stop`, of an alarm that is registered or has been stopped before. */
    method Stop(alarm: Alarm, ghost alarms: set<Alarm>)
      requires Sound() && Has(alarms) && (alarm in listed || alarm in parked)
      modifies this`listed, this`entries, this`parked, head`next, head`previous, alarms`next, alarms`previous
      ensures Sound() && Has(alarms) && (old(Valid()) ==> Valid())
      ensures entries == Drop(old(entries), alarm) && parked == old(parked) + {alarm}
      ensures forall a :: a in listed <==> a in old(listed) && a != alarm
      ensures alarm in old(parked) ==> unchanged(this) && unchanged(head) && unchanged(alarms)
    {
      hide Sound, Punctual, Drop;
      StillPunctual(End(alarm));
      Unregister(alarm, alarms);
    }

    /** One action of a callback, made while the list is walked. */
    method Do(act: Action, ghost s: Spot, ghost self: Alarm, ghost alarms: set<Alarm>)
      requires Sound() && Has(alarms) && tickRate != 0 && act.alarm in alarms
      requires entries == s.past + s.ahead && Legal(s, parked, act, self)
      modifies this`listed, this`entries, this`parked, head`next, head`previous, alarms
      ensures Sound() && Has(alarms)
      ensures var t := Act(s, act, ticks); entries == t.past + t.ahead
      ensures parked == Park(old(parked), act) && self.AsEntry() == old(self.AsEntry())
    {
      hide Linked, Shows, Drop, Lists;
      ListsListed(listed, entries, act.alarm);
      ListsAdd(s.past, s.ahead, act.alarm);
      match act {
        case Begin(alarm, n) =>
          var status := Start(alarm, n, alarms);
          assert [Started(alarm, n, ticks)] + (s.past + s.ahead) == [Started(alarm, n, ticks)] + s.past + s.ahead;
        case End(alarm) =>
          DropAdd(s.past, s.ahead, alarm);
          Stop(alarm, alarms);
      }
    }

    method DoAll(acts: seq<Action>, ghost s: Spot, ghost self: Alarm, ghost alarms: set<Alarm>)
      requires Sound() && Has(alarms) && tickRate != 0 && ActsOn(acts, alarms)
      requires entries == s.past + s.ahead && LegalAll(s, parked, acts, self, ticks)
      modifies this`listed, this`entries, this`parked, head`next, head`previous, alarms
      ensures Sound() && Has(alarms)
      ensures var t := ActAll(s, acts, ticks); entries == t.past + t.ahead
      ensures parked == ParkAll(old(parked), acts) && self.AsEntry() == old(self.AsEntry())
      decreases |acts|
    {
      hide Linked, Shows, Act, Park, Legal;
      if acts != [] {
        assert acts[0] in acts;
        Do(acts[0], s, self, alarms);
        DoAll(acts[1..], Act(s, acts[0], ticks), self, alarms);
      }
    }

    /** What `alt_tick` does with the period returned by the callback of an alarm, which the
        callback may have stopped. */
    method Reschedule(alarm: Alarm, period: U32, ghost alarms: set<Alarm>)
      requires Sound() && Has(alarms) && (alarm in listed || alarm in parked)
      modifies this`listed, this`entries, this`parked, head`next, head`previous, alarms`next, alarms`previous, alarm
      ensures Sound() && Has(alarms)
      ensures entries == Resched(old(entries), alarm, period, ticks)
      ensures parked == old(parked) + if period == 0 then {alarm} else {}
      ensures alarm.AsEntry() == if period == 0 then old(alarm.AsEntry()) else Later(old(alarm.AsEntry()), period, ticks)
    {
      hide Linked, Shows, Resched, Drop, Later;
      if period == 0 {
        ReschedByZero(entries, alarm, ticks);
        Stop(alarm, alarms);
      } else {
        Advance(alarm, period);
      }
    }

    method Postpone(alarm: Alarm, period: U32)
      requires nticks == Counter(ticks)
      modifies alarm`time, alarm`rollover, alarm`due
      ensures alarm.AsEntry() == Later(old(alarm.AsEntry()), period, ticks)
    {
      alarm.time := (alarm.time + period) % EPOCH;
      if alarm.time < nticks {
        alarm.rollover := true;
      }
      alarm.due := alarm.due + period;
    }

    method Advance(alarm: Alarm, period: U32)
      requires Sound() && (alarm in listed || alarm in parked) && 0 < period
      modifies this`entries, alarm`time, alarm`rollover, alarm`due
      ensures Sound() && entries == Resched(old(entries), alarm, period, ticks)
      ensures alarm.AsEntry() == Later(old(alarm.AsEntry()), period, ticks)
    {
      hide Linked, Resched, Drop, AlarmsDistinct, Lists, Later;
      EachOnce();
      ghost var k := PlaceOf(alarm);
      Postpone(alarm, period);
      if k < |listed| {
        ReschedAt(entries, k, period, ticks);
        ShowsSet(listed, entries, k);
        entries := entries[..k] + [alarm.AsEntry()] + entries[k + 1..];
      } else {
        ListsListed(listed, entries, alarm);
        ReschedNothing(entries, alarm, period, ticks);
      }
    }

    /** Upon the counter rolling over, the rollover flag is cleared. */
    method Touch(alarm: Alarm, ghost s: Spot)
      requires Sound() && entries == s.past + s.ahead && s.ahead != [] && s.ahead[0].alarm == alarm
      modifies this`entries, alarm`rollover
      ensures Sound() && alarm.AsEntry() == Reached(s.ahead[0], ticks)
      ensures entries == AtCall(s, ticks).past + AtCall(s, ticks).ahead
    {
      hide Linked;
      EachOnce();
      ghost var k: nat := |s.past|;
      assert entries[k] == listed[k].AsEntry() == s.ahead[0];
      if alarm.rollover && nticks == 0 {
        alarm.rollover := false;
      }
      ShowsSet(listed, entries, k);
      entries := entries[..k] + [alarm.AsEntry()] + entries[k + 1..];
    }

    /** The loop of `alt_tick` has come to `alarm`. */
    ghost predicate At(s: Spot, alarm: Alarm)
      reads this
    {
      entries == s.past + s.ahead && alarm == if s.ahead == [] then head else s.ahead[0].alarm
    }

    lemma Following(s: Spot)
      requires Sound() && entries == s.past + s.ahead && s.ahead != []
      ensures s.ahead[0].alarm.next == (if |s.ahead| == 1 then head else s.ahead[1].alarm)
      ensures s.ahead[0].alarm in listed && (|s.ahead| > 1 ==> s.ahead[1].alarm in listed)
    {
      var k := |s.past|;
      assert entries[k] == s.ahead[0] && (|s.ahead| > 1 ==> entries[k + 1] == s.ahead[1]);
      assert Nodes()[k + 1] == listed[k] == s.ahead[0].alarm;
      NextOf(k + 1);
    }

    /** One turn of the loop of `alt_tick`. */
    method Turn(alarm: Alarm, call: Callback, ghost s: Spot, ghost alarms: set<Alarm>)
      returns (next: Alarm, expired: bool)
      requires Sound() && Has(alarms) && tickRate != 0 && At(s, alarm) && s.ahead != []
      requires ActsOn(call.actions, alarms) && LegalVisit(parked, s, call, ticks)
      modifies this`listed, this`entries, this`parked, head`next, head`previous, alarms
      ensures Sound() && Has(alarms) && expired == Fires(s.ahead[0], ticks)
      ensures var t := Visit(s, call, ticks); entries == t.past + t.ahead
      ensures parked == ParkVisit(old(parked), s, call, ticks)
      ensures next == if |s.ahead| == 1 then head else s.ahead[1].alarm
      ensures (next == head <==> |s.ahead| == 1) && (next == head || next in listed <==> next !in parked)
    {
      hide Linked, Shows, LegalAll, ActAll, ParkAll, Resched, Lists, AlarmsDistinct;
      EachOnce();
      Following(s);
      next := alarm.next;
      Touch(alarm, s);
      expired := alarm.time <= nticks && !alarm.rollover;
      if expired {
        CallCompletesVisit(s, parked, call, ticks);
        DoAll(call.actions, AtCall(s, ticks), alarm, alarms);
        ListsListed(listed, entries, alarm);
        Reschedule(alarm, call.period, alarms);
      }
      NextIsKnown(old(parked), s, call, next);
    }

    /** The alarm saved as the next one is still registered or has been stopped. */
    lemma NextIsKnown(gone: set<Alarm>, s: Spot, call: Callback, next: Alarm)
      requires Sound() && s.ahead != [] && next == (if |s.ahead| == 1 then head else s.ahead[1].alarm)
      requires var t := Visit(s, call, ticks); entries == t.past + t.ahead
      requires parked == ParkVisit(gone, s, call, ticks)
      ensures next == head || next in listed <==> next !in parked
    {
      hide Linked, Shows, Visit, ParkVisit, Lists;
      assert forall a :: a in parked ==> a !in Nodes();
      if |s.ahead| > 1 {
        ListsMember(s.ahead, 1);
        VisitAccounts(s, gone, call, ticks, next);
        var t := Visit(s, call, ticks);
        ListsAdd(t.past, t.ahead, next);
        ListsListed(listed, entries, next);
      }
    }

    /** One turn of the loop at an alarm that has been stopped: it is the next one, too, and
        is called like any other. */
    method LostTurn(alarm: Alarm, call: Callback, ghost alarms: set<Alarm>) returns (next: Alarm, expired: bool)
      requires Sound() && Has(alarms) && tickRate != 0 && alarm in parked && ActsOn(call.actions, alarms)
      requires Fires(alarm.AsEntry(), ticks) ==> LegalAll(Spot(entries, []), parked, call.actions, alarm, ticks)
      modifies this`listed, this`entries, this`parked, head`next, head`previous, alarms
      ensures Sound() && Has(alarms) && next == alarm && alarm in parked
      ensures expired == Fires(old(alarm.AsEntry()), ticks)
      ensures alarm.AsEntry() == Stayed(old(alarm.AsEntry()), call.period, ticks)
      ensures entries == if expired then ActAll(Spot(old(entries), []), call.actions, ticks).past else old(entries)
      ensures parked == if expired then ParkAll(old(parked), call.actions) else old(parked)
    {
      hide Linked, Shows, LegalAll, ActAll, ParkAll, Resched, Lists;
      next := alarm.next;
      ClearRollover(alarm);
      expired := alarm.time <= nticks && !alarm.rollover;
      if expired {
        LegalActsSpareSelf(Spot(entries, []), parked, call.actions, alarm, ticks);
        ParkStays(parked, call.actions, alarm);
        DoAll(call.actions, Spot(entries, []), alarm, alarms);
        NothingAhead(old(entries), call.actions);
        ListsListed(listed, entries, alarm);
        ReschedNothing(entries, alarm, call.period, ticks);
        Reschedule(alarm, call.period, alarms);
      }
    }

    lemma NothingAhead(list: seq<Entry>, acts: seq<Action>)
      ensures var t := ActAll(Spot(list, []), acts, ticks); t.ahead == [] && t.past + t.ahead == t.past
    {
    }

    method ClearRollover(alarm: Alarm)
      requires Sound() && alarm in parked
      modifies alarm`rollover
      ensures Sound() && alarm.AsEntry() == Reached(old(alarm.AsEntry()), ticks)
    {
      hide Linked;
      if alarm.rollover && nticks == 0 {
        alarm.rollover := false;
      }
    }

    /** Any number of turns from an alarm that has been stopped: the loop of `alt_tick` is
        still at that alarm. */
    method Stuck(alarm: Alarm, turns: nat, plan: seq<Callback>, ghost alarms: set<Alarm>) returns (here: Alarm)
      requires Sound() && Has(alarms) && tickRate != 0 && alarm in parked && PlanOn(plan, alarms)
      requires LegalStay(alarm.AsEntry(), entries, parked, ticks, turns, plan)
      modifies this`listed, this`entries, this`parked, head`next, head`previous, alarms
      ensures Sound() && Has(alarms) && here == alarm && here in parked && here != head
    {
      hide Linked, Shows, PlanOn, Fires, LegalAll, Stayed, Reached;
      here := alarm;
      var todo := plan;
      for i := 0 to turns
        invariant Sound() && Has(alarms) && here == alarm && alarm in parked && PlanOn(todo, alarms)
        invariant LegalStay(alarm.AsEntry(), entries, parked, ticks, turns - i, todo)
      {
        FirstIsOn(todo, alarms);
        ghost var was := alarm.AsEntry();
        var expired: bool;
        here, expired := LostTurn(here, First(todo), alarms);
        if expired {
          todo := Rest(todo);
        } else {
          StayedQuiet(was, First(todo).period);
          QuietStay(was, entries, parked, ticks, turns - i - 1, todo);
        }
      }
    }

    lemma StayedQuiet(e: Entry, period: U32)
      requires !Fires(e, ticks)
      ensures Stayed(e, period, ticks) == Reached(e, ticks)
    {
    }

    lemma AtNext(s: Spot, call: Callback, next: Alarm)
      requires s.ahead != [] && next == (if |s.ahead| == 1 then head else s.ahead[1].alarm)
      requires var t := Visit(s, call, ticks); entries == t.past + t.ahead
      requires !Loses(s, call, ticks)
      ensures At(Onward(s, call, ticks), next)
    {
      hide Fires;
      var t := Visit(s, call, ticks);
      if Strays(s, call, ticks) {
        IndexOfListed(entries, next);
      } else if Fires(s.ahead[0], ticks) {
        NextStays(Spot(s.past + Stay(s.ahead[0], call.period, ticks), s.ahead[1..]), call.actions, ticks);
      }
    }

    /** A registered alarm does not point to itself. */
    lemma NotItsOwnNext(alarm: Alarm)
      requires Sound() && alarm in listed
      ensures alarm.next != alarm
    {
      EachOnce();
      var k :| 0 <= k < |listed| && listed[k] == alarm;
      assert Nodes()[k + 1] == alarm;
      NextOf(k + 1);
    }

    /** The walk is lost exactly when the alarm saved as the next one has been stopped. */
    lemma LostIfParked(s: Spot, call: Callback, next: Alarm)
      requires Sound() && s.ahead != [] && next == (if |s.ahead| == 1 then head else s.ahead[1].alarm)
      requires var t := Visit(s, call, ticks); entries == t.past + t.ahead
      requires (next == head <==> |s.ahead| == 1) && (next == head || next in listed <==> next !in parked)
      ensures Loses(s, call, ticks) <==> next in parked
      ensures next != head ==> (next.next == next <==> next in parked)
    {
      hide Linked, Shows, Visit, Fires;
      ListsListed(listed, entries, next);
      assert AtCall(s, ticks).ahead == s.ahead[1..];
      if |s.ahead| > 1 && !Strays(s, call, ticks) {
        SparedIsListed(s, call, next);
      }
      if next in listed {
        NotItsOwnNext(next);
      }
    }

    lemma SparedIsListed(s: Spot, call: Callback, next: Alarm)
      requires Sound() && |s.ahead| > 1 && next == s.ahead[1].alarm && !Strays(s, call, ticks)
      requires var t := Visit(s, call, ticks); entries == t.past + t.ahead
      ensures next in listed
    {
      var t := Visit(s, call, ticks);
      if Fires(s.ahead[0], ticks) {
        NextStays(Spot(s.past + Stay(s.ahead[0], call.period, ticks), s.ahead[1..]), call.actions, ticks);
      }
      assert entries[|t.past|] == t.ahead[0];
    }

    lemma AllListed()
      requires Sound()
      ensures forall a :: Lists(entries, a) <==> a in listed
    {
      forall a ensures Lists(entries, a) <==> a in listed {
        ListsListed(listed, entries, a);
      }
    }

    lemma Starting()
      requires Sound()
      ensures At(Spot([], entries), head.next)
    {
      NextOf(0);
    }

    /** The body of `alt_tick`, when the callbacks it makes act out `plan`, whatever they
        start and stop. `here` is where its loop ends, or the stopped alarm at which it does
        not end: there this returns, and `Stuck` tells what the code does. */
    method Walk(plan: seq<Callback>, ghost alarms: set<Alarm>) returns (here: Alarm, ghost called: seq<Alarm>)
      requires Sound() && Has(alarms) && tickRate != 0
      requires PlanOn(plan, alarms) && Permitted(parked, Spot([], entries), ticks + 1, plan)
      modifies this`listed, this`entries, this`parked, this`nticks, this`ticks, head`next, head`previous, alarms
      ensures Sound() && Has(alarms) && ticks == old(ticks) + 1
      ensures var j := Route(old(parked), Spot([], old(entries)), ticks, plan);
              && entries == j.list && parked == j.parked && called == j.calls
              && here == (if j.lost.None? then head else j.lost.value) && (here in parked <==> j.lost.Some?)
    {
      hide Linked, Shows, Parked, PlanOn, ActsOn, Midway, Permitted, Route, LegalVisit, SparesNext, Visit,
           ParkVisit, Fires, Loses, Onward;
      ghost var s, j := Spot([], entries), Route(parked, Spot([], entries), ticks + 1, plan);
      Starting();
      SetOut(parked, s, ticks + 1, plan);
      here := head.next;
      nticks := (nticks + 1) % EPOCH;
      ticks := ticks + 1;
      var todo, lost := plan, false;
      called := [];
      while here != head && !lost
        invariant Sound() && Has(alarms) && ticks == old(ticks) + 1 && PlanOn(todo, alarms)
        invariant if lost then here in parked && j == Journey(entries, parked, called, Some(here))
                  else At(s, here) && Midway(j, ticks, s, parked, todo, called)
        decreases !lost, |todo|, |s.ahead|
      {
        FirstIsOn(todo, alarms);
        GoOn(j, ticks, s, parked, todo, called);
        ghost var call, e := First(todo), s.ahead[0];
        OnwardIsShorter(s, ticks, todo);
        var expired: bool;
        here, expired := Turn(here, First(todo), s, alarms);
        LostIfParked(s, call, here);
        if expired {
          called := called + [e.alarm];
          todo := Rest(todo);
        }
        lost := here != head && here.next == here;
        if !lost {
          AtNext(s, call, here);
          s := Onward(s, call, ticks);
        }
      }
      if !lost {
        if s.ahead != [] {
          Following(s);
        }
        Arrive(j, ticks, s, parked, todo, called);
      }
    }

    /** `alt_tick`, when the callbacks it makes act out `plan` and none stops the alarm saved
        as the next one, and what it means. */
    method Tick(plan: seq<Callback>, ghost alarms: set<Alarm>) returns (ghost called: seq<Alarm>)
      requires Valid() && Has(alarms) && tickRate != 0
      requires PlanOn(plan, alarms) && LegalWalk(parked, Spot([], entries), ticks + 1, plan)
      modifies this`listed, this`entries, this`parked, this`nticks, this`ticks, head`next, head`previous, alarms
      ensures Valid() && Has(alarms) && ticks == old(ticks) + 1
      ensures entries == After(old(entries), ticks, plan) && called == Called(old(entries), ticks, plan)
      ensures parked == WalkParked(old(parked), Spot([], old(entries)), ticks, plan)
      ensures Distinct(called) && forall i :: 0 <= i < |called| ==> called[i] in old(listed)
      ensures forall e :: e in old(entries) && e.exact ==>
                (e.alarm in called <==> e.due == ticks && !StoppedAhead(Spot([], old(entries)), ticks, plan, e.alarm))
      ensures forall a :: a in old(listed) ==> a in listed || a in parked
    {
      hide Linked, Shows, Punctual, Parked, WalkList, WalkCalls, WalkParked, LegalWalk, PlanOn,
           StoppedAhead, Distinct, AlarmsDistinct, Lists, Permitted, Route;
      EachOnce();
      TickOutcome(entries, parked, ticks, plan);
      AllListed();
      ghost var calls := Called(entries, ticks + 1, plan);
      forall i | 0 <= i < |calls| ensures calls[i] in listed {
        ListsListed(listed, entries, calls[i]);
      }
      SparedRoute(parked, Spot([], entries), ticks + 1, plan);
      var here;
      here, called := Walk(plan, alarms);
      AllListed();
    }

    /** One step of a run: a tick, or what the foreground does between two of them. */
    method Perform(deed: Deed, ghost alarms: set<Alarm>)
      requires Valid() && Has(alarms) && tickRate != 0
      requires deed.Pass? ==> PlanOn(deed.plan, alarms) && LegalWalk(parked, Spot([], entries), ticks + 1, deed.plan)
      requires deed.Foreground? ==>
                 && deed.act.alarm in alarms
                 && if deed.act.Begin? then deed.act.alarm !in listed
                    else deed.act.alarm in listed || deed.act.alarm in parked
      modifies this`listed, this`entries, this`parked, this`nticks, this`ticks, head`next, head`previous, alarms
      ensures Valid() && Has(alarms)
      ensures entries == Done(old(entries), old(ticks), deed) && ticks == Now(old(ticks), deed)
    {
      hide Sound, Punctual, LegalWalk, PlanOn, After, Called, WalkParked, StoppedAhead;
      match deed {
        case Pass(plan) =>
          ghost var called := Tick(plan, alarms);
        case Foreground(Begin(alarm, n)) =>
          var status := Start(alarm, n, alarms);
        case Foreground(End(alarm)) =>
          Stop(alarm, alarms);
      }
    }
  }

  /** Two alarms, started on a new scheduler and due at its first tick. */
  method TwoStarted() returns (scheduler: Scheduler, a: Alarm, b: Alarm, ghost alarms: set<Alarm>)
    ensures scheduler.Sound() && scheduler.Has(alarms) && alarms == {a, b} && a != b
    ensures scheduler.tickRate != 0 && scheduler.ticks == 0 && scheduler.parked == {}
    ensures scheduler.entries == [Started(b, 0, 0), Started(a, 0, 0)]
    ensures fresh(scheduler) && fresh(scheduler.head) && fresh(alarms)
  {
    hide Punctual, Scheduler.Sound;
    scheduler := new Scheduler(1000);
    assert scheduler.Sound();
    hide Scheduler.Valid;
    a := new Alarm();
    b := new Alarm();
    alarms := {a, b};
    var status := scheduler.Start(a, 0, alarms);
    status := scheduler.Start(b, 0, alarms);
    assert scheduler.entries == [Started(b, 0, 0)] + [Started(a, 0, 0)] + [];
  }

  /** The walk of their first tick can be lost: the one called first stops the other. After
      any number of turns the loop is at that one. */
  method DerailedRun(turns: nat) returns (scheduler: Scheduler, here: Alarm)
    ensures scheduler.Sound() && scheduler.ticks == 1
    ensures here in scheduler.parked && here != scheduler.head
  {
    var a, b;
    ghost var alarms, called;
    scheduler, a, b, alarms := TwoStarted();
    hide Linked, Shows, Parked, Punctual, Permitted, Route, LegalStay, Fires;
    TwoAlarms(a, b);
    here, called := scheduler.Walk([Callback([End(a)], 0)], alarms);
    IdleStay(here.AsEntry(), scheduler.entries, scheduler.parked, 1, turns);
    here := scheduler.Stuck(here, turns, [], alarms);
  }
}
