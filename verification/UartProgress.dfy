/** A blocking write comes to its end: whatever else happens, it takes a bounded number of
    steps besides its looks at a full ring. */
module UartProgress {
  import opened UartRing
  import opened UartMachine
  import opened UartSafety

  /** The writer is looking at a full ring. */
  ghost predicate Waiting(s: State) {
    (s.writer.pc.WSpinOut? || s.writer.pc.WSpinHost?) && Full(s.tx)
  }

  /** A blocking write is in progress and the host is present. */
  ghost predicate AtWork(s: State) {
    Inv(s) && !s.writer.pc.WIdle? && !s.writer.nonblock && !Absent(s)
  }

  /** How far the writer is from its next byte; with a full ring it has to wait first. */
  ghost function Phase(w: Writer, full: bool): int {
    match w.pc
    case WIdle => 0
    case WLoadIn => if full || w.pos == |w.data| then 10 else 4
    case WLoadOut => if full then 9 else 3
    case WCopy => 2 - w.copied
    case WPublish => 2 - w.n
    case WKick => 8
    case WSpinOut => if full then 7 else 6
    case WSpinHost => 7
    case WRecheck => 5
  }

  ghost function Rank(s: State): int {
    11 * (|s.writer.data| - s.writer.pos) + Phase(s.writer, Full(s.tx))
  }

  lemma RankBounds(s: State)
    requires Inv(s)
    ensures 0 <= Rank(s) <= 11 * |s.writer.data| + 10
  {
  }

  // ---------------------------------------------------------------- the writer's own steps

  lemma LoadInAdvances(s: State)
    requires AtWork(s) && s.writer.pc.WLoadIn?
    ensures Rank(WriteLoadIn(s)) < Rank(s)
  {
  }

  lemma LoadOutAdvances(s: State)
    requires AtWork(s) && s.writer.pc.WLoadOut?
    ensures Rank(WriteLoadOut(s)) < Rank(s)
  {
    WriteRoomExact(s.tx);
  }

  lemma CopyAdvances(s: State)
    requires AtWork(s) && s.writer.pc.WCopy?
    ensures Rank(WriteCopy(s)) < Rank(s)
  {
  }

  lemma PublishAdvances(s: State)
    requires AtWork(s) && s.writer.pc.WPublish?
    ensures Rank(WritePublish(s)) < Rank(s)
  {
  }

  lemma KickAdvances(s: State)
    requires AtWork(s) && s.writer.pc.WKick? && WriteKick(s).writeLog == s.writeLog
    ensures Rank(WriteKick(s)) < Rank(s)
  {
    assert |WriteReturn(s).writeLog| == |s.writeLog| + 1;
  }

  lemma SpinAdvances(s: State)
    requires AtWork(s) && (s.writer.pc.WSpinOut? || s.writer.pc.WSpinHost?)
    ensures Rank(WriteSpin(s)) <= Rank(s) && (!Waiting(s) ==> Rank(WriteSpin(s)) < Rank(s))
  {
    MovedSinceFull(s.writer.out, s.tx);
  }

  lemma RecheckAdvances(s: State)
    requires AtWork(s) && s.writer.pc.WRecheck? && WriteRecheck(s).writeLog == s.writeLog
    ensures Rank(WriteRecheck(s)) < Rank(s)
  {
    MovedSinceFull(s.writer.out, s.tx);
    assert |WriteReturn(s).writeLog| == |s.writeLog| + 1;
  }

  /** Each step of the call that is not a wait brings it nearer to its end. */
  lemma WriterAdvances(s: State)
    requires AtWork(s) && WriteStep(s).writeLog == s.writeLog
    ensures Rank(WriteStep(s)) <= Rank(s) && (!Waiting(s) ==> Rank(WriteStep(s)) < Rank(s))
  {
    hide Inv, Rank, Absent;
    match s.writer.pc
    case WLoadIn => LoadInAdvances(s);
    case WLoadOut => LoadOutAdvances(s);
    case WCopy => CopyAdvances(s);
    case WPublish => PublishAdvances(s);
    case WKick => KickAdvances(s);
    case WSpinOut => SpinAdvances(s);
    case WSpinHost => SpinAdvances(s);
    case WRecheck => RecheckAdvances(s);
  }

  // ---------------------------------------------------------------- everything else

  lemma PhaseOfRoom(w: Writer)
    ensures Phase(w, false) <= Phase(w, true)
  {
  }

  lemma IsrMakesRoom(s: State, c: ControlWord, words: seq<DataWord>)
    requires Ready(s) && RingInv(s.tx)
    ensures IsrPass(s, c, words).writer == s.writer
    ensures Full(IsrPass(s, c, words).tx) ==> Full(s.tx)
  {
    TxLoopFrame(s.tx, c.space);
  }

  lemma OthersLeaveRing(s: State, e: Event)
    requires Ready(s) && !s.writer.pc.WIdle? && !e.WriterStep? && !(e.Irq? && e.i.Isr?)
    ensures Step(s, e).tx == s.tx && Step(s, e).writer == s.writer
  {
    hide Ready, Indexed;
  }

  /** What the interrupt routine, the watchdog, a reader and changes of the timeout do is no
      hindrance. */
  lemma OthersDoNotHinder(s: State, e: Event)
    requires Inv(s) && !s.writer.pc.WIdle? && !e.WriterStep?
    ensures Step(s, e).writer == s.writer && Rank(Step(s, e)) <= Rank(s)
  {
    assert RingInv(s.tx);
    hide TxInv, RxInv, WakeInv, IsrPass, Full, Phase, RingInv;
    PhaseOfRoom(s.writer);
    if e.Irq? && e.i.Isr? {
      IsrMakesRoom(s, e.i.c, e.i.words);
    } else {
      OthersLeaveRing(s, e);
    }
  }

  /** A turn of the interrupt routine that finds space at the device ends the wait. */
  lemma WaitEnds(s: State, c: ControlWord, words: seq<DataWord>)
    requires Inv(s) && c.wi && 0 < c.space
    ensures !Waiting(IsrPass(s, c, words))
  {
    RoomAfterTurn(s, c, words);
  }

  lemma RoomAfterTurn(s: State, c: ControlWord, words: seq<DataWord>)
    requires Ready(s) && RingInv(s.tx) && c.wi && 0 < c.space
    ensures !Full(IsrPass(s, c, words).tx)
  {
    TxLoopSends(s.tx, c.space);
    TxLoopFrame(s.tx, c.space);
  }

  // ---------------------------------------------------------------- whole calls

  /** The steps of the writer in a run, without those that are waits. */
  ghost function Busy(s: State, events: seq<Event>): nat
    requires Ready(s)
    decreases |events|
  {
    if events == [] then 0
    else
      StepReady(s, events[0]);
      (if events[0].WriterStep? && !Waiting(s) then 1 else 0) + Busy(Step(s, events[0]), events[1..])
  }

  /** The host counts as present at every moment of the run. */
  ghost predicate Present(s: State, events: seq<Event>)
    requires Ready(s)
  {
    forall k :: 0 <= k <= |events| ==> !Absent(Run(s, events[..k]))
  }

  lemma PresentGoesOn(s: State, events: seq<Event>)
    requires Ready(s) && Present(s, events)
    ensures !Absent(s) && (events != [] ==> Ready(Step(s, events[0])) && Present(Step(s, events[0]), events[1..]))
  {
    assert events[..0] == [];
    if events != [] {
      StepReady(s, events[0]);
      var t := Step(s, events[0]);
      forall k | 0 <= k <= |events[1..]| ensures !Absent(Run(t, events[1..][..k])) {
        assert events[..k + 1][1..] == events[1..][..k];
        assert Run(s, events[..k + 1]) == Run(t, events[1..][..k]);
      }
    }
  }

  /** The record of calls only grows, and a call goes on until it is recorded. */
  lemma WriteGoesOn(s: State, e: Event)
    requires Ready(s) && !s.writer.pc.WIdle?
    ensures var (t, w) := (Step(s, e), s.writer);
            || (t.writeLog == s.writeLog && !t.writer.pc.WIdle?
                && t.writer.data == w.data && t.writer.nonblock == w.nonblock)
            || (|t.writeLog| == |s.writeLog| + 1 && s.writeLog == t.writeLog[..|s.writeLog|]
                && t.writeLog[|s.writeLog|].data == w.data && t.writeLog[|s.writeLog|].nonblock == w.nonblock)
  {
    hide Ready, WriterShaped, ReaderShaped, Indexed, ReadStep, IsrPass;
    SparesOthers(s, e);
  }

  lemma LogStep(s: State, e: Event)
    requires Ready(s)
    ensures |s.writeLog| <= |Step(s, e).writeLog| && s.writeLog == Step(s, e).writeLog[..|s.writeLog|]
  {
    hide Ready, WriterShaped, ReaderShaped, Indexed, ReadStep, IsrPass;
    SparesOthers(s, e);
  }

  lemma {:induction false} LogGrows(s: State, events: seq<Event>)
    requires Ready(s)
    ensures |s.writeLog| <= |Run(s, events).writeLog| && s.writeLog == Run(s, events).writeLog[..|s.writeLog|]
    decreases |events|
  {
    hide Ready, Step;
    if events != [] {
      var t := Step(s, events[0]);
      StepReady(s, events[0]);
      LogStep(s, events[0]);
      LogGrows(t, events[1..]);
      assert Run(s, events).writeLog[..|t.writeLog|][..|s.writeLog|] == Run(s, events).writeLog[..|s.writeLog|];
    }
  }

  /** As long as the call is not recorded, its steps are bounded by its rank. */
  lemma {:induction false} BusyIsBounded(s: State, events: seq<Event>)
    requires Inv(s) && !s.writer.pc.WIdle? && !s.writer.nonblock && Present(s, events)
    requires |Run(s, events).writeLog| == |s.writeLog|
    ensures Busy(s, events) <= Rank(s)
    decreases |events|
  {
    RankBounds(s);
    if events != [] {
      var e, t, rest := events[0], Step(s, events[0]), events[1..];
      StepKeeps(s, e);
      PresentGoesOn(s, events);
      LogGrows(t, rest);
      WriteGoesOn(s, e);
      hide TxInv, RxInv, WakeInv, HostInv, Step, Rank, Waiting, Present, Absent;
      BusyIsBounded(t, rest);
      if e.WriterStep? {
        StepIsWriteStep(s);
        WriterAdvances(s);
      } else {
        OthersDoNotHinder(s, e);
      }
    }
  }

  lemma StepIsWriteStep(s: State)
    requires Ready(s)
    ensures Step(s, WriterStep) == WriteStep(s)
  {
  }

  /** The call that is recorded first is the one in progress. */
  lemma {:induction false} FirstRecorded(s: State, events: seq<Event>)
    requires Ready(s) && !s.writer.pc.WIdle? && |s.writeLog| < |Run(s, events).writeLog|
    ensures var c := Run(s, events).writeLog[|s.writeLog|]; c.data == s.writer.data && c.nonblock == s.writer.nonblock
    decreases |events|
  {
    hide Ready, Step;
    var t := Step(s, events[0]);
    StepReady(s, events[0]);
    WriteGoesOn(s, events[0]);
    LogGrows(t, events[1..]);
    if t.writeLog == s.writeLog {
      FirstRecorded(t, events[1..]);
    } else {
      assert Run(s, events).writeLog[..|t.writeLog|][|s.writeLog|] == t.writeLog[|s.writeLog|];
    }
  }

  /** A blocking write returns, with all its data accepted, before it has taken more than 11
      steps for each byte and 10 besides, not counting its looks at a full ring: in every run
      in which the host is present. */
  lemma BlockingWriteReturns(s: State, data: seq<Byte>, events: seq<Event>)
    requires Inv(s) && s.writer.pc.WIdle?
    requires Ready(StartWrite(s, data, false)) && Present(StartWrite(s, data, false), events)
    requires 11 * |data| + 10 < Busy(StartWrite(s, data, false), events)
    ensures var t := Run(StartWrite(s, data, false), events);
            && |s.writeLog| < |t.writeLog|
            && t.writeLog[|s.writeLog|].data == data
            && (data != [] ==> t.writeLog[|s.writeLog|].result == |data|)
  {
    var u := StartWrite(s, data, false);
    StartKeeps(s, data, 0, false);
    RankBounds(u);
    LogGrows(u, events);
    if |Run(u, events).writeLog| == |u.writeLog| {
      BusyIsBounded(u, events);
    }
    FirstRecorded(u, events);
    var t, n := Run(u, events), |s.writeLog|;
    RunKeeps(u, events);
    assert t.writeLog[n] in t.writeLog && WriteContract(t.writeLog[n]);
    NoGivingUp(s, data, events);
  }

  lemma NoGivingUp(s: State, data: seq<Byte>, events: seq<Event>)
    requires Inv(s) && s.writer.pc.WIdle?
    requires Ready(StartWrite(s, data, false)) && Present(StartWrite(s, data, false), events)
    ensures var t := Run(StartWrite(s, data, false), events);
            forall i :: |s.writeLog| <= i < |t.writeLog| ==> !t.writeLog[i].gaveUp
  {
    var u, call := StartWrite(s, data, false), CallWrite(data, false);
    assert Step(s, call) == u;
    var all := [call] + events;
    assert all[1..] == events;
    assert Run(s, all) == Run(u, events);
    WriteGivesUpWhenAbsent(s, all);
    forall k | 0 <= k <= |all| ensures var v := Run(s, all[..k]); v.writer.pc.WIdle? || !Absent(v) {
      if k == 0 {
        assert all[..k] == [];
      } else {
        assert all[..k][1..] == events[..k - 1];
        assert Run(s, all[..k]) == Run(u, events[..k - 1]);
      }
    }
  }
}
