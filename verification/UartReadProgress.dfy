/** A read comes to its end: whatever else happens, it takes a bounded number of steps
    besides its looks at an empty ring. */
module UartReadProgress {
  import opened UartRing
  import opened UartMachine
  import opened UartSafety
  import opened UartShort

  /** The reader has nothing yet and is looking at an empty ring. */
  ghost predicate Looking(s: State) {
    (s.reader.pc.RSpinIn? || s.reader.pc.RSpinHost?) && Pending(s.rx) == 0
  }

  /** How far the reader is from its next byte; with nothing read and an empty ring it has
      to wait first. */
  ghost function Phase(r: Reader, rx: Ring): int {
    var nothing := r.pos == 0 && Pending(rx) == 0;
    match r.pc
    case RIdle => 0
    case RLoadIn => if nothing then 9 else 4
    case RLoadOut => if r.pos == 0 && r.seen == |rx.got| then 8 else 3
    case RCopy => 2
    case RRelease => 5
    case REnable => 1
    case RSpinIn => if nothing then 7 else 6
    case RSpinHost => 7
    case RRecheck => 5
  }

  ghost function Rank(s: State): int {
    6 * (s.reader.space - |s.reader.got|) + Phase(s.reader, s.rx)
  }

  lemma RankBounds(s: State)
    requires Inv(s)
    ensures 0 <= Rank(s) <= 6 * s.reader.space + 9
  {
  }

  // ---------------------------------------------------------------- the reader's own steps

  lemma LoadOutAdvances(s: State)
    requires Inv(s) && s.reader.pc.RLoadOut? && ReadLoadOut(s).readLog == s.readLog
    ensures Rank(ReadLoadOut(s)) < Rank(s)
  {
    var r := s.reader;
    ReadRoomExact(r.in_, s.rx.out, r.seen - |s.rx.got|, |s.rx.buf|);
    assert |ReadReturn(s).readLog| == |s.readLog| + 1;
  }

  lemma CopyAdvances(s: State)
    requires Inv(s) && (s.reader.pc.RCopy? || s.reader.pc.RRelease?)
    ensures s.reader.pc.RCopy? ==> Rank(ReadCopy(s)) < Rank(s)
    ensures s.reader.pc.RRelease? ==> Rank(ReadRelease(s)) < Rank(s)
  {
  }

  lemma LoadInAdvances(s: State)
    requires Inv(s) && s.reader.pc.RLoadIn? && ReadLoadIn(s).readLog == s.readLog
    ensures Rank(ReadLoadIn(s)) < Rank(s)
  {
    assert |ReadReturn(s).readLog| == |s.readLog| + 1;
  }

  lemma SpinAdvances(s: State)
    requires Inv(s) && (s.reader.pc.RSpinIn? || s.reader.pc.RSpinHost?)
    ensures Rank(ReadSpin(s)) <= Rank(s) && (!Looking(s) ==> Rank(ReadSpin(s)) < Rank(s))
  {
    MovedSinceEmpty(s.reader, s.rx);
  }

  lemma RecheckAdvances(s: State)
    requires Inv(s) && s.reader.pc.RRecheck? && ReadRecheck(s).readLog == s.readLog
    ensures Rank(ReadRecheck(s)) < Rank(s)
  {
    MovedSinceEmpty(s.reader, s.rx);
    assert |ReadReturn(s).readLog| == |s.readLog| + 1;
  }

  lemma EnableReturns(s: State)
    requires s.reader.pc.REnable?
    ensures ReadEnable(s).readLog != s.readLog
  {
    assert |ReadEnable(s).readLog| == |s.readLog| + 1;
  }

  /** Each step of the call that is not a look at an empty ring brings it nearer to its
      end. */
  lemma ReaderAdvances(s: State)
    requires Inv(s) && !s.reader.pc.RIdle? && ReadStep(s).readLog == s.readLog
    ensures Rank(ReadStep(s)) <= Rank(s) && (!Looking(s) ==> Rank(ReadStep(s)) < Rank(s))
  {
    hide Inv, Rank;
    match s.reader.pc
    case RLoadIn => LoadInAdvances(s);
    case RLoadOut => LoadOutAdvances(s);
    case RCopy => CopyAdvances(s);
    case RRelease => CopyAdvances(s);
    case REnable => EnableReturns(s);
    case RSpinIn => SpinAdvances(s);
    case RSpinHost => SpinAdvances(s);
    case RRecheck => RecheckAdvances(s);
  }

  // ---------------------------------------------------------------- everything else

  lemma OthersLeaveReader(s: State, e: Event)
    requires Ready(s) && !s.reader.pc.RIdle? && !e.ReaderStep?
    ensures Step(s, e).reader == s.reader && Step(s, e).rx.got == s.rx.got && s.rx.put <= Step(s, e).rx.put
  {
    if e.Irq? && e.i.Isr? {
      RxLoopFrame(s.rx, e.i.words, true);
    }
  }

  /** What the interrupt routine, the watchdog, a writer and changes of the timeout do is no
      hindrance. */
  lemma OthersDoNotHinder(s: State, e: Event)
    requires Inv(s) && !s.reader.pc.RIdle? && !e.ReaderStep?
    ensures Step(s, e).reader == s.reader && Rank(Step(s, e)) <= Rank(s)
  {
    assert Pending(s.rx) >= 0;
    hide Inv, Ready, Step;
    InvReady(s);
    OthersLeaveReader(s, e);
  }

  /** The steps of the reader in a run, without those that are looks at an empty ring. */
  ghost function Busy(s: State, events: seq<Event>): nat
    requires Ready(s)
    decreases |events|
  {
    if events == [] then 0
    else
      StepReady(s, events[0]);
      (if events[0].ReaderStep? && !Looking(s) then 1 else 0) + Busy(Step(s, events[0]), events[1..])
  }

  /** The record of calls only grows, and a call goes on until it is recorded. */
  lemma ReadGoesOn(s: State, e: Event)
    requires Ready(s) && !s.reader.pc.RIdle?
    ensures var (t, r) := (Step(s, e), s.reader);
            || (t.readLog == s.readLog && !t.reader.pc.RIdle?
                && t.reader.space == r.space && t.reader.nonblock == r.nonblock)
            || (|t.readLog| == |s.readLog| + 1 && s.readLog == t.readLog[..|s.readLog|]
                && t.readLog[|s.readLog|].space == r.space && t.readLog[|s.readLog|].nonblock == r.nonblock)
  {
    hide Ready, WriterShaped, ReaderShaped, Indexed, WriteStep, IsrPass;
    SparesOthers(s, e);
  }

  lemma LogStep(s: State, e: Event)
    requires Ready(s)
    ensures |s.readLog| <= |Step(s, e).readLog| && s.readLog == Step(s, e).readLog[..|s.readLog|]
  {
    hide Ready, WriterShaped, ReaderShaped, Indexed, WriteStep, IsrPass;
    SparesOthers(s, e);
  }

  lemma {:induction false} LogGrows(s: State, events: seq<Event>)
    requires Ready(s)
    ensures |s.readLog| <= |Run(s, events).readLog| && s.readLog == Run(s, events).readLog[..|s.readLog|]
    decreases |events|
  {
    hide Ready, Step;
    if events != [] {
      var t := Step(s, events[0]);
      StepReady(s, events[0]);
      LogStep(s, events[0]);
      LogGrows(t, events[1..]);
      assert Run(s, events).readLog[..|t.readLog|][..|s.readLog|] == Run(s, events).readLog[..|s.readLog|];
    }
  }

  /** As long as the call is not recorded, its steps are bounded by its rank. */
  lemma {:induction false} BusyIsBounded(s: State, events: seq<Event>)
    requires Inv(s) && !s.reader.pc.RIdle? && |Run(s, events).readLog| == |s.readLog|
    ensures Busy(s, events) <= Rank(s)
    decreases |events|
  {
    hide Inv, Step, Rank, Looking;
    RankBounds(s);
    InvReady(s);
    if events != [] {
      var e, t, rest := events[0], Step(s, events[0]), events[1..];
      StepReady(s, e);
      StepKeeps(s, e);
      LogStep(s, e);
      LogGrows(t, rest);
      ReadGoesOn(s, e);
      BusyIsBounded(t, rest);
      if e.ReaderStep? {
        StepIsReadStep(s);
        ReaderAdvances(s);
      } else {
        OthersDoNotHinder(s, e);
      }
    }
  }

  lemma StepIsReadStep(s: State)
    requires Ready(s)
    ensures Step(s, ReaderStep) == ReadStep(s)
  {
  }

  /** The call that is recorded first is the one in progress. */
  lemma {:induction false} FirstRecorded(s: State, events: seq<Event>)
    requires Ready(s) && !s.reader.pc.RIdle? && |s.readLog| < |Run(s, events).readLog|
    ensures var c := Run(s, events).readLog[|s.readLog|];
            c.space == s.reader.space && c.nonblock == s.reader.nonblock
    decreases |events|
  {
    hide Ready, Step;
    var t := Step(s, events[0]);
    StepReady(s, events[0]);
    ReadGoesOn(s, events[0]);
    LogGrows(t, events[1..]);
    if t.readLog == s.readLog {
      FirstRecorded(t, events[1..]);
    } else {
      assert Run(s, events).readLog[..|t.readLog|][|s.readLog|] == t.readLog[|s.readLog|];
    }
  }

  /** A read returns before it has taken more than 6 steps for each byte of its space and 9
      besides, not counting its looks at an empty ring: in every run, whether it blocks or
      not. */
  lemma ReadReturns(s: State, space: nat, nonblock: bool, events: seq<Event>)
    requires Inv(s) && s.reader.pc.RIdle? && Ready(StartRead(s, space, nonblock))
    requires 6 * space + 9 < Busy(StartRead(s, space, nonblock), events)
    ensures var t := Run(StartRead(s, space, nonblock), events);
            && |s.readLog| < |t.readLog|
            && t.readLog[|s.readLog|].space == space && t.readLog[|s.readLog|].nonblock == nonblock
  {
    var u := StartRead(s, space, nonblock);
    StartKeeps(s, [], space, nonblock);
    RankBounds(u);
    LogGrows(u, events);
    if |Run(u, events).readLog| == |u.readLog| {
      BusyIsBounded(u, events);
    }
    FirstRecorded(u, events);
  }
}
