/** When a call comes back short: a read only from an empty ring, a write only from a full
    one, as the rings are at some moment of the call. */
module UartShort {
  import opened UartMachine
  import opened UartRing
  import opened UartSafety

  lemma {:induction false} RunSplit(s: State, a: seq<Event>, b: seq<Event>)
    requires Ready(s)
    ensures Run(s, a + b) == Run(Run(s, a), b)
    decreases |b|
  {
    hide Step, Ready;
    if b == [] {
      assert a + b == a;
    } else {
      var c, e := b[..|b| - 1], b[|b| - 1];
      assert b == c + [e] && a + b == (a + c) + [e];
      RunSplit(s, a, c);
      RunAppend(s, a + c, e);
      RunAppend(Run(s, a), c, e);
    }
  }

  /** The device's bytes only ever add up. */
  lemma RunGrows(s: State, events: seq<Event>, k: nat)
    requires Inv(s) && k <= |events|
    ensures var (u, t) := (Run(s, events[..k]), Run(s, events));
            && s.rx.put <= u.rx.put <= t.rx.put && s.tx.got <= u.tx.got <= t.tx.got
            && |u.tx.buf| == |s.tx.buf|
  {
    hide Inv, Run;
    RunKeeps(s, events[..k]);
    assert events == events[..k] + events[k..];
    assert Ready(s) by { InvReady(s); }
    RunSplit(s, events[..k], events[k..]);
    RunMoves(s, events[..k]);
    RunMoves(Run(s, events[..k]), events[k..]);
    SameLength(s, events[..k]);
  }

  lemma InvReady(s: State)
    requires Inv(s)
    ensures Ready(s)
  {
  }

  lemma StepSameLength(s: State, e: Event)
    requires Ready(s)
    ensures |Step(s, e).tx.buf| == |s.tx.buf|
  {
    if e.Irq? && e.i.Isr? {
      TxLoopFrame(s.tx, e.i.c.space);
    }
  }

  lemma {:induction false} SameLength(s: State, events: seq<Event>)
    requires Ready(s)
    ensures |Run(s, events).tx.buf| == |s.tx.buf|
    decreases |events|
  {
    hide Step, Ready;
    if events != [] {
      StepReady(s, events[0]);
      StepSameLength(s, events[0]);
      SameLength(Step(s, events[0]), events[1..]);
    }
  }

  // ---------------------------------------------------------------- reads

  /** There was a moment, while call number `i` was in progress, at which `n` bytes had
      been taken from the device. */
  ghost predicate TakenWhileReading(s: State, events: seq<Event>, i: nat, n: nat)
    requires Ready(s)
  {
    exists k :: 0 <= k <= |events| &&
      var t := Run(s, events[..k]); |t.readLog| == i && !t.reader.pc.RIdle? && |t.rx.put| == n
  }

  predicate IsShortRead(c: ReadCall) {
    0 < c.space && c.result < c.space
  }

  /** How many bytes had been taken when the reader last looked, where that matters: if it
      is about to find the ring empty, or has found it so. */
  ghost predicate LastSaw(r: Reader, released: nat, n: nat) {
    if r.pc.REnable? then r.pos < r.space && n == released
    else (r.pc.RLoadOut? || r.pc.RSpinIn? || r.pc.RSpinHost? || r.pc.RRecheck?) && n == r.seen
  }

  /** A step of the reader either goes on, with what it saw before or sees now, or returns;
      and a short return is of all that it saw. */
  ghost predicate Looks(s: State, t: State) {
    || (t.readLog == s.readLog &&
        forall n :: LastSaw(t.reader, |t.rx.got|, n) ==>
          LastSaw(s.reader, |s.rx.got|, n) || (!s.reader.pc.RIdle? && n == |s.rx.put|))
    || (&& |t.readLog| == |s.readLog| + 1 && s.readLog == t.readLog[..|s.readLog|]
        && t.reader == NO_READER && t.rx.got == s.rx.got
        && (IsShortRead(t.readLog[|s.readLog|]) ==> LastSaw(s.reader, |s.rx.got|, |s.rx.got|)))
  }

  lemma LoadOutLooks(s: State)
    requires Inv(s) && s.reader.pc.RLoadOut?
    ensures Looks(s, ReadLoadOut(s))
  {
    var r := s.reader;
    ReadRoomExact(r.in_, s.rx.out, r.seen - |s.rx.got|, |s.rx.buf|);
  }

  lemma RecheckLooks(s: State)
    requires Inv(s) && s.reader.pc.RRecheck?
    ensures Looks(s, ReadRecheck(s))
  {
  }

  lemma OthersLook(s: State)
    requires Inv(s) && !s.reader.pc.RLoadOut? && !s.reader.pc.RRecheck?
    ensures Looks(s, ReadStep(s))
  {
  }

  lemma ReaderLooks(s: State, e: Event)
    requires Inv(s)
    ensures Looks(s, Step(s, e))
  {
    if e.ReaderStep? {
      if s.reader.pc.RLoadOut? {
        LoadOutLooks(s);
      } else if s.reader.pc.RRecheck? {
        RecheckLooks(s);
      } else {
        OthersLook(s);
      }
    } else {
      NoReaderStep(s, e);
    }
  }

  lemma NoReaderStep(s: State, e: Event)
    requires Ready(s) && !e.ReaderStep?
    ensures Looks(s, Step(s, e))
  {
    hide Ready, WriterShaped, ReaderShaped, Indexed, WriteStep;
    SparesOthers(s, e);
    ReleasedStays(s, e);
  }

  lemma ReleasedStays(s: State, e: Event)
    requires Ready(s) && !e.ReaderStep?
    ensures Step(s, e).rx.got == s.rx.got
  {
    if e.Irq? && e.i.Isr? {
      RxLoopFrame(s.rx, e.i.words, true);
    }
  }

  lemma TakenStays(s: State, before: seq<Event>, events: seq<Event>, i: nat, n: nat)
    requires Ready(s) && before <= events && TakenWhileReading(s, before, i, n)
    ensures TakenWhileReading(s, events, i, n)
  {
    assert forall k :: 0 <= k <= |before| ==> events[..k] == before[..k];
  }

  lemma TakenAtEnd(s: State, before: seq<Event>, events: seq<Event>)
    requires Ready(s) && before <= events && !Run(s, before).reader.pc.RIdle?
    ensures TakenWhileReading(s, events, |Run(s, before).readLog|, |Run(s, before).rx.put|)
  {
    assert events[..|before|] == before;
  }

  /** With no read in progress, what has been released has been delivered. */
  lemma AllDelivered(s: State)
    requires Inv(s) && s.reader == NO_READER
    ensures s.rx.got == Delivered(s.readLog) && s.rx.got <= s.rx.put
  {
    assert s.reader.got[..s.reader.pos] == [];
  }

  /** The finished reads that came back short did so at a moment of their own. */
  ghost predicate ShortReads(s: State, events: seq<Event>, log: seq<ReadCall>)
    requires Ready(s)
  {
    forall i :: |s.readLog| <= i < |log| && IsShortRead(log[i]) ==>
      TakenWhileReading(s, events, i, |Delivered(log[..i + 1])|)
  }

  lemma ShortReadsGoOn(s: State, before: seq<Event>, e: Event, u: State, t: State)
    requires Ready(s) && u == Run(s, before) && Inv(u) && Inv(t) && Looks(u, t)
    requires |s.readLog| <= |u.readLog| && s.readLog == u.readLog[..|s.readLog|]
    requires ShortReads(s, before, u.readLog)
    requires forall n: nat :: LastSaw(u.reader, |u.rx.got|, n) ==> TakenWhileReading(s, before, |u.readLog|, n)
    ensures |s.readLog| <= |t.readLog| && s.readLog == t.readLog[..|s.readLog|]
    ensures ShortReads(s, before + [e], t.readLog)
    ensures forall n: nat :: LastSaw(t.reader, |t.rx.got|, n) ==> TakenWhileReading(s, before + [e], |t.readLog|, n)
  {
    hide Ready, Inv, Run, TakenWhileReading, IsShortRead;
    var events := before + [e];
    forall n: nat | LastSaw(t.reader, |t.rx.got|, n) ensures TakenWhileReading(s, events, |t.readLog|, n) {
      if LastSaw(u.reader, |u.rx.got|, n) {
        TakenStays(s, before, events, |u.readLog|, n);
      } else {
        TakenAtEnd(s, before, events);
      }
    }
    forall i | |s.readLog| <= i < |t.readLog| && IsShortRead(t.readLog[i])
      ensures TakenWhileReading(s, events, i, |Delivered(t.readLog[..i + 1])|)
    {
      if i < |u.readLog| {
        assert t.readLog[i] == u.readLog[i] && t.readLog[..i + 1] == u.readLog[..i + 1];
        TakenStays(s, before, events, i, |Delivered(u.readLog[..i + 1])|);
      } else {
        AllDelivered(t);
        assert t.readLog[..i + 1] == t.readLog;
        TakenStays(s, before, events, i, |u.rx.got|);
      }
    }
  }

  lemma {:induction false} ReadMoments(s: State, events: seq<Event>)
    requires Inv(s) && s.reader.pc.RIdle?
    ensures Ready(s) && Inv(Run(s, events))
    ensures var t := Run(s, events);
            && |s.readLog| <= |t.readLog| && s.readLog == t.readLog[..|s.readLog|]
            && ShortReads(s, events, t.readLog)
            && forall n: nat :: LastSaw(t.reader, |t.rx.got|, n) ==> TakenWhileReading(s, events, |t.readLog|, n)
    decreases |events|
  {
    hide Ready, Inv, Run, Step, TakenWhileReading, ShortReads, Looks;
    InvReady(s);
    RunKeeps(s, events);
    if events == [] {
      NoReadYet(s);
    } else {
      var before, e := events[..|events| - 1], events[|events| - 1];
      ReadMoments(s, before);
      assert events == before + [e];
      RunAppend(s, before, e);
      ReaderLooks(Run(s, before), e);
      ShortReadsGoOn(s, before, e, Run(s, before), Run(s, events));
    }
  }

  lemma NoReadYet(s: State)
    requires Ready(s) && s.reader.pc.RIdle?
    ensures Run(s, []) == s && ShortReads(s, [], s.readLog)
    ensures forall n: nat :: !LastSaw(s.reader, |s.rx.got|, n)
  {
  }

  /** What the first calls have delivered comes first in what has been taken. */
  lemma {:induction false} DeliveredFirst(log: seq<ReadCall>, i: nat)
    requires i <= |log|
    ensures Delivered(log[..i]) <= Delivered(log)
    decreases |log|
  {
    if i < |log| {
      DeliveredFirst(log[..|log| - 1], i);
      assert log[..|log| - 1][..i] == log[..i];
    } else {
      assert log[..i] == log;
    }
  }

  /** There was a moment, while call number `i` was in progress, at which exactly
      `delivered` had been taken from the device. */
  ghost predicate NothingLeft(s: State, events: seq<Event>, i: nat, delivered: seq<Byte>)
    requires Ready(s)
  {
    exists k :: 0 <= k <= |events| &&
      var t := Run(s, events[..k]); |t.readLog| == i && !t.reader.pc.RIdle? && Taken(s, events[..k]) == delivered
  }

  lemma PrefixByLength<T>(a: seq<T>, b: seq<T>, c: seq<T>)
    requires a <= c && b <= c && |a| == |b|
    ensures a == b
  {
  }

  lemma DeliveredIsTaken(t: State)
    requires Inv(t)
    ensures Delivered(t.readLog) <= t.rx.got <= t.rx.put
  {
  }

  /** A read comes back with less than it has space for only if, at some moment between its
      start and its return, all bytes taken from the device so far are among those that it
      and the calls before it have delivered. */
  lemma ReadShortWhenNothingLeft(s: State, events: seq<Event>)
    requires Initial(s)
    ensures Ready(s)
    ensures var log := Run(s, events).readLog;
            forall i :: 0 <= i < |log| && 0 < log[i].space && log[i].result < log[i].space ==>
              NothingLeft(s, events, i, Delivered(log[..i + 1]))
  {
    hide Inv, Run, Taken;
    InitialInv(s);
    ReadMoments(s, events);
    var t := Run(s, events);
    forall i | 0 <= i < |t.readLog| && IsShortRead(t.readLog[i])
      ensures NothingLeft(s, events, i, Delivered(t.readLog[..i + 1]))
    {
      var delivered := Delivered(t.readLog[..i + 1]);
      var k :| 0 <= k <= |events| &&
        var u := Run(s, events[..k]); |u.readLog| == i && !u.reader.pc.RIdle? && |u.rx.put| == |delivered|;
      RunGrows(s, events, k);
      RunBalances(s, events[..k]);
      DeliveredFirst(t.readLog, i + 1);
      DeliveredIsTaken(t);
      PrefixByLength(delivered, Run(s, events[..k]).rx.put, t.rx.put);
    }
  }

  lemma ReadTook(t: State, i: nat)
    requires Inv(t) && i < |t.readLog|
    ensures ReadContract(t.readLog[i])
    ensures Delivered(t.readLog[..i + 1]) == Delivered(t.readLog[..i]) + t.readLog[i].bytes
  {
    assert t.readLog[i] in t.readLog;
    assert t.readLog[..i + 1][..i] == t.readLog[..i];
  }

  lemma IdleReader(s: State)
    requires Inv(s) && s.reader.pc.RIdle?
    ensures s.reader == NO_READER
  {
  }

  /** The read called next comes back with at least what was waiting at its call, as far as
      it has space for it. */
  lemma ReadTakesWhatWaits(s: State, events: seq<Event>)
    requires Inv(s) && s.reader.pc.RIdle?
    ensures Ready(s)
    ensures var (i, log) := (|s.readLog|, Run(s, events).readLog);
            i < |log| ==> Min(log[i].space, Pending(s.rx)) <= |log[i].bytes|
  {
    hide Inv, Run, Delivered;
    ReadMoments(s, events);
    var i, log := |s.readLog|, Run(s, events).readLog;
    if i < |log| {
      ReadTook(Run(s, events), i);
      IdleReader(s);
      AllDelivered(s);
      if IsShortRead(log[i]) {
        var k :| 0 <= k <= |events| &&
          var u := Run(s, events[..k]);
          |u.readLog| == i && !u.reader.pc.RIdle? && |u.rx.put| == |Delivered(log[..i + 1])|;
        RunGrows(s, events, k);
      }
    }
  }

  /** At some moment of a read in the run, after event number `from`, exactly `delivered`
      had been taken from the device. */
  ghost predicate NothingLeftSince(start: State, trace: seq<Event>, from: nat, delivered: seq<Byte>) {
    Ready(start) &&
    exists m :: 0 <= from <= m <= |trace| &&
      !Run(start, trace[..m]).reader.pc.RIdle? && Taken(start, trace[..m]) == delivered
  }

  /** A moment of what comes after event number `from` is one of the whole run. */
  lemma LaterMoment(start: State, trace: seq<Event>, from: nat, k: nat)
    requires Initial(start) && Ready(start) && from + k <= |trace|
    ensures var t := Run(start, trace[..from + k]);
            && t == Run(Run(start, trace[..from]), trace[from..][..k]) && |t.tx.buf| == |start.tx.buf|
            && t.rx.put == Taken(start, trace[..from + k]) && t.tx.got == Sent(start, trace[..from + k])
  {
    hide Run, Taken, Sent, Initial, Inv, Ready;
    assert trace[..from + k] == trace[..from] + trace[from..][..k];
    RunSplit(start, trace[..from], trace[from..][..k]);
    SameLength(start, trace[..from + k]);
    RunBalances(start, trace[..from + k]);
  }

  lemma Later(start: State, trace: seq<Event>, from: nat)
    requires Initial(start) && Ready(start) && from <= |trace|
    ensures Inv(Run(start, trace[..from])) && Run(start, trace) == Run(Run(start, trace[..from]), trace[from..])
  {
    hide Run, Initial, Inv, Ready;
    assert trace[..from] + trace[from..] == trace;
    RunBalances(start, trace[..from]);
    RunSplit(start, trace[..from], trace[from..]);
  }

  /** The read made after event number `from`, which is the last of the run to return. */
  lemma LastRead(start: State, trace: seq<Event>, from: nat)
    requires Initial(start) && from <= |trace| && Ready(start)
    requires var (s, t) := (Run(start, trace[..from]), Run(start, trace));
             s.reader.pc.RIdle? && t.reader == NO_READER && |t.readLog| == |s.readLog| + 1
    ensures var (s, t) := (Run(start, trace[..from]), Run(start, trace));
            var c := t.readLog[|s.readLog|];
            && Min(c.space, Pending(s.rx)) <= |c.bytes|
            && (IsShortRead(c) ==> NothingLeftSince(start, trace, from, t.rx.got))
  {
    hide Inv, Run, Taken, Initial, Ready;
    var s, t, events := Run(start, trace[..from]), Run(start, trace), trace[from..];
    Later(start, trace, from);
    ReadTakesWhatWaits(s, events);
    ReadMoments(s, events);
    AllDelivered(t);
    if IsShortRead(t.readLog[|s.readLog|]) {
      assert t.readLog[..|t.readLog|] == t.readLog;
      var k :| 0 <= k <= |events| &&
        var u := Run(s, events[..k]);
        |u.readLog| == |s.readLog| && !u.reader.pc.RIdle? && |u.rx.put| == |Delivered(t.readLog)|;
      RunGrows(s, events, k);
      PrefixByLength(Run(s, events[..k]).rx.put, t.rx.got, t.rx.put);
      LaterMoment(start, trace, from, k);
    }
  }

  // ---------------------------------------------------------------- writes

  /** There was a moment, while call number `i` was in progress, at which the transmit ring
      was full and `n` bytes had been published. */
  ghost predicate FullWhileWriting(s: State, events: seq<Event>, i: nat, n: nat)
    requires Ready(s)
  {
    exists k :: 0 <= k <= |events| &&
      var t := Run(s, events[..k]); |t.writeLog| == i && !t.writer.pc.WIdle? && Full(t.tx) && |t.tx.put| == n
  }

  predicate IsShortWrite(c: WriteCall) {
    c.data != [] && c.result < |c.data|
  }

  /** The writer has found the ring full. */
  ghost predicate FoundFull(w: Writer) {
    || (w.pc.WKick? && w.pos < |w.data|)
    || w.pc.WSpinOut? || w.pc.WSpinHost? || w.pc.WRecheck?
  }

  /** A step of the writer either goes on, and finds the ring full only if it is or has been
      found so, or returns; and it returns short only if the ring has been found full. */
  ghost predicate Finds(s: State, t: State) {
    || (t.writeLog == s.writeLog &&
        (FoundFull(t.writer) ==>
           t.tx.put == s.tx.put && (FoundFull(s.writer) || (!s.writer.pc.WIdle? && Full(s.tx)))))
    || (&& |t.writeLog| == |s.writeLog| + 1 && s.writeLog == t.writeLog[..|s.writeLog|]
        && t.writer == NO_WRITER && t.tx.put == s.tx.put
        && (IsShortWrite(t.writeLog[|s.writeLog|]) ==> FoundFull(s.writer)))
  }

  lemma LoadOutFinds(s: State)
    requires Inv(s) && s.writer.pc.WLoadOut?
    ensures Finds(s, WriteLoadOut(s))
  {
    WriteRoomExact(s.tx);
  }

  lemma OthersFind(s: State)
    requires Inv(s) && !s.writer.pc.WLoadOut?
    ensures Finds(s, WriteStep(s))
  {
  }

  lemma WriterFinds(s: State, e: Event)
    requires Inv(s)
    ensures Finds(s, Step(s, e))
  {
    if e.WriterStep? {
      if s.writer.pc.WLoadOut? {
        LoadOutFinds(s);
      } else {
        OthersFind(s);
      }
    } else {
      NoWriterStep(s, e);
    }
  }

  lemma NoWriterStep(s: State, e: Event)
    requires Ready(s) && !e.WriterStep?
    ensures Finds(s, Step(s, e))
  {
    hide Ready, WriterShaped, ReaderShaped, Indexed, ReadStep;
    SparesOthers(s, e);
    PublishedStays(s, e);
  }

  lemma PublishedStays(s: State, e: Event)
    requires Ready(s) && !e.WriterStep?
    ensures Step(s, e).tx.put == s.tx.put
  {
    if e.Irq? && e.i.Isr? {
      TxLoopFrame(s.tx, e.i.c.space);
    }
  }

  lemma FullStays(s: State, before: seq<Event>, events: seq<Event>, i: nat, n: nat)
    requires Ready(s) && before <= events && FullWhileWriting(s, before, i, n)
    ensures FullWhileWriting(s, events, i, n)
  {
    assert forall k :: 0 <= k <= |before| ==> events[..k] == before[..k];
  }

  lemma FullAtEnd(s: State, before: seq<Event>, events: seq<Event>)
    requires Ready(s) && before <= events && !Run(s, before).writer.pc.WIdle? && Full(Run(s, before).tx)
    ensures FullWhileWriting(s, events, |Run(s, before).writeLog|, |Run(s, before).tx.put|)
  {
    assert events[..|before|] == before;
  }

  /** With no write in progress, what has been published has been accepted. */
  lemma AllAccepted(s: State)
    requires Inv(s) && s.writer == NO_WRITER
    ensures s.tx.put == Accepted(s.writeLog) && s.tx.got <= s.tx.put
  {
    assert s.writer.data[..s.writer.pos] == [];
  }

  ghost predicate ShortWrites(s: State, events: seq<Event>, log: seq<WriteCall>)
    requires Ready(s)
  {
    forall i :: |s.writeLog| <= i < |log| && IsShortWrite(log[i]) ==>
      FullWhileWriting(s, events, i, |Accepted(log[..i + 1])|)
  }

  lemma ShortWritesGoOn(s: State, before: seq<Event>, e: Event, u: State, t: State)
    requires Ready(s) && u == Run(s, before) && Inv(u) && Inv(t) && Finds(u, t)
    requires |s.writeLog| <= |u.writeLog| && s.writeLog == u.writeLog[..|s.writeLog|]
    requires ShortWrites(s, before, u.writeLog)
    requires FoundFull(u.writer) ==> FullWhileWriting(s, before, |u.writeLog|, |u.tx.put|)
    ensures |s.writeLog| <= |t.writeLog| && s.writeLog == t.writeLog[..|s.writeLog|]
    ensures ShortWrites(s, before + [e], t.writeLog)
    ensures FoundFull(t.writer) ==> FullWhileWriting(s, before + [e], |t.writeLog|, |t.tx.put|)
  {
    hide Ready, Inv, Run, FullWhileWriting, IsShortWrite, Full, Accepted;
    var events := before + [e];
    if FoundFull(u.writer) {
      FullStays(s, before, events, |u.writeLog|, |u.tx.put|);
    } else if FoundFull(t.writer) {
      FullAtEnd(s, before, events);
    }
    forall i | |s.writeLog| <= i < |t.writeLog| && IsShortWrite(t.writeLog[i])
      ensures FullWhileWriting(s, events, i, |Accepted(t.writeLog[..i + 1])|)
    {
      if i < |u.writeLog| {
        assert t.writeLog[i] == u.writeLog[i] && t.writeLog[..i + 1] == u.writeLog[..i + 1];
        FullStays(s, before, events, i, |Accepted(u.writeLog[..i + 1])|);
      } else {
        AllAccepted(t);
        assert t.writeLog[..i + 1] == t.writeLog;
      }
    }
  }

  lemma {:induction false} WriteMoments(s: State, events: seq<Event>)
    requires Inv(s) && s.writer.pc.WIdle?
    ensures Ready(s) && Inv(Run(s, events))
    ensures var t := Run(s, events);
            && |s.writeLog| <= |t.writeLog| && s.writeLog == t.writeLog[..|s.writeLog|]
            && ShortWrites(s, events, t.writeLog)
            && (FoundFull(t.writer) ==> FullWhileWriting(s, events, |t.writeLog|, |t.tx.put|))
    decreases |events|
  {
    hide Ready, Inv, Run, Step, FullWhileWriting, ShortWrites, Finds, FoundFull;
    InvReady(s);
    RunKeeps(s, events);
    if events == [] {
      NoWriteYet(s);
    } else {
      var before, e := events[..|events| - 1], events[|events| - 1];
      WriteMoments(s, before);
      assert events == before + [e];
      RunAppend(s, before, e);
      WriterFinds(Run(s, before), e);
      ShortWritesGoOn(s, before, e, Run(s, before), Run(s, events));
    }
  }

  lemma NoWriteYet(s: State)
    requires Ready(s) && s.writer.pc.WIdle?
    ensures Run(s, []) == s && ShortWrites(s, [], s.writeLog) && !FoundFull(s.writer)
  {
  }

  /** There was a moment, while call number `i` was in progress, at which what had been
      accepted was what had been sent and a ring full of bytes. */
  ghost predicate NoRoom(s: State, events: seq<Event>, i: nat, accepted: nat)
    requires Ready(s)
  {
    exists k :: 0 <= k <= |events| &&
      var t := Run(s, events[..k]);
      |t.writeLog| == i && !t.writer.pc.WIdle? && |Sent(s, events[..k])| + |t.tx.buf| - 1 == accepted
  }

  /** A write accepts less than it is given only if, at some moment between its start and
      its return, what it and the calls before it have accepted fills the ring. */
  lemma WriteShortWhenNoRoom(s: State, events: seq<Event>)
    requires Initial(s)
    ensures Ready(s)
    ensures var log := Run(s, events).writeLog;
            forall i :: 0 <= i < |log| && log[i].data != [] && log[i].result < |log[i].data| ==>
              NoRoom(s, events, i, |Accepted(log[..i + 1])|)
  {
    hide Inv, Run, Sent, Accepted;
    InitialInv(s);
    WriteMoments(s, events);
    var log := Run(s, events).writeLog;
    forall i | 0 <= i < |log| && IsShortWrite(log[i])
      ensures NoRoom(s, events, i, |Accepted(log[..i + 1])|)
    {
      var k :| 0 <= k <= |events| &&
        var u := Run(s, events[..k]);
        |u.writeLog| == i && !u.writer.pc.WIdle? && Full(u.tx) && |u.tx.put| == |Accepted(log[..i + 1])|;
      RunBalances(s, events[..k]);
    }
  }

  lemma WriteTook(t: State, i: nat)
    requires Inv(t) && i < |t.writeLog|
    ensures var c := t.writeLog[i];
            && WriteContract(c)
            && Accepted(t.writeLog[..i + 1]) ==
               Accepted(t.writeLog[..i]) + if 0 <= c.result then c.data[..c.result] else []
  {
    assert t.writeLog[i] in t.writeLog;
    assert t.writeLog[..i + 1][..i] == t.writeLog[..i];
  }

  lemma IdleWriter(s: State)
    requires Inv(s) && s.writer.pc.WIdle?
    ensures s.writer == NO_WRITER
  {
  }

  /** The write called next accepts at least as much as there was room for at its call, as
      far as it has data for it. */
  lemma WriteFillsTheRoom(s: State, events: seq<Event>)
    requires Inv(s) && s.writer.pc.WIdle?
    ensures Ready(s)
    ensures var (i, log) := (|s.writeLog|, Run(s, events).writeLog);
            i < |log| ==>
              Min(|log[i].data|, |s.tx.buf| - 1 - Pending(s.tx)) <= if 0 <= log[i].result then log[i].result else 0
  {
    hide Inv, Run, Accepted;
    WriteMoments(s, events);
    var i, log := |s.writeLog|, Run(s, events).writeLog;
    if i < |log| {
      WriteTook(Run(s, events), i);
      IdleWriter(s);
      AllAccepted(s);
      if IsShortWrite(log[i]) {
        var k :| 0 <= k <= |events| &&
          var u := Run(s, events[..k]);
          |u.writeLog| == i && !u.writer.pc.WIdle? && Full(u.tx) && |u.tx.put| == |Accepted(log[..i + 1])|;
        RunGrows(s, events, k);
      }
    }
  }

  /** At some moment of a write in the run, after event number `from`, the bytes sent and a
      ring full of bytes were `accepted` in all. */
  ghost predicate NoRoomSince(start: State, trace: seq<Event>, from: nat, accepted: nat) {
    Ready(start) &&
    exists m :: 0 <= from <= m <= |trace| &&
      !Run(start, trace[..m]).writer.pc.WIdle? && |Sent(start, trace[..m])| + |start.tx.buf| - 1 == accepted
  }

  lemma LastWrite(start: State, trace: seq<Event>, from: nat)
    requires Initial(start) && from <= |trace| && Ready(start)
    requires var (s, t) := (Run(start, trace[..from]), Run(start, trace));
             s.writer.pc.WIdle? && t.writer == NO_WRITER && |t.writeLog| == |s.writeLog| + 1
    ensures var (s, t) := (Run(start, trace[..from]), Run(start, trace));
            var c := t.writeLog[|s.writeLog|];
            && Min(|c.data|, |s.tx.buf| - 1 - Pending(s.tx)) <= (if 0 <= c.result then c.result else 0)
            && (IsShortWrite(c) ==> NoRoomSince(start, trace, from, |t.tx.put|))
  {
    hide Inv, Run, Sent, Initial, Ready;
    var s, t, events := Run(start, trace[..from]), Run(start, trace), trace[from..];
    Later(start, trace, from);
    WriteFillsTheRoom(s, events);
    WriteMoments(s, events);
    AllAccepted(t);
    if IsShortWrite(t.writeLog[|s.writeLog|]) {
      assert t.writeLog[..|t.writeLog|] == t.writeLog;
      var k :| 0 <= k <= |events| &&
        var u := Run(s, events[..k]);
        |u.writeLog| == |s.writeLog| && !u.writer.pc.WIdle? && Full(u.tx) && |u.tx.put| == |Accepted(t.writeLog)|;
      LaterMoment(start, trace, from, k);
    }
  }
}
