/** The driver's routines on their buffers and indices.  Every routine is shown to
    be a run of the state machine, so the theorems about runs hold of them. */
module UartDriver {
  import opened Errno
  import opened UartRing
  import opened UartMachine
  import opened UartSafety
  import opened UartShort
  import opened Words

  const TIOCSTIMEOUT: int := 0x6a01
  const TIOCGCONNECTED: int := 0x6a02

  /** The run has gone on from `before` by steps `step` and interrupts only. */
  ghost predicate Since(before: seq<Event>, trace: seq<Event>, step: Event) {
    && before <= trace
    && forall i :: |before| <= i < |trace| ==> trace[i] == step || trace[i].Irq?
  }

  /** The interrupt routine finds output that the device has space for. */
  predicate Feeds(i: Interrupt) {
    i.Isr? && i.c.wi && 0 < i.c.space
  }

  ghost predicate Served(interrupts: seq<Interrupt>) {
    exists i :: 0 <= i < |interrupts| && Feeds(interrupts[i])
  }

  lemma ServedNext(interrupts: seq<Interrupt>, k: nat)
    requires k < |interrupts|
    ensures Served(interrupts[..k + 1]) <==> Served(interrupts[..k]) || Feeds(interrupts[k])
  {
    if Served(interrupts[..k]) {
      var i :| 0 <= i < k && Feeds(interrupts[..k][i]);
      assert interrupts[..k + 1][i] == interrupts[..k][i];
    }
    assert interrupts[..k + 1][k] == interrupts[k];
  }

  lemma SinceNext(before: seq<Event>, trace: seq<Event>, step: Event, e: Event)
    requires Since(before, trace, step) && (e == step || e.Irq?)
    ensures Since(before, trace + [e], step)
  {
  }

  lemma NoneServed(interrupts: seq<Interrupt>)
    ensures !Served(interrupts[..0]) && interrupts[..|interrupts|] == interrupts
  {
  }

  lemma SinceItself(trace: seq<Event>, step: Event)
    ensures Since(trace, trace, step)
  {
  }

  /** It does so at every point of the script. */
  ghost predicate Feeding(script: seq<seq<Interrupt>>) {
    forall k :: 0 <= k < |script| ==> Served(script[k])
  }

  /** A turn that sends leaves a full ring no longer full. */
  lemma IsrSends(s: State, c: ControlWord, words: seq<DataWord>)
    requires Indexed(s.tx) && RingInv(s.tx) && Indexed(s.rx) && c.wi && 0 < c.space
    ensures var tx := IsrPass(s, c, words).tx;
            && |tx.put| - |tx.got| < |tx.buf| - 1
            && (|s.tx.got| < |tx.got| || |tx.got| == |tx.put|)
  {
    TxLoopSends(s.tx, c.space);
    TxLoopFrame(s.tx, c.space);
  }

  /** Point `k` of a script of length `n` has been used. */
  function Next(k: nat, n: nat): nat {
    if k < n then k + 1 else k
  }

  /** What `write` returns when `done` bytes have been accepted. */
  function WriteValue(done: nat, nonblock: bool): int {
    if done > 0 then done else if nonblock then -EWOULDBLOCK else -EIO
  }

  /** A call has returned `result` and is on record. */
  ghost predicate Recorded(data: seq<Byte>, nonblock: bool, result: int,
                           log: seq<WriteCall>, w: Writer, log': seq<WriteCall>) {
    && w == NO_WRITER
    && log < log' && |log'| == |log| + 1
    && var c := log'[|log|]; c.data == data && c.nonblock == nonblock && c.result == result
  }

  ghost predicate Returned(w: Writer, log: seq<WriteCall>, w': Writer, log': seq<WriteCall>) {
    Recorded(w.data, w.nonblock, WriteValue(w.pos, w.nonblock), log, w', log')
  }

  ghost predicate Path(s: State, events: seq<Event>, path: seq<State>) {
    && |path| == |events| + 1 && path[0] == s
    && (forall i :: 0 <= i < |path| ==> Ready(path[i]))
    && forall i :: 0 <= i < |events| ==> Step(path[i], events[i]) == path[i + 1]
  }

  /** The events lead from `s` to `t`. */
  ghost predicate Reaches(s: State, events: seq<Event>, t: State) {
    exists path :: Path(s, events, path) && path[|events|] == t
  }

  lemma ReachesStep(s: State, events: seq<Event>, t: State, e: Event)
    requires Reaches(s, events, t)
    ensures Ready(t) && Reaches(s, events + [e], Step(t, e))
  {
    var path :| Path(s, events, path) && path[|events|] == t;
    StepReady(t, e);
    assert Path(s, events + [e], path + [Step(t, e)]);
  }

  lemma ReachesKeeps(s: State, events: seq<Event>, t: State)
    requires Inv(s) && Reaches(s, events, t)
    ensures t == Run(s, events) && Inv(t)
  {
    hide Inv, Step;
    var path :| Path(s, events, path) && path[|events|] == t;
    for i := 0 to |events|
      invariant path[i] == Run(s, events[..i])
    {
      assert events[..i + 1] == events[..i] + [events[i]];
      RunAppend(s, events[..i], events[i]);
    }
    assert events[..|events|] == events;
    RunKeeps(s, events);
  }

  /** What a recorded call means for the bytes: exactly the first `result` bytes of its
      data were accepted, none for an error, and a blocking call is short only if it
      saw the host inactive. */
  lemma WriteOutcome(s: State, t: State, data: seq<Byte>, nonblock: bool, result: int)
    requires Inv(s) && Inv(t) && s.writer.pc.WIdle?
    requires Recorded(data, nonblock, result, s.writeLog, t.writer, t.writeLog)
    ensures WriteContract(t.writeLog[|s.writeLog|])
    ensures t.tx.put == s.tx.put + if 0 <= result then data[..result] else []
  {
    assert t.writeLog[..|t.writeLog| - 1] == s.writeLog;
    assert t.writeLog[|s.writeLog|] in t.writeLog;
  }

  /** What `read` returns when it has filled `done` bytes of the buffer. */
  function ReadValue(done: nat, nonblock: bool): int {
    if done > 0 then done else if nonblock then -EWOULDBLOCK else -EIO
  }

  /** A `read` call has returned with `buffer` filled and is on record. */
  ghost predicate ReadRecorded(space: nat, nonblock: bool, buffer: seq<Byte>, log: seq<ReadCall>,
                               r: Reader, log': seq<ReadCall>) {
    && r == NO_READER
    && log < log' && |log'| == |log| + 1
    && var c := log'[|log|];
       && c.space == space && c.nonblock == nonblock && c.bytes == buffer
       && c.result == ReadValue(|buffer|, nonblock)
  }

  /** What a recorded call means for the bytes: the caller has exactly the next bytes of
      the input, none for an error, and a blocking call fails only if it saw the host
      inactive. */
  lemma ReadOutcome(s: State, t: State, space: nat, nonblock: bool, buffer: seq<Byte>)
    requires Inv(s) && Inv(t) && s.reader.pc.RIdle?
    requires ReadRecorded(space, nonblock, buffer, s.readLog, t.reader, t.readLog)
    ensures ReadContract(t.readLog[|s.readLog|])
    ensures t.rx.got == s.rx.got + buffer
  {
    assert t.readLog[..|t.readLog| - 1] == s.readLog;
    assert t.readLog[|s.readLog|] in t.readLog;
  }

  /** A call has left its loops: it is about to enable interrupts if it has read
      something and has returned otherwise. */
  ghost predicate Left(space: nat, nonblock: bool, buffer: seq<Byte>, log: seq<ReadCall>,
                       r: Reader, log': seq<ReadCall>) {
    if buffer != [] then
      && r.pc.REnable? && log' == log
      && r.space == space && r.nonblock == nonblock && r.got == buffer && r.pos == |buffer|
    else ReadRecorded(space, nonblock, buffer, log, r, log')
  }

  ghost predicate Waiting(r: Reader, in_: nat, r': Reader) {
    && r'.pc.RSpinIn? && r'.in_ == in_
    && r'.space == r.space && r'.nonblock == r.nonblock && r'.got == [] && r'.pos == 0
  }

  /** A device left alone by the host answers with the contents of a FIFO. */
  ghost predicate Fifo(words: seq<DataWord>) {
    forall i :: 0 <= i < |words| ==> words[i].Data? && words[i].avail == |words| - 1 - i
  }

  lemma FifoHead(words: seq<DataWord>)
    requires Fifo(words) && words != [] && words[0].Data?
    ensures Fifo(words[1..]) && (words[0].avail > 0 <==> words[1..] != [])
    ensures Bytes(words) == [words[0].b] + Bytes(words[1..])
  {
  }

  /** The bytes sent since `sent0` are the ones the device's FIFO gained since `fifo0`. */
  ghost predicate Fed(fifo0: seq<Byte>, sent0: seq<Byte>, fifo: seq<Byte>, sent: seq<Byte>) {
    sent0 <= sent && fifo == fifo0 + sent[|sent0|..]
  }

  lemma FedTransitive(fifo0: seq<Byte>, sent0: seq<Byte>, fifo1: seq<Byte>, sent1: seq<Byte>,
                      fifo2: seq<Byte>, sent2: seq<Byte>)
    requires Fed(fifo0, sent0, fifo1, sent1) && Fed(fifo1, sent1, fifo2, sent2)
    ensures Fed(fifo0, sent0, fifo2, sent2)
  {
  }

  lemma ReturnedNow(w: Writer, log: seq<WriteCall>)
    ensures Returned(w, log, NO_WRITER, log + [WriteCall(w.data, w.nonblock, WriteResult(w), w.gaveUp)])
  {
  }

  lemma ReadRecordedNow(r: Reader, log: seq<ReadCall>)
    requires r.pos == |r.got|
    ensures ReadRecorded(r.space, r.nonblock, r.got, log, NO_READER,
                         log + [ReadCall(r.space, r.nonblock, ReadResult(r), r.got, r.gaveUp)])
  {
  }

  lemma IsrStep(s: State, c: ControlWord, words: seq<DataWord>)
    requires Ready(s)
    ensures Step(s, Irq(Isr(c, words))) == IsrPass(s, c, words)
  {
  }

  lemma SinceTransitive(a: seq<Event>, b: seq<Event>, c: seq<Event>, step: Event)
    requires Since(a, b, step) && Since(b, c, step)
    ensures Since(a, c, step)
  {
  }

  lemma LeftNow(r: Reader, log: seq<ReadCall>)
    requires r.pos == |r.got|
    ensures r.pos > 0 ==> Left(r.space, r.nonblock, r.got, log, r.(pc := REnable), log)
    ensures r.pos == 0 ==> Left(r.space, r.nonblock, r.got, log, NO_READER,
                                log + [ReadCall(r.space, r.nonblock, ReadResult(r), r.got, r.gaveUp)])
  {
  }

  /** The store to `tx_in`, field by field. */
  lemma PublishStep(s: State)
    requires Ready(s) && s.writer.pc.WPublish?
    ensures var w := s.writer;
            w.pos + w.n <= |w.data| && 0 < |s.tx.buf| && w.in_ + w.n < 2 * |s.tx.buf| &&
            Step(s, WriterStep) ==
            s.(tx := s.tx.(in_ := Wrap(w.in_ + w.n, |s.tx.buf|), put := s.tx.put + w.data[w.pos..w.pos + w.n]),
               writer := w.(pc := WLoadIn, pos := w.pos + w.n))
  {
  }

  /** The store to `rx_out`, field by field. */
  lemma ReleaseStep(s: State)
    requires Ready(s) && s.reader.pc.RRelease?
    ensures var r := s.reader;
            r.pos <= |r.got| && 0 < |s.rx.buf| && r.out + r.n < 2 * |s.rx.buf| &&
            Step(s, ReaderStep) ==
            s.(rx := s.rx.(out := Wrap(r.out + r.n, |s.rx.buf|), got := s.rx.got + r.got[r.pos..]),
               reader := r.(pc := RLoadIn, pos := r.pos + r.n))
  {
  }

  /** The looks after the waits, field by field. */
  lemma RecheckStep(s: State)
    requires Ready(s) && s.writer.pc.WRecheck?
    ensures var w := s.writer;
            Step(s, WriterStep) ==
            if w.out == s.tx.out then
              s.(writer := NO_WRITER, writeLog := s.writeLog + [WriteCall(w.data, w.nonblock, WriteResult(w), w.gaveUp)])
            else s.(writer := w.(pc := WLoadIn))
  {
  }

  lemma ReadRecheckStep(s: State)
    requires Ready(s) && s.reader.pc.RRecheck? && s.reader.pos == 0
    ensures var r := s.reader;
            Step(s, ReaderStep) ==
            if r.in_ == s.rx.in_ then
              s.(reader := NO_READER,
                 readLog := s.readLog + [ReadCall(r.space, r.nonblock, ReadResult(r), r.got, r.gaveUp)])
            else s.(reader := r.(pc := RLoadIn))
  {
  }

  /** Enabling the transmit interrupt, field by field. */
  lemma KickStep(s: State)
    requires Ready(s) && s.writer.pc.WKick?
    ensures var (w, e) := (s.writer, s.irqEnable.(we := true));
            Step(s, WriterStep) ==
            if w.pos < |w.data| && !w.nonblock then
              s.(irqEnable := e, control := e, writer := w.(pc := WSpinOut, kicked := w.pos))
            else
              s.(irqEnable := e, control := e, writer := NO_WRITER,
                 writeLog := s.writeLog + [WriteCall(w.data, w.nonblock, WriteResult(w), w.gaveUp)])
  {
  }

  /** Enabling the receive interrupt, field by field. */
  lemma EnableStep(s: State)
    requires Ready(s) && s.reader.pc.REnable?
    ensures var (r, e) := (s.reader, s.irqEnable.(re := true));
            Step(s, ReaderStep) ==
            s.(irqEnable := e, control := e, reader := NO_READER,
               readLog := s.readLog + [ReadCall(r.space, r.nonblock, ReadResult(r), r.got, r.gaveUp)])
  {
  }

  class JtagUart {
    const rxBuf: array<Byte>
    const txBuf: array<Byte>
    var rxIn: nat
    var rxOut: nat
    var txIn: nat
    var txOut: nat
    var irqEnable: Enable
    var hostInactive: int
    var timeout: int

    // The device: its enable bits, what its data register will answer, and its
    // transmit FIFO with the free space at which it interrupts.
    var devControl: Enable
    var devWords: seq<DataWord>
    var devFifo: seq<Byte>
    const devDepth: nat
    const devThreshold: nat

    // The histories and the calls in progress, as the state machine has them.
    ghost var published: seq<Byte>
    ghost var sent: seq<Byte>
    ghost var taken: seq<Byte>
    ghost var released: seq<Byte>
    ghost var writer: Writer
    ghost var reader: Reader
    ghost var writeLog: seq<WriteCall>
    ghost var readLog: seq<ReadCall>

    // Where the object started and what has happened to it.
    ghost var start: State
    ghost var trace: seq<Event>

    ghost function Tx(): Ring
      reads this`txIn, this`txOut, this`published, this`sent, txBuf
    {
      Ring(txBuf[..], txIn, txOut, published, sent)
    }

    ghost function Rx(): Ring
      reads this`rxIn, this`rxOut, this`taken, this`released, rxBuf
    {
      Ring(rxBuf[..], rxIn, rxOut, taken, released)
    }

    ghost function Abs(): State
      reads this, rxBuf, txBuf
    {
      State(Tx(), Rx(), irqEnable, devControl, hostInactive, timeout, writer, reader, writeLog, readLog)
    }

    /** The object is where its events so far lead from its initial state. */
    ghost predicate Valid()
      reads this, rxBuf, txBuf
    {
      rxBuf != txBuf && Initial(start) && Reaches(start, trace, Abs())
    }

    /** The transmit ring is not full. */
    ghost predicate HasRoom()
      reads this`published, this`sent
    {
      |published| - |sent| < txBuf.Length - 1
    }

    lemma Invariant()
      requires Valid()
      ensures Inv(Abs())
    {
      InitialInv(start);
      ReachesKeeps(start, trace, Abs());
    }

    constructor (len: nat, alarmStarted: bool, depth: nat, threshold: nat)
      requires 2 <= len
      requires 1 <= threshold <= depth
      ensures Valid() && trace == [] && fresh(rxBuf) && fresh(txBuf)
      ensures rxBuf.Length == txBuf.Length == len
      ensures timeout == (if alarmStarted then 10 else 0x7fff_ffff) && hostInactive == 0
      ensures irqEnable == devControl == Enable(true, false)
      ensures devDepth == depth && devThreshold == threshold && devFifo == [] && devWords == []
    {
      rxBuf := new Byte[len];
      txBuf := new Byte[len];
      rxIn, rxOut, txIn, txOut := 0, 0, 0, 0;
      irqEnable, devControl := Enable(true, false), Enable(true, false);
      hostInactive := 0;
      timeout := if alarmStarted then DEFAULT_TIMEOUT else INT_MAX;
      devWords, devFifo, devDepth, devThreshold := [], [], depth, threshold;
      published, sent, taken, released := [], [], [], [];
      writer, reader, writeLog, readLog := NO_WRITER, NO_READER, [], [];
      trace := [];
      new;
      start := Abs();
      assert Path(start, [], [start]);
    }

    // ---------------------------------------------------------------- device registers

    method ReadData() returns (w: DataWord)
      modifies this`devWords
      ensures old(devWords) == [] ==> w == Empty && devWords == []
      ensures old(devWords) != [] ==> w == old(devWords)[0] && devWords == old(devWords)[1..]
    {
      if devWords == [] {
        w := Empty;
      } else {
        w, devWords := devWords[0], devWords[1..];
      }
    }

    method WriteControl()
      modifies this`devControl
      ensures devControl == irqEnable
    {
      devControl := irqEnable;
    }

    function ReadControl(): ControlWord
      reads this
    {
      var space := if |devFifo| <= devDepth then devDepth - |devFifo| else 0;
      ControlWord(devControl.re && devWords != [], devControl.we && devThreshold <= space, space)
    }

    // ---------------------------------------------------------------- interrupt level

    method ReceiveLoop() returns (more: bool)
      requires Indexed(Rx())
      modifies this`rxIn, this`devWords, this`taken, rxBuf
      ensures (Rx(), more) == RxLoop(old(Rx()), old(devWords), true) && devWords == RxLeft(old(Rx()), old(devWords))
      ensures Fifo(old(devWords)) && old(devWords) != [] ==>
                && Fifo(devWords) && (more <==> devWords != [])
                && old(taken) + Bytes(old(devWords)) == taken + Bytes(devWords)
    {
      more := true;
      ghost var r, words0 := Rx(), devWords;
      ghost var fifo := Fifo(devWords) && devWords != [];
      while true
        invariant Indexed(Rx())
        invariant RxLoop(r, words0, true) == RxLoop(Rx(), devWords, more) && RxLeft(r, words0) == RxLeft(Rx(), devWords)
        invariant fifo ==> Fifo(devWords) && (more <==> devWords != [])
        invariant fifo ==> r.put + Bytes(words0) == taken + Bytes(devWords)
        decreases |devWords|
      {
        var next := Wrap(rxIn + 1, rxBuf.Length);
        if next == rxOut {
          break;
        }
        ghost var before, words := Rx(), devWords;
        var data := ReadData();
        if data.Empty? {
          more := false;
          break;
        }
        if fifo {
          FifoHead(words);
          assert (before.put + [data.b]) + Bytes(devWords) == before.put + Bytes(words);
        }
        rxBuf[rxIn] := data.b;
        rxIn := next;
        taken := taken + [data.b];
        more := data.avail > 0;
        assert Rx() == Store(before, data.b);
      }
    }

    method TransmitLoop(space: nat) returns (left: nat)
      requires Indexed(Tx())
      modifies this`txOut, this`devFifo, this`sent
      ensures (Tx(), left) == TxLoop(old(Tx()), space)
      ensures |devFifo| == |old(devFifo)| + space - left
      ensures Fed(old(devFifo), old(sent), devFifo, sent)
    {
      left := space;
      ghost var r, fifo0 := Tx(), devFifo;
      while left > 0 && txOut != txIn
        invariant Indexed(Tx()) && left <= space
        invariant TxLoop(r, space) == TxLoop(Tx(), left)
        invariant |devFifo| == |fifo0| + space - left
        invariant Fed(fifo0, r.got, devFifo, sent)
      {
        ghost var before := Tx();
        devFifo := devFifo + [txBuf[txOut]];
        sent := sent + [txBuf[txOut]];
        txOut := Wrap(txOut + 1, txBuf.Length);
        left := left - 1;
        assert Tx() == Fetch(before);
      }
    }

    method ReceivePass()
      requires Indexed(Rx())
      modifies this`rxIn, this`irqEnable, this`devControl, this`devWords, this`taken, rxBuf
      ensures txBuf != rxBuf ==> Abs() == RxPass(old(Abs()), old(devWords))
      ensures Indexed(Rx())
      ensures Fifo(old(devWords)) && old(devWords) != [] ==>
                && Fifo(devWords) && (devWords != [] ==> !irqEnable.re && !devControl.re)
                && old(taken) + Bytes(old(devWords)) == taken + Bytes(devWords)
    {
      RxLoopFrame(Rx(), devWords, true);
      var more := ReceiveLoop();
      if more {
        irqEnable := irqEnable.(re := false);
        WriteControl();
      }
    }

    method TransmitPass(space: nat)
      requires Indexed(Tx())
      modifies this`txOut, this`irqEnable, this`devControl, this`devFifo, this`sent
      ensures Abs() == TxPass(old(Abs()), space)
      ensures irqEnable.re == old(irqEnable.re) && (devControl.re ==> old(devControl.re || irqEnable.re))
      ensures |devFifo| == |old(devFifo)| + space || !devControl.we
      ensures |devFifo| <= |old(devFifo)| + space
      ensures Fed(old(devFifo), old(sent), devFifo, sent)
    {
      var left := TransmitLoop(space);
      if left > 0 {
        irqEnable := irqEnable.(we := false);
        WriteControl();
      }
    }

    /** One turn of the interrupt routine, for a control register value read before. */
    method IrqPass(c: ControlWord)
      requires rxBuf != txBuf && Indexed(Tx()) && Indexed(Rx())
      modifies this`rxIn, this`txOut, this`irqEnable, this`devControl, this`devWords, this`devFifo,
               this`taken, this`sent, rxBuf
      ensures Abs() == IsrPass(old(Abs()), c, old(devWords))
      ensures !c.ri ==> devWords == old(devWords) && taken == old(taken) && irqEnable.re == old(irqEnable.re)
      ensures c.ri && Fifo(old(devWords)) && old(devWords) != [] ==>
                && Fifo(devWords) && (devWords != [] ==> !devControl.re)
                && old(taken) + Bytes(old(devWords)) == taken + Bytes(devWords)
      ensures c.wi ==> |devFifo| == |old(devFifo)| + c.space || !devControl.we
      ensures |devFifo| <= |old(devFifo)| + c.space
      ensures Fed(old(devFifo), old(sent), devFifo, sent)
    {
      if c.ri {
        ReceivePass();
      }
      if c.wi {
        TransmitPass(c.space);
      }
    }

    method IrqTurn(c: ControlWord)
      requires Valid()
      modifies this`rxIn, this`txOut, this`irqEnable, this`devControl, this`devWords, this`devFifo,
               this`taken, this`sent, this`trace, rxBuf
      ensures Valid() && trace == old(trace) + [Irq(Isr(c, old(devWords)))] && old(sent) <= sent
      ensures !c.ri ==> devWords == old(devWords) && taken == old(taken) && irqEnable.re == old(irqEnable.re)
      ensures c.ri && Fifo(old(devWords)) && old(devWords) != [] ==>
                && Fifo(devWords) && (devWords != [] ==> !devControl.re)
                && old(taken) + Bytes(old(devWords)) == taken + Bytes(devWords)
      ensures c.wi ==> |devFifo| == |old(devFifo)| + c.space || !devControl.we
      ensures |devFifo| <= |old(devFifo)| + c.space
      ensures Fed(old(devFifo), old(sent), devFifo, sent)
      ensures devControl == irqEnable && (old(irqEnable) == old(devControl))
      ensures c.wi && 0 < c.space ==> HasRoom() && (|old(sent)| < |sent| || |sent| == |published|)
    {
      hide Reaches, Initial, Bytes, Fifo, Step;
      Enabled();
      ghost var e := Irq(Isr(c, devWords));
      ReachesStep(start, trace, Abs(), e);
      IsrStep(Abs(), c, devWords);
      if c.wi && 0 < c.space {
        IsrSends(Abs(), c, devWords);
      }
      IrqPass(c);
      trace := trace + [e];
      Enabled();
    }

    /** The device's enable bits are the driver's. */
    lemma Enabled()
      requires Valid()
      ensures devControl == irqEnable && Indexed(Tx()) && Indexed(Rx()) && RingInv(Tx())
    {
      Invariant();
    }

    method QuietTurn(c: ControlWord)
      requires Valid() && Fifo(devWords) && c == ReadControl()
      requires 1 <= devThreshold && |devFifo| <= devDepth
      modifies this`rxIn, this`txOut, this`irqEnable, this`devControl, this`devWords, this`devFifo,
               this`taken, this`sent, this`trace, rxBuf
      ensures Valid() && Fifo(devWords) && |devFifo| <= devDepth
      ensures !ReadControl().ri && (c.wi ==> !ReadControl().wi)
      ensures taken + Bytes(devWords) == old(taken + Bytes(devWords))
      ensures Fed(old(devFifo), old(sent), devFifo, sent)
    {
      hide Valid, Bytes, Fifo;
      IrqTurn(c);
    }

    /** The interrupt routine on a device nobody else touches: it terminates with no
        interrupt pending, every byte it popped is in the ring, every byte it sent
        is in the device's FIFO, and the FIFO is not overrun. */
    method ServeDevice()
      requires Valid() && Fifo(devWords)
      requires 1 <= devThreshold && |devFifo| <= devDepth
      modifies this`rxIn, this`txOut, this`irqEnable, this`devControl, this`devWords, this`devFifo,
               this`taken, this`sent, this`trace, rxBuf
      ensures Valid() && Fifo(devWords)
      ensures var c := ReadControl(); !c.ri && !c.wi
      ensures taken + Bytes(devWords) == old(taken + Bytes(devWords))
      ensures |devFifo| <= devDepth && Fed(old(devFifo), old(sent), devFifo, sent)
    {
      ghost var input, sent0, fifo0 := taken + Bytes(devWords), sent, devFifo;
      var c := ReadControl();
      while c.ri || c.wi
        invariant Valid() && Fifo(devWords) && |devFifo| <= devDepth && c == ReadControl()
        invariant taken + Bytes(devWords) == input
        invariant Fed(fifo0, sent0, devFifo, sent)
        decreases c.ri, c.wi
      {
        ghost var sent1, fifo1 := sent, devFifo;
        QuietTurn(c);
        FedTransitive(fifo0, sent0, fifo1, sent1, devFifo, sent);
        c := ReadControl();
      }
    }

    method OnTimeout(ac: bool)
      modifies this`devControl, this`hostInactive
      ensures Abs() == TimeoutStep(old(Abs()), ac)
    {
      if ac {
        WriteControl();
        hostInactive := 0;
      } else if hostInactive < INT_MAX - 2 {
        hostInactive := hostInactive + 1;
      }
    }

    /** An interrupt that finds the device as its event says. */
    method Interrupted(i: Interrupt)
      requires Valid()
      modifies this`rxIn, this`txOut, this`irqEnable, this`devControl, this`devWords, this`devFifo,
               this`hostInactive, this`taken, this`sent, this`trace, rxBuf
      ensures Valid() && trace == old(trace) + [Irq(i)] && old(sent) <= sent
      ensures Feeds(i) ==> HasRoom() && (|old(sent)| < |sent| || |sent| == |published|)
    {
      if i.Isr? {
        devWords := i.words;
        IrqTurn(i.c);
      } else {
        hide Reaches, Initial, Tx, Rx;
        ReachesStep(start, trace, Abs(), Irq(i));
        OnTimeout(i.ac);
        trace := trace + [Irq(i)];
      }
    }

    // ---------------------------------------------------------------- foreground

    /** The interrupts that happen to come at point `k` of a call. */
    method Interfere(script: seq<seq<Interrupt>>, k: nat) returns (k': nat)
      requires Valid() && k <= |script|
      modifies this`rxIn, this`txOut, this`irqEnable, this`devControl, this`devWords, this`devFifo,
               this`hostInactive, this`taken, this`sent, this`trace, rxBuf
      ensures Valid() && Since(old(trace), trace, WriterStep) && Since(old(trace), trace, ReaderStep)
      ensures k' == Next(k, |script|) && old(sent) <= sent
      ensures k < |script| && Served(script[k]) ==> HasRoom() && (|old(sent)| < |sent| || |sent| == |published|)
    {
      hide Valid, Since, Served, Feeds;
      k' := k;
      ghost var before := trace;
      SinceItself(before, WriterStep);
      SinceItself(before, ReaderStep);
      if k < |script| {
        NoneServed(script[k]);
        for i := 0 to |script[k]|
          invariant Valid() && Since(old(trace), trace, WriterStep) && Since(old(trace), trace, ReaderStep)
          invariant old(sent) <= sent
          invariant Served(script[k][..i]) ==> HasRoom() && (|old(sent)| < |sent| || |sent| == |published|)
        {
          ServedNext(script[k], i);
          SinceNext(before, trace, WriterStep, Irq(script[k][i]));
          SinceNext(before, trace, ReaderStep, Irq(script[k][i]));
          Interrupted(script[k][i]);
        }
        k' := k + 1;
      }
    }

    // ---------------------------------------------------------------- write: its accesses to shared variables

    method LoadTxIn(script: seq<seq<Interrupt>>, k: nat) returns (k': nat, in_: nat)
      requires Valid() && k <= |script| && writer.pc.WLoadIn? && writer.pos < |writer.data|
      modifies this`rxIn, this`txOut, this`irqEnable, this`devControl, this`devWords, this`devFifo,
               this`hostInactive, this`taken, this`sent, this`trace, rxBuf, this`writer
      ensures Valid() && Since(old(trace), trace, WriterStep) && k' == Next(k, |script|)
      ensures writer == old(writer).(pc := WLoadOut, in_ := in_)
    {
      hide Reaches, Initial, Rx;
      k' := Interfere(script, k);
      ReachesStep(start, trace, Abs(), WriterStep);
      in_ := txIn;
      writer := writer.(pc := WLoadOut, in_ := txIn);
      trace := trace + [WriterStep];
    }

    /** The loop test `count > 0` failing. */
    method LeaveFill()
      requires Valid() && writer.pc.WLoadIn? && writer.pos == |writer.data|
      modifies this`writer, this`trace
      ensures Valid() && Since(old(trace), trace, WriterStep)
      ensures writer == old(writer).(pc := WKick)
    {
      hide Reaches, Initial, Rx;
      ReachesStep(start, trace, Abs(), WriterStep);
      writer := writer.(pc := WKick);
      trace := trace + [WriterStep];
    }

    method LoadTxOut(in_: nat, count: nat, script: seq<seq<Interrupt>>, k: nat) returns (k': nat, out: nat, n: nat)
      requires Valid() && k <= |script| && writer.pc.WLoadOut?
      requires writer.in_ == in_ && count == |writer.data| - writer.pos
      modifies this`rxIn, this`txOut, this`irqEnable, this`devControl, this`devWords, this`devFifo,
               this`hostInactive, this`taken, this`sent, this`trace, rxBuf, this`writer
      ensures Valid() && Since(old(trace), trace, WriterStep) && k' == Next(k, |script|) && n <= count
      ensures if n == 0 then writer == old(writer).(pc := WKick, out := out)
              else writer == old(writer).(pc := WCopy, out := out, n := n, copied := 0)
      ensures k < |script| && Served(script[k]) && 0 < count ==> 0 < n
    {
      hide Reaches, Initial, Rx;
      k' := Interfere(script, k);
      if HasRoom() {
        RoomAtLoad();
      }
      ReachesStep(start, trace, Abs(), WriterStep);
      out := txOut;
      n := Min(WriteRoom(in_, out, txBuf.Length), count);
      writer := if n == 0 then writer.(pc := WKick, out := txOut)
                else writer.(pc := WCopy, out := txOut, n := n, copied := 0);
      trace := trace + [WriterStep];
    }

    lemma RoomAtLoad()
      requires Valid() && writer.pc.WLoadOut? && HasRoom()
      ensures 0 < WriteRoom(writer.in_, txOut, txBuf.Length)
    {
      Invariant();
      WriteRoomExact(Tx());
    }

    method CopyByteOut(i: nat, b: Byte, script: seq<seq<Interrupt>>, k: nat) returns (k': nat)
      requires Valid() && k <= |script|
      requires writer.pc.WCopy? && writer.copied < writer.n && writer.pos + writer.n <= |writer.data|
      requires i == writer.in_ + writer.copied && b == writer.data[writer.pos + writer.copied]
      modifies this`rxIn, this`txOut, this`irqEnable, this`devControl, this`devWords, this`devFifo,
               this`hostInactive, this`taken, this`sent, this`trace, rxBuf, this`writer, txBuf
      ensures Valid() && Since(old(trace), trace, WriterStep) && k' == Next(k, |script|)
      ensures writer == old(writer).(pc := if old(writer).copied + 1 == old(writer).n then WPublish else WCopy,
                                     copied := old(writer).copied + 1)
    {
      hide Reaches, Initial, Rx;
      k' := Interfere(script, k);
      ReachesStep(start, trace, Abs(), WriterStep);
      ghost var w, before := writer, txBuf[..];
      txBuf[i] := b;
      writer := w.(pc := if w.copied + 1 == w.n then WPublish else WCopy, copied := w.copied + 1);
      assert txBuf[..] == before[i := b];
      trace := trace + [WriterStep];
    }

    /** The store itself. */
    method SetTxIn(in_: nat, n: nat)
      requires Valid() && writer.pc.WPublish? && writer.in_ == in_ && writer.n == n
      modifies this`trace, this`writer, this`txIn, this`published
      ensures Valid() && trace == old(trace) + [WriterStep]
      ensures writer == old(writer).(pc := WLoadIn, pos := old(writer).pos + n)
    {
      hide Reaches, Initial, Ready, Step, Rx, Wrap;
      ReachesStep(start, trace, Abs(), WriterStep);
      PublishStep(Abs());
      ghost var w := writer;
      txIn := Wrap(in_ + n, txBuf.Length);
      published := published + w.data[w.pos..w.pos + n];
      writer := w.(pc := WLoadIn, pos := w.pos + n);
      trace := trace + [WriterStep];
    }

    method StoreTxIn(in_: nat, n: nat, script: seq<seq<Interrupt>>, k: nat) returns (k': nat)
      requires Valid() && k <= |script| && writer.pc.WPublish? && writer.in_ == in_ && writer.n == n
      modifies this`rxIn, this`txOut, this`irqEnable, this`devControl, this`devWords, this`devFifo,
               this`hostInactive, this`taken, this`sent, this`trace, rxBuf, this`writer, this`txIn, this`published
      ensures Valid() && Since(old(trace), trace, WriterStep) && k' == Next(k, |script|)
      ensures writer == old(writer).(pc := WLoadIn, pos := old(writer).pos + n)
    {
      hide Valid;
      k' := Interfere(script, k);
      SetTxIn(in_, n);
    }

    /** Setting the enable bit and the device register, with interrupts disabled. */
    method SetTxEnable()
      requires Valid() && writer.pc.WKick?
      modifies this`irqEnable, this`devControl, this`trace, this`writer, this`writeLog
      ensures Valid() && trace == old(trace) + [WriterStep]
      ensures if old(writer).pos < |old(writer).data| && !old(writer).nonblock then
                writer == old(writer).(pc := WSpinOut, kicked := old(writer).pos) && writeLog == old(writeLog)
              else Returned(old(writer), old(writeLog), writer, writeLog)
    {
      hide Reaches, Initial, Ready, Step, Returned, WriteResult, Tx, Rx;
      ReachesStep(start, trace, Abs(), WriterStep);
      KickStep(Abs());
      ReturnedNow(writer, writeLog);
      ghost var w := writer;
      irqEnable := irqEnable.(we := true);
      WriteControl();
      if w.pos < |w.data| && !w.nonblock {
        writer := w.(pc := WSpinOut, kicked := w.pos);
      } else {
        writer, writeLog := NO_WRITER, writeLog + [WriteCall(w.data, w.nonblock, WriteResult(w), w.gaveUp)];
      }
      trace := trace + [WriterStep];
    }

    method EnableTx(script: seq<seq<Interrupt>>, k: nat) returns (k': nat)
      requires Valid() && k <= |script| && writer.pc.WKick?
      modifies this`rxIn, this`txOut, this`irqEnable, this`devControl, this`devWords, this`devFifo,
               this`hostInactive, this`taken, this`sent, this`trace, rxBuf, this`writer, this`writeLog
      ensures Valid() && Since(old(trace), trace, WriterStep) && k' == Next(k, |script|)
      ensures if old(writer).pos < |old(writer).data| && !old(writer).nonblock then
                writer == old(writer).(pc := WSpinOut, kicked := old(writer).pos) && writeLog == old(writeLog)
              else Returned(old(writer), old(writeLog), writer, writeLog)
    {
      hide Valid;
      k' := Interfere(script, k);
      SetTxEnable();
    }

    method TestTxOut(out: nat, script: seq<seq<Interrupt>>, k: nat) returns (k': nat, same: bool)
      requires Valid() && k <= |script| && writer.pc.WSpinOut? && writer.out == out
      modifies this`rxIn, this`txOut, this`irqEnable, this`devControl, this`devWords, this`devFifo,
               this`hostInactive, this`taken, this`sent, this`trace, rxBuf, this`writer
      ensures Valid() && Since(old(trace), trace, WriterStep) && k' == Next(k, |script|)
      ensures writer == old(writer).(pc := if same then WSpinHost else WRecheck) && (same <==> out == txOut)
    {
      hide Reaches, Initial, Rx;
      k' := Interfere(script, k);
      ReachesStep(start, trace, Abs(), WriterStep);
      same := out == txOut;
      writer := writer.(pc := if same then WSpinHost else WRecheck);
      trace := trace + [WriterStep];
    }

    method WriterTestHost(script: seq<seq<Interrupt>>, k: nat) returns (k': nat, present: bool)
      requires Valid() && k <= |script| && writer.pc.WSpinHost?
      modifies this`rxIn, this`txOut, this`irqEnable, this`devControl, this`devWords, this`devFifo,
               this`hostInactive, this`taken, this`sent, this`trace, rxBuf, this`writer
      ensures Valid() && Since(old(trace), trace, WriterStep) && k' == Next(k, |script|)
      ensures writer == if present then old(writer).(pc := WSpinOut) else old(writer).(pc := WRecheck, gaveUp := true)
      ensures present <==> hostInactive < timeout
    {
      hide Reaches, Initial, Tx, Rx;
      k' := Interfere(script, k);
      ReachesStep(start, trace, Abs(), WriterStep);
      present := hostInactive < timeout;
      writer := if present then writer.(pc := WSpinOut) else writer.(pc := WRecheck, gaveUp := true);
      trace := trace + [WriterStep];
    }

    method RecheckTxOut(out: nat, script: seq<seq<Interrupt>>, k: nat) returns (k': nat, same: bool)
      requires Valid() && k <= |script| && writer.pc.WRecheck? && writer.out == out
      modifies this`rxIn, this`txOut, this`irqEnable, this`devControl, this`devWords, this`devFifo,
               this`hostInactive, this`taken, this`sent, this`trace, rxBuf, this`writer, this`writeLog
      ensures Valid() && Since(old(trace), trace, WriterStep) && k' == Next(k, |script|)
      ensures if same then Returned(old(writer), old(writeLog), writer, writeLog)
              else writer == old(writer).(pc := WLoadIn) && writeLog == old(writeLog)
    {
      hide Reaches, Initial, Ready, Step, Rx, Returned, WriteResult;
      k' := Interfere(script, k);
      ReachesStep(start, trace, Abs(), WriterStep);
      RecheckStep(Abs());
      same := out == txOut;
      ghost var w := writer;
      ReturnedNow(w, writeLog);
      if same {
        writer, writeLog := NO_WRITER, writeLog + [WriteCall(w.data, w.nonblock, WriteResult(w), w.gaveUp)];
      } else {
        writer := w.(pc := WLoadIn);
      }
      trace := trace + [WriterStep];
    }

    // ---------------------------------------------------------------- write

    /** `memcpy(sp->tx_buf + in, ptr, n)` */
    method CopyOut(data: seq<Byte>, ptr: nat, in_: nat, n: nat, script: seq<seq<Interrupt>>, k: nat)
      returns (k': nat)
      requires Valid() && k <= |script| && writer.pc.WCopy? && writer.data == data && writer.pos == ptr
      requires writer.in_ == in_ && writer.n == n && 0 < n && writer.copied == 0 && ptr + n <= |data|
      modifies this`rxIn, this`txOut, this`irqEnable, this`devControl, this`devWords, this`devFifo,
               this`hostInactive, this`taken, this`sent, this`trace, rxBuf, this`writer, txBuf
      ensures Valid() && Since(old(trace), trace, WriterStep) && k <= k' <= |script| && k' <= k + n
      ensures writer == old(writer).(pc := WPublish, copied := n)
    {
      hide Valid;
      k' := k;
      ghost var w, events := writer, trace;
      for i := 0 to n
        invariant Valid() && Since(events, trace, WriterStep) && k <= k' <= |script| && k' <= k + i
        invariant writer == w.(pc := if i == n then WPublish else WCopy, copied := i)
      {
        k' := CopyByteOut(in_ + i, data[ptr + i], script, k');
      }
    }

    /** One turn of the copying loop; `full` when there was no room. */
    method FillOnce(data: seq<Byte>, start_: nat, script: seq<seq<Interrupt>>, k: nat)
      returns (k': nat, ptr: nat, out: nat, full: bool)
      requires Valid() && k <= |script| && writer.pc.WLoadIn? && writer.data == data && writer.pos == start_ < |data|
      modifies this`rxIn, this`txOut, this`irqEnable, this`devControl, this`devWords, this`devFifo,
               this`hostInactive, this`taken, this`sent, this`trace, rxBuf, this`writer, this`txIn, this`published, txBuf
      ensures Valid() && Since(old(trace), trace, WriterStep) && k <= k' <= |script|
      ensures writer.data == data && writer.nonblock == old(writer).nonblock && writer.pos == ptr <= |data|
      ensures k' <= k + (ptr - start_) + 3 && (Feeding(script) && k + 1 < |script| ==> !full)
      ensures if full then writer.pc.WKick? && writer.out == out && ptr == start_ else writer.pc.WLoadIn? && start_ < ptr
    {
      hide Valid;
      ptr := start_;
      var in_, n;
      k', in_ := LoadTxIn(script, k);
      k', out, n := LoadTxOut(in_, |data| - ptr, script, k');
      full := n == 0;
      if !full {
        k' := CopyOut(data, ptr, in_, n, script, k');
        ptr := ptr + n;
        k' := StoreTxIn(in_, n, script, k');
      }
    }

    /** The copying loop: `while (count > 0)`, left early when the ring is full. */
    method Fill(data: seq<Byte>, start_: nat, script: seq<seq<Interrupt>>, k: nat)
      returns (k': nat, ptr: nat, out: nat)
      requires Valid() && k <= |script| && writer.pc.WLoadIn? && writer.data == data && writer.pos == start_ <= |data|
      modifies this`rxIn, this`txOut, this`irqEnable, this`devControl, this`devWords, this`devFifo,
               this`hostInactive, this`taken, this`sent, this`trace, rxBuf, this`writer, this`txIn, this`published, txBuf
      ensures Valid() && Since(old(trace), trace, WriterStep) && k <= k' <= |script|
      ensures writer.data == data && writer.nonblock == old(writer).nonblock && writer.pos == ptr <= |data|
      ensures Feeding(script) && k + 4 * (|data| - start_) <= |script| ==> ptr == |data|
      ensures writer.pc.WKick? && (ptr < |data| ==> writer.out == out)
    {
      hide Valid;
      k', ptr, out := k, start_, 0;
      ghost var w, events := writer, trace;
      while ptr < |data|
        invariant Valid() && Since(events, trace, WriterStep) && k <= k' <= |script|
        invariant writer.data == data && writer.nonblock == w.nonblock && writer.pos == ptr <= |data|
        invariant writer.pc.WLoadIn?
        invariant start_ <= ptr && k' + 4 * (|data| - ptr) <= k + 4 * (|data| - start_)
      {
        var full;
        k', ptr, out, full := FillOnce(data, ptr, script, k');
        if full {
          return;
        }
      }
      LeaveFill();
    }

    /** The waiting loop.  `ended` when the script has no more interrupts to offer and
        the call is still waiting. */
    method AwaitRoom(out: nat, script: seq<seq<Interrupt>>, k: nat) returns (k': nat, ended: bool)
      requires Valid() && k <= |script| && writer.pc.WSpinOut? && writer.out == out
      modifies this`rxIn, this`txOut, this`irqEnable, this`devControl, this`devWords, this`devFifo,
               this`hostInactive, this`taken, this`sent, this`trace, rxBuf, this`writer
      ensures Valid() && Since(old(trace), trace, WriterStep) && k <= k' <= |script|
      ensures writer.data == old(writer).data && writer.nonblock == old(writer).nonblock
      ensures writer.pos == old(writer).pos && writer.out == out
      ensures if ended then writer.pc.WSpinOut? && k' == |script| else writer.pc.WRecheck? && k < k'
      ensures !ended ==> txOut != out || timeout <= hostInactive
    {
      hide Valid;
      k', ended := k, false;
      ghost var w, events := writer, trace;
      while true
        invariant Valid() && Since(events, trace, WriterStep) && k <= k' <= |script| && !ended
        invariant writer == w
        decreases |script| - k'
      {
        if k' == |script| {
          ended := true;
          return;
        }
        var same, present;
        k', same := TestTxOut(out, script, k');
        if !same {
          return;
        }
        k', present := WriterTestHost(script, k');
        if !present {
          return;
        }
      }
    }

    method StartWriting(data: seq<Byte>, nonblock: bool)
      requires Valid() && writer.pc.WIdle?
      modifies this`writer, this`trace
      ensures Valid() && trace == old(trace) + [CallWrite(data, nonblock)]
      ensures writer == NO_WRITER.(pc := WLoadIn, data := data, nonblock := nonblock)
    {
      hide Reaches, Initial, Rx;
      ReachesStep(start, trace, Abs(), CallWrite(data, nonblock));
      writer := NO_WRITER.(pc := WLoadIn, data := data, nonblock := nonblock);
      trace := trace + [CallWrite(data, nonblock)];
    }

    /** One turn of the outer loop: the call returns, waits for the script to go on, or
        goes round again. */
    method WriteOnce(data: seq<Byte>, nonblock: bool, start_: nat, script: seq<seq<Interrupt>>, k: nat)
      returns (k': nat, ptr: nat, returned: bool, ended: bool)
      requires Valid() && k <= |script|
      requires writer.pc.WLoadIn? && writer.data == data && writer.nonblock == nonblock && writer.pos == start_ <= |data|
      modifies this`rxIn, this`txOut, this`irqEnable, this`devControl, this`devWords, this`devFifo,
               this`hostInactive, this`taken, this`sent, this`trace, rxBuf,
               this`writer, this`txIn, this`published, this`writeLog, txBuf
      ensures Valid() && Since(old(trace), trace, WriterStep) && k <= k' <= |script| && ptr <= |data|
      ensures ended ==> !nonblock
      ensures Feeding(script) && k + 4 * (|data| - start_) <= |script| ==> returned && ptr == |data|
      ensures returned ==> !ended && Recorded(data, nonblock, WriteValue(ptr, nonblock), old(writeLog), writer, writeLog)
      ensures !returned ==>
                && writeLog == old(writeLog)
                && writer.data == data && writer.nonblock == nonblock && writer.pos == ptr
                && (if ended then writer.pc.WSpinOut? else writer.pc.WLoadIn? && k < k')
    {
      hide Valid;
      var out;
      k', ptr, out := Fill(data, start_, script, k);
      k' := EnableTx(script, k');
      returned, ended := ptr == |data| || nonblock, false;
      if !returned {
        k', ended := AwaitRoom(out, script, k');
        if !ended {
          k', returned := RecheckTxOut(out, script, k');
        }
      }
    }

    /** `write`, with the interrupts of `script` arriving between its accesses to shared
        variables.  No result means it is still waiting when the script ends. */
    method Write(data: seq<Byte>, nonblock: bool, script: seq<seq<Interrupt>>) returns (result: Option<int>)
      requires Valid() && writer.pc.WIdle?
      modifies this`rxIn, this`txOut, this`irqEnable, this`devControl, this`devWords, this`devFifo,
               this`hostInactive, this`taken, this`sent, this`trace, rxBuf,
               this`writer, this`txIn, this`published, this`writeLog, txBuf
      ensures Valid() && Since(old(trace) + [CallWrite(data, nonblock)], trace, WriterStep)
      ensures result.None? ==> writer.pc.WSpinOut? && writer.data == data && writeLog == old(writeLog)
      ensures Feeding(script) && 4 * |data| <= |script| ==> result == Some(WriteValue(|data|, nonblock))
      ensures nonblock ==> result.Some?
      ensures result.Some? ==> Recorded(data, nonblock, result.value, old(writeLog), writer, writeLog)
      ensures result.Some? ==>
                Min(|data|, txBuf.Length - 1 - old(|published| - |sent|)) <=
                if 0 < result.value then result.value else 0
      ensures result.Some? && data != [] && result.value < |data| ==>
                NoRoomSince(start, trace, |old(trace)|, |published|)
    {
      hide Valid, Recorded, NoRoomSince;
      Now();
      ghost var s := Abs();
      StartWriting(data, nonblock);
      ghost var events, log := trace, writeLog;
      var k: nat, ptr: nat, returned, ended := 0, 0, false, false;
      while !returned
        invariant Valid() && Since(events, trace, WriterStep) && k <= |script| && ptr <= |data|
        invariant returned ==> Recorded(data, nonblock, WriteValue(ptr, nonblock), log, writer, writeLog)
        invariant !returned ==>
                    && writer.pc.WLoadIn? && writer.data == data && writer.nonblock == nonblock
                    && writer.pos == ptr && writeLog == log
        invariant Feeding(script) && 4 * |data| <= |script| ==> if returned then ptr == |data| else k == 0 && ptr == 0
        decreases |script| - k, !returned
      {
        k, ptr, returned, ended := WriteOnce(data, nonblock, ptr, script, k);
        if ended {
          return None;
        }
      }
      result := Some(WriteValue(ptr, nonblock));
      SinceCall(old(trace), CallWrite(data, nonblock), WriterStep);
      WriteEnds(old(trace), s, data, nonblock, result.value);
    }

    lemma SinceCall(before: seq<Event>, call: Event, step: Event)
      requires Since(before + [call], trace, step)
      ensures before <= trace && trace[..|before|] == before
    {
    }

    /** What a finished write tells of the ring. */
    lemma WriteEnds(before: seq<Event>, s: State, data: seq<Byte>, nonblock: bool, result: int)
      requires Valid() && before <= trace && trace[..|before|] == before
      requires Ready(start) && s == Run(start, before) && s.writer.pc.WIdle?
      requires Recorded(data, nonblock, result, s.writeLog, writer, writeLog)
      ensures Min(|data|, |s.tx.buf| - 1 - Pending(s.tx)) <= if 0 < result then result else 0
      ensures data != [] && result < |data| ==> NoRoomSince(start, trace, |before|, |published|)
    {
      hide Run, NoRoomSince, Reaches, Ready;
      Now();
      LastWrite(start, trace, |before|);
    }

    // ---------------------------------------------------------------- read: its accesses to shared variables

    method LoadRxIn(script: seq<seq<Interrupt>>, k: nat) returns (k': nat, in_: nat)
      requires Valid() && k <= |script| && reader.pc.RLoadIn? && reader.pos < reader.space
      modifies this`rxIn, this`txOut, this`irqEnable, this`devControl, this`devWords, this`devFifo,
               this`hostInactive, this`taken, this`sent, this`trace, rxBuf, this`reader
      ensures Valid() && Since(old(trace), trace, ReaderStep) && k' == Next(k, |script|)
      ensures reader == old(reader).(pc := RLoadOut, in_ := in_, seen := reader.seen)
    {
      hide Reaches, Initial, Tx;
      k' := Interfere(script, k);
      ReachesStep(start, trace, Abs(), ReaderStep);
      in_ := rxIn;
      reader := reader.(pc := RLoadOut, in_ := rxIn, seen := |taken|);
      trace := trace + [ReaderStep];
    }

    method LoadRxOut(in_: nat, space: nat, script: seq<seq<Interrupt>>, k: nat) returns (k': nat, out: nat, n: nat)
      requires Valid() && k <= |script| && reader.pc.RLoadOut?
      requires reader.in_ == in_ && space == reader.space - reader.pos && reader.pos == |reader.got|
      modifies this`rxIn, this`txOut, this`irqEnable, this`devControl, this`devWords, this`devFifo,
               this`hostInactive, this`taken, this`sent, this`trace, rxBuf, this`reader, this`readLog
      ensures Valid() && Since(old(trace), trace, ReaderStep) && k' == Next(k, |script|) && n <= space
      ensures 0 < n ==> reader == old(reader).(pc := RCopy, out := out, n := n) && readLog == old(readLog)
      ensures n == 0 && (0 < old(reader).pos || old(reader).nonblock) ==>
                Left(old(reader).space, old(reader).nonblock, old(reader).got, old(readLog), reader, readLog)
      ensures n == 0 && 0 == old(reader).pos && !old(reader).nonblock ==>
                reader == old(reader).(pc := RSpinIn, out := out) && readLog == old(readLog)
    {
      hide Reaches, Initial, Tx, Left, ReadResult;
      k' := Interfere(script, k);
      ReachesStep(start, trace, Abs(), ReaderStep);
      out := rxOut;
      n := Min(ReadRoom(in_, out, rxBuf.Length), space);
      ghost var r := reader;
      LeftNow(r, readLog);
      if n > 0 {
        reader := r.(pc := RCopy, out := rxOut, n := n);
      } else if r.pos > 0 {
        reader := r.(pc := REnable);
      } else if r.nonblock {
        reader, readLog := NO_READER, readLog + [ReadCall(r.space, r.nonblock, ReadResult(r), r.got, r.gaveUp)];
      } else {
        reader := r.(pc := RSpinIn, out := rxOut);
      }
      trace := trace + [ReaderStep];
    }

    method CopyByteIn(i: nat, script: seq<seq<Interrupt>>, k: nat) returns (k': nat, b: Byte)
      requires Valid() && k <= |script| && reader.pc.RCopy? && reader.pos <= |reader.got|
      requires i == reader.out + (|reader.got| - reader.pos)
      modifies this`rxIn, this`txOut, this`irqEnable, this`devControl, this`devWords, this`devFifo,
               this`hostInactive, this`taken, this`sent, this`trace, rxBuf, this`reader
      ensures Valid() && Since(old(trace), trace, ReaderStep) && k' == Next(k, |script|)
      ensures var r := old(reader);
              reader == r.(pc := if |r.got| + 1 == r.pos + r.n then RRelease else RCopy, got := r.got + [b])
    {
      hide Reaches, Initial, Tx;
      k' := Interfere(script, k);
      ReachesStep(start, trace, Abs(), ReaderStep);
      b := rxBuf[i];
      ghost var r := reader;
      reader := r.(pc := if |r.got| + 1 == r.pos + r.n then RRelease else RCopy, got := r.got + [b]);
      trace := trace + [ReaderStep];
    }

    /** The store itself. */
    method SetRxOut(out: nat, n: nat)
      requires Valid() && reader.pc.RRelease? && reader.out == out && reader.n == n
      modifies this`trace, this`reader, this`rxOut, this`released
      ensures Valid() && trace == old(trace) + [ReaderStep]
      ensures reader == old(reader).(pc := RLoadIn, pos := old(reader).pos + n)
    {
      hide Reaches, Initial, Ready, Step, Tx, Wrap;
      ReachesStep(start, trace, Abs(), ReaderStep);
      ReleaseStep(Abs());
      ghost var r := reader;
      rxOut := Wrap(out + n, rxBuf.Length);
      released := released + r.got[r.pos..];
      reader := r.(pc := RLoadIn, pos := r.pos + n);
      trace := trace + [ReaderStep];
    }

    method StoreRxOut(out: nat, n: nat, script: seq<seq<Interrupt>>, k: nat) returns (k': nat)
      requires Valid() && k <= |script| && reader.pc.RRelease? && reader.out == out && reader.n == n
      modifies this`rxIn, this`txOut, this`irqEnable, this`devControl, this`devWords, this`devFifo,
               this`hostInactive, this`taken, this`sent, this`trace, rxBuf, this`reader, this`rxOut, this`released
      ensures Valid() && Since(old(trace), trace, ReaderStep) && k' == Next(k, |script|)
      ensures reader == old(reader).(pc := RLoadIn, pos := old(reader).pos + n)
    {
      hide Valid;
      k' := Interfere(script, k);
      SetRxOut(out, n);
    }

    /** The loop test `space > 0` failing. */
    method LeaveTake()
      requires Valid() && reader.pc.RLoadIn? && reader.pos == reader.space && reader.pos == |reader.got|
      modifies this`reader, this`readLog, this`trace
      ensures Valid() && Since(old(trace), trace, ReaderStep)
      ensures Left(old(reader).space, old(reader).nonblock, old(reader).got, old(readLog), reader, readLog)
    {
      hide Reaches, Initial, Tx, Left, ReadResult;
      ReachesStep(start, trace, Abs(), ReaderStep);
      ghost var r := reader;
      LeftNow(r, readLog);
      if r.pos > 0 {
        reader := r.(pc := REnable);
      } else {
        reader, readLog := NO_READER, readLog + [ReadCall(r.space, r.nonblock, ReadResult(r), r.got, r.gaveUp)];
      }
      trace := trace + [ReaderStep];
    }

    method TestRxIn(in_: nat, script: seq<seq<Interrupt>>, k: nat) returns (k': nat, same: bool)
      requires Valid() && k <= |script| && reader.pc.RSpinIn? && reader.in_ == in_
      modifies this`rxIn, this`txOut, this`irqEnable, this`devControl, this`devWords, this`devFifo,
               this`hostInactive, this`taken, this`sent, this`trace, rxBuf, this`reader
      ensures Valid() && Since(old(trace), trace, ReaderStep) && k' == Next(k, |script|)
      ensures reader == old(reader).(pc := if same then RSpinHost else RRecheck) && (same <==> in_ == rxIn)
    {
      hide Reaches, Initial, Tx;
      k' := Interfere(script, k);
      ReachesStep(start, trace, Abs(), ReaderStep);
      same := in_ == rxIn;
      reader := reader.(pc := if same then RSpinHost else RRecheck);
      trace := trace + [ReaderStep];
    }

    method ReaderTestHost(script: seq<seq<Interrupt>>, k: nat) returns (k': nat, present: bool)
      requires Valid() && k <= |script| && reader.pc.RSpinHost?
      modifies this`rxIn, this`txOut, this`irqEnable, this`devControl, this`devWords, this`devFifo,
               this`hostInactive, this`taken, this`sent, this`trace, rxBuf, this`reader
      ensures Valid() && Since(old(trace), trace, ReaderStep) && k' == Next(k, |script|)
      ensures reader == if present then old(reader).(pc := RSpinIn) else old(reader).(pc := RRecheck, gaveUp := true)
      ensures present <==> hostInactive < timeout
    {
      hide Reaches, Initial, Tx, Rx;
      k' := Interfere(script, k);
      ReachesStep(start, trace, Abs(), ReaderStep);
      present := hostInactive < timeout;
      reader := if present then reader.(pc := RSpinIn) else reader.(pc := RRecheck, gaveUp := true);
      trace := trace + [ReaderStep];
    }

    method RecheckRxIn(in_: nat, script: seq<seq<Interrupt>>, k: nat) returns (k': nat, same: bool)
      requires Valid() && k <= |script| && reader.pc.RRecheck? && reader.in_ == in_ && reader.got == [] && reader.pos == 0
      modifies this`rxIn, this`txOut, this`irqEnable, this`devControl, this`devWords, this`devFifo,
               this`hostInactive, this`taken, this`sent, this`trace, rxBuf, this`reader, this`readLog
      ensures Valid() && Since(old(trace), trace, ReaderStep) && k' == Next(k, |script|)
      ensures if same then Left(old(reader).space, old(reader).nonblock, old(reader).got, old(readLog), reader, readLog)
              else reader == old(reader).(pc := RLoadIn) && readLog == old(readLog)
    {
      hide Reaches, Initial, Ready, Step, Tx, Left, ReadResult;
      k' := Interfere(script, k);
      ReachesStep(start, trace, Abs(), ReaderStep);
      ReadRecheckStep(Abs());
      same := in_ == rxIn;
      ghost var r := reader;
      LeftNow(r, readLog);
      if same {
        reader, readLog := NO_READER, readLog + [ReadCall(r.space, r.nonblock, ReadResult(r), r.got, r.gaveUp)];
      } else {
        reader := r.(pc := RLoadIn);
      }
      trace := trace + [ReaderStep];
    }

    /** Setting the enable bit and the device register, with interrupts disabled. */
    method SetRxEnable()
      requires Valid() && reader.pc.REnable? && reader.pos == |reader.got|
      modifies this`irqEnable, this`devControl, this`trace, this`reader, this`readLog
      ensures Valid() && trace == old(trace) + [ReaderStep]
      ensures ReadRecorded(old(reader).space, old(reader).nonblock, old(reader).got, old(readLog), reader, readLog)
    {
      hide Reaches, Initial, Ready, Step, ReadRecorded, ReadResult, Tx, Rx;
      ReachesStep(start, trace, Abs(), ReaderStep);
      EnableStep(Abs());
      ReadRecordedNow(reader, readLog);
      ghost var r := reader;
      irqEnable := irqEnable.(re := true);
      WriteControl();
      reader, readLog := NO_READER, readLog + [ReadCall(r.space, r.nonblock, ReadResult(r), r.got, r.gaveUp)];
      trace := trace + [ReaderStep];
    }

    // ---------------------------------------------------------------- read

    /** `memcpy(ptr, sp->rx_buf + out, n)` */
    method CopyIn(got: seq<Byte>, out: nat, n: nat, script: seq<seq<Interrupt>>, k: nat)
      returns (k': nat, got': seq<Byte>)
      requires Valid() && k <= |script| && reader.pc.RCopy? && reader.got == got && reader.pos == |got|
      requires reader.out == out && reader.n == n && 0 < n
      modifies this`rxIn, this`txOut, this`irqEnable, this`devControl, this`devWords, this`devFifo,
               this`hostInactive, this`taken, this`sent, this`trace, rxBuf, this`reader
      ensures Valid() && Since(old(trace), trace, ReaderStep) && k <= k' <= |script|
      ensures reader == old(reader).(pc := RRelease, got := got') && |got'| == |got| + n
    {
      hide Valid;
      k', got' := k, got;
      ghost var r, events := reader, trace;
      for i := 0 to n
        invariant Valid() && Since(events, trace, ReaderStep) && k <= k' <= |script|
        invariant |got'| == |got| + i
        invariant reader == r.(pc := if i == n then RRelease else RCopy, got := got')
      {
        var b;
        k', b := CopyByteIn(out + i, script, k');
        got' := got' + [b];
      }
    }

    /** One turn of the taking loop; `empty` when there was nothing to take. */
    method TakeOnce(space: nat, got: seq<Byte>, script: seq<seq<Interrupt>>, k: nat)
      returns (k': nat, got': seq<Byte>, in_: nat, empty: bool)
      requires Valid() && k <= |script| && reader.pc.RLoadIn?
      requires reader.space == space && reader.got == got && reader.pos == |got| < space
      modifies this`rxIn, this`txOut, this`irqEnable, this`devControl, this`devWords, this`devFifo,
               this`hostInactive, this`taken, this`sent, this`trace, rxBuf,
               this`reader, this`readLog, this`rxOut, this`released
      ensures Valid() && Since(old(trace), trace, ReaderStep) && k <= k' <= |script|
      ensures !empty ==>
                && readLog == old(readLog) && reader.pc.RLoadIn? && reader.space == space
                && reader.nonblock == old(reader).nonblock && reader.got == got' && reader.pos == |got'| <= space
                && |got| < |got'|
      ensures empty ==> got' == got
      ensures empty ==>
                if got != [] || old(reader).nonblock then
                  Left(space, old(reader).nonblock, got, old(readLog), reader, readLog)
                else Waiting(old(reader), in_, reader) && readLog == old(readLog)
    {
      hide Valid;
      var out, n;
      k', in_ := LoadRxIn(script, k);
      k', out, n := LoadRxOut(in_, space - |got|, script, k');
      empty, got' := n == 0, got;
      if !empty {
        k', got' := CopyIn(got, out, n, script, k');
        k' := StoreRxOut(out, n, script, k');
      }
    }

    /** The taking loop: `do { … } while (space > 0)`, left early when the ring is empty. */
    method Take(space: nat, script: seq<seq<Interrupt>>, k: nat) returns (k': nat, got: seq<Byte>, in_: nat)
      requires Valid() && k <= |script| && reader.pc.RLoadIn?
      requires reader.space == space && reader.got == [] && reader.pos == 0
      modifies this`rxIn, this`txOut, this`irqEnable, this`devControl, this`devWords, this`devFifo,
               this`hostInactive, this`taken, this`sent, this`trace, rxBuf,
               this`reader, this`readLog, this`rxOut, this`released
      ensures Valid() && Since(old(trace), trace, ReaderStep) && k <= k' <= |script|
      ensures if got != [] || old(reader).nonblock || space == 0 then
                Left(space, old(reader).nonblock, got, old(readLog), reader, readLog)
              else Waiting(old(reader), in_, reader) && readLog == old(readLog)
    {
      hide Valid;
      k', got, in_ := k, [], 0;
      ghost var r, log, events := reader, readLog, trace;
      while |got| < space
        invariant Valid() && Since(events, trace, ReaderStep) && k <= k' <= |script|
        invariant reader.pc.RLoadIn? && reader.got == got && reader.pos == |got| <= space
        invariant reader.space == space && reader.nonblock == r.nonblock && readLog == log
      {
        var empty;
        k', got, in_, empty := TakeOnce(space, got, script, k');
        if empty {
          return;
        }
      }
      LeaveTake();
    }

    /** The waiting loop, as for `write`. */
    method AwaitInput(in_: nat, script: seq<seq<Interrupt>>, k: nat) returns (k': nat, ended: bool)
      requires Valid() && k <= |script| && reader.pc.RSpinIn? && reader.in_ == in_
      modifies this`rxIn, this`txOut, this`irqEnable, this`devControl, this`devWords, this`devFifo,
               this`hostInactive, this`taken, this`sent, this`trace, rxBuf, this`reader
      ensures Valid() && Since(old(trace), trace, ReaderStep) && k <= k' <= |script|
      ensures reader == old(reader).(pc := if ended then RSpinIn else RRecheck, gaveUp := reader.gaveUp)
      ensures if ended then k' == |script| else k < k' && (rxIn != in_ || timeout <= hostInactive)
    {
      hide Valid;
      k', ended := k, false;
      ghost var r, events := reader, trace;
      while true
        invariant Valid() && Since(events, trace, ReaderStep) && k <= k' <= |script| && !ended
        invariant reader == r
        decreases |script| - k'
      {
        if k' == |script| {
          ended := true;
          return;
        }
        var same, present;
        k', same := TestRxIn(in_, script, k');
        if !same {
          return;
        }
        k', present := ReaderTestHost(script, k');
        if !present {
          return;
        }
      }
    }

    /** The waiting loop and the check after it. */
    method WaitForInput(in_: nat, script: seq<seq<Interrupt>>, k: nat) returns (k': nat, left: bool, ended: bool)
      requires Valid() && k <= |script|
      requires reader.pc.RSpinIn? && reader.in_ == in_ && reader.got == [] && reader.pos == 0
      modifies this`rxIn, this`txOut, this`irqEnable, this`devControl, this`devWords, this`devFifo,
               this`hostInactive, this`taken, this`sent, this`trace, rxBuf, this`reader, this`readLog
      ensures Valid() && Since(old(trace), trace, ReaderStep) && k <= k' <= |script|
      ensures left ==> !ended && Left(old(reader).space, old(reader).nonblock, [], old(readLog), reader, readLog)
      ensures !left ==>
                && readLog == old(readLog) && (!ended ==> k < k')
                && reader == old(reader).(pc := if ended then RSpinIn else RLoadIn, gaveUp := reader.gaveUp)
    {
      hide Valid;
      left := false;
      k', ended := AwaitInput(in_, script, k);
      if !ended {
        k', left := RecheckRxIn(in_, script, k');
      }
    }

    method StartReading(space: nat, nonblock: bool)
      requires Valid() && reader.pc.RIdle?
      modifies this`reader, this`trace
      ensures Valid() && trace == old(trace) + [CallRead(space, nonblock)]
      ensures reader == NO_READER.(pc := RLoadIn, space := space, nonblock := nonblock)
    {
      hide Reaches, Initial, Tx;
      ReachesStep(start, trace, Abs(), CallRead(space, nonblock));
      reader := NO_READER.(pc := RLoadIn, space := space, nonblock := nonblock);
      trace := trace + [CallRead(space, nonblock)];
    }

    /** One turn of the outer loop, as for `write`. */
    method ReadOnce(space: nat, nonblock: bool, script: seq<seq<Interrupt>>, k: nat)
      returns (k': nat, got: seq<Byte>, left: bool, ended: bool)
      requires Valid() && k <= |script| && reader.pc.RLoadIn?
      requires reader.space == space && reader.nonblock == nonblock && reader.got == [] && reader.pos == 0
      modifies this`rxIn, this`txOut, this`irqEnable, this`devControl, this`devWords, this`devFifo,
               this`hostInactive, this`taken, this`sent, this`trace, rxBuf,
               this`reader, this`readLog, this`rxOut, this`released
      ensures Valid() && Since(old(trace), trace, ReaderStep) && k <= k' <= |script|
      ensures ended ==> !nonblock
      ensures left ==> !ended && Left(space, nonblock, got, old(readLog), reader, readLog)
      ensures !left ==>
                && readLog == old(readLog)
                && reader.space == space && reader.nonblock == nonblock && reader.got == got == [] && reader.pos == 0
                && (if ended then reader.pc.RSpinIn? else reader.pc.RLoadIn? && k < k')
    {
      hide Valid;
      var in_;
      k', got, in_ := Take(space, script, k);
      left, ended := got != [] || nonblock || space == 0, false;
      if !left {
        k', left, ended := WaitForInput(in_, script, k');
      }
    }

    /** `read`, with the interrupts of `script` arriving between its accesses to shared
        variables.  No result means it is still waiting when the script ends. */
    method Read(space: nat, nonblock: bool, script: seq<seq<Interrupt>>)
      returns (result: Option<int>, buffer: seq<Byte>)
      requires Valid() && reader.pc.RIdle?
      modifies this`rxIn, this`txOut, this`irqEnable, this`devControl, this`devWords, this`devFifo,
               this`hostInactive, this`taken, this`sent, this`trace, rxBuf,
               this`reader, this`readLog, this`rxOut, this`released
      ensures Valid() && Since(old(trace) + [CallRead(space, nonblock)], trace, ReaderStep)
      ensures result.None? ==> reader.pc.RSpinIn? && readLog == old(readLog) && buffer == []
      ensures result.Some? ==> ReadRecorded(space, nonblock, buffer, old(readLog), reader, readLog)
      ensures result.Some? ==> result.value == ReadValue(|buffer|, nonblock)
      ensures nonblock ==> result.Some?
      ensures result.Some? ==> Min(space, old(|taken| - |released|)) <= |buffer|
      ensures result.Some? && |buffer| < space ==> NothingLeftSince(start, trace, |old(trace)|, released)
    {
      hide Valid, ReadRecorded, NothingLeftSince;
      Now();
      ghost var s := Abs();
      StartReading(space, nonblock);
      ghost var events, log := trace, readLog;
      var k: nat, left, ended := 0, false, false;
      buffer := [];
      while !left
        invariant Valid() && Since(events, trace, ReaderStep) && k <= |script|
        invariant left ==> Left(space, nonblock, buffer, log, reader, readLog)
        invariant !left ==>
                    && reader.pc.RLoadIn? && reader.space == space && reader.nonblock == nonblock
                    && reader.got == [] && reader.pos == 0 && readLog == log && buffer == []
        decreases |script| - k, !left
      {
        k, buffer, left, ended := ReadOnce(space, nonblock, script, k);
        if ended {
          return None, [];
        }
      }
      if buffer != [] {
        SetRxEnable();
      }
      result := Some(ReadValue(|buffer|, nonblock));
      SinceCall(old(trace), CallRead(space, nonblock), ReaderStep);
      ReadEnds(old(trace), s, space, nonblock, buffer);
    }

    /** What a finished read tells of the ring. */
    lemma ReadEnds(before: seq<Event>, s: State, space: nat, nonblock: bool, buffer: seq<Byte>)
      requires Valid() && before <= trace && trace[..|before|] == before
      requires Ready(start) && s == Run(start, before) && s.reader.pc.RIdle?
      requires ReadRecorded(space, nonblock, buffer, s.readLog, reader, readLog)
      ensures Min(space, Pending(s.rx)) <= |buffer|
      ensures |buffer| < space ==> NothingLeftSince(start, trace, |before|, released)
    {
      hide Run, NothingLeftSince, Reaches, Ready;
      Now();
      LastRead(start, trace, |before|);
    }

    // ---------------------------------------------------------------- close and ioctl

    /** At some point of the run after event number `from`, not all accepted bytes had been
        sent, and at some later one the host was present. */
    ghost predicate LeftBehind(from: nat)
      requires Ready(start) && from <= |trace|
      reads this
    {
      exists m, n :: from <= m <= n <= |trace|
        && var (t, u) := (Run(start, trace[..m]), Run(start, trace[..n]));
           t.tx.got != Accepted(t.writeLog) && !Absent(u)
    }

    lemma SawLeft(before: seq<Event>, seen: seq<Event>)
      requires Valid() && Since(before, seen, WriterStep) && Since(seen, trace, WriterStep) && hostInactive < timeout
      requires Ready(start) && Run(start, seen).tx.got != Accepted(Run(start, seen).writeLog)
      ensures |before| <= |trace| && LeftBehind(|before|)
    {
      Now();
      assert trace[..|seen|] == seen && trace[..|trace|] == trace;
    }

    /** The test of the loop of `close`. */
    method TestDrained(script: seq<seq<Interrupt>>, k: nat) returns (k': nat, empty: bool, present: bool)
      requires Valid() && writer.pc.WIdle? && k <= |script|
      modifies this`rxIn, this`txOut, this`irqEnable, this`devControl, this`devWords, this`devFifo,
               this`hostInactive, this`taken, this`sent, this`trace, rxBuf
      ensures Valid() && Since(old(trace), trace, WriterStep) && Since(old(trace), trace, ReaderStep)
      ensures k <= k' <= |script| && k' <= k + 3 && (k < |script| ==> k < k')
      ensures |old(sent)| <= |sent| <= |published|
      ensures k < |script| && Served(script[k]) && !empty ==> |old(sent)| < |sent|
      ensures empty ==> sent == Accepted(writeLog)
      ensures !empty ==> (present <==> hostInactive < timeout)
      ensures !empty && present ==> Ready(start) && LeftBehind(|old(trace)|)
    {
      hide Valid, LeftBehind, Ready, Run, Since;
      present := true;
      k' := Interfere(script, k);
      var out := txOut;
      Drained();
      Now();
      ghost var before, seen, log := old(trace), trace, writeLog;
      assert out != txIn ==> Run(start, seen).tx.got != Accepted(log);
      k' := Interfere(script, k');
      Drained();
      ghost var middle := trace;
      SinceTransitive(before, seen, middle, WriterStep);
      SinceTransitive(before, seen, middle, ReaderStep);
      empty := out == txIn;
      if !empty {
        k' := Interfere(script, k');
        SinceTransitive(before, middle, trace, WriterStep);
        SinceTransitive(before, middle, trace, ReaderStep);
        Drained();
        present := hostInactive < timeout;
        if present {
          SinceTransitive(seen, middle, trace, WriterStep);
          SawLeft(before, seen);
        }
      }
    }

    /** `close`: it waits for the transmit ring to empty.  When it succeeds, every byte that
        has been accepted has been sent, or the host is inactive; it fails only without
        blocking, and when it has seen bytes left and the host present. */
    method Close(nonblock: bool, script: seq<seq<Interrupt>>) returns (result: Option<int>)
      requires Valid() && writer.pc.WIdle?
      modifies this`rxIn, this`txOut, this`irqEnable, this`devControl, this`devWords, this`devFifo,
               this`hostInactive, this`taken, this`sent, this`trace, rxBuf
      ensures Valid() && Since(old(trace), trace, WriterStep) && Since(old(trace), trace, ReaderStep)
      ensures result == Some(0) ==> sent == Accepted(writeLog) || timeout <= hostInactive
      ensures result.Some? && result.value != 0 ==>
                nonblock && result.value == -EWOULDBLOCK && Ready(start) && LeftBehind(|old(trace)|)
      ensures nonblock ==> result.Some?
      ensures !nonblock && Feeding(script) && 3 * (|published| - |old(sent)|) < |script| ==> result == Some(0)
    {
      hide Valid, LeftBehind, Ready;
      var k: nat, empty, present := 0, false, true;
      Drained();
      while true
        invariant Valid() && Since(old(trace), trace, WriterStep) && Since(old(trace), trace, ReaderStep)
        invariant k <= |script| && (nonblock ==> trace == old(trace))
        invariant Feeding(script) && 3 * (|published| - |old(sent)|) < |script| ==>
                    k + 3 * (|published| - |sent|) <= 3 * (|published| - |old(sent)|) && |sent| <= |published|
        decreases |script| - k
      {
        k, empty, present := TestDrained(script, k);
        if empty || !present {
          return Some(0);
        }
        if nonblock {
          return Some(-EWOULDBLOCK);
        }
        if k == |script| {
          return None;
        }
      }
    }

    /** The object is where its run is. */
    lemma Now()
      requires Valid()
      ensures Ready(start) && Run(start, trace) == Abs()
    {
      InitialInv(start);
      ReachesKeeps(start, trace, Abs());
    }

    /** With no writer at work, an empty ring means that all has been sent. */
    lemma Drained()
      requires Valid() && writer.pc.WIdle?
      ensures sent <= Accepted(writeLog) == published && (txOut == txIn <==> |sent| == |published|)
      ensures txOut == txIn <==> sent == Accepted(writeLog)
    {
      Invariant();
      FullAndEmpty(Tx());
      var w := writer;
      assert w.data[..w.pos] == [];
      assert published == Accepted(writeLog) && sent <= published;
    }

    /** `ioctl`: the timeout can be set, and the connection asked for, unless there is no
        watchdog; `arg` is the word that the request's pointer refers to. */
    method Ioctl(req: int, arg: int) returns (rc: int, arg': int)
      requires Valid()
      modifies this`timeout, this`trace
      ensures Valid() && trace == old(trace) + if req == TIOCSTIMEOUT then [SetTimeout(arg)] else []
      ensures rc == if (req == TIOCSTIMEOUT || req == TIOCGCONNECTED) && old(timeout) != INT_MAX then 0 else -ENOTTY
      ensures req == TIOCSTIMEOUT && rc == 0 ==> timeout == if 2 <= arg < INT_MAX then arg else INT_MAX - 1
      ensures rc != 0 || req != TIOCSTIMEOUT ==> timeout == old(timeout)
      ensures arg' == if req == TIOCGCONNECTED && rc == 0 then (if hostInactive < timeout then 1 else 0) else arg
    {
      hide Reaches, Initial, Tx, Rx;
      rc, arg' := -ENOTTY, arg;
      if req == TIOCSTIMEOUT {
        ReachesStep(start, trace, Abs(), SetTimeout(arg));
        if timeout != INT_MAX {
          timeout := if 2 <= arg < INT_MAX then arg else INT_MAX - 1;
          rc := 0;
        }
        trace := trace + [SetTimeout(arg)];
      } else if req == TIOCGCONNECTED {
        if timeout != INT_MAX {
          arg' := if hostInactive < timeout then 1 else 0;
          rc := 0;
        }
      }
    }
  }
}
