/** The interrupt-driven JTAG UART driver as a state machine.

    The foreground `write` and `read` calls are split at every access to a shared
    variable; between any two of their steps the interrupt routine, the timeout
    routine or the other call may run.  The device itself is arbitrary: every
    value read from one of its registers is part of the event. */
module UartMachine {
  import opened Errno
  import opened UartRing

  const INT_MAX: int := 0x7fff_ffff
  const DEFAULT_TIMEOUT: int := 10

  /** The two interrupt enable bits of the control register. */
  datatype Enable = Enable(re: bool, we: bool)

  /** The fields of the control register the interrupt routine looks at. */
  datatype ControlWord = ControlWord(ri: bool, wi: bool, space: nat)

  /** A value of the data register: RVALID clear means the receive FIFO was empty,
      otherwise RAVAIL counts the bytes left behind. */
  datatype DataWord = Empty | Data(b: Byte, avail: nat)

  datatype WriterPc = WIdle | WLoadIn | WLoadOut | WCopy | WPublish | WKick | WSpinOut | WSpinHost | WRecheck

  /** A `write` call in progress.  `pos` is `ptr - start`; `kicked` is the value of
      `pos` when interrupts were last enabled; `gaveUp` records that the call has
      seen `host_inactive >= timeout`. */
  datatype Writer = Writer(pc: WriterPc, data: seq<Byte>, nonblock: bool, pos: nat,
                           in_: nat, out: nat, n: nat, copied: nat, kicked: nat, gaveUp: bool)

  datatype ReaderPc = RIdle | RLoadIn | RLoadOut | RCopy | RRelease | RSpinIn | RSpinHost | RRecheck | REnable

  /** A `read` call in progress.  `got` is the caller's buffer as filled so far and
      `pos` is `ptr - buffer`; `seen` is how many bytes had arrived when `in_` was
      loaded. */
  datatype Reader = Reader(pc: ReaderPc, space: nat, nonblock: bool, got: seq<Byte>, pos: nat,
                           in_: nat, seen: nat, out: nat, n: nat, gaveUp: bool)

  /** Finished calls. */
  datatype WriteCall = WriteCall(data: seq<Byte>, nonblock: bool, result: int, gaveUp: bool)
  datatype ReadCall = ReadCall(space: nat, nonblock: bool, result: int, bytes: seq<Byte>, gaveUp: bool)

  /** In `tx`, `put` is what writers have published and `got` what was written to the
      data register; in `rx`, `put` is what was read from the data register and
      `got` what readers have released. */
  datatype State = State(
    tx: Ring, rx: Ring,
    irqEnable: Enable, control: Enable,
    hostInactive: int, timeout: int,
    writer: Writer, reader: Reader,
    writeLog: seq<WriteCall>, readLog: seq<ReadCall>)

  const NO_WRITER := Writer(WIdle, [], false, 0, 0, 0, 0, 0, 0, false)
  const NO_READER := Reader(RIdle, 0, false, [], 0, 0, 0, 0, 0, false)

  /** What runs at interrupt level: a turn of the interrupt routine, with the register
      values it reads, and the routine the watchdog alarm calls. */
  datatype Interrupt = Isr(c: ControlWord, words: seq<DataWord>) | Timeout(ac: bool)

  datatype Event =
    | Irq(i: Interrupt)
    | SetTimeout(value: int)
    | CallWrite(data: seq<Byte>, wnonblock: bool)
    | WriterStep
    | CallRead(space: nat, rnonblock: bool)
    | ReaderStep

  // ---------------------------------------------------------------- interrupt level

  /** The inner receive loop: move bytes until the ring is full or the device has
      none.  The flag is what the last data word said about more bytes. */
  function RxLoop(r: Ring, words: seq<DataWord>, more: bool): (Ring, bool)
    requires Indexed(r)
    decreases words
  {
    if Wrap(r.in_ + 1, |r.buf|) == r.out then (r, more)
    else if words == [] || words[0].Empty? then (r, false)
    else RxLoop(Store(r, words[0].b), words[1..], words[0].avail > 0)
  }

  /** The inner transmit loop: feed the device until its space or the ring is used up. */
  function TxLoop(r: Ring, space: nat): (Ring, nat)
    requires Indexed(r)
    decreases space
  {
    if space > 0 && r.out != r.in_ then TxLoop(Fetch(r), space - 1) else (r, space)
  }

  function SetEnable(s: State, e: Enable): State {
    s.(irqEnable := e, control := e)
  }

  function RxPass(s: State, words: seq<DataWord>): State
    requires Indexed(s.rx)
  {
    var (rx, more) := RxLoop(s.rx, words, true);
    var t := s.(rx := rx);
    if more then SetEnable(t, t.irqEnable.(re := false)) else t
  }

  function TxPass(s: State, space: nat): State
    requires Indexed(s.tx)
  {
    var (tx, left) := TxLoop(s.tx, space);
    var t := s.(tx := tx);
    if left > 0 then SetEnable(t, t.irqEnable.(we := false)) else t
  }

  /** One turn of the interrupt routine's outer loop. */
  function IsrPass(s: State, c: ControlWord, words: seq<DataWord>): State
    requires Indexed(s.tx) && Indexed(s.rx)
  {
    var t := if c.ri then RxPass(s, words) else s;
    if c.wi then TxPass(t, c.space) else t
  }

  function TimeoutStep(s: State, ac: bool): State {
    if ac then s.(hostInactive := 0, control := s.irqEnable)
    else if s.hostInactive < INT_MAX - 2 then s.(hostInactive := s.hostInactive + 1)
    else s
  }

  function SetTimeoutStep(s: State, value: int): State {
    if s.timeout != INT_MAX then
      s.(timeout := if 2 <= value < INT_MAX then value else INT_MAX - 1)
    else s
  }

  // ---------------------------------------------------------------- foreground: write

  function WriteResult(w: Writer): int {
    if w.pos > 0 then w.pos else if w.nonblock then -EWOULDBLOCK else -EIO
  }

  function WriteReturn(s: State): State {
    var w := s.writer;
    s.(writer := NO_WRITER, writeLog := s.writeLog + [WriteCall(w.data, w.nonblock, WriteResult(w), w.gaveUp)])
  }

  /** `while (count > 0)` and the load of `tx_in`. */
  function WriteLoadIn(s: State): State {
    var w := s.writer;
    if w.pos < |w.data| then s.(writer := w.(pc := WLoadOut, in_ := s.tx.in_))
    else s.(writer := w.(pc := WKick))
  }

  /** The load of `tx_out` and the choice of the chunk. */
  function WriteLoadOut(s: State): State
    requires Indexed(s.tx) && WriterShaped(s.writer, |s.tx.buf|) && s.writer.pc.WLoadOut?
  {
    var w := s.writer;
    var room := WriteRoom(w.in_, s.tx.out, |s.tx.buf|);
    if room == 0 then s.(writer := w.(pc := WKick, out := s.tx.out))
    else s.(writer := w.(pc := WCopy, out := s.tx.out, n := Min(room, |w.data| - w.pos), copied := 0))
  }

  /** One byte of the `memcpy`. */
  function WriteCopy(s: State): State
    requires WriterShaped(s.writer, |s.tx.buf|) && s.writer.pc.WCopy?
  {
    var w := s.writer;
    s.(tx := s.tx.(buf := s.tx.buf[w.in_ + w.copied := w.data[w.pos + w.copied]]),
       writer := w.(pc := if w.copied + 1 == w.n then WPublish else WCopy, copied := w.copied + 1))
  }

  /** The store to `tx_in`. */
  function WritePublish(s: State): State
    requires Indexed(s.tx) && WriterShaped(s.writer, |s.tx.buf|) && s.writer.pc.WPublish?
  {
    var w := s.writer;
    s.(tx := s.tx.(in_ := Wrap(w.in_ + w.n, |s.tx.buf|), put := s.tx.put + w.data[w.pos..w.pos + w.n]),
       writer := w.(pc := WLoadIn, pos := w.pos + w.n))
  }

  /** Enabling the transmit interrupt, with interrupts disabled around it. */
  function WriteKick(s: State): State {
    var w := s.writer;
    var t := SetEnable(s, s.irqEnable.(we := true)).(writer := w.(kicked := w.pos));
    if w.pos < |w.data| && !w.nonblock then t.(writer := t.writer.(pc := WSpinOut))
    else WriteReturn(t)
  }

  /** The loop waiting for `tx_out` to move, one load at a time. */
  function WriteSpin(s: State): State {
    var w := s.writer;
    if w.pc.WSpinOut? then
      s.(writer := w.(pc := if w.out == s.tx.out then WSpinHost else WRecheck))
    else if s.hostInactive < s.timeout then s.(writer := w.(pc := WSpinOut))
    else s.(writer := w.(pc := WRecheck, gaveUp := true))
  }

  /** The load of `tx_out` after the wait. */
  function WriteRecheck(s: State): State {
    var w := s.writer;
    if w.out == s.tx.out then WriteReturn(s) else s.(writer := w.(pc := WLoadIn))
  }

  function WriteStep(s: State): State
    requires Indexed(s.tx) && WriterShaped(s.writer, |s.tx.buf|)
  {
    match s.writer.pc
    case WIdle => s
    case WLoadIn => WriteLoadIn(s)
    case WLoadOut => WriteLoadOut(s)
    case WCopy => WriteCopy(s)
    case WPublish => WritePublish(s)
    case WKick => WriteKick(s)
    case WSpinOut => WriteSpin(s)
    case WSpinHost => WriteSpin(s)
    case WRecheck => WriteRecheck(s)
  }

  // ---------------------------------------------------------------- foreground: read

  function ReadResult(r: Reader): int {
    if r.pos > 0 then r.pos else if r.nonblock then -EWOULDBLOCK else -EIO
  }

  function ReadReturn(s: State): State {
    var r := s.reader;
    s.(reader := NO_READER,
       readLog := s.readLog + [ReadCall(r.space, r.nonblock, ReadResult(r), r.got, r.gaveUp)])
  }

  /** Leaving the outer loop: interrupts are enabled only if something was read. */
  function ReadExit(s: State): State {
    if s.reader.pos > 0 then s.(reader := s.reader.(pc := REnable)) else ReadReturn(s)
  }

  /** `while (space > 0)` and the load of `rx_in`. */
  function ReadLoadIn(s: State): State {
    var r := s.reader;
    if r.pos < r.space then s.(reader := r.(pc := RLoadOut, in_ := s.rx.in_, seen := |s.rx.put|))
    else ReadExit(s)
  }

  /** The load of `rx_out` and the choice of the chunk. */
  function ReadLoadOut(s: State): State
    requires Indexed(s.rx) && ReaderShaped(s.reader, |s.rx.buf|) && s.reader.pc.RLoadOut?
  {
    var r := s.reader;
    var room := ReadRoom(r.in_, s.rx.out, |s.rx.buf|);
    if room > 0 then s.(reader := r.(pc := RCopy, out := s.rx.out, n := Min(room, r.space - r.pos)))
    else if r.pos > 0 || r.nonblock then ReadExit(s)
    else s.(reader := r.(pc := RSpinIn, out := s.rx.out))
  }

  /** One byte of the `memcpy`. */
  function ReadCopy(s: State): State
    requires ReaderShaped(s.reader, |s.rx.buf|) && s.reader.pc.RCopy?
  {
    var r := s.reader;
    var got := r.got + [s.rx.buf[r.out + (|r.got| - r.pos)]];
    s.(reader := r.(pc := if |got| == r.pos + r.n then RRelease else RCopy, got := got))
  }

  /** The store to `rx_out`. */
  function ReadRelease(s: State): State
    requires Indexed(s.rx) && ReaderShaped(s.reader, |s.rx.buf|) && s.reader.pc.RRelease?
  {
    var r := s.reader;
    s.(rx := s.rx.(out := Wrap(r.out + r.n, |s.rx.buf|), got := s.rx.got + r.got[r.pos..]),
       reader := r.(pc := RLoadIn, pos := r.pos + r.n))
  }

  /** The loop waiting for `rx_in` to move, one load at a time. */
  function ReadSpin(s: State): State {
    var r := s.reader;
    if r.pc.RSpinIn? then
      s.(reader := r.(pc := if r.in_ == s.rx.in_ then RSpinHost else RRecheck))
    else if s.hostInactive < s.timeout then s.(reader := r.(pc := RSpinIn))
    else s.(reader := r.(pc := RRecheck, gaveUp := true))
  }

  /** The load of `rx_in` after the wait. */
  function ReadRecheck(s: State): State {
    var r := s.reader;
    if r.in_ == s.rx.in_ then ReadExit(s) else s.(reader := r.(pc := RLoadIn))
  }

  /** Enabling the receive interrupt, with interrupts disabled around it. */
  function ReadEnable(s: State): State {
    ReadReturn(SetEnable(s, s.irqEnable.(re := true)))
  }

  function ReadStep(s: State): State
    requires Indexed(s.rx) && ReaderShaped(s.reader, |s.rx.buf|)
  {
    match s.reader.pc
    case RIdle => s
    case RLoadIn => ReadLoadIn(s)
    case RLoadOut => ReadLoadOut(s)
    case RCopy => ReadCopy(s)
    case RRelease => ReadRelease(s)
    case REnable => ReadEnable(s)
    case RSpinIn => ReadSpin(s)
    case RSpinHost => ReadSpin(s)
    case RRecheck => ReadRecheck(s)
  }

  // ---------------------------------------------------------------- steps

  /** `alt_alarm_start` failing leaves `timeout` at INT_MAX instead of its default. */
  ghost predicate Initial(s: State) {
    && 2 <= |s.tx.buf| && s.tx == Ring(s.tx.buf, 0, 0, [], [])
    && 2 <= |s.rx.buf| && s.rx == Ring(s.rx.buf, 0, 0, [], [])
    && s.irqEnable == s.control == Enable(true, false)
    && s.hostInactive == 0
    && (s.timeout == DEFAULT_TIMEOUT || s.timeout == INT_MAX)
    && s.writer == NO_WRITER && s.reader == NO_READER
    && s.writeLog == [] && s.readLog == []
  }

  /** A call can be made only when the previous one has returned. */
  function StartWrite(s: State, data: seq<Byte>, nonblock: bool): State {
    if s.writer.pc.WIdle? then s.(writer := NO_WRITER.(pc := WLoadIn, data := data, nonblock := nonblock)) else s
  }

  function StartRead(s: State, space: nat, nonblock: bool): State {
    if s.reader.pc.RIdle? then s.(reader := NO_READER.(pc := RLoadIn, space := space, nonblock := nonblock)) else s
  }

  function Step(s: State, e: Event): State
    requires Ready(s)
  {
    match e
    case Irq(Isr(c, words)) => IsrPass(s, c, words)
    case Irq(Timeout(ac)) => TimeoutStep(s, ac)
    case SetTimeout(value) => SetTimeoutStep(s, value)
    case CallWrite(data, nonblock) => StartWrite(s, data, nonblock)
    case WriterStep => WriteStep(s)
    case CallRead(space, nonblock) => StartRead(s, space, nonblock)
    case ReaderStep => ReadStep(s)
  }

  /** The state after any sequence of events. */
  function Run(s: State, events: seq<Event>): (t: State)
    requires Ready(s)
    ensures Ready(t)
    decreases events
  {
    if events == [] then s
    else
      StepReady(s, events[0]);
      Run(Step(s, events[0]), events[1..])
  }

  // ---------------------------------------------------------------- well-formed states

  /** What the index expressions of the code need. */
  ghost predicate Ready(s: State) {
    && Indexed(s.tx) && WriterShaped(s.writer, |s.tx.buf|)
    && Indexed(s.rx) && ReaderShaped(s.reader, |s.rx.buf|)
  }

  ghost predicate WriterShaped(w: Writer, len: nat) {
    && w.pos <= |w.data|
    && (w.pc.WLoadOut? ==> w.in_ < len && w.pos < |w.data|)
    && (w.pc.WCopy? ==> w.in_ + w.n <= len && w.pos + w.n <= |w.data| && w.copied < w.n)
    && (w.pc.WPublish? ==> w.in_ + w.n <= len && w.pos + w.n <= |w.data|)
  }

  ghost predicate ReaderShaped(r: Reader, len: nat) {
    && r.pos <= |r.got| && r.pos <= r.space
    && (!r.pc.RCopy? && !r.pc.RRelease? ==> r.pos == |r.got|)
    && (r.pc.RLoadOut? ==> r.in_ < len && r.pos < r.space)
    && (r.pc.RCopy? ==> r.out + r.n <= len && |r.got| < r.pos + r.n <= r.space)
    && (r.pc.RRelease? ==> r.out + r.n <= len && |r.got| == r.pos + r.n <= r.space)
  }

  lemma {:induction false} RxLoopFrame(r: Ring, words: seq<DataWord>, more: bool)
    requires Indexed(r)
    ensures var t := RxLoop(r, words, more).0;
            Indexed(t) && |t.buf| == |r.buf| && t.out == r.out && t.got == r.got && r.put <= t.put
    decreases words
  {
    if Wrap(r.in_ + 1, |r.buf|) != r.out && words != [] && words[0].Data? {
      RxLoopFrame(Store(r, words[0].b), words[1..], words[0].avail > 0);
    }
  }

  lemma {:induction false} TxLoopFrame(r: Ring, space: nat)
    requires Indexed(r)
    ensures var t := TxLoop(r, space).0;
            Indexed(t) && t.buf == r.buf && t.in_ == r.in_ && t.put == r.put && r.got <= t.got
    decreases space
  {
    if space > 0 && r.out != r.in_ {
      TxLoopFrame(Fetch(r), space - 1);
    }
  }

  lemma WriteCopyReady(s: State)
    requires Ready(s)
    ensures s.writer.pc.WLoadOut? ==> Ready(WriteLoadOut(s))
    ensures s.writer.pc.WCopy? ==> Ready(WriteCopy(s))
    ensures s.writer.pc.WPublish? ==> Ready(WritePublish(s))
  {
  }

  lemma WriteReady(s: State)
    requires Ready(s)
    ensures Ready(WriteStep(s))
  {
    WriteCopyReady(s);
  }

  lemma ReadCopyReady(s: State)
    requires Ready(s)
    ensures s.reader.pc.RLoadOut? ==> Ready(ReadLoadOut(s))
    ensures s.reader.pc.RCopy? ==> Ready(ReadCopy(s))
    ensures s.reader.pc.RRelease? ==> Ready(ReadRelease(s))
  {
  }

  lemma ReadReady(s: State)
    requires Ready(s)
    ensures Ready(ReadStep(s))
  {
    ReadCopyReady(s);
    if s.reader.pc.RLoadIn? || s.reader.pc.RRecheck? || s.reader.pc.REnable? {
    }
  }

  lemma StepReady(s: State, e: Event)
    requires Ready(s)
    ensures Ready(Step(s, e))
  {
    match e
    case Irq(Isr(c, words)) =>
      RxLoopFrame(s.rx, words, true);
      TxLoopFrame(s.tx, c.space);
    case WriterStep => WriteReady(s);
    case ReaderStep => ReadReady(s);
    case _ =>
  }

  lemma {:induction false} RunAppend(s: State, a: seq<Event>, e: Event)
    requires Ready(s)
    ensures Run(s, a + [e]) == Step(Run(s, a), e)
    decreases a
  {
    if a == [] {
      StepReady(s, e);
      assert Run(s, [e]) == Run(Step(s, e), [e][1..]);
      assert a + [e] == [e];
    } else {
      StepReady(s, a[0]);
      assert (a + [e])[1..] == a[1..] + [e];
      RunAppend(Step(s, a[0]), a[1..], e);
    }
  }
}
