/** What every step of the driver keeps, and what follows for every run. */
module UartSafety {
  import opened Errno
  import opened UartRing
  import opened UartMachine

  // ---------------------------------------------------------------- invariants

  /** The bytes finished `write` calls have accepted, in order. */
  function Accepted(log: seq<WriteCall>): seq<Byte> {
    if log == [] then []
    else
      var c := log[|log| - 1];
      Accepted(log[..|log| - 1]) + if 0 <= c.result <= |c.data| then c.data[..c.result] else []
  }

  /** The bytes finished `read` calls have delivered, in order. */
  function Delivered(log: seq<ReadCall>): seq<Byte> {
    if log == [] then [] else Delivered(log[..|log| - 1]) + log[|log| - 1].bytes
  }

  ghost predicate WriteContract(c: WriteCall) {
    && (c.result < 0 ==> c.result == if c.nonblock then -EWOULDBLOCK else -EIO)
    && (0 <= c.result ==> 1 <= c.result <= |c.data|)
    && (!c.nonblock && c.data != [] && c.result < |c.data| ==> c.gaveUp)
  }

  ghost predicate ReadContract(c: ReadCall) {
    && (c.result < 0 ==> c.bytes == [] && c.result == if c.nonblock then -EWOULDBLOCK else -EIO)
    && (0 <= c.result ==> 1 <= c.result == |c.bytes| <= c.space)
    && (!c.nonblock && 0 < c.space && c.result < 0 ==> c.gaveUp)
  }

  /** A chunk of `n` free slots from `in_` on, of which `copied` are filled. */
  ghost predicate Copying(w: Writer, tx: Ring) {
    && w.in_ == tx.in_
    && 0 < w.n <= Min(|tx.buf| - tx.in_, |tx.buf| - 1 - Pending(tx))
    && w.pos + w.n <= |w.data|
    && w.copied <= w.n
    && tx.buf[w.in_..w.in_ + w.copied] == w.data[w.pos..w.pos + w.copied]
  }

  /** `out` is what the transmit index must have been when the ring, with the bytes
      it now has, was full. */
  ghost predicate SawFull(out: nat, tx: Ring) {
    tx.in_ < |tx.buf| && out == Wrap(tx.in_ + 1, |tx.buf|)
  }

  ghost predicate WriterAt(w: Writer, tx: Ring) {
    match w.pc
    case WIdle => w == NO_WRITER
    case WLoadIn => true
    case WLoadOut => w.in_ == tx.in_ && w.pos < |w.data|
    case WCopy => Copying(w, tx) && w.copied < w.n
    case WPublish => Copying(w, tx) && w.copied == w.n
    case WKick => w.pos < |w.data| ==> SawFull(w.out, tx)
    case _ =>
      && w.pos < |w.data| && w.kicked == w.pos && !w.nonblock && SawFull(w.out, tx)
      && (w.pc.WRecheck? ==> w.gaveUp || Pending(tx) < |tx.buf| - 1)
  }

  ghost predicate WriterLog(w: Writer, published: seq<Byte>, log: seq<WriteCall>) {
    && w.kicked <= w.pos <= |w.data|
    && published == Accepted(log) + w.data[..w.pos]
    && forall c :: c in log ==> WriteContract(c)
  }

  /** A chunk of `n` stored bytes from `out` on, of which the caller has a copy. */
  ghost predicate Fetching(r: Reader, rx: Ring) {
    && r.out == rx.out
    && |rx.got| <= |rx.put|
    && 0 < r.n <= Min(|rx.buf| - rx.out, Pending(rx))
    && r.pos + r.n <= r.space
    && r.pos <= |r.got| <= r.pos + r.n
    && r.got[r.pos..] == rx.put[|rx.got|..|rx.got| + |r.got| - r.pos]
  }

  /** `in_` is what the receive index was when `seen` bytes had arrived. */
  ghost predicate Saw(r: Reader, rx: Ring) {
    && rx.out < |rx.buf|
    && |rx.got| <= r.seen <= |rx.put| && r.seen - |rx.got| < |rx.buf|
    && r.in_ == Wrap(rx.out + (r.seen - |rx.got|), |rx.buf|)
  }

  ghost predicate ReaderAt(r: Reader, rx: Ring) {
    match r.pc
    case RIdle => r == NO_READER
    case RLoadIn => |r.got| == r.pos
    case RLoadOut => |r.got| == r.pos < r.space && Saw(r, rx)
    case RCopy => Fetching(r, rx) && |r.got| < r.pos + r.n
    case RRelease => Fetching(r, rx) && |r.got| == r.pos + r.n
    case REnable => |r.got| == r.pos && 0 < r.pos
    case _ =>
      && |r.got| == r.pos == 0 < r.space && !r.nonblock && r.seen == |rx.got| && Saw(r, rx)
      && (r.pc.RRecheck? ==> r.gaveUp || r.seen < |rx.put|)
  }

  ghost predicate ReaderLog(r: Reader, released: seq<Byte>, log: seq<ReadCall>) {
    && r.pos <= r.space && r.pos <= |r.got|
    && released == Delivered(log) + r.got[..r.pos]
    && forall c :: c in log ==> ReadContract(c)
  }

  ghost predicate TxInv(tx: Ring, w: Writer, log: seq<WriteCall>) {
    RingInv(tx) && WriterAt(w, tx) && WriterLog(w, tx.put, log)
  }

  ghost predicate RxInv(rx: Ring, r: Reader, log: seq<ReadCall>) {
    RingInv(rx) && ReaderAt(r, rx) && ReaderLog(r, rx.got, log)
  }

  ghost predicate Full(r: Ring) {
    Pending(r) == |r.buf| - 1
  }

  /** No lost wake-up.  The device's enable bits always equal the driver's copy.
      Waiting output has its interrupt enabled, unless a writer has published
      bytes it has still to enable it for; input is throttled only by a full ring
      or while a reader that made room has still to lift the throttle. */
  ghost predicate WakeInv(s: State) {
    && s.control == s.irqEnable
    && (0 < Pending(s.tx) ==> s.irqEnable.we || s.writer.kicked < s.writer.pos)
    && (!s.irqEnable.re ==> Full(s.rx) || 0 < s.reader.pos)
  }

  ghost predicate HostInv(s: State) {
    0 <= s.hostInactive <= INT_MAX - 2 && 2 <= s.timeout <= INT_MAX
  }

  ghost predicate Inv(s: State) {
    && TxInv(s.tx, s.writer, s.writeLog)
    && RxInv(s.rx, s.reader, s.readLog)
    && WakeInv(s) && HostInv(s) && Ready(s)
  }

  // ---------------------------------------------------------------- interrupt level

  /** The receive loop keeps the ring and reports more input only with a full one. */
  lemma {:induction false} RxLoopKeeps(r: Ring, words: seq<DataWord>, more: bool)
    requires Indexed(r) && RingInv(r)
    ensures var (t, still) := RxLoop(r, words, more); RingInv(t) && (still ==> Full(t))
    decreases words
  {
    FullAndEmpty(r);
    if Wrap(r.in_ + 1, |r.buf|) != r.out && words != [] && words[0].Data? {
      StoreKeeps(r, words[0].b);
      RxLoopKeeps(Store(r, words[0].b), words[1..], words[0].avail > 0);
    }
  }

  /** The transmit loop keeps the ring and leaves space unused only with an empty one. */
  lemma {:induction false} TxLoopKeeps(r: Ring, space: nat)
    requires Indexed(r) && RingInv(r)
    ensures var (t, left) := TxLoop(r, space); RingInv(t) && (left > 0 ==> Pending(t) == 0)
    decreases space
  {
    FullAndEmpty(r);
    if space > 0 && r.out != r.in_ {
      FetchKeeps(r);
      TxLoopKeeps(Fetch(r), space - 1);
    }
  }

  /** Input arriving and output leaving do not disturb the calls in progress. */
  lemma ReaderStable(r: Reader, rx: Ring, rx': Ring)
    requires ReaderAt(r, rx)
    requires rx'.out == rx.out && rx'.got == rx.got && rx.put <= rx'.put && |rx'.buf| == |rx.buf|
    ensures ReaderAt(r, rx')
  {
  }

  lemma WriterStable(w: Writer, tx: Ring, tx': Ring)
    requires WriterAt(w, tx)
    requires tx'.buf == tx.buf && tx'.in_ == tx.in_ && tx'.put == tx.put && tx.got <= tx'.got
    ensures WriterAt(w, tx')
  {
  }

  lemma RxPassKeeps(s: State, words: seq<DataWord>)
    requires Inv(s)
    ensures Inv(RxPass(s, words))
  {
    RxLoopKeeps(s.rx, words, true);
    RxLoopFrame(s.rx, words, true);
    ReaderStable(s.reader, s.rx, RxLoop(s.rx, words, true).0);
  }

  lemma TxPassKeeps(s: State, space: nat)
    requires Inv(s)
    ensures Inv(TxPass(s, space))
  {
    TxLoopKeeps(s.tx, space);
    TxLoopFrame(s.tx, space);
    WriterStable(s.writer, s.tx, TxLoop(s.tx, space).0);
  }

  lemma IsrKeeps(s: State, c: ControlWord, words: seq<DataWord>)
    requires Inv(s)
    ensures Inv(IsrPass(s, c, words))
  {
    if c.ri {
      RxPassKeeps(s, words);
    }
    if c.wi {
      TxPassKeeps(if c.ri then RxPass(s, words) else s, c.space);
    }
  }

  // ---------------------------------------------------------------- foreground: write

  lemma WriteReturnKeeps(s: State)
    requires Inv(s) && !s.writer.pc.WIdle? && s.writer.kicked == s.writer.pos
    requires var w := s.writer; WriteContract(WriteCall(w.data, w.nonblock, WriteResult(w), w.gaveUp))
    ensures Inv(WriteReturn(s))
  {
    var t := WriteReturn(s);
    var w := s.writer;
    assert t.writeLog[..|t.writeLog| - 1] == s.writeLog;
    assert Accepted(t.writeLog) == Accepted(s.writeLog) + w.data[..w.pos];
  }

  lemma WriteLoadInKeeps(s: State)
    requires Inv(s) && s.writer.pc.WLoadIn?
    ensures Inv(WriteLoadIn(s))
  {
  }

  lemma LoadOutTx(tx: Ring, w: Writer, log: seq<WriteCall>, w': Writer)
    requires TxInv(tx, w, log) && w.pc.WLoadOut? && Indexed(tx)
    requires var room := WriteRoom(w.in_, tx.out, |tx.buf|);
             w' == if room == 0 then w.(pc := WKick, out := tx.out)
                   else w.(pc := WCopy, out := tx.out, n := Min(room, |w.data| - w.pos), copied := 0)
    ensures TxInv(tx, w', log)
  {
    WriteRoomExact(tx);
  }

  lemma WriteLoadOutKeeps(s: State)
    requires Inv(s) && s.writer.pc.WLoadOut?
    ensures Inv(WriteLoadOut(s))
  {
    LoadOutTx(s.tx, s.writer, s.writeLog, WriteLoadOut(s).writer);
  }

  lemma CopyBounds(tx: Ring, w: Writer)
    requires Copying(w, tx) && w.copied < w.n
    ensures w.in_ == tx.in_ && w.in_ + w.copied < |tx.buf| && w.pos + w.copied < |w.data|
    ensures w.copied < Min(|tx.buf| - tx.in_, |tx.buf| - 1 - Pending(tx))
  {
  }

  /** One more byte of the chunk is in place. */
  lemma CopyingGoesOn(tx: Ring, w: Writer, pc: WriterPc)
    requires Copying(w, tx) && w.copied < w.n && w.in_ + w.copied < |tx.buf|
    ensures Copying(w.(pc := pc, copied := w.copied + 1),
                    tx.(buf := tx.buf[w.in_ + w.copied := w.data[w.pos + w.copied]]))
  {
    var b := w.data[w.pos + w.copied];
    var buf := tx.buf[w.in_ + w.copied := b];
    assert buf[w.in_..w.in_ + w.copied + 1] == tx.buf[w.in_..w.in_ + w.copied] + [b];
    assert w.data[w.pos..w.pos + w.copied + 1] == w.data[w.pos..w.pos + w.copied] + [b];
  }

  lemma CopyTx(tx: Ring, w: Writer, log: seq<WriteCall>, w': Writer)
    requires TxInv(tx, w, log) && w.pc.WCopy?
    requires w' == w.(pc := if w.copied + 1 == w.n then WPublish else WCopy, copied := w.copied + 1)
    ensures TxInv(tx.(buf := tx.buf[w.in_ + w.copied := w.data[w.pos + w.copied]]), w', log)
  {
    hide RingInv, Copying, Pending;
    CopyBounds(tx, w);
    CopyAhead(tx, w.copied, w.data[w.pos + w.copied]);
    CopyingGoesOn(tx, w, w'.pc);
  }

  lemma WriteCopyKeeps(s: State)
    requires Inv(s) && s.writer.pc.WCopy?
    ensures Inv(WriteCopy(s))
  {
    CopyTx(s.tx, s.writer, s.writeLog, WriteCopy(s).writer);
  }

  lemma PublishTx(tx: Ring, w: Writer, log: seq<WriteCall>)
    requires TxInv(tx, w, log) && w.pc.WPublish? && Indexed(tx)
    ensures TxInv(tx.(in_ := Wrap(w.in_ + w.n, |tx.buf|), put := tx.put + w.data[w.pos..w.pos + w.n]),
                  w.(pc := WLoadIn, pos := w.pos + w.n), log)
  {
    hide RingInv;
    PublishKeeps(tx, w.data[w.pos..w.pos + w.n]);
    assert w.data[..w.pos + w.n] == w.data[..w.pos] + w.data[w.pos..w.pos + w.n];
  }

  lemma WritePublishWakes(s: State)
    requires Inv(s) && s.writer.pc.WPublish?
    ensures WakeInv(WritePublish(s))
  {
    hide RxInv;
    assert 0 < s.writer.n && s.writer.kicked <= s.writer.pos;
  }

  lemma WritePublishKeeps(s: State)
    requires Inv(s) && s.writer.pc.WPublish?
    ensures Inv(WritePublish(s))
  {
    hide TxInv, RxInv, WakeInv, Indexed, WriterShaped, ReaderShaped, Wrap;
    WritePublishWakes(s);
    WriteCopyReady(s);
    PublishTx(s.tx, s.writer, s.writeLog);
  }

  lemma WriteKickKeeps(s: State)
    requires Inv(s) && s.writer.pc.WKick?
    ensures Inv(WriteKick(s))
  {
    var w := s.writer;
    var k := SetEnable(s, s.irqEnable.(we := true)).(writer := w.(kicked := w.pos));
    assert Inv(k);
    if !(w.pos < |w.data| && !w.nonblock) {
      WriteReturnKeeps(k);
    }
  }

  /** The transmit index cannot come back to the value at which the ring was full:
      so the second look after the wait is as good as the first. */
  lemma MovedSinceFull(out: nat, tx: Ring)
    requires RingInv(tx) && SawFull(out, tx)
    ensures out == tx.out <==> Full(tx)
  {
    FullAndEmpty(tx);
  }

  lemma SpinTx(tx: Ring, w: Writer, log: seq<WriteCall>, w': Writer)
    requires TxInv(tx, w, log) && (w.pc.WSpinOut? || w.pc.WSpinHost?)
    requires if w.pc.WSpinHost? then w' == w.(pc := WSpinOut) || w' == w.(pc := WRecheck, gaveUp := true)
             else w' == w.(pc := if w.out == tx.out then WSpinHost else WRecheck)
    ensures TxInv(tx, w', log)
  {
    MovedSinceFull(w.out, tx);
  }

  lemma WriteSpinKeeps(s: State)
    requires Inv(s) && (s.writer.pc.WSpinOut? || s.writer.pc.WSpinHost?)
    ensures Inv(WriteSpin(s))
  {
    SpinTx(s.tx, s.writer, s.writeLog, WriteSpin(s).writer);
  }

  lemma WriteRecheckKeeps(s: State)
    requires Inv(s) && s.writer.pc.WRecheck?
    ensures Inv(WriteRecheck(s))
  {
    MovedSinceFull(s.writer.out, s.tx);
    if s.writer.out == s.tx.out {
      WriteReturnKeeps(s);
    }
  }

  lemma WriteStepKeeps(s: State)
    requires Inv(s)
    ensures Inv(WriteStep(s))
  {
    match s.writer.pc
    case WIdle =>
    case WLoadIn => WriteLoadInKeeps(s);
    case WLoadOut => WriteLoadOutKeeps(s);
    case WCopy => WriteCopyKeeps(s);
    case WPublish => WritePublishKeeps(s);
    case WKick => WriteKickKeeps(s);
    case WSpinOut => WriteSpinKeeps(s);
    case WSpinHost => WriteSpinKeeps(s);
    case WRecheck => WriteRecheckKeeps(s);
  }

  // ---------------------------------------------------------------- foreground: read

  lemma ReadReturnKeeps(s: State)
    requires Inv(s) && !s.reader.pc.RIdle?
    requires !s.irqEnable.re ==> Full(s.rx)
    requires |s.reader.got| == s.reader.pos
    requires var r := s.reader; ReadContract(ReadCall(r.space, r.nonblock, ReadResult(r), r.got, r.gaveUp))
    ensures Inv(ReadReturn(s))
  {
    var t := ReadReturn(s);
    assert t.readLog[..|t.readLog| - 1] == s.readLog;
    assert s.reader.got[..s.reader.pos] == s.reader.got;
  }

  lemma ReadExitKeeps(s: State)
    requires Inv(s) && !s.reader.pc.RIdle? && !s.reader.pc.REnable?
    requires |s.reader.got| == s.reader.pos
    requires var r := s.reader; ReadContract(ReadCall(r.space, r.nonblock, ReadResult(r), r.got, r.gaveUp))
    ensures Inv(ReadExit(s))
  {
    if s.reader.pos == 0 {
      ReadReturnKeeps(s);
    }
  }

  lemma ReadLoadInKeeps(s: State)
    requires Inv(s) && s.reader.pc.RLoadIn?
    ensures Inv(ReadLoadIn(s))
  {
    if s.reader.space <= s.reader.pos {
      ReadExitKeeps(s);
    }
  }

  lemma ReadLoadOutKeeps(s: State)
    requires Inv(s) && s.reader.pc.RLoadOut?
    ensures Inv(ReadLoadOut(s))
  {
    var r := s.reader;
    ReadRoomExact(r.in_, s.rx.out, r.seen - |s.rx.got|, |s.rx.buf|);
    if ReadRoom(r.in_, s.rx.out, |s.rx.buf|) == 0 && (r.pos > 0 || r.nonblock) {
      ReadExitKeeps(s);
    }
  }

  lemma CopyRx(rx: Ring, r: Reader, log: seq<ReadCall>, r': Reader)
    requires RxInv(rx, r, log) && r.pc.RCopy?
    requires var got := r.got + [rx.buf[r.out + (|r.got| - r.pos)]];
             r' == r.(pc := if |got| == r.pos + r.n then RRelease else RCopy, got := got)
    ensures RxInv(rx, r', log)
  {
    var i := |r.got| - r.pos;
    ByteAt(rx, i);
    assert r'.got[r.pos..] == r.got[r.pos..] + [rx.buf[r.out + i]];
    assert r'.got[..r.pos] == r.got[..r.pos];
  }

  lemma ReadCopyKeeps(s: State)
    requires Inv(s) && s.reader.pc.RCopy?
    ensures Inv(ReadCopy(s))
  {
    CopyRx(s.rx, s.reader, s.readLog, ReadCopy(s).reader);
  }

  lemma ReleaseRx(rx: Ring, r: Reader, log: seq<ReadCall>)
    requires RxInv(rx, r, log) && r.pc.RRelease? && Indexed(rx)
    ensures RxInv(rx.(out := Wrap(r.out + r.n, |rx.buf|), got := rx.got + r.got[r.pos..]),
                  r.(pc := RLoadIn, pos := r.pos + r.n), log)
  {
    ReleaseKeeps(rx, r.got[r.pos..]);
    assert r.got[..r.pos + r.n] == r.got[..r.pos] + r.got[r.pos..];
  }

  lemma ReadReleaseKeeps(s: State)
    requires Inv(s) && s.reader.pc.RRelease?
    ensures Inv(ReadRelease(s))
  {
    ReleaseRx(s.rx, s.reader, s.readLog);
  }

  lemma MovedSinceEmpty(r: Reader, rx: Ring)
    requires RingInv(rx) && Saw(r, rx) && r.seen == |rx.got|
    ensures r.in_ == rx.in_ <==> Pending(rx) == 0
  {
    FullAndEmpty(rx);
  }

  lemma SpinRx(rx: Ring, r: Reader, log: seq<ReadCall>, r': Reader)
    requires RxInv(rx, r, log) && (r.pc.RSpinIn? || r.pc.RSpinHost?)
    requires if r.pc.RSpinHost? then r' == r.(pc := RSpinIn) || r' == r.(pc := RRecheck, gaveUp := true)
             else r' == r.(pc := if r.in_ == rx.in_ then RSpinHost else RRecheck)
    ensures RxInv(rx, r', log)
  {
    MovedSinceEmpty(r, rx);
  }

  lemma ReadSpinKeeps(s: State)
    requires Inv(s) && (s.reader.pc.RSpinIn? || s.reader.pc.RSpinHost?)
    ensures Inv(ReadSpin(s))
  {
    SpinRx(s.rx, s.reader, s.readLog, ReadSpin(s).reader);
  }

  lemma ReadRecheckKeeps(s: State)
    requires Inv(s) && s.reader.pc.RRecheck?
    ensures Inv(ReadRecheck(s))
  {
    MovedSinceEmpty(s.reader, s.rx);
    if s.reader.in_ == s.rx.in_ {
      ReadExitKeeps(s);
    }
  }

  lemma ReadEnableKeeps(s: State)
    requires Inv(s) && s.reader.pc.REnable?
    ensures Inv(ReadEnable(s))
  {
    var e := SetEnable(s, s.irqEnable.(re := true));
    assert Inv(e);
    ReadReturnKeeps(e);
  }

  lemma ReadStepKeeps(s: State)
    requires Inv(s)
    ensures Inv(ReadStep(s))
  {
    match s.reader.pc
    case RIdle =>
    case RLoadIn => ReadLoadInKeeps(s);
    case RLoadOut => ReadLoadOutKeeps(s);
    case RCopy => ReadCopyKeeps(s);
    case RRelease => ReadReleaseKeeps(s);
    case RSpinIn => ReadSpinKeeps(s);
    case RSpinHost => ReadSpinKeeps(s);
    case RRecheck => ReadRecheckKeeps(s);
    case REnable => ReadEnableKeeps(s);
  }

  // ---------------------------------------------------------------- every run

  lemma StartKeeps(s: State, data: seq<Byte>, space: nat, nonblock: bool)
    requires Inv(s)
    ensures Inv(StartWrite(s, data, nonblock)) && Inv(StartRead(s, space, nonblock))
  {
  }

  lemma TimeKeeps(s: State, ac: bool, value: int)
    requires Inv(s)
    ensures Inv(TimeoutStep(s, ac)) && Inv(SetTimeoutStep(s, value))
  {
  }

  /** Every event, in every state that keeps the invariant. */
  lemma StepKeeps(s: State, e: Event)
    requires Inv(s)
    ensures Inv(Step(s, e))
  {
    match e
    case Irq(Isr(c, words)) => IsrKeeps(s, c, words);
    case WriterStep => WriteStepKeeps(s);
    case ReaderStep => ReadStepKeeps(s);
    case CallWrite(data, nonblock) => StartKeeps(s, data, 0, nonblock);
    case CallRead(space, nonblock) => StartKeeps(s, [], space, nonblock);
    case Irq(Timeout(ac)) => TimeKeeps(s, ac, 0);
    case SetTimeout(value) => TimeKeeps(s, false, value);
  }

  lemma {:induction false} RunKeeps(s: State, events: seq<Event>)
    requires Inv(s)
    ensures Inv(Run(s, events))
    decreases events
  {
    if events != [] {
      StepKeeps(s, events[0]);
      RunKeeps(Step(s, events[0]), events[1..]);
    }
  }

  lemma InitialInv(s: State)
    requires Initial(s)
    ensures Inv(s)
  {
  }

  // ---------------------------------------------------------------- what goes through the device

  /** The bytes a run of data register reads yields before the device is empty. */
  function Bytes(words: seq<DataWord>): seq<Byte> {
    if words == [] || words[0].Empty? then [] else [words[0].b] + Bytes(words[1..])
  }

  /** What the receive loop leaves in the device: it pops a word for each turn. */
  function RxLeft(r: Ring, words: seq<DataWord>): seq<DataWord>
    requires Indexed(r)
    decreases words
  {
    if Wrap(r.in_ + 1, |r.buf|) == r.out || words == [] then words
    else if words[0].Empty? then words[1..]
    else RxLeft(Store(r, words[0].b), words[1..])
  }

  lemma Room(r: Ring)
    requires Indexed(r) && RingInv(r)
    ensures 0 <= Pending(r) < |r.buf| && (Wrap(r.in_ + 1, |r.buf|) == r.out <==> Pending(r) == |r.buf| - 1)
    ensures forall b :: Indexed(Store(r, b)) && Pending(Store(r, b)) == Pending(r) + 1 && |Store(r, b).buf| == |r.buf|
  {
    FullAndEmpty(r);
  }

  /** The receive loop takes as many bytes as there are and fit, in order, and pops their
      words and, when there is room left, the one that says there are no more.  With a full
      ring it pops none, so no byte is popped that would have to be dropped. */
  lemma {:induction false} RxLoopTakes(r: Ring, words: seq<DataWord>, more: bool)
    requires Indexed(r) && RingInv(r)
    ensures var room := |r.buf| - 1 - Pending(r);
            var n := Min(|Bytes(words)|, room);
            && 0 <= n <= |words|
            && RxLoop(r, words, more).0.put == r.put + Bytes(words)[..n]
            && RxLeft(r, words) == words[if n < room && n < |words| then n + 1 else n..]
    decreases words
  {
    hide RingInv, Pending, Wrap;
    Room(r);
    if Wrap(r.in_ + 1, |r.buf|) != r.out && words != [] && words[0].Data? {
      var b, rest := words[0].b, words[1..];
      StoreKeeps(r, b);
      RxLoopTakes(Store(r, b), rest, words[0].avail > 0);
      var n := Min(|Bytes(rest)|, |r.buf| - 2 - Pending(r));
      assert Bytes(words)[..n + 1] == [b] + Bytes(rest)[..n];
      assert r.put + [b] + Bytes(rest)[..n] == r.put + ([b] + Bytes(rest)[..n]);
    }
  }

  /** The transmit loop sends as many bytes as there are and the device has space for. */
  lemma {:induction false} TxLoopSends(r: Ring, space: nat)
    requires Indexed(r) && RingInv(r)
    ensures var n := Min(space, Pending(r));
            n >= 0 && TxLoop(r, space).0.got == r.put[..|r.got| + n] && TxLoop(r, space).1 == space - n
    decreases space
  {
    FullAndEmpty(r);
    if space > 0 && r.out != r.in_ {
      FetchKeeps(r);
      TxLoopSends(Fetch(r), space - 1);
    }
  }

  /** What one turn of the interrupt routine takes out of the device, with this ring: with
      a full one, nothing. */
  function TakenInto(r: Ring, words: seq<DataWord>): seq<Byte> {
    var n := Min(|Bytes(words)|, |r.buf| - 1 - Pending(r));
    if 0 <= n then Bytes(words)[..n] else []
  }

  /** What it writes to a device with this space: what a walk of the ring finds first. */
  function SentFrom(r: Ring, space: nat): seq<Byte>
    requires Indexed(r)
  {
    var waiting := Contents(r.buf, r.out, r.in_);
    waiting[..Min(space, |waiting|)]
  }

  function TakenBy(s: State, e: Event): seq<Byte> {
    match e
    case Irq(Isr(c, words)) => if c.ri then TakenInto(s.rx, words) else []
    case _ => []
  }

  function SentBy(s: State, e: Event): seq<Byte>
    requires Indexed(s.tx)
  {
    match e
    case Irq(Isr(c, words)) => if c.wi then SentFrom(s.tx, c.space) else []
    case _ => []
  }

  function Taken(s: State, events: seq<Event>): seq<Byte>
    requires Ready(s)
    decreases |events|
  {
    if events == [] then []
    else
      StepReady(s, events[0]);
      TakenBy(s, events[0]) + Taken(Step(s, events[0]), events[1..])
  }

  function Sent(s: State, events: seq<Event>): seq<Byte>
    requires Ready(s)
    decreases |events|
  {
    if events == [] then []
    else
      StepReady(s, events[0]);
      SentBy(s, events[0]) + Sent(Step(s, events[0]), events[1..])
  }

  lemma RxMoves(r: Ring, words: seq<DataWord>)
    requires Indexed(r) && RingInv(r)
    ensures RxLoop(r, words, true).0.put == r.put + TakenInto(r, words)
  {
    RxLoopTakes(r, words, true);
  }

  lemma TxMoves(r: Ring, space: nat)
    requires Indexed(r) && RingInv(r)
    ensures TxLoop(r, space).0.got == r.got + SentFrom(r, space)
  {
    TxLoopSends(r, space);
    Conservation(r);
    GotGrows(r, Contents(r.buf, r.out, r.in_), Min(space, Pending(r)));
  }

  lemma GotGrows(r: Ring, waiting: seq<Byte>, n: int)
    requires r.got + waiting == r.put && 0 <= n <= |waiting|
    ensures r.put[..|r.got| + n] == r.got + waiting[..n]
  {
  }

  lemma IsrMoves(s: State, c: ControlWord, words: seq<DataWord>)
    requires Indexed(s.tx) && RingInv(s.tx) && Indexed(s.rx) && RingInv(s.rx)
    ensures IsrPass(s, c, words).rx.put == s.rx.put + TakenBy(s, Irq(Isr(c, words)))
    ensures IsrPass(s, c, words).tx.got == s.tx.got + SentBy(s, Irq(Isr(c, words)))
  {
    hide RingInv, TakenInto, SentFrom, RxLoop, TxLoop;
    RxMoves(s.rx, words);
    TxMoves(s.tx, c.space);
  }

  lemma OthersMoveNothing(s: State, e: Event)
    requires Ready(s) && !(e.Irq? && e.i.Isr?)
    ensures Step(s, e).rx.put == s.rx.put && Step(s, e).tx.got == s.tx.got
  {
  }

  lemma StepMoves(s: State, e: Event)
    requires Inv(s)
    ensures Step(s, e).rx.put == s.rx.put + TakenBy(s, e)
    ensures Step(s, e).tx.got == s.tx.got + SentBy(s, e)
  {
    hide IsrPass, WriteStep, ReadStep, RingInv, WriterAt, ReaderAt, WriterLog, ReaderLog;
    match e
    case Irq(Isr(c, words)) => IsrMoves(s, c, words);
    case _ => OthersMoveNothing(s, e);
  }

  lemma {:induction false} RunMoves(s: State, events: seq<Event>)
    requires Inv(s)
    ensures Run(s, events).rx.put == s.rx.put + Taken(s, events)
    ensures Run(s, events).tx.got == s.tx.got + Sent(s, events)
    decreases |events|
  {
    hide TakenBy, SentBy, Step, TxInv, RxInv, WakeInv, HostInv, Ready;
    if events != [] {
      StepMoves(s, events[0]);
      StepKeeps(s, events[0]);
      RunMoves(Step(s, events[0]), events[1..]);
    }
  }

  // ---------------------------------------------------------------- conservation

  lemma Balance(s: State)
    requires Inv(s)
    ensures s.tx.got + Contents(s.tx.buf, s.tx.out, s.tx.in_) == Accepted(s.writeLog) + s.writer.data[..s.writer.pos]
    ensures |Contents(s.tx.buf, s.tx.out, s.tx.in_)| < |s.tx.buf|
    ensures Delivered(s.readLog) + s.reader.got[..s.reader.pos] + Contents(s.rx.buf, s.rx.out, s.rx.in_) == s.rx.put
    ensures |Contents(s.rx.buf, s.rx.out, s.rx.in_)| < |s.rx.buf|
  {
    Conservation(s.tx);
    Conservation(s.rx);
  }

  lemma RunBalances(s: State, events: seq<Event>)
    requires Initial(s)
    ensures Inv(Run(s, events))
    ensures Run(s, events).tx.got == Sent(s, events) && Run(s, events).rx.put == Taken(s, events)
  {
    InitialInv(s);
    RunKeeps(s, events);
    RunMoves(s, events);
    hide Run, Sent, Taken, Inv;
    assert [] + Sent(s, events) == Sent(s, events) && [] + Taken(s, events) == Taken(s, events);
  }

  /** TX conservation.  At every point of every run, the bytes sent to the device
      followed by the bytes found in the ring are the bytes all calls have
      accepted: none lost, repeated, reordered or overwritten. */
  lemma TxConservation(s: State, events: seq<Event>)
    requires Initial(s)
    ensures var t := Run(s, events);
            var waiting := Contents(t.tx.buf, t.tx.out, t.tx.in_);
            && Sent(s, events) + waiting == Accepted(t.writeLog) + t.writer.data[..t.writer.pos]
            && |waiting| < |t.tx.buf|
  {
    RunBalances(s, events);
    Balance(Run(s, events));
  }

  /** RX conservation.  At every point of every run, the bytes handed to callers
      followed by the bytes found in the ring are the bytes taken from the device. */
  lemma RxConservation(s: State, events: seq<Event>)
    requires Initial(s)
    ensures var t := Run(s, events);
            var waiting := Contents(t.rx.buf, t.rx.out, t.rx.in_);
            && Delivered(t.readLog) + t.reader.got[..t.reader.pos] + waiting == Taken(s, events)
            && |waiting| < |t.rx.buf|
  {
    RunBalances(s, events);
    Balance(Run(s, events));
  }

  /** No lost wake-up, in terms of the buffers: whenever output is waiting and no
      writer still has to enable its interrupt, the device has it enabled; and
      whenever the device has the receive interrupt disabled, the ring has no room
      or a reader that made room is still going to enable it. */
  lemma NoLostWakeUp(s: State, events: seq<Event>)
    requires Initial(s)
    ensures var t := Run(s, events);
            && (t.tx.out != t.tx.in_ && t.writer.kicked == t.writer.pos ==> t.control.we)
            && (!t.control.re ==> Wrap(t.rx.in_ + 1, |t.rx.buf|) == t.rx.out || t.reader.pos > 0)
  {
    InitialInv(s);
    RunKeeps(s, events);
    FullAndEmpty(Run(s, events).tx);
    FullAndEmpty(Run(s, events).rx);
  }

  /** With no call in progress the wake-up conditions are unconditional. */
  lemma QuiescentWakeUp(s: State, events: seq<Event>)
    requires Initial(s)
    ensures var t := Run(s, events);
            && (t.writer.pc.WIdle? && t.tx.out != t.tx.in_ ==> t.control.we)
            && (t.reader.pc.RIdle? && Wrap(t.rx.in_ + 1, |t.rx.buf|) != t.rx.out ==> t.control.re)
  {
    NoLostWakeUp(s, events);
    InitialInv(s);
    RunKeeps(s, events);
  }

  /** What every finished call returned. */
  lemma ReturnContracts(s: State, events: seq<Event>)
    requires Initial(s)
    ensures forall c :: c in Run(s, events).writeLog ==> WriteContract(c)
    ensures forall c :: c in Run(s, events).readLog ==> ReadContract(c)
  {
    InitialInv(s);
    RunKeeps(s, events);
  }

  // ---------------------------------------------------------------- the host's silence

  /** How many watchdog calls have found no activity since the last that did. */
  function Silence(events: seq<Event>): nat {
    if events == [] then 0
    else
      match events[|events| - 1]
      case Irq(Timeout(ac)) => if ac then 0 else Silence(events[..|events| - 1]) + 1
      case _ => Silence(events[..|events| - 1])
  }

  lemma OnlyTheWatchdogCounts(s: State, e: Event)
    requires Ready(s) && !(e.Irq? && e.i.Timeout?)
    ensures Step(s, e).hostInactive == s.hostInactive
  {
  }

  /** `host_inactive` is that number, up to a ceiling, whatever else happens. */
  lemma {:induction false} HostInactiveCountsSilence(s: State, events: seq<Event>)
    requires Ready(s) && s.hostInactive == 0
    ensures Run(s, events).hostInactive == Min(Silence(events), INT_MAX - 2)
    decreases |events|
  {
    if events != [] {
      var before, e := events[..|events| - 1], events[|events| - 1];
      HostInactiveCountsSilence(s, before);
      RunAppend(s, before, e);
      assert events == before + [e];
      if !(e.Irq? && e.i.Timeout?) {
        OnlyTheWatchdogCounts(Run(s, before), e);
      }
    }
  }

  /** The host counts as absent. */
  ghost predicate Absent(s: State) {
    s.timeout <= s.hostInactive
  }

  /** There was a moment, after `n` calls had finished and while the next one was in
      progress, at which the host counted as absent. */
  ghost predicate AbsentWhileWriting(s: State, events: seq<Event>, n: nat)
    requires Ready(s)
  {
    exists k :: 0 <= k <= |events| && var t := Run(s, events[..k]); |t.writeLog| == n && !t.writer.pc.WIdle? && Absent(t)
  }

  ghost predicate AbsentWhileReading(s: State, events: seq<Event>, n: nat)
    requires Ready(s)
  {
    exists k :: 0 <= k <= |events| && var t := Run(s, events[..k]); |t.readLog| == n && !t.reader.pc.RIdle? && Absent(t)
  }

  /** Each call changes only by its own steps. */
  lemma SparesOthers(s: State, e: Event)
    requires Ready(s)
    ensures !e.WriterStep? && !e.CallWrite? ==> Step(s, e).writer == s.writer && Step(s, e).writeLog == s.writeLog
    ensures !e.ReaderStep? && !e.CallRead? ==> Step(s, e).reader == s.reader && Step(s, e).readLog == s.readLog
  {
    hide Ready, WriterShaped, ReaderShaped, Indexed;
  }

  /** What one event does to the record of calls, and when a call comes to give up. */
  lemma WriterGivesUp(s: State, e: Event)
    requires Ready(s) && (s.writer.pc.WIdle? ==> !s.writer.gaveUp)
    ensures var (u, log) := (Step(s, e).writer, Step(s, e).writeLog);
            || (log == s.writeLog && (u.gaveUp ==> s.writer.gaveUp || (Absent(s) && !s.writer.pc.WIdle?)))
            || (|log| == |s.writeLog| + 1 && s.writeLog == log[..|s.writeLog|] && !u.gaveUp
                && (log[|s.writeLog|].gaveUp ==> s.writer.gaveUp))
    ensures Step(s, e).writer.pc.WIdle? ==> !Step(s, e).writer.gaveUp
  {
    hide Ready, WriterShaped, ReaderShaped, Indexed, ReadStep, IsrPass;
    SparesOthers(s, e);
  }

  lemma ReaderGivesUp(s: State, e: Event)
    requires Ready(s) && (s.reader.pc.RIdle? ==> !s.reader.gaveUp)
    ensures var (u, log) := (Step(s, e).reader, Step(s, e).readLog);
            || (log == s.readLog && (u.gaveUp ==> s.reader.gaveUp || (Absent(s) && !s.reader.pc.RIdle?)))
            || (|log| == |s.readLog| + 1 && s.readLog == log[..|s.readLog|] && !u.gaveUp
                && (log[|s.readLog|].gaveUp ==> s.reader.gaveUp))
    ensures Step(s, e).reader.pc.RIdle? ==> !Step(s, e).reader.gaveUp
  {
    hide Ready, WriterShaped, ReaderShaped, Indexed, WriteStep, IsrPass;
    SparesOthers(s, e);
  }

  lemma AbsentStays(s: State, before: seq<Event>, events: seq<Event>, n: nat)
    requires Ready(s) && before <= events
    ensures AbsentWhileWriting(s, before, n) ==> AbsentWhileWriting(s, events, n)
    ensures AbsentWhileReading(s, before, n) ==> AbsentWhileReading(s, events, n)
  {
    assert forall k :: 0 <= k <= |before| ==> events[..k] == before[..k];
  }

  lemma AbsentAtEnd(s: State, before: seq<Event>, events: seq<Event>)
    requires Ready(s) && before <= events && Absent(Run(s, before))
    ensures !Run(s, before).writer.pc.WIdle? ==> AbsentWhileWriting(s, events, |Run(s, before).writeLog|)
    ensures !Run(s, before).reader.pc.RIdle? ==> AbsentWhileReading(s, events, |Run(s, before).readLog|)
  {
    assert events[..|before|] == before;
  }

  /** A write gives up waiting only if the host counts as absent at some moment between
      its start and its return. */
  lemma {:induction false} WriteGivesUpWhenAbsent(s: State, events: seq<Event>)
    requires Ready(s) && s.writer == NO_WRITER
    ensures var t := Run(s, events);
            && |s.writeLog| <= |t.writeLog|
            && (t.writer.pc.WIdle? ==> !t.writer.gaveUp)
            && (t.writer.gaveUp ==> AbsentWhileWriting(s, events, |t.writeLog|))
            && forall i :: |s.writeLog| <= i < |t.writeLog| && t.writeLog[i].gaveUp ==> AbsentWhileWriting(s, events, i)
    decreases |events|
  {
    hide Ready, Step, AbsentWhileWriting, Absent;
    if events == [] {
      return;
    }
    var before, e := events[..|events| - 1], events[|events| - 1];
    WriteGivesUpWhenAbsent(s, before);
    RunAppend(s, before, e);
    assert events == before + [e];
    var u, t := Run(s, before), Run(s, events);
    WriterGivesUp(u, e);
    if Absent(u) {
      AbsentAtEnd(s, before, events);
    }
    AbsentStays(s, before, events, |u.writeLog|);
    forall i | |s.writeLog| <= i < |t.writeLog| && t.writeLog[i].gaveUp ensures AbsentWhileWriting(s, events, i) {
      if i < |u.writeLog| {
        assert t.writeLog[i] == u.writeLog[i];
        AbsentStays(s, before, events, i);
      }
    }
  }

  /** The same of a read. */
  lemma {:induction false} ReadGivesUpWhenAbsent(s: State, events: seq<Event>)
    requires Ready(s) && s.reader == NO_READER
    ensures var t := Run(s, events);
            && |s.readLog| <= |t.readLog|
            && (t.reader.pc.RIdle? ==> !t.reader.gaveUp)
            && (t.reader.gaveUp ==> AbsentWhileReading(s, events, |t.readLog|))
            && forall i :: |s.readLog| <= i < |t.readLog| && t.readLog[i].gaveUp ==> AbsentWhileReading(s, events, i)
    decreases |events|
  {
    hide Ready, Step, AbsentWhileReading, Absent;
    if events == [] {
      return;
    }
    var before, e := events[..|events| - 1], events[|events| - 1];
    ReadGivesUpWhenAbsent(s, before);
    RunAppend(s, before, e);
    assert events == before + [e];
    var u, t := Run(s, before), Run(s, events);
    ReaderGivesUp(u, e);
    if Absent(u) {
      AbsentAtEnd(s, before, events);
    }
    AbsentStays(s, before, events, |u.readLog|);
    forall i | |s.readLog| <= i < |t.readLog| && t.readLog[i].gaveUp ensures AbsentWhileReading(s, events, i) {
      if i < |u.readLog| {
        assert t.readLog[i] == u.readLog[i];
        AbsentStays(s, before, events, i);
      }
    }
  }

  // ---------------------------------------------------------------- without a watchdog

  lemma {:induction false} TimeoutStays(s: State, events: seq<Event>)
    requires Ready(s) && s.timeout == INT_MAX
    ensures Run(s, events).timeout == INT_MAX
    decreases |events|
  {
    if events != [] {
      StepReady(s, events[0]);
      OnlySetTimeoutSets(s, events[0]);
      TimeoutStays(Step(s, events[0]), events[1..]);
    }
  }

  lemma OnlySetTimeoutSets(s: State, e: Event)
    requires Ready(s) && (e.SetTimeout? ==> s.timeout == INT_MAX)
    ensures Step(s, e).timeout == s.timeout
  {
  }

  lemma NeverAbsent(s: State, events: seq<Event>)
    requires Initial(s) && s.timeout == INT_MAX
    ensures forall k :: 0 <= k <= |events| ==> !Absent(Run(s, events[..k]))
  {
    InitialInv(s);
    forall k | 0 <= k <= |events| ensures !Absent(Run(s, events[..k])) {
      TimeoutStays(s, events[..k]);
      RunKeeps(s, events[..k]);
    }
  }

  /** When the watchdog alarm could not be started the host counts as present for
      ever: a blocking write then never returns short and a blocking read never
      fails, whatever else happens. */
  lemma WithoutWatchdogBlockingCallsComplete(s: State, events: seq<Event>)
    requires Initial(s) && s.timeout == INT_MAX
    ensures forall c :: c in Run(s, events).writeLog && !c.nonblock && c.data != [] ==> c.result == |c.data|
    ensures forall c :: c in Run(s, events).readLog && !c.nonblock && 0 < c.space ==> 1 <= c.result == |c.bytes|
  {
    NeverAbsent(s, events);
    WriteGivesUpWhenAbsent(s, events);
    ReadGivesUpWhenAbsent(s, events);
    ReturnContracts(s, events);
    var t := Run(s, events);
    assert forall i :: 0 <= i < |t.writeLog| ==> !t.writeLog[i].gaveUp;
    assert forall i :: 0 <= i < |t.readLog| ==> !t.readLog[i].gaveUp;
  }
}
