/** The circular buffers of the JTAG UART driver.

    Each direction has one buffer, one index advanced by the side that fills it
    and one advanced by the side that empties it.  A ring of `len` slots holds at
    most `len - 1` bytes. */
module UartRing {

  type Byte = bv8

  function Min(a: int, b: int): int {
    if a <= b then a else b
  }

  /** Index arithmetic of the driver: its `i % len`, for the sums it forms. */
  function Wrap(i: nat, len: nat): nat
    requires 0 < len && i < 2 * len
  {
    if i < len then i else i - len
  }

  lemma WrapIsRemainder(i: nat, len: nat)
    requires 0 < len && i < 2 * len
    ensures Wrap(i, len) == i % len
  {
    if i < len {
      assert i / len == 0;
    } else {
      assert i / len == 1;
    }
  }

  /** A buffer with its two indices, and the history of all bytes stored in it
      (`put`) and removed from it (`got`). */
  datatype Ring = Ring(buf: seq<Byte>, in_: nat, out: nat, put: seq<Byte>, got: seq<Byte>)

  ghost predicate Indexed(r: Ring) {
    r.in_ < |r.buf| && r.out < |r.buf|
  }

  /** One byte in, one byte out, as the interrupt routine does it. */
  function Store(r: Ring, b: Byte): Ring
    requires Indexed(r)
  {
    r.(buf := r.buf[r.in_ := b], in_ := Wrap(r.in_ + 1, |r.buf|), put := r.put + [b])
  }

  function Fetch(r: Ring): Ring
    requires Indexed(r)
  {
    r.(out := Wrap(r.out + 1, |r.buf|), got := r.got + [r.buf[r.out]])
  }

  /** What a walk of the buffer from `out` round to `in_` finds. */
  function Contents(buf: seq<Byte>, out: nat, in_: nat): seq<Byte>
    requires out < |buf| && in_ < |buf|
    decreases if out <= in_ then in_ - out else in_ + |buf| - out
  {
    if out == in_ then [] else [buf[out]] + Contents(buf, Wrap(out + 1, |buf|), in_)
  }

  function Pending(r: Ring): int {
    |r.put| - |r.got|
  }

  /** The removed bytes are the beginning of the stored ones, and the buffer holds
      the others, from `out` round to `in_`. */
  ghost predicate RingInv(r: Ring) {
    && 2 <= |r.buf| && r.out < |r.buf|
    && r.got <= r.put && Pending(r) < |r.buf|
    && r.in_ == Wrap(r.out + Pending(r), |r.buf|)
    && forall j :: |r.got| <= j < |r.put| ==> r.buf[Wrap(r.out + (j - |r.got|), |r.buf|)] == r.put[j]
  }

  /** Conservation for one ring: what was removed, followed by what a walk finds, is
      what was stored. */
  lemma {:induction false} Conservation(r: Ring)
    requires RingInv(r)
    ensures r.got + Contents(r.buf, r.out, r.in_) == r.put
    ensures |Contents(r.buf, r.out, r.in_)| == Pending(r) < |r.buf|
    decreases Pending(r)
  {
    if 0 < Pending(r) {
      FetchKeeps(r);
      Conservation(Fetch(r));
    }
  }

  /** The tests for a full and for an empty ring are exact. */
  lemma FullAndEmpty(r: Ring)
    requires RingInv(r)
    ensures Wrap(r.in_ + 1, |r.buf|) == r.out <==> Pending(r) == |r.buf| - 1
    ensures r.out == r.in_ <==> Pending(r) == 0
  {
  }

  lemma StoreKeeps(r: Ring, b: Byte)
    requires RingInv(r) && Wrap(r.in_ + 1, |r.buf|) != r.out
    ensures RingInv(Store(r, b))
  {
  }

  lemma FetchKeeps(r: Ring)
    requires RingInv(r) && r.out != r.in_
    ensures RingInv(Fetch(r)) && Fetch(r).got == r.put[..|r.got| + 1]
  {
    assert r.buf[r.out] == r.put[|r.got|];
  }

  /** The writer's chunk size, branch for branch. */
  function WriteRoom(in_: nat, out: nat, len: nat): nat
    requires in_ < len && out < len
  {
    if in_ < out then out - 1 - in_
    else if out > 0 then len - in_
    else len - 1 - in_
  }

  /** The reader's chunk size, branch for branch. */
  function ReadRoom(in_: nat, out: nat, len: nat): nat
    requires in_ < len && out < len
  {
    if in_ >= out then in_ - out else len - out
  }

  /** The writer's three branches compute exactly the free bytes, cut off at the
      physical end of the buffer. */
  lemma WriteRoomExact(r: Ring)
    requires RingInv(r)
    ensures WriteRoom(r.in_, r.out, |r.buf|) == Min(|r.buf| - r.in_, |r.buf| - 1 - Pending(r))
  {
  }

  /** The reader's two branches compute exactly the bytes that were there when `in_`
      was loaded, cut off at the physical end of the buffer. */
  lemma ReadRoomExact(in_: nat, out: nat, pending: nat, len: nat)
    requires pending < len && out < len && in_ == Wrap(out + pending, len)
    ensures ReadRoom(in_, out, len) == Min(len - out, pending)
  {
  }

  /** Copying a byte into the free part of the ring disturbs no stored byte. */
  lemma CopyAhead(r: Ring, i: nat, b: Byte)
    requires RingInv(r) && i < Min(|r.buf| - r.in_, |r.buf| - 1 - Pending(r))
    ensures RingInv(r.(buf := r.buf[r.in_ + i := b]))
  {
  }

  /** One store to `in_` makes a copied chunk part of the ring. */
  lemma PublishKeeps(r: Ring, chunk: seq<Byte>)
    requires RingInv(r) && |chunk| <= Min(|r.buf| - r.in_, |r.buf| - 1 - Pending(r))
    requires r.buf[r.in_..r.in_ + |chunk|] == chunk
    ensures RingInv(r.(in_ := Wrap(r.in_ + |chunk|, |r.buf|), put := r.put + chunk))
  {
    forall j | |r.put| <= j < |r.put| + |chunk|
      ensures r.buf[Wrap(r.out + (j - |r.got|), |r.buf|)] == (r.put + chunk)[j]
    {
      assert r.buf[r.in_..r.in_ + |chunk|][j - |r.put|] == r.buf[r.in_ + (j - |r.put|)];
    }
  }

  /** Bytes read from `out` onward are the next ones of the history. */
  lemma ByteAt(r: Ring, i: nat)
    requires RingInv(r) && i < Min(|r.buf| - r.out, Pending(r))
    ensures r.buf[r.out + i] == r.put[|r.got| + i]
  {
  }

  /** One store to `out` removes a chunk that has been read. */
  lemma ReleaseKeeps(r: Ring, chunk: seq<Byte>)
    requires RingInv(r) && |chunk| <= Min(|r.buf| - r.out, Pending(r))
    requires chunk == r.put[|r.got|..|r.got| + |chunk|]
    ensures RingInv(r.(out := Wrap(r.out + |chunk|, |r.buf|), got := r.got + chunk))
  {
  }
}
