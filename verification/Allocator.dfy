/** The heap that `sbrk` extends, and the small blocks the profiler cuts out of slabs it
    gets from there. */
module Allocator {
  import opened Words

  const SLAB: nat := 1020

  /** What `sbrk` returns when it fails, as an address. */
  const FAILED: nat := TWO32 - 1

  /** Where the linker has put the heap. */
  datatype Region = Region(start: nat, limit: nat)

  /** The heap is not at address zero, and lies in the lower half of the address space, so
      that the sums of an address and an increment do not wrap. */
  predicate Placed(r: Region) {
    0 < r.start <= r.limit && r.limit + 4 <= 0x8000_0000
  }

  datatype Block = Block(addr: nat, size: nat)

  /** The state of both allocators, and the blocks handed out so far. */
  datatype Heap = Heap(end: nat, slabPtr: nat, slabSize: nat, blocks: seq<Block>)

  function Aligned(end: nat): nat {
    (end + 3) / 4 * 4
  }

  /** `sbrk`: the end of the heap is aligned even if the call then fails. */
  function Sbrk(r: Region, h: Heap, incr: int): (Heap, nat) {
    var end := Aligned(h.end);
    if (end + incr) % TWO32 > r.limit then (h.(end := end), FAILED)
    else (h.(end := (end + incr) % TWO32), end)
  }

  /** `mcount_allocate`: it does not look whether it has got its slab. */
  function Allocate(r: Region, h: Heap, size: nat): (Heap, nat)
    requires size <= SLAB
  {
    var g :=
      if size > h.slabSize then
        var (g, p) := Sbrk(r, h, SLAB);
        g.(slabPtr := p, slabSize := SLAB)
      else h;
    (g.(slabPtr := g.slabPtr + size, slabSize := g.slabSize - size, blocks := g.blocks + [Block(g.slabPtr, size)]),
     g.slabPtr)
  }

  // ---------------------------------------------------------------- disjointness

  predicate Apart(a: Block, b: Block) {
    a.addr + a.size <= b.addr || b.addr + b.size <= a.addr
  }

  /** The rest of the slab, from which the next small blocks are cut. */
  function Rest(h: Heap): Block {
    Block(h.slabPtr, h.slabSize)
  }

  /** The bytes of the block lie in the region; a block of size zero has none. */
  predicate InRegion(r: Region, b: Block) {
    b.addr + b.size <= r.limit && (0 < b.size ==> r.start <= b.addr)
  }

  /** The block lies in the part of the heap in use. */
  predicate InHeap(r: Region, h: Heap, b: Block) {
    InRegion(r, b) && b.addr + b.size <= h.end
  }

  /** All blocks lie in the heap, and no two of them overlap, nor does the rest of the slab
      overlap any of them. */
  ghost predicate Sound(r: Region, h: Heap) {
    && r.start <= h.end <= Aligned(r.limit)
    && InHeap(r, h, Rest(h))
    && (forall i :: 0 <= i < |h.blocks| ==> InHeap(r, h, h.blocks[i]) && Apart(h.blocks[i], Rest(h)))
    && forall i, j :: 0 <= i < j < |h.blocks| ==> Apart(h.blocks[i], h.blocks[j])
  }

  /** There is no slab yet, and no pointer to one. */
  function Initial(r: Region): Heap {
    Heap(r.start, 0, 0, [])
  }

  datatype Request = Direct(incr: nat) | Small(size: nat)

  /** A direct request within the range of a C `int`, or a small one that finds its slab. */
  predicate Granted(r: Region, h: Heap, q: Request) {
    match q
    case Direct(incr) => incr < 0x8000_0000
    case Small(size) => size <= SLAB && (size <= h.slabSize || Aligned(h.end) + SLAB <= r.limit)
  }

  function Serve(r: Region, h: Heap, q: Request): Heap
    requires Granted(r, h, q)
  {
    match q
    case Direct(incr) =>
      var (g, p) := Sbrk(r, h, incr);
      if p == FAILED then g else g.(blocks := g.blocks + [Block(p, incr)])
    case Small(size) => Allocate(r, h, size).0
  }

  /** `h` comes to `g` by some sequence of requests. */
  ghost predicate Reaches(r: Region, h: Heap, run: seq<Request>, g: Heap)
    decreases |run|
  {
    if run == [] then h == g
    else Granted(r, h, run[0]) && Reaches(r, Serve(r, h, run[0]), run[1..], g)
  }

  lemma AlignedUp(end: nat)
    ensures Aligned(end) % 4 == 0 && end <= Aligned(end) < end + 4
  {
  }

  /** `sbrk` fails exactly when the heap would grow over its limit; otherwise it hands out
      an aligned block past everything handed out before. */
  lemma SbrkGrants(r: Region, h: Heap, incr: nat)
    requires Placed(r) && Sound(r, h) && incr < 0x8000_0000
    ensures var (g, p) := Sbrk(r, h, incr);
            && (p == FAILED <==> Aligned(h.end) + incr > r.limit)
            && (p == FAILED ==> g == h.(end := Aligned(h.end)))
            && (p != FAILED ==> p % 4 == 0 && h.end <= p && g == h.(end := p + incr) && g.end <= r.limit)
  {
    AlignedUp(h.end);
  }

  lemma ServeKeeps(r: Region, h: Heap, q: Request)
    requires Placed(r) && Sound(r, h) && Granted(r, h, q)
    ensures Sound(r, Serve(r, h, q)) && h.blocks <= Serve(r, h, q).blocks
  {
    AlignedUp(h.end);
    match q
    case Direct(incr) => SbrkGrants(r, h, incr);
    case Small(size) =>
      if size > h.slabSize {
        SbrkGrants(r, h, SLAB);
      }
  }

  lemma {:induction false} RunKeeps(r: Region, h: Heap, run: seq<Request>, g: Heap)
    requires Placed(r) && Sound(r, h) && Reaches(r, h, run, g)
    ensures Sound(r, g) && h.blocks <= g.blocks
    decreases |run|
  {
    if run != [] {
      ServeKeeps(r, h, run[0]);
      RunKeeps(r, Serve(r, h, run[0]), run[1..], g);
    }
  }

  /** Over every sequence of requests, no two blocks overlap and all of them are in the
      heap. */
  lemma BlocksAreDisjoint(r: Region, run: seq<Request>, h: Heap, i: nat, j: nat)
    requires Placed(r) && Reaches(r, Initial(r), run, h) && i < j < |h.blocks|
    ensures Apart(h.blocks[i], h.blocks[j]) && InHeap(r, h, h.blocks[i])
  {
    RunKeeps(r, Initial(r), run, h);
  }

  /** A small block is in the heap exactly when the slab it comes from is: the allocator
      does not notice when there is none. */
  lemma SmallBlockIsInHeap(r: Region, h: Heap, size: nat)
    requires Placed(r) && Sound(r, h) && size <= SLAB
    ensures var (g, p) := Allocate(r, h, size);
            InRegion(r, Block(p, size)) <==> Granted(r, h, Small(size))
  {
    AlignedUp(h.end);
    if size > h.slabSize {
      SbrkGrants(r, h, SLAB);
    }
  }

  /** Such a heap can be reached: after the first slab has been used up, the next small
      block is not in the heap. */
  lemma SmallBlockMayMissHeap() returns (r: Region, run: seq<Request>, h: Heap)
    ensures Placed(r) && Reaches(r, Initial(r), run, h)
    ensures !Granted(r, h, Small(12)) && !InRegion(r, Block(Allocate(r, h, 12).1, 12))
  {
    r := Region(4, 2000);
    run, h := [Small(SLAB)], Serve(r, Initial(r), Small(SLAB));
    assert run[1..] == [];
    assert Reaches(r, h, [], h);
  }
}
