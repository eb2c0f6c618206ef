/** The profiler: it finds or makes the entries for a call in memory that it gets from its
    allocator, and counts. */
module Profiler {
  import opened Allocator
  import opened Bits
  import opened Words

  const NULL: nat := 0
  const ENTRY_SIZE: nat := 12
  const HASH_BUCKETS: nat := 64

  /** The two kinds of entries; addresses stand for pointers. */
  datatype Cell =
    | Function(next: nat, selfPc: U32, arcHead: nat)
    | Arc(next: nat, fromPc: U32, count: U32)

  /** The memory that holds the entries. */
  type Memory = map<nat, Cell>

  /** A call: where it goes, and where it comes from. */
  datatype Call = Call(selfPc: U32, fromPc: U32)

  /** The offset into the table of buckets, whose pointers have four bytes each. */
  function Offset(pc: U32): nat {
    And(Right(pc, 3), 0xFC)
  }

  function Bucket(pc: U32): nat {
    pc / 32 % HASH_BUCKETS
  }

  lemma OffsetIsBucket(pc: U32)
    ensures Offset(pc) == 4 * Bucket(pc) && Bucket(pc) == pc / 32 % 64 && Bucket(pc) < HASH_BUCKETS
  {
    hide And, Right;
    assert Pow2(6) == 64 && Pow2(5) == 32 && Left(63, 2) == 0xFC;
    AndField(Right(pc, 3), 6, 2);
    assert Right(pc, 3) == pc / 8 && Right(Right(pc, 3), 2) == pc / 32 by {
      Shifts(pc);
    }
    LeftIsProduct(pc / 32 % 64, 2);
  }

  lemma Shifts(pc: U32)
    ensures Right(pc, 3) == pc / 8 && Right(pc / 8, 2) == pc / 32
  {
    assert Right(pc / 2, 2) == pc / 8 by {
      assert Right(pc / 2 / 2, 1) == Right(pc / 2 / 2 / 2, 0);
    }
    assert Right(pc / 8 / 2, 1) == Right(pc / 8 / 2 / 2, 0);
  }

  // ---------------------------------------------------------------- lists of entries

  /** Following `next` from `head` finds these entries and then the end. */
  ghost predicate ListAt(m: Memory, head: nat, list: seq<nat>)
    decreases |list|
  {
    if list == [] then head == NULL
    else head == list[0] && head != NULL && head in m && ListAt(m, m[head].next, list[1..])
  }

  lemma {:induction false} ListIsUnique(m: Memory, head: nat, list: seq<nat>, other: seq<nat>)
    requires ListAt(m, head, list) && ListAt(m, head, other)
    ensures list == other
    decreases |list|
  {
    if list != [] {
      ListIsUnique(m, m[head].next, list[1..], other[1..]);
      assert list == [head] + list[1..] && other == [head] + other[1..];
    }
  }

  lemma NextOf(m: Memory, head: nat, list: seq<nat>, k: nat)
    requires k <= |list| && ListAt(m, head, list[k..])
    ensures head == NULL <==> k == |list|
    ensures k < |list| ==> head == list[k] && head in m && ListAt(m, m[head].next, list[k + 1..])
  {
    assert k < |list| ==> list[k..][1..] == list[k + 1..];
  }

  /** The entries of `m` are still there in `m'`, with their links. */
  ghost predicate SameLinks(m: Memory, m': Memory) {
    forall a :: a in m ==> a in m' && m'[a].next == m[a].next
  }

  /** So every list there was is still there. */
  lemma {:induction false} ListStays(m: Memory, m': Memory, head: nat, list: seq<nat>)
    requires SameLinks(m, m') && ListAt(m, head, list)
    ensures ListAt(m', head, list)
    decreases |list|
  {
    if list != [] {
      ListStays(m, m', m[head].next, list[1..]);
    }
  }

  lemma ListGrows(m: Memory, m': Memory, head: nat, list: seq<nat>, a: nat)
    requires SameLinks(m, m') && ListAt(m, head, list) && a != NULL && a in m' && m'[a].next == head
    ensures ListAt(m', a, [a] + list)
  {
    ListStays(m, m', head, list);
    assert ([a] + list)[1..] == list;
  }

  // ---------------------------------------------------------------- the call graph

  /** The entries, the heads of the buckets, and what walks from there find: the functions
      of each bucket, the arcs of each function, and the function that each arc is of. */
  datatype Graph = Graph(memory: Memory, heads: seq<nat>, buckets: seq<seq<nat>>,
                         arcs: map<nat, seq<nat>>, owner: map<nat, nat>)

  predicate IsFunction(g: Graph, f: nat) {
    f in g.memory && g.memory[f].Function?
  }

  predicate IsArc(g: Graph, f: nat, a: nat) {
    f in g.arcs && a in g.arcs[f]
  }

  function SelfPc(g: Graph, f: nat): U32 {
    if IsFunction(g, f) then g.memory[f].selfPc else 0
  }

  function FromPc(g: Graph, a: nat): U32 {
    if a in g.memory && g.memory[a].Arc? then g.memory[a].fromPc else 0
  }

  function Count(g: Graph, a: nat): U32 {
    if a in g.memory && g.memory[a].Arc? then g.memory[a].count else 0
  }

  /** The call that an arc stands for. */
  function CallOf(g: Graph, f: nat, a: nat): Call {
    Call(SelfPc(g, f), FromPc(g, a))
  }

  ghost predicate BucketOk(g: Graph, b: nat) {
    && b < |g.heads| && b < |g.buckets| && ListAt(g.memory, g.heads[b], g.buckets[b])
    && forall f :: f in g.buckets[b] ==> f in g.arcs
  }

  ghost predicate FunctionOk(g: Graph, f: nat) {
    && IsFunction(g, f) && f in g.arcs && ListAt(g.memory, g.memory[f].arcHead, g.arcs[f])
    && Bucket(g.memory[f].selfPc) < |g.buckets| && f in g.buckets[Bucket(g.memory[f].selfPc)]
  }

  ghost predicate ArcOk(g: Graph, f: nat, a: nat) {
    a in g.memory && g.memory[a].Arc? && a in g.owner && g.owner[a] == f
  }

  /** No function has two entries, and no arc of a function. */
  ghost predicate OneEntryEach(g: Graph) {
    && (forall f, h :: f in g.arcs && h in g.arcs && SelfPc(g, f) == SelfPc(g, h) ==> f == h)
    && (forall f, a, c :: IsArc(g, f, a) && IsArc(g, f, c) && FromPc(g, a) == FromPc(g, c) ==> a == c)
  }

  /** Everything is linked where it belongs. */
  ghost predicate Linked(g: Graph) {
    && |g.heads| == HASH_BUCKETS && |g.buckets| == HASH_BUCKETS
    && (forall b: nat :: b < HASH_BUCKETS ==> BucketOk(g, b))
    && (forall f :: f in g.arcs ==> FunctionOk(g, f))
    && (forall f, a :: IsArc(g, f, a) ==> ArcOk(g, f, a))
    && (forall a :: a in g.owner ==> a in g.memory)
    && OneEntryEach(g)
  }

  /** Every function has an arc: the fast path relies on it. */
  ghost predicate NoneEmpty(g: Graph) {
    forall f :: f in g.arcs ==> g.arcs[f] != []
  }

  function Times(calls: seq<Call>, c: Call): nat {
    if calls == [] then 0
    else Times(calls[..|calls| - 1], c) + if calls[|calls| - 1] == c then 1 else 0
  }

  lemma TimesOfNext(calls: seq<Call>, next: Call, c: Call)
    ensures Times(calls + [next], c) == Times(calls, c) + if next == c then 1 else 0
  {
    assert (calls + [next])[..|calls|] == calls;
  }

  lemma {:induction false} NoTimes(calls: seq<Call>, c: Call)
    ensures Times(calls, c) == 0 <==> c !in calls
  {
    if calls != [] {
      var n := |calls| - 1;
      NoTimes(calls[..n], c);
      assert calls == calls[..n] + [calls[n]];
    }
  }

  ghost predicate Known(g: Graph, c: Call) {
    exists f, a :: IsArc(g, f, a) && CallOf(g, f, a) == c
  }

  ghost predicate CountOk(g: Graph, calls: seq<Call>, f: nat, a: nat) {
    CallOf(g, f, a) in calls && Count(g, a) == Times(calls, CallOf(g, f, a)) % TWO32
  }

  /** The arcs are those of the calls made so far, and each has counted its calls. */
  ghost predicate Counted(g: Graph, calls: seq<Call>) {
    && (forall f, a :: IsArc(g, f, a) ==> CountOk(g, calls, f, a))
    && (forall c :: c in calls ==> Known(g, c))
  }

  // ---------------------------------------------------------------- one more call

  /** The entries and lists of `g` are still there in `g'`, unless their arcs or counts have
      changed. */
  ghost predicate Extends(g: Graph, g': Graph) {
    && SameLinks(g.memory, g'.memory)
    && (forall f :: IsFunction(g, f) ==> IsFunction(g', f) && SelfPc(g', f) == SelfPc(g, f))
    && (forall a :: a in g.memory && g.memory[a].Arc? ==>
          a in g'.memory && g'.memory[a].Arc? && FromPc(g', a) == FromPc(g, a))
    && (forall b: nat :: b < |g.buckets| ==> b < |g'.buckets| && forall f :: f in g.buckets[b] ==> f in g'.buckets[b])
    && (forall f :: f in g.arcs ==> f in g'.arcs)
    && (forall a :: a in g.owner ==> a in g'.owner && g'.owner[a] == g.owner[a])
  }

  lemma FunctionStays(g: Graph, g': Graph, f: nat)
    requires Extends(g, g') && FunctionOk(g, f)
    requires g'.memory[f] == g.memory[f] && g'.arcs[f] == g.arcs[f]
    ensures FunctionOk(g', f)
  {
    ListStays(g.memory, g'.memory, g.memory[f].arcHead, g.arcs[f]);
  }

  lemma BucketStays(g: Graph, g': Graph, b: nat)
    requires Extends(g, g') && BucketOk(g, b)
    requires b < |g'.heads| && g'.heads[b] == g.heads[b] && g'.buckets[b] == g.buckets[b]
    ensures BucketOk(g', b)
  {
    ListStays(g.memory, g'.memory, g.heads[b], g.buckets[b]);
  }

  lemma ArcStays(g: Graph, g': Graph, f: nat, a: nat)
    requires Extends(g, g') && ArcOk(g, f, a)
    ensures ArcOk(g', f, a) && FromPc(g', a) == FromPc(g, a)
  {
  }

  function PlusOne(count: U32): U32 {
    (count + 1) % TWO32
  }

  /** An arc that is there counts. */
  function Counting(g: Graph, a: nat): Graph
    requires a in g.memory && g.memory[a].Arc?
  {
    var cell := g.memory[a];
    g.(memory := g.memory[a := cell.(count := PlusOne(cell.count))])
  }

  lemma CountingLinks(g: Graph, f: nat, a: nat)
    requires Linked(g) && IsArc(g, f, a) && ArcOk(g, f, a)
    ensures Linked(Counting(g, a)) && Extends(g, Counting(g, a))
  {
    var g' := Counting(g, a);
    assert Extends(g, g');
    hide Extends, BucketOk, FunctionOk, ArcOk, OneEntryEach;
    forall b: nat | b < HASH_BUCKETS ensures BucketOk(g', b) {
      BucketStays(g, g', b);
    }
    forall h | h in g'.arcs ensures FunctionOk(g', h) {
      FunctionStays(g, g', h);
    }
    forall h, c | IsArc(g', h, c) ensures ArcOk(g', h, c) {
      assert IsArc(g, h, c);
      ArcStays(g, g', h, c);
    }
    assert OneEntryEach(g') by {
      NoNewEntries(g, g');
    }
  }

  lemma NoNewEntries(g: Graph, g': Graph)
    requires Extends(g, g') && g'.arcs == g.arcs && OneEntryEach(g)
    requires (forall f :: f in g.arcs ==> FunctionOk(g, f)) && forall f, a :: IsArc(g, f, a) ==> ArcOk(g, f, a)
    ensures OneEntryEach(g')
  {
    forall f, h | f in g'.arcs && h in g'.arcs && SelfPc(g', f) == SelfPc(g', h) ensures f == h {
      assert FunctionOk(g, f) && FunctionOk(g, h);
    }
    forall f, a, c | IsArc(g', f, a) && IsArc(g', f, c) && FromPc(g', a) == FromPc(g', c) ensures a == c {
      assert IsArc(g, f, a) && IsArc(g, f, c) && ArcOk(g, f, a) && ArcOk(g, f, c);
    }
  }

  lemma CountingKeeps(g: Graph, f: nat, a: nat, calls: seq<Call>)
    requires Linked(g) && Counted(g, calls) && IsArc(g, f, a) && ArcOk(g, f, a)
    ensures Linked(Counting(g, a)) && Counted(Counting(g, a), calls + [CallOf(g, f, a)])
  {
    var g' := Counting(g, a);
    CountingLinks(g, f, a);
    var c := CallOf(g, f, a);
    forall h, d | IsArc(g', h, d) ensures CountOk(g', calls + [c], h, d) {
      assert IsArc(g, h, d) && ArcOk(g, h, d) && FunctionOk(g, h) && CountOk(g, calls, h, d);
      CountingOne(g, f, a, h, d, calls);
    }
    assert Known(g, c);
    StillKnown(g, g', c);
    AllStillKnown(g, g', calls);
  }

  /** Two arcs stand for two calls. */
  lemma CallsDiffer(g: Graph, f: nat, a: nat, h: nat, d: nat)
    requires Linked(g) && IsArc(g, f, a) && IsArc(g, h, d) && a != d
    ensures CallOf(g, f, a) != CallOf(g, h, d)
  {
    hide FunctionOk, BucketOk, ArcOk;
  }

  lemma PlusOneCounts(times: nat)
    ensures PlusOne(times % TWO32) == (times + 1) % TWO32
  {
  }

  lemma CountAfter(g: Graph, a: nat, d: nat)
    requires a in g.memory && g.memory[a].Arc?
    ensures FromPc(Counting(g, a), d) == FromPc(g, d)
    ensures Count(Counting(g, a), d) == if d == a then PlusOne(Count(g, a)) else Count(g, d)
  {
  }

  lemma SelfPcAfter(g: Graph, a: nat, h: nat)
    requires a in g.memory && g.memory[a].Arc?
    ensures SelfPc(Counting(g, a), h) == SelfPc(g, h)
  {
  }

  lemma CountingOne(g: Graph, f: nat, a: nat, h: nat, d: nat, calls: seq<Call>)
    requires Linked(g) && IsArc(g, f, a) && IsArc(g, h, d) && CountOk(g, calls, h, d) && ArcOk(g, f, a) && ArcOk(g, h, d)
    ensures CountOk(Counting(g, a), calls + [CallOf(g, f, a)], h, d)
  {
    assert a == d ==> f == h;
    hide Linked, Counting, PlusOne, Times, Count, SelfPc, FromPc, FunctionOk;
    CountAfter(g, a, d);
    SelfPcAfter(g, a, h);
    TimesOfNext(calls, CallOf(g, f, a), CallOf(g, h, d));
    PlusOneCounts(Times(calls, CallOf(g, h, d)));
    if a != d {
      CallsDiffer(g, f, a, h, d);
    }
  }

  lemma StillKnown(g: Graph, g': Graph, c: Call)
    requires Linked(g) && Extends(g, g') && Known(g, c) && forall f, a :: IsArc(g, f, a) ==> IsArc(g', f, a)
    ensures Known(g', c)
  {
    var f, a :| IsArc(g, f, a) && CallOf(g, f, a) == c;
    assert FunctionOk(g, f) && ArcOk(g, f, a);
    assert IsArc(g', f, a) && CallOf(g', f, a) == c;
  }

  /** A new arc, put at the front of the list of its function. */
  function WithArc(g: Graph, f: nat, a: nat, fromPc: U32): Graph
    requires IsFunction(g, f) && f in g.arcs
  {
    var cell := g.memory[f];
    g.(memory := g.memory[a := Arc(cell.arcHead, fromPc, 1)][f := cell.(arcHead := a)],
       arcs := g.arcs[f := [a] + g.arcs[f]], owner := g.owner[a := f])
  }

  /** The function has no arc from there yet. */
  ghost predicate NewFrom(g: Graph, f: nat, fromPc: U32) {
    forall a :: IsArc(g, f, a) ==> FromPc(g, a) != fromPc
  }

  lemma WithArcExtends(g: Graph, f: nat, a: nat, fromPc: U32)
    requires Linked(g) && FunctionOk(g, f) && a !in g.memory && a != NULL
    ensures var g' := WithArc(g, f, a, fromPc);
            Extends(g, g') && FunctionOk(g', f) && ArcOk(g', f, a) && FromPc(g', a) == fromPc && Count(g', a) == 1
  {
    var g' := WithArc(g, f, a, fromPc);
    WithArcIsMore(g, f, a, fromPc);
    hide Extends, OneEntryEach, BucketOk, ArcOk, ListAt, SameLinks;
    ListGrows(g.memory, g'.memory, g.memory[f].arcHead, g.arcs[f], a);
    assert ArcOk(g', f, a) by {
      NewArcOk(g, f, a, fromPc);
    }
  }

  lemma WithArcIsMore(g: Graph, f: nat, a: nat, fromPc: U32)
    requires IsFunction(g, f) && f in g.arcs && a !in g.memory && forall c :: c in g.owner ==> c in g.memory
    ensures Extends(g, WithArc(g, f, a, fromPc)) && SameLinks(g.memory, WithArc(g, f, a, fromPc).memory)
  {
  }

  lemma NewArcOk(g: Graph, f: nat, a: nat, fromPc: U32)
    requires FunctionOk(g, f) && a !in g.memory
    ensures ArcOk(WithArc(g, f, a, fromPc), f, a)
  {
  }

  lemma WithArcLinks(g: Graph, f: nat, a: nat, fromPc: U32)
    requires Linked(g) && FunctionOk(g, f) && a !in g.memory && a != NULL && NewFrom(g, f, fromPc)
    ensures Linked(WithArc(g, f, a, fromPc))
  {
    var g' := WithArc(g, f, a, fromPc);
    WithArcExtends(g, f, a, fromPc);
    hide Extends, BucketOk, ArcOk, OneEntryEach;
    forall b: nat | b < HASH_BUCKETS ensures BucketOk(g', b) {
      BucketStays(g, g', b);
    }
    forall h | h in g'.arcs ensures FunctionOk(g', h) {
      if h != f {
        assert FunctionOk(g, h);
        FunctionStays(g, g', h);
      }
    }
    forall h, c | IsArc(g', h, c) ensures ArcOk(g', h, c) {
      if !(h == f && c == a) {
        assert IsArc(g, h, c);
        ArcStays(g, g', h, c);
      }
    }
    assert OneEntryEach(g') by {
      OneMoreArc(g, g', f, a, fromPc);
    }
  }

  lemma OneMoreArc(g: Graph, g': Graph, f: nat, a: nat, fromPc: U32)
    requires Extends(g, g') && f in g.arcs && g'.arcs == g.arcs[f := [a] + g.arcs[f]]
    requires OneEntryEach(g) && NewFrom(g, f, fromPc) && FromPc(g', a) == fromPc
    requires (forall h :: h in g.arcs ==> FunctionOk(g, h)) && forall h, c :: IsArc(g, h, c) ==> ArcOk(g, h, c)
    ensures OneEntryEach(g')
  {
    forall h, k | h in g'.arcs && k in g'.arcs && SelfPc(g', h) == SelfPc(g', k) ensures h == k {
      assert FunctionOk(g, h) && FunctionOk(g, k);
    }
    forall h, c, d | IsArc(g', h, c) && IsArc(g', h, d) && FromPc(g', c) == FromPc(g', d) ensures c == d {
      assert IsArc(g, h, c) || (h == f && c == a);
      assert IsArc(g, h, d) || (h == f && d == a);
      assert IsArc(g, h, c) ==> ArcOk(g, h, c);
      assert IsArc(g, h, d) ==> ArcOk(g, h, d);
    }
  }

  lemma WithArcKeeps(g: Graph, f: nat, a: nat, fromPc: U32, calls: seq<Call>)
    requires Linked(g) && Counted(g, calls) && FunctionOk(g, f) && a !in g.memory && a != NULL && NewFrom(g, f, fromPc)
    ensures Linked(WithArc(g, f, a, fromPc))
    ensures Counted(WithArc(g, f, a, fromPc), calls + [Call(SelfPc(g, f), fromPc)])
  {
    hide Linked, FunctionOk, NewFrom, Known, CountOk, WithArc, IsArc, Times, SelfPc;
    FunctionIsListed(g, f);
    WithArcLinks(g, f, a, fromPc);
    NewCall(g, f, fromPc, calls);
    WithArcCounts(g, f, a, fromPc, calls);
    WithArcKnown(g, f, a, fromPc, calls);
  }

  lemma FunctionIsListed(g: Graph, f: nat)
    requires FunctionOk(g, f)
    ensures IsFunction(g, f) && f in g.arcs
  {
  }

  lemma WithArcKnown(g: Graph, f: nat, a: nat, fromPc: U32, calls: seq<Call>)
    requires Linked(g) && Counted(g, calls) && FunctionOk(g, f) && a !in g.memory && a != NULL
    ensures forall c :: c in calls + [Call(SelfPc(g, f), fromPc)] ==> Known(WithArc(g, f, a, fromPc), c)
  {
    hide OneEntryEach, BucketOk, ListAt, CountOk;
    var g', c := WithArc(g, f, a, fromPc), Call(SelfPc(g, f), fromPc);
    WithArcExtends(g, f, a, fromPc);
    assert IsArc(g', f, a) && CallOf(g', f, a) == c;
    AllStillKnown(g, g', calls);
  }

  lemma WithArcCounts(g: Graph, f: nat, a: nat, fromPc: U32, calls: seq<Call>)
    requires Linked(g) && Counted(g, calls) && FunctionOk(g, f) && a !in g.memory && a != NULL
    requires Call(SelfPc(g, f), fromPc) !in calls && Times(calls, Call(SelfPc(g, f), fromPc)) == 0
    ensures var g', c := WithArc(g, f, a, fromPc), Call(SelfPc(g, f), fromPc);
            forall h, d :: IsArc(g', h, d) ==> CountOk(g', calls + [c], h, d)
  {
    var g', c := WithArc(g, f, a, fromPc), Call(SelfPc(g, f), fromPc);
    hide *;
    forall h, d | IsArc(g', h, d) ensures CountOk(g', calls + [c], h, d) {
      ArcsAfter(g, f, a, fromPc, h, d);
      if h == f && d == a {
        WithArcNew(g, f, a, fromPc, calls);
      } else {
        CountBefore(g, calls, h, d);
        WithArcOne(g, f, a, fromPc, h, d, calls);
      }
    }
  }

  lemma ArcsAfter(g: Graph, f: nat, a: nat, fromPc: U32, h: nat, d: nat)
    requires FunctionOk(g, f) && IsArc(WithArc(g, f, a, fromPc), h, d)
    ensures IsArc(g, h, d) || (h == f && d == a)
  {
  }

  lemma CountBefore(g: Graph, calls: seq<Call>, h: nat, d: nat)
    requires Counted(g, calls) && IsArc(g, h, d)
    ensures CountOk(g, calls, h, d)
  {
  }

  lemma WithArcNew(g: Graph, f: nat, a: nat, fromPc: U32, calls: seq<Call>)
    requires Linked(g) && FunctionOk(g, f) && a !in g.memory && a != NULL
    requires Times(calls, Call(SelfPc(g, f), fromPc)) == 0
    ensures CountOk(WithArc(g, f, a, fromPc), calls + [Call(SelfPc(g, f), fromPc)], f, a)
  {
    hide OneEntryEach, BucketOk, ListAt;
    var c := Call(SelfPc(g, f), fromPc);
    WithArcExtends(g, f, a, fromPc);
    assert CallOf(WithArc(g, f, a, fromPc), f, a) == c;
    TimesOfNext(calls, c, c);
  }

  lemma AllStillKnown(g: Graph, g': Graph, calls: seq<Call>)
    requires Linked(g) && Extends(g, g') && Counted(g, calls) && forall f, a :: IsArc(g, f, a) ==> IsArc(g', f, a)
    ensures forall c :: c in calls ==> Known(g', c)
  {
    forall c | c in calls ensures Known(g', c) {
      StillKnown(g, g', c);
    }
  }

  lemma NewCall(g: Graph, f: nat, fromPc: U32, calls: seq<Call>)
    requires Linked(g) && Counted(g, calls) && f in g.arcs && NewFrom(g, f, fromPc)
    ensures Call(SelfPc(g, f), fromPc) !in calls && Times(calls, Call(SelfPc(g, f), fromPc)) == 0
  {
    var c := Call(SelfPc(g, f), fromPc);
    NoTimes(calls, c);
    assert c in calls ==> Known(g, c);
  }

  /** An arc that the call is not of keeps its count. */
  lemma WithArcOne(g: Graph, f: nat, a: nat, fromPc: U32, h: nat, d: nat, calls: seq<Call>)
    requires Linked(g) && FunctionOk(g, f) && a !in g.memory && a != NULL
    requires IsArc(g, h, d) && CountOk(g, calls, h, d) && Call(SelfPc(g, f), fromPc) !in calls
    ensures CountOk(WithArc(g, f, a, fromPc), calls + [Call(SelfPc(g, f), fromPc)], h, d)
  {
    assert FunctionOk(g, h) && ArcOk(g, h, d);
    hide OneEntryEach, BucketOk, ListAt;
    var g' := WithArc(g, f, a, fromPc);
    WithArcExtends(g, f, a, fromPc);
    assert CallOf(g', h, d) == CallOf(g, h, d) && Count(g', d) == Count(g, d);
    TimesOfNext(calls, Call(SelfPc(g, f), fromPc), CallOf(g, h, d));
  }

  /** A new function without arcs, put at the front of its bucket. */
  function WithFunction(g: Graph, f: nat, selfPc: U32): Graph
    requires |g.heads| == HASH_BUCKETS && |g.buckets| == HASH_BUCKETS
  {
    var b := Bucket(selfPc);
    Graph(g.memory[f := Function(g.heads[b], selfPc, NULL)], g.heads[b := f],
          g.buckets[b := [f] + g.buckets[b]], g.arcs[f := []], g.owner)
  }

  /** There is no entry for the function. */
  ghost predicate NewSelf(g: Graph, selfPc: U32) {
    forall f :: f in g.arcs ==> SelfPc(g, f) != selfPc
  }

  lemma WithFunctionExtends(g: Graph, f: nat, selfPc: U32)
    requires Linked(g) && f !in g.memory && f != NULL
    ensures var g' := WithFunction(g, f, selfPc);
            Extends(g, g') && FunctionOk(g', f) && BucketOk(g', Bucket(selfPc)) && SelfPc(g', f) == selfPc
    ensures f !in g.arcs
  {
    hide OneEntryEach, ArcOk, ListAt;
    var g', b := WithFunction(g, f, selfPc), Bucket(selfPc);
    assert f in g.arcs ==> FunctionOk(g, f);
    assert BucketOk(g, b);
    assert Extends(g, g');
    ListGrows(g.memory, g'.memory, g.heads[b], g.buckets[b], f);
    assert ListAt(g'.memory, NULL, []) by {
      NothingListed(g'.memory);
    }
  }

  lemma NothingListed(m: Memory)
    ensures ListAt(m, NULL, [])
  {
  }

  lemma WithFunctionLinks(g: Graph, f: nat, selfPc: U32)
    requires Linked(g) && f !in g.memory && f != NULL && NewSelf(g, selfPc)
    ensures Linked(WithFunction(g, f, selfPc))
  {
    var g' := WithFunction(g, f, selfPc);
    WithFunctionExtends(g, f, selfPc);
    hide Extends, BucketOk, ArcOk, OneEntryEach;
    forall b: nat | b < HASH_BUCKETS ensures BucketOk(g', b) {
      if b != Bucket(selfPc) {
        BucketStays(g, g', b);
      }
    }
    forall h | h in g'.arcs ensures FunctionOk(g', h) {
      if h != f {
        assert FunctionOk(g, h);
        FunctionStays(g, g', h);
      }
    }
    forall h, c | IsArc(g', h, c) ensures ArcOk(g', h, c) {
      assert IsArc(g, h, c);
      ArcStays(g, g', h, c);
    }
    assert OneEntryEach(g') by {
      OneMoreFunction(g, g', f, selfPc);
    }
  }

  lemma OneMoreFunction(g: Graph, g': Graph, f: nat, selfPc: U32)
    requires Extends(g, g') && f !in g.arcs && g'.arcs == g.arcs[f := []]
    requires OneEntryEach(g) && NewSelf(g, selfPc) && SelfPc(g', f) == selfPc
    requires (forall h :: h in g.arcs ==> FunctionOk(g, h)) && forall h, c :: IsArc(g, h, c) ==> ArcOk(g, h, c)
    ensures OneEntryEach(g')
  {
    forall h, k | h in g'.arcs && k in g'.arcs && SelfPc(g', h) == SelfPc(g', k) ensures h == k {
      assert h != f ==> FunctionOk(g, h) && SelfPc(g', h) == SelfPc(g, h);
      assert k != f ==> FunctionOk(g, k) && SelfPc(g', k) == SelfPc(g, k);
    }
    forall h, c, d | IsArc(g', h, c) && IsArc(g', h, d) && FromPc(g', c) == FromPc(g', d) ensures c == d {
      assert IsArc(g, h, c) && IsArc(g, h, d) && ArcOk(g, h, c) && ArcOk(g, h, d);
    }
  }

  lemma WithFunctionKeeps(g: Graph, f: nat, selfPc: U32, calls: seq<Call>)
    requires Linked(g) && Counted(g, calls) && f !in g.memory && f != NULL && NewSelf(g, selfPc)
    ensures Linked(WithFunction(g, f, selfPc)) && Counted(WithFunction(g, f, selfPc), calls)
  {
    var g' := WithFunction(g, f, selfPc);
    WithFunctionLinks(g, f, selfPc);
    WithFunctionExtends(g, f, selfPc);
    forall h, d | IsArc(g', h, d) ensures CountOk(g', calls, h, d) {
      assert IsArc(g, h, d) && CountOk(g, calls, h, d);
      assert FunctionOk(g, h) && ArcOk(g, h, d);
    }
    AllStillKnown(g, g', calls);
  }

  // ---------------------------------------------------------------- what a walk finds

  /** A walk from the heads comes to function `f` and arc `a` of it. */
  ghost predicate Found(m: Memory, heads: seq<nat>, f: nat, a: nat) {
    && (exists b: nat, list :: b < |heads| && ListAt(m, heads[b], list) && f in list)
    && f in m && m[f].Function?
    && (exists list :: ListAt(m, m[f].arcHead, list) && a in list)
    && a in m && m[a].Arc?
  }

  lemma WalkFindsArcs(g: Graph, f: nat, a: nat)
    requires Linked(g)
    ensures Found(g.memory, g.heads, f, a) <==> IsArc(g, f, a)
  {
    if Found(g.memory, g.heads, f, a) {
      var b: nat, list :| b < |g.heads| && ListAt(g.memory, g.heads[b], list) && f in list;
      assert BucketOk(g, b);
      ListIsUnique(g.memory, g.heads[b], list, g.buckets[b]);
      assert FunctionOk(g, f);
      var arcs :| ListAt(g.memory, g.memory[f].arcHead, arcs) && a in arcs;
      ListIsUnique(g.memory, g.memory[f].arcHead, arcs, g.arcs[f]);
    }
    if IsArc(g, f, a) {
      assert FunctionOk(g, f) && ArcOk(g, f, a) && BucketOk(g, Bucket(g.memory[f].selfPc));
    }
  }

  /** The profile has an arc for the call, with this count. */
  ghost predicate Profile(m: Memory, heads: seq<nat>, c: Call, n: U32) {
    exists f, a :: Found(m, heads, f, a) && m[f].selfPc == c.selfPc && m[a].fromPc == c.fromPc && m[a].count == n
  }

  /** What walks find is exactly the calls made, each with its number in 32 bits. */
  lemma ProfileIsExact(g: Graph, calls: seq<Call>, c: Call, n: U32)
    requires Linked(g) && Counted(g, calls)
    ensures Profile(g.memory, g.heads, c, n) <==> c in calls && n == Times(calls, c) % TWO32
  {
    hide ListAt, OneEntryEach, BucketOk;
    if Profile(g.memory, g.heads, c, n) {
      var f, a :| Found(g.memory, g.heads, f, a) && g.memory[f].selfPc == c.selfPc
                  && g.memory[a].fromPc == c.fromPc && g.memory[a].count == n;
      WalkFindsArcs(g, f, a);
      assert CountOk(g, calls, f, a) && FunctionOk(g, f) && ArcOk(g, f, a);
    }
    if c in calls && n == Times(calls, c) % TWO32 {
      assert Known(g, c);
      var f, a :| IsArc(g, f, a) && CallOf(g, f, a) == c;
      WalkFindsArcs(g, f, a);
      assert CountOk(g, calls, f, a) && FunctionOk(g, f) && ArcOk(g, f, a);
    }
  }

  // ---------------------------------------------------------------- in place

  /** The heap is sound, and each entry has a block of its own. */
  ghost predicate Housed(r: Region, h: Heap, m: Memory) {
    && Placed(r) && Sound(r, h)
    && forall a :: a in m ==> Block(a, ENTRY_SIZE) in h.blocks
  }

  lemma StillHoused(r: Region, h: Heap, m: Memory, a: nat, cell: Cell)
    requires Housed(r, h, m) && a in m
    ensures Housed(r, h, m[a := cell])
  {
  }

  class CallGraph {
    const region: Region
    var heapEnd: nat
    var slabPtr: nat
    var slabSize: nat
    var memory: Memory
    var heads: seq<nat>
    ghost var blocks: seq<Block>
    ghost var graph: Graph
    ghost var calls: seq<Call>

    ghost function AsHeap(): Heap
      reads this
    {
      Heap(heapEnd, slabPtr, slabSize, blocks)
    }

    ghost predicate Valid()
      reads this
    {
      && Housed(region, AsHeap(), memory) && memory == graph.memory && heads == graph.heads
      && Linked(graph) && Counted(graph, calls) && NoneEmpty(graph)
    }

    constructor (r: Region)
      requires Placed(r)
      ensures Valid() && AsHeap() == Initial(r) && memory == map[] && calls == []
    {
      region, heapEnd, slabPtr, slabSize, blocks := r, r.start, 0, 0, [];
      memory, heads, calls := map[], seq(HASH_BUCKETS, i => NULL), [];
      graph := Graph(map[], seq(HASH_BUCKETS, i => NULL), seq(HASH_BUCKETS, i => []), map[], map[]);
    }

    /** `sbrk` */
    method Sbrk(incr: int) returns (p: nat)
      modifies this`heapEnd
      ensures (AsHeap(), p) == Allocator.Sbrk(region, old(AsHeap()), incr)
    {
      heapEnd := (heapEnd + 3) / 4 * 4;
      if (heapEnd + incr) % TWO32 > region.limit {
        return FAILED;
      }
      p := heapEnd;
      heapEnd := (heapEnd + incr) % TWO32;
    }

    /** `sbrk` called by anybody else: the profile stands. */
    method Reserve(incr: nat) returns (p: nat)
      requires Valid() && incr < 0x8000_0000
      modifies this`heapEnd, this`blocks
      ensures Valid() && (p == FAILED <==> Aligned(old(heapEnd)) + incr > region.limit)
      ensures p != FAILED ==> blocks == old(blocks) + [Block(p, incr)]
    {
      hide Sound, Linked, Counted, NoneEmpty;
      SbrkGrants(region, AsHeap(), incr);
      ServeKeeps(region, AsHeap(), Direct(incr));
      p := Sbrk(incr);
      if p != FAILED {
        blocks := blocks + [Block(p, incr)];
      }
    }

    /** `mcount_allocate` */
    method Allocate(size: nat) returns (data: nat)
      requires size <= SLAB
      modifies this`heapEnd, this`slabPtr, this`slabSize, this`blocks
      ensures (AsHeap(), data) == Allocator.Allocate(region, old(AsHeap()), size)
    {
      if size > slabSize {
        slabPtr := Sbrk(SLAB);
        slabSize := SLAB;
      }
      data := slabPtr;
      slabPtr := slabPtr + size;
      slabSize := slabSize - size;
      blocks := blocks + [Block(data, size)];
    }

    /** There is room for that many more entries, in the slab there is or in a new one. */
    predicate HasRoom(entries: nat)
      reads this
    {
      entries * ENTRY_SIZE <= slabSize || Aligned(heapEnd) + SLAB <= region.limit
    }

    /** An entry in a block of its own. */
    method NewEntry(cell: Cell, ghost more: nat) returns (p: nat)
      requires Housed(region, AsHeap(), memory) && more <= 1 && HasRoom(1 + more)
      modifies this`heapEnd, this`slabPtr, this`slabSize, this`blocks, this`memory
      ensures Housed(region, AsHeap(), memory) && HasRoom(more)
      ensures p != NULL && p !in old(memory) && memory == old(memory)[p := cell]
    {
      hide Sound;
      Room(AsHeap(), more);
      ServeKeeps(region, AsHeap(), Small(ENTRY_SIZE));
      p := Allocate(ENTRY_SIZE);
      ghost var b := Block(p, ENTRY_SIZE);
      NewBlock(b);
      memory := memory[p := cell];
    }

    lemma Room(h: Heap, more: nat)
      requires Placed(region) && Sound(region, h) && more <= 1
      requires (1 + more) * ENTRY_SIZE <= h.slabSize || Aligned(h.end) + SLAB <= region.limit
      ensures Granted(region, h, Small(ENTRY_SIZE))
      ensures var g := Serve(region, h, Small(ENTRY_SIZE));
              more * ENTRY_SIZE <= g.slabSize || Aligned(g.end) + SLAB <= region.limit
    {
      if ENTRY_SIZE > h.slabSize {
        SbrkGrants(region, h, SLAB);
      }
    }

    lemma NewBlock(b: Block)
      requires Placed(region) && Sound(region, AsHeap())
      requires blocks != [] && blocks[|blocks| - 1] == b && b.size == ENTRY_SIZE
      ensures b.addr != NULL
      ensures forall a :: Block(a, ENTRY_SIZE) in blocks[..|blocks| - 1] ==> a != b.addr
    {
      assert InHeap(region, AsHeap(), b);
      assert forall i :: 0 <= i < |blocks| - 1 ==> Apart(blocks[i], b);
    }

    method AddFunction(selfPc: U32, bucket: nat) returns (fn: nat)
      requires Valid() && HasRoom(2) && bucket == Bucket(selfPc) && NewSelf(graph, selfPc)
      modifies this`heapEnd, this`slabPtr, this`slabSize, this`blocks, this`memory, this`heads, this`graph
      ensures Housed(region, AsHeap(), memory) && HasRoom(1) && memory == graph.memory && heads == graph.heads
      ensures Linked(graph) && Counted(graph, calls) && FunctionOk(graph, fn) && SelfPc(graph, fn) == selfPc
      ensures graph.arcs == old(graph).arcs[fn := []]
    {
      hide Sound, Linked, Counted, NewSelf, FunctionOk;
      SixtyFour();
      fn := NewEntry(Function(heads[bucket], selfPc, NULL), 1);
      heads := heads[bucket := fn];
      WithFunctionKeeps(graph, fn, selfPc, calls);
      WithFunctionExtends(graph, fn, selfPc);
      graph := WithFunction(graph, fn, selfPc);
    }

    lemma SixtyFour()
      requires Valid()
      ensures |heads| == HASH_BUCKETS && |graph.buckets| == HASH_BUCKETS
    {
    }

    method AddArc(fn: nat, fromPc: U32) returns (arc: nat)
      requires Housed(region, AsHeap(), memory) && HasRoom(1) && memory == graph.memory && heads == graph.heads
      requires Linked(graph) && Counted(graph, calls) && FunctionOk(graph, fn) && NewFrom(graph, fn, fromPc)
      requires forall f :: f in graph.arcs && f != fn ==> graph.arcs[f] != []
      modifies this`heapEnd, this`slabPtr, this`slabSize, this`blocks, this`memory, this`graph, this`calls
      ensures Valid() && calls == old(calls) + [Call(SelfPc(old(graph), fn), fromPc)]
    {
      hide Housed, Linked, HasRoom, Counted, NewFrom;
      FunctionIsListed(graph, fn);
      arc := NewEntry(Arc(memory[fn].arcHead, fromPc, 1), 0);
      StillHoused(region, AsHeap(), memory, fn, memory[fn].(arcHead := arc));
      memory := memory[fn := memory[fn].(arcHead := arc)];
      WithArcKeeps(graph, fn, arc, fromPc, calls);
      calls := calls + [Call(SelfPc(graph, fn), fromPc)];
      graph := WithArc(graph, fn, arc, fromPc);
    }

    /** `__mcount_record`, for the function of entry `fnEntry` or, without one, of a new entry
        in a bucket of the table. */
    method Record(selfPc: U32, fromPc: U32, fnEntry: nat, bucket: nat) returns (arc: nat)
      requires Valid() && HasRoom(if fnEntry == NULL then 2 else 1)
      requires if fnEntry == NULL then bucket == Bucket(selfPc) && NewSelf(graph, selfPc)
               else FunctionOk(graph, fnEntry) && SelfPc(graph, fnEntry) == selfPc && NewFrom(graph, fnEntry, fromPc)
      modifies this
      ensures Valid() && calls == old(calls) + [Call(selfPc, fromPc)]
    {
      hide Housed, Linked, HasRoom, FunctionOk;
      var fn := fnEntry;
      if fn == NULL {
        fn := AddFunction(selfPc, bucket);
      }
      arc := AddArc(fn, fromPc);
    }

    /** The first loop of `mcount`. */
    method FindFunction(selfPc: U32, bucket: nat) returns (fn: nat)
      requires Valid() && bucket == Bucket(selfPc)
      ensures fn == NULL ==> NewSelf(graph, selfPc)
      ensures fn != NULL ==> fn in graph.arcs && SelfPc(graph, fn) == selfPc
    {
      SixtyFour();
      assert BucketOk(graph, bucket);
      ghost var list: seq<nat>, k: nat := graph.buckets[bucket], 0;
      fn := heads[bucket];
      InBucket(bucket);
      assert list[k..] == list;
      NextOf(memory, fn, list, k);
      hide Valid, Linked, BucketOk, FunctionOk, Bucket, ListAt;
      while fn != NULL && memory[fn].selfPc != selfPc
        invariant 0 <= k <= |list| && ListAt(memory, fn, list[k..]) && (fn == NULL <==> k == |list|)
        invariant k < |list| ==> fn == list[k] && IsFunction(graph, fn)
        invariant forall i :: 0 <= i < k ==> SelfPc(graph, list[i]) != selfPc
        decreases |list| - k
      {
        NextOf(memory, fn, list, k);
        fn := memory[fn].next;
        k := k + 1;
        NextOf(memory, fn, list, k);
      }
      if fn == NULL {
        NotInBucket(selfPc);
      }
    }

    lemma InBucket(bucket: nat)
      requires Valid() && bucket < HASH_BUCKETS && |graph.buckets| == HASH_BUCKETS
      ensures memory == graph.memory
      ensures forall f :: f in graph.buckets[bucket] ==> f in graph.arcs && IsFunction(graph, f)
    {
      assert BucketOk(graph, bucket);
      forall f | f in graph.buckets[bucket] ensures IsFunction(graph, f) {
        assert FunctionOk(graph, f);
      }
    }

    lemma NotInBucket(selfPc: U32)
      requires Valid() && |graph.buckets| == HASH_BUCKETS && Bucket(selfPc) < HASH_BUCKETS
      requires forall f :: f in graph.buckets[Bucket(selfPc)] ==> SelfPc(graph, f) != selfPc
      ensures NewSelf(graph, selfPc)
    {
      forall f | f in graph.arcs ensures SelfPc(graph, f) != selfPc {
        assert FunctionOk(graph, f);
      }
    }

    /** The second loop of `mcount`: it starts without looking whether there is an arc. */
    method FindArc(fn: nat, fromPc: U32) returns (arc: nat)
      requires Valid() && fn in graph.arcs
      ensures arc == NULL ==> NewFrom(graph, fn, fromPc)
      ensures arc != NULL ==> IsArc(graph, fn, arc) && FromPc(graph, arc) == fromPc
    {
      hide Valid, Linked, FunctionOk, ListAt;
      OfFunction(fn);
      ghost var list: seq<nat>, k: nat := graph.arcs[fn], 0;
      arc := memory[fn].arcHead;
      assert list[k..] == list;
      NextOf(memory, arc, list, k);
      while memory[arc].fromPc != fromPc
        invariant 0 <= k < |list| && ListAt(memory, arc, list[k..]) && arc == list[k] && arc != NULL
        invariant forall i :: 0 <= i < k ==> FromPc(graph, list[i]) != fromPc
        decreases |list| - k
      {
        NextOf(memory, arc, list, k);
        arc := memory[arc].next;
        k := k + 1;
        NextOf(memory, arc, list, k);
        if arc == NULL {
          return;
        }
      }
    }

    lemma OfFunction(fn: nat)
      requires Valid() && fn in graph.arcs
      ensures memory == graph.memory && IsFunction(graph, fn)
      ensures ListAt(memory, memory[fn].arcHead, graph.arcs[fn]) && graph.arcs[fn] != []
      ensures forall a :: a in graph.arcs[fn] ==> a in graph.memory && graph.memory[a].Arc?
    {
      assert FunctionOk(graph, fn);
      forall a | a in graph.arcs[fn] ensures a in graph.memory && graph.memory[a].Arc? {
        assert IsArc(graph, fn, a) && ArcOk(graph, fn, a);
      }
    }

    /** `mcount`, called by every function as it starts. */
    method Mcount(selfPc: U32, fromPc: U32)
      requires Valid()
      requires Known(graph, Call(selfPc, fromPc)) || HasRoom(if NewSelf(graph, selfPc) then 2 else 1)
      modifies this
      ensures Valid() && calls == old(calls) + [Call(selfPc, fromPc)]
    {
      OffsetIsBucket(selfPc);
      var bucket := Offset(selfPc) / 4;
      var fn := FindFunction(selfPc, bucket);
      var arc := NULL;
      if fn != NULL {
        arc := FindArc(fn, fromPc);
        assert FunctionOk(graph, fn);
      }
      hide Housed, Linked, HasRoom, FunctionOk, Counted, NoneEmpty, Offset;
      if arc != NULL {
        CountArc(fn, arc);
      } else {
        NotKnown(fn, selfPc, fromPc);
        arc := Record(selfPc, fromPc, fn, bucket);
      }
    }

    lemma NotKnown(fn: nat, selfPc: U32, fromPc: U32)
      requires Valid()
      requires if fn == NULL then NewSelf(graph, selfPc)
               else fn in graph.arcs && SelfPc(graph, fn) == selfPc && NewFrom(graph, fn, fromPc)
      ensures !Known(graph, Call(selfPc, fromPc)) && (fn != NULL ==> !NewSelf(graph, selfPc))
    {
    }

    /** The profile the host reads: exactly the calls made, each with its number. */
    lemma ProfileOfCalls(c: Call, n: U32)
      requires Valid()
      ensures Profile(memory, heads, c, n) <==> c in calls && n == Times(calls, c) % TWO32
    {
      ProfileIsExact(graph, calls, c, n);
    }

    lemma CountingIsSound(fn: nat, arc: nat)
      requires Valid() && IsArc(graph, fn, arc)
      ensures arc in memory && memory[arc].Arc? && arc in graph.memory && graph.memory[arc].Arc?
      ensures var g := Counting(graph, arc);
              Linked(g) && Counted(g, calls + [CallOf(graph, fn, arc)]) && NoneEmpty(g)
    {
      assert ArcOk(graph, fn, arc);
      CountingKeeps(graph, fn, arc, calls);
    }

    /** The fast path. */
    method CountArc(fn: nat, arc: nat)
      requires Valid() && IsArc(graph, fn, arc)
      modifies this`memory, this`graph, this`calls
      ensures Valid() && calls == old(calls) + [CallOf(old(graph), fn, arc)]
    {
      CountingIsSound(fn, arc);
      hide Housed, Linked, Counted, NoneEmpty, CallOf, PlusOne;
      StillHoused(region, AsHeap(), memory, arc, Counting(graph, arc).memory[arc]);
      memory := memory[arc := memory[arc].(count := PlusOne(memory[arc].count))];
      calls := calls + [CallOf(graph, fn, arc)];
      graph := Counting(graph, arc);
    }
  }
}
