/** The 3x3 median filter: its network of three-element sorts finds the median. */
module MedianFilter {

  datatype Row = Row(a: int, b: int, c: int)

  datatype Window = Window(top: Row, middle: Row, bottom: Row)

  // ---------------------------------------------------------------- the network

  datatype Sorted = Sorted(max: int, med: int, min: int)

  /** `sort3_func`: compare and swap three times. */
  function Sort3(row: Row): Sorted {
    var (a, b, c) := (row.a, row.b, row.c);
    var (a, b) := if a > b then (b, a) else (a, b);
    var (b, c) := if b > c then (c, b) else (b, c);
    var (a, b) := if a > b then (b, a) else (a, b);
    Sorted(c, b, a)
  }

  function MaxOfMins(r1: Sorted, r2: Sorted, r3: Sorted): int {
    if r1.min >= r2.min && r1.min >= r3.min then r1.min
    else if r2.min >= r1.min && r2.min >= r3.min then r2.min
    else r3.min
  }

  function MinOfMaxs(r1: Sorted, r2: Sorted, r3: Sorted): int {
    if r1.max <= r2.max && r1.max <= r3.max then r1.max
    else if r2.max <= r1.max && r2.max <= r3.max then r2.max
    else r3.max
  }

  /** The three candidates. */
  function Candidates(r1: Sorted, r2: Sorted, r3: Sorted): Row {
    Row(Sort3(Row(r1.med, r2.med, r3.med)).med, MaxOfMins(r1, r2, r3), MinOfMaxs(r1, r2, r3))
  }

  function Network(w: Window): int {
    Sort3(Candidates(Sort3(w.top), Sort3(w.middle), Sort3(w.bottom))).med
  }

  // ---------------------------------------------------------------- the median

  function RowPixels(row: Row): seq<int> {
    [row.a, row.b, row.c]
  }

  function Pixels(w: Window): seq<int> {
    RowPixels(w.top) + RowPixels(w.middle) + RowPixels(w.bottom)
  }

  function One(b: bool): nat {
    if b then 1 else 0
  }

  function AtMost(s: seq<int>, v: int): nat {
    if s == [] then 0 else One(s[0] <= v) + AtMost(s[1..], v)
  }

  function AtLeast(s: seq<int>, v: int): nat {
    if s == [] then 0 else One(s[0] >= v) + AtLeast(s[1..], v)
  }

  /** A value with as many on either side. */
  predicate IsMedian(v: int, s: seq<int>) {
    v in s && |s| < 2 * AtMost(s, v) && |s| < 2 * AtLeast(s, v)
  }

  lemma {:induction false} CountsCover(s: seq<int>, u: int, v: int)
    requires u < v
    ensures AtMost(s, u) + AtLeast(s, v) <= |s|
  {
    if s != [] {
      CountsCover(s[1..], u, v);
    }
  }

  lemma MedianIsUnique(s: seq<int>, u: int, v: int)
    requires IsMedian(u, s) && IsMedian(v, s)
    ensures u == v
  {
    if u < v {
      CountsCover(s, u, v);
    } else if v < u {
      CountsCover(s, v, u);
    }
  }

  function AtMostInRow(row: Row, v: int): nat {
    One(row.a <= v) + One(row.b <= v) + One(row.c <= v)
  }

  function AtLeastInRow(row: Row, v: int): nat {
    One(row.a >= v) + One(row.b >= v) + One(row.c >= v)
  }

  lemma {:induction false} CountsAdd(s: seq<int>, t: seq<int>, v: int)
    ensures AtMost(s + t, v) == AtMost(s, v) + AtMost(t, v)
    ensures AtLeast(s + t, v) == AtLeast(s, v) + AtLeast(t, v)
  {
    if s == [] {
      assert s + t == t;
    } else {
      CountsAdd(s[1..], t, v);
      assert (s + t)[1..] == s[1..] + t;
    }
  }

  lemma RowCounts(row: Row, v: int)
    ensures AtMost(RowPixels(row), v) == AtMostInRow(row, v) && AtLeast(RowPixels(row), v) == AtLeastInRow(row, v)
  {
    CountsAdd([row.b], [row.c], v);
    CountsAdd([row.a], [row.b] + [row.c], v);
    assert RowPixels(row) == [row.a] + ([row.b] + [row.c]);
  }

  lemma CountsByRow(w: Window, v: int)
    ensures AtMost(Pixels(w), v) == AtMostInRow(w.top, v) + AtMostInRow(w.middle, v) + AtMostInRow(w.bottom, v)
    ensures AtLeast(Pixels(w), v) == AtLeastInRow(w.top, v) + AtLeastInRow(w.middle, v) + AtLeastInRow(w.bottom, v)
  {
    RowCounts(w.top, v);
    RowCounts(w.middle, v);
    RowCounts(w.bottom, v);
    CountsAdd(RowPixels(w.top), RowPixels(w.middle), v);
    CountsAdd(RowPixels(w.top) + RowPixels(w.middle), RowPixels(w.bottom), v);
  }

  function AsRow(s: Sorted): Row {
    Row(s.min, s.med, s.max)
  }

  lemma Sort3Sorts(row: Row)
    ensures var s := Sort3(row);
            s.min <= s.med <= s.max && multiset(RowPixels(AsRow(s))) == multiset(RowPixels(row))
  {
  }

  lemma Sort3KeepsCounts(row: Row, v: int)
    ensures AtMostInRow(AsRow(Sort3(row)), v) == AtMostInRow(row, v)
    ensures AtLeastInRow(AsRow(Sort3(row)), v) == AtLeastInRow(row, v)
  {
  }

  /** Of three sorted rows, the middle candidate is the median. */
  lemma SortedRowsMedian(r1: Sorted, r2: Sorted, r3: Sorted)
    requires r1.min <= r1.med <= r1.max && r2.min <= r2.med <= r2.max && r3.min <= r3.med <= r3.max
    ensures var v := Sort3(Candidates(r1, r2, r3)).med;
            && v in {r1.min, r1.med, r1.max, r2.min, r2.med, r2.max, r3.min, r3.med, r3.max}
            && 5 <= AtMostInRow(AsRow(r1), v) + AtMostInRow(AsRow(r2), v) + AtMostInRow(AsRow(r3), v)
            && 5 <= AtLeastInRow(AsRow(r1), v) + AtLeastInRow(AsRow(r2), v) + AtLeastInRow(AsRow(r3), v)
  {
  }

  /** The network finds the median of its nine pixels, whatever integers they are. */
  lemma NetworkFindsMedian(w: Window)
    ensures IsMedian(Network(w), Pixels(w))
  {
    var (r1, r2, r3) := (Sort3(w.top), Sort3(w.middle), Sort3(w.bottom));
    var v := Network(w);
    Sort3KeepsCounts(w.top, v);
    Sort3KeepsCounts(w.middle, v);
    Sort3KeepsCounts(w.bottom, v);
    Sort3Sorts(w.top);
    Sort3Sorts(w.middle);
    Sort3Sorts(w.bottom);
    SortedRowsMedian(r1, r2, r3);
    CountsByRow(w, v);
    assert v in Pixels(w) by {
      if v in {r1.min, r1.med, r1.max} {
        assert v in multiset(RowPixels(AsRow(r1))) && v in RowPixels(w.top);
      } else if v in {r2.min, r2.med, r2.max} {
        assert v in multiset(RowPixels(AsRow(r2))) && v in RowPixels(w.middle);
      } else {
        assert v in multiset(RowPixels(AsRow(r3))) && v in RowPixels(w.bottom);
      }
    }
  }

  predicate IsSorted(s: seq<int>) {
    forall i, j :: 0 <= i <= j < |s| ==> s[i] <= s[j]
  }

  function Without(s: seq<int>, k: nat): seq<int>
    requires k < |s|
  {
    s[..k] + s[k + 1..]
  }

  lemma TakeOut(s: seq<int>, k: nat, v: int)
    requires k < |s|
    ensures multiset(Without(s, k)) == multiset(s) - multiset{s[k]}
    ensures AtMost(s, v) == One(s[k] <= v) + AtMost(Without(s, k), v)
    ensures AtLeast(s, v) == One(s[k] >= v) + AtLeast(Without(s, k), v)
  {
    var (a, x, b) := (s[..k], [s[k]], s[k + 1..]);
    assert s == a + (x + b);
    CountsAdd(a, b, v);
    CountsAdd(x, b, v);
    CountsAdd(a, x + b, v);
  }

  lemma {:induction false} CountsOfPermutation(s: seq<int>, t: seq<int>, v: int)
    requires multiset(s) == multiset(t)
    ensures AtMost(s, v) == AtMost(t, v) && AtLeast(s, v) == AtLeast(t, v)
    decreases |s|
  {
    if s == [] {
      assert |multiset(t)| == |t| == 0;
    } else {
      assert s[0] in multiset(t);
      var k :| 0 <= k < |t| && t[k] == s[0];
      TakeOut(s, 0, v);
      TakeOut(t, k, v);
      CountsOfPermutation(Without(s, 0), Without(t, k), v);
    }
  }

  lemma {:induction false} AllAtMost(s: seq<int>, v: int)
    requires forall i :: 0 <= i < |s| ==> s[i] <= v
    ensures AtMost(s, v) == |s|
  {
    if s != [] {
      AllAtMost(s[1..], v);
    }
  }

  lemma {:induction false} AllAtLeast(s: seq<int>, v: int)
    requires forall i :: 0 <= i < |s| ==> s[i] >= v
    ensures AtLeast(s, v) == |s|
  {
    if s != [] {
      AllAtLeast(s[1..], v);
    }
  }

  lemma AtMostInSorted(s: seq<int>, k: nat)
    requires IsSorted(s) && k < |s|
    ensures k < AtMost(s, s[k])
  {
    var (low, high) := (s[..k + 1], s[k + 1..]);
    assert s == low + high;
    AllAtMost(low, s[k]);
    CountsAdd(low, high, s[k]);
  }

  lemma AtLeastInSorted(s: seq<int>, k: nat)
    requires IsSorted(s) && k < |s|
    ensures |s| - k <= AtLeast(s, s[k])
  {
    var (low, high) := (s[..k], s[k..]);
    assert s == low + high;
    AllAtLeast(high, s[k]);
    CountsAdd(low, high, s[k]);
  }

  /** The median is the fifth smallest: however the nine pixels are put in order, it is
      the one in the middle. */
  lemma NetworkIsFifthSmallest(w: Window, s: seq<int>)
    requires IsSorted(s) && multiset(s) == multiset(Pixels(w))
    ensures |s| == 9 && Network(w) == s[4]
  {
    assert |s| == |multiset(s)| == |multiset(Pixels(w))| == 9;
    AtMostInSorted(s, 4);
    AtLeastInSorted(s, 4);
    CountsOfPermutation(s, Pixels(w), s[4]);
    assert s[4] in multiset(Pixels(w));
    NetworkFindsMedian(w);
    MedianIsUnique(Pixels(w), Network(w), s[4]);
  }

  // ---------------------------------------------------------------- the combinational version

  /** Three values in ascending order. */
  ghost predicate Arranged(a: int, b: int, c: int, a0: int, b0: int, c0: int) {
    a <= b <= c && multiset{a, b, c} == multiset{a0, b0, c0}
  }

  /** `sort3`, on three variables in place. */
  method SortInPlace(a0: int, b0: int, c0: int) returns (a: int, b: int, c: int)
    ensures Sorted(c, b, a) == Sort3(Row(a0, b0, c0))
    ensures Arranged(a, b, c, a0, b0, c0)
  {
    a, b, c := a0, b0, c0;
    if a > b {
      a, b := b, a;
    }
    if b > c {
      b, c := c, b;
    }
    if a > b {
      a, b := b, a;
    }
  }

  /** The earlier, combinational filter finds the median as well. */
  method Combinational(w: Window) returns (medianOut: int)
    ensures IsMedian(medianOut, Pixels(w)) && medianOut == Network(w)
  {
    hide Arranged;
    var r1a, r1b, r1c := SortInPlace(w.top.a, w.top.b, w.top.c);
    var r2a, r2b, r2c := SortInPlace(w.middle.a, w.middle.b, w.middle.c);
    var r3a, r3b, r3c := SortInPlace(w.bottom.a, w.bottom.b, w.bottom.c);
    var m1, m2, m3 := SortInPlace(r1b, r2b, r3b);
    var maxOfMins := r1a;
    if r2a > maxOfMins {
      maxOfMins := r2a;
    }
    if r3a > maxOfMins {
      maxOfMins := r3a;
    }
    var minOfMaxs := r1c;
    if r2c < minOfMaxs {
      minOfMaxs := r2c;
    }
    if r3c < minOfMaxs {
      minOfMaxs := r3c;
    }
    var s1, s2, s3 := SortInPlace(m2, maxOfMins, minOfMaxs);
    medianOut := s2;
    NetworkFindsMedian(w);
  }
}
