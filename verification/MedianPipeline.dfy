/** The median filter as a clocked pipeline of three stages. */
module MedianPipeline {
  import opened MedianFilter

  /** The registers: the sorted rows, the candidates, and the output. */
  datatype Registers = Registers(r1: Sorted, r2: Sorted, r3: Sorted, cand: Row, out: int)

  const ZEROS := Sorted(0, 0, 0)
  const RESET := Registers(ZEROS, ZEROS, ZEROS, Row(0, 0, 0), 0)

  /** A clock edge: all registers change at once, from their old values. */
  function Clock(r: Registers, w: Window): Registers {
    Registers(Sort3(w.top), Sort3(w.middle), Sort3(w.bottom), Candidates(r.r1, r.r2, r.r3), Sort3(r.cand).med)
  }

  /** What may happen to the filter: a clock edge with a window on its inputs, or a reset. */
  datatype Signal = Edge(window: Window) | Reset

  function After(signals: seq<Signal>): Registers {
    if signals == [] then RESET
    else
      match signals[|signals| - 1]
      case Reset => RESET
      case Edge(w) => Clock(After(signals[..|signals| - 1]), w)
  }

  predicate ThreeEdges(signals: seq<Signal>) {
    var n := |signals|;
    3 <= n && signals[n - 1].Edge? && signals[n - 2].Edge? && signals[n - 3].Edge?
  }

  /** The output after every stream of clock edges and resets: the median of the window
      that was sampled at the third edge back, and zero until there have been three edges
      since the last reset. */
  lemma PipelineOutput(signals: seq<Signal>)
    ensures ThreeEdges(signals) ==>
              After(signals).out == Network(signals[|signals| - 3].window)
    ensures !ThreeEdges(signals) ==> After(signals).out == 0
  {
    var n := |signals|;
    if 0 < n && signals[n - 1].Edge? {
      var s1 := signals[..n - 1];
      if 1 < n && signals[n - 2].Edge? {
        assert s1[n - 2] == signals[n - 2];
        var s2 := s1[..n - 2];
        if 2 < n && signals[n - 3].Edge? {
          assert s2[n - 3] == signals[n - 3];
        } else {
          assert After(s2) == RESET;
        }
      } else {
        assert After(s1) == RESET;
      }
    }
  }

  /** For every stream of windows, the median of window `t` is on the output after three
      edges, counting the one that samples it. */
  lemma PipelineFindsMedians(before: seq<Signal>, windows: seq<Window>, t: nat)
    requires t + 3 <= |windows|
    ensures IsMedian(After(before + Edges(windows[..t + 3])).out, Pixels(windows[t]))
  {
    var signals := before + Edges(windows[..t + 3]);
    PipelineOutput(signals);
    NetworkFindsMedian(windows[t]);
  }

  function Edges(windows: seq<Window>): (e: seq<Signal>)
    ensures |e| == |windows|
    ensures forall i :: 0 <= i < |windows| ==> e[i] == Edge(windows[i])
  {
    seq(|windows|, i requires 0 <= i < |windows| => Edge(windows[i]))
  }

  /** The pipeline as it updates its registers. */
  class Filter {
    var r1: Sorted
    var r2: Sorted
    var r3: Sorted
    var cand: Row
    var medianOut: int
    ghost var signals: seq<Signal>

    ghost predicate Valid()
      reads this
    {
      Registers(r1, r2, r3, cand, medianOut) == After(signals)
    }

    constructor ()
      ensures Valid() && signals == [Reset]
    {
      r1, r2, r3, cand, medianOut, signals := ZEROS, ZEROS, ZEROS, Row(0, 0, 0), 0, [Reset];
    }

    method AsyncReset()
      modifies this
      ensures Valid() && signals == old(signals) + [Reset]
    {
      signals := signals + [Reset];
      r1, r2, r3, cand, medianOut := ZEROS, ZEROS, ZEROS, Row(0, 0, 0), 0;
    }

    method ClockEdge(w: Window)
      requires Valid()
      modifies this
      ensures Valid() && signals == old(signals) + [Edge(w)]
    {
      signals := signals + [Edge(w)];
      var stage1 := (Sort3(w.top), Sort3(w.middle), Sort3(w.bottom));
      var stage2 := Candidates(r1, r2, r3);
      var stage3 := Sort3(cand).med;
      r1, r2, r3, cand, medianOut := stage1.0, stage1.1, stage1.2, stage2, stage3;
      assert signals[..|signals| - 1] == old(signals);
    }
  }
}
