/** The median filter over a whole image, pixel by pixel. */
module ImageFilter {
  import opened MedianFilter
  import opened MedianPipeline

  /** The pixel of row `y` and column `x`. */
  function Pixel(image: seq<int>, width: nat, y: nat, x: nat): int
    requires y * width + x < |image|
  {
    image[y * width + x]
  }

  predicate Border(width: nat, height: nat, y: nat, x: nat) {
    x == 0 || x + 1 == width || y == 0 || y + 1 == height
  }

  lemma InImage(width: nat, height: nat, y: nat, x: nat)
    requires y < height && x < width
    ensures y * width + x < width * height
  {
    assert (y + 1) * width <= height * width;
  }

  function WindowAt(image: seq<int>, width: nat, height: nat, y: nat, x: nat): Window
    requires |image| == width * height && y < height && x < width && !Border(width, height, y, x)
  {
    InImage(width, height, y - 1, x + 1);
    InImage(width, height, y, x + 1);
    InImage(width, height, y + 1, x + 1);
    Window(Row(Pixel(image, width, y - 1, x - 1), Pixel(image, width, y - 1, x), Pixel(image, width, y - 1, x + 1)),
           Row(Pixel(image, width, y, x - 1), Pixel(image, width, y, x), Pixel(image, width, y, x + 1)),
           Row(Pixel(image, width, y + 1, x - 1), Pixel(image, width, y + 1, x), Pixel(image, width, y + 1, x + 1)))
  }

  /** The filtered pixel: a copy on the border, the median elsewhere. */
  ghost predicate Filtered(image: seq<int>, width: nat, height: nat, y: nat, x: nat, v: int)
    requires |image| == width * height && y < height && x < width
  {
    InImage(width, height, y, x);
    if Border(width, height, y, x) then v == Pixel(image, width, y, x)
    else IsMedian(v, Pixels(WindowAt(image, width, height, y, x)))
  }

  ghost predicate Emitted(image: seq<int>, width: nat, height: nat, out: seq<int>, y: nat, x: nat)
    requires |image| == width * height && y < height && x < width
  {
    y * width + x < |out| && Filtered(image, width, height, y, x, out[y * width + x])
  }

  /** The first `y` rows and `x` pixels of the next have been written, in row order. */
  ghost predicate Written(image: seq<int>, width: nat, height: nat, y: nat, x: nat, out: seq<int>)
    requires |image| == width * height
  {
    && |out| == y * width + x
    && forall v, u :: 0 <= v < height && 0 <= u < width && (v < y || (v == y && u < x)) ==>
         Emitted(image, width, height, out, v, u)
  }

  lemma WriteOne(image: seq<int>, width: nat, height: nat, y: nat, x: nat, out: seq<int>, value: int)
    requires |image| == width * height && y < height && x < width
    requires Written(image, width, height, y, x, out) && Filtered(image, width, height, y, x, value)
    ensures Written(image, width, height, y, x + 1, out + [value])
  {
    forall v, u | 0 <= v < height && 0 <= u < width && (v < y || (v == y && u < x + 1))
      ensures Emitted(image, width, height, out + [value], v, u)
    {
      assert v < y || u < x ==> Emitted(image, width, height, out, v, u);
    }
  }

  lemma NextRow(image: seq<int>, width: nat, height: nat, y: nat, out: seq<int>)
    requires |image| == width * height && y < height && Written(image, width, height, y, width, out)
    ensures Written(image, width, height, y + 1, 0, out)
  {
    assert (y + 1) * width == y * width + width;
  }

  /** Holding a window on the inputs for four clock edges yields its median. */
  method FilterWindow(uut: Filter, w: Window) returns (value: int)
    requires uut.Valid()
    modifies uut
    ensures uut.Valid() && IsMedian(value, Pixels(w))
  {
    uut.ClockEdge(w);
    for i := 0 to 3
      invariant uut.Valid() && |uut.signals| >= i + 1
      invariant forall k :: |uut.signals| - i - 1 <= k < |uut.signals| ==> uut.signals[k] == Edge(w)
    {
      uut.ClockEdge(w);
    }
    PipelineOutput(uut.signals);
    NetworkFindsMedian(w);
    value := uut.medianOut;
  }

  /** The nine indices whose pixels go to the filter: those at a distance of at most one. */
  ghost predicate Neighbours(pixels: seq<int>, image: seq<int>, width: nat, y: nat, x: nat) {
    && 0 < y && 0 < x && (y + 1) * width + x + 1 < |image| && 0 <= (y - 1) * width && 0 <= y * width
    && pixels == [image[(y - 1) * width + x - 1], image[(y - 1) * width + x], image[(y - 1) * width + x + 1],
                  image[y * width + x - 1], image[y * width + x], image[y * width + x + 1],
                  image[(y + 1) * width + x - 1], image[(y + 1) * width + x], image[(y + 1) * width + x + 1]]
  }

  lemma WindowHoldsNeighbours(image: seq<int>, width: nat, height: nat, y: nat, x: nat)
    requires |image| == width * height && 0 < y < height - 1 && 0 < x < width - 1
    ensures Neighbours(Pixels(WindowAt(image, width, height, y, x)), image, width, y, x)
  {
    InImage(width, height, y + 1, x + 1);
    InImage(width, height, y, x + 1);
    InImage(width, height, y - 1, x + 1);
  }

  /** The output at a pixel that has all its eight neighbours is the median of the nine; any
      other is a copy. */
  ghost predicate Smoothed(image: seq<int>, width: nat, height: nat, out: seq<int>, y: nat, x: nat) {
    && y * width + x < |image| == |out|
    && if 0 < y < height - 1 && 0 < x < width - 1 then
         exists pixels :: Neighbours(pixels, image, width, y, x) && IsMedian(out[y * width + x], pixels)
       else out[y * width + x] == image[y * width + x]
  }

  lemma EmittedIsSmoothed(image: seq<int>, width: nat, height: nat, out: seq<int>, y: nat, x: nat)
    requires |image| == |out| == width * height && y < height && x < width
    requires Emitted(image, width, height, out, y, x)
    ensures Smoothed(image, width, height, out, y, x)
  {
    hide Neighbours, IsMedian, WindowAt;
    if 0 < y < height - 1 && 0 < x < width - 1 {
      WindowHoldsNeighbours(image, width, height, y, x);
    }
  }

  /** The scan of the test bench over an image of any size. */
  method FilterImage(image: seq<int>, width: nat, height: nat) returns (out: seq<int>)
    requires |image| == width * height
    ensures |out| == width * height
    ensures forall y, x :: 0 <= y < height && 0 <= x < width ==> Smoothed(image, width, height, out, y, x)
  {
    var uut := new Filter();
    out := [];
    for y := 0 to height
      invariant uut.Valid() && fresh(uut) && Written(image, width, height, y, 0, out)
    {
      for x := 0 to width
        invariant uut.Valid() && fresh(uut) && Written(image, width, height, y, x, out)
      {
        var value: int;
        if Border(width, height, y, x) {
          InImage(width, height, y, x);
          value := Pixel(image, width, y, x);
        } else {
          value := FilterWindow(uut, WindowAt(image, width, height, y, x));
        }
        WriteOne(image, width, height, y, x, out, value);
        out := out + [value];
      }
      NextRow(image, width, height, y, out);
    }
    forall y: nat, x: nat | y < height && x < width
      ensures Smoothed(image, width, height, out, y, x)
    {
      assert Emitted(image, width, height, out, y, x);
      EmittedIsSmoothed(image, width, height, out, y, x);
    }
  }
}
