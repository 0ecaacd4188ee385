/**
  The per-axis windows of the split operators.

  A shape table of ones is built; for each axis i it is set to 3 on axis i, the
  window for axis i is made from it, and the entry is put back to 1.  The window for
  axis i has three weights (all 1 for the cube, all 1/3 for the mean) and the strides
  the image library gives that shape.
*/
module AxisWindows {
  import opened Layout
  import opened StrideIndexer
  import opened WindowOverlay
  import opened Kernels
  import opened Scenarios

  /** A shape table that is 3 on axis i and 1 everywhere else. */
  predicate IsAxisShape(shape: seq<int>, i: nat)
  {
    forall d :: 0 <= d < |shape| ==> shape[d] == (if d == i then 3 else 1)
  }

  /**
    The shape loop: a table of `arraySize` entries (the library's fixed shape-array
    length) is filled with ones, then for each axis i in 1..dimensions set to 3 on axis i,
    snapshotted, and reset to 1.  Entry 0 of the result is unused.
  */
  method AxisShapes(dimensions: nat, arraySize: nat) returns (shapes: seq<seq<int>>)
    requires dimensions < arraySize
    ensures |shapes| == dimensions + 1
    ensures forall i :: 1 <= i <= dimensions ==> |shapes[i]| == arraySize && IsAxisShape(shapes[i], i)
  {
    var strelShape := new int[arraySize];
    for i := 0 to arraySize
      invariant forall d :: 0 <= d < i ==> strelShape[d] == 1
    {
      strelShape[i] := 1;
    }
    shapes := [[]];
    for i := 1 to dimensions + 1
      invariant |shapes| == i
      invariant forall d :: 0 <= d < arraySize ==> strelShape[d] == 1
      invariant forall j :: 1 <= j < i ==> |shapes[j]| == arraySize && IsAxisShape(shapes[j], j)
    {
      strelShape[i] := 3;
      shapes := shapes + [strelShape[..]];
      strelShape[i] := 1;
    }
  }

  /** The window for axis i: three weights over an axis shape, with the given strides. */
  function AxisWindow(weights: seq<real>, shape: seq<int>, offset: seq<int>, dimensions: nat): Window
  {
    Window(weights, shape, offset, dimensions, |weights|)
  }

  /** `sizeof(float)`: the SYCL set-up stores the window's size in bytes. */
  const FloatBytes: nat := 4

  /**
    The axis window as the SYCL set-up builds it: its size is `3 * sizeof(float)` = 12,
    the device buffer is allocated with that many floats, and only the three weights
    (12 bytes) are copied into it.  The other nine floats are whatever the allocation
    held: the parameter `unset`.
  */
  function AxisWindowBytes(weights: seq<real>, unset: seq<real>, shape: seq<int>, offset: seq<int>, dimensions: nat): (w: Window)
    requires |unset| == (FloatBytes - 1) * |weights|
    ensures w.size == |w.data| == FloatBytes * |weights|
    ensures w.data[..|weights|] == weights && w.data[|weights|..] == unset
  {
    Window(weights + unset, shape, offset, dimensions, FloatBytes * |weights|)
  }

  /**
    As written, the 12-float axis window fits the image, and the tap loop runs over all
    12 entries: besides the three weights, every unset float that happens to be
    nonzero adds a visit, and the sample it reaches bounds the eroded value.
  */
  lemma AxisWindowBytesOverreads(input: seq<uint8>, img: Layout, unset: seq<real>, shape: seq<int>, offset: seq<int>, i: nat, index: int)
    requires ValidLayout(img) && 1 <= i <= img.dimensions && |unset| == 9 && |input| == img.size
    requires img.dimensions < |shape| && img.dimensions < |offset| && IsAxisShape(shape, i)
    requires NestedStrides(shape, offset, img.dimensions) && offset[1] == 1
    requires 0 <= index < img.size
    ensures var w := AxisWindowBytes(CubeWeights, unset, shape, offset, img.dimensions);
      Compatible(img, w) && Broadcasts(img, w) && w.size == 12
    ensures var w := AxisWindowBytes(CubeWeights, unset, shape, offset, img.dimensions);
      forall k :: 0 <= k < 3 ==> Visited(Taps(index, img, w), k)
    ensures var w := AxisWindowBytes(CubeWeights, unset, shape, offset, img.dimensions);
      forall k :: 3 <= k < 12 ==> (Visited(Taps(index, img, w), k) <==> unset[k - 3] != 0.0)
    ensures var w := AxisWindowBytes(CubeWeights, unset, shape, offset, img.dimensions);
      forall k :: 3 <= k < 12 && unset[k - 3] != 0.0 ==> ErodeAt(input, img, w, index) <= Reached(input, img, w, index, k)
  {
    var w := AxisWindowBytes(CubeWeights, unset, shape, offset, img.dimensions);
    assert Compatible(img, w);
    VisitsActiveTapsInOrder(index, img, w);
    forall k | 0 <= k < 12
      ensures w.data[k] == if k < 3 then CubeWeights[k] else unset[k - 3]
    {
      if k < 3 {
        assert w.data[k] == w.data[..3][k];
      } else {
        assert w.data[k] == w.data[3..][k - 3];
      }
    }
    ErodeBelowReached(input, img, w, index);
  }

  /**
    The over-read changes a result.  On the 3-sample line `[200, 200, 10]` with the
    first unset float equal to 1, the as-written window also visits window index 3,
    which reaches sample 2, so sample 0 erodes to at most 10; the 3-weight window
    erodes it to 200.
  */
  lemma AxisWindowBytesChangesErosion(unset: seq<real>)
    requires |unset| == 9 && unset[0] == 1.0
    ensures var w := AxisWindowBytes(CubeWeights, unset, [1, 3], [1, 1], 1);
      Compatible(Line3, w) && Broadcasts(Line3, w) && ErodeAt([200, 200, 10], Line3, w, 0) <= 10
    ensures var w := AxisWindow(CubeWeights, [1, 3], [1, 1], 1);
      Compatible(Line3, w) && Broadcasts(Line3, w) && ErodeAt([200, 200, 10], Line3, w, 0) == 200
  {
    var input: seq<uint8> := [200, 200, 10];
    assert ValidLayout(Line3);
    var w := AxisWindowBytes(CubeWeights, unset, [1, 3], [1, 1], 1);
    AxisWindowBytesOverreads(input, Line3, unset, [1, 3], [1, 1], 1, 0);
    var tc := TapCoords(0, Line3, w, 3);
    assert DigitAt(0, Line3.offset, 1, 1) == 0;
    assert DigitAt(3, w.offset, 1, 1) == 3;
    assert tc[1] == Clamp(3 + (0 - 1), 0, 2) == 2;
    assert Linear(tc, Line3.offset, 1) == Linear(tc, Line3.offset, 0) + 1 * tc[1];
    assert Reached(input, Line3, w, 0, 3) == input[2];
    assert AxisWindow(CubeWeights, [1, 3], [1, 1], 1) == Cube3;
    Line3Taps(0);
    TapsInBounds(0, Line3, Cube3);
    MinOfThree(input, Taps(0, Line3, Cube3));
  }

  /** The strides of an axis-i shape: 1 up to axis i (one channel), 3 above. */
  lemma {:induction false} AxisStrides(shape: seq<int>, offset: seq<int>, i: nat, dimensions: nat, d: nat)
    requires dimensions < |shape| && dimensions < |offset| && IsAxisShape(shape, i)
    requires NestedStrides(shape, offset, dimensions) && (dimensions >= 1 ==> offset[1] == 1)
    requires 1 <= i && 1 <= d <= dimensions
    ensures offset[d] == (if d <= i then 1 else 3)
  {
    if d > 1 {
      AxisStrides(shape, offset, i, dimensions, d - 1);
      assert offset[d] == offset[d - 1] * shape[d - 1];
    }
  }

  /** An axis window with three weights fits an image of the same dimension count; it has exactly 3 cells. */
  lemma AxisWindowFits(img: Layout, weights: seq<real>, shape: seq<int>, offset: seq<int>, i: nat)
    requires ValidLayout(img) && 1 <= i <= img.dimensions && |weights| == 3
    requires img.dimensions < |shape| && img.dimensions < |offset| && IsAxisShape(shape, i)
    requires NestedStrides(shape, offset, img.dimensions) && offset[1] == 1
    ensures Compatible(img, AxisWindow(weights, shape, offset, img.dimensions))
    ensures Broadcasts(img, AxisWindow(weights, shape, offset, img.dimensions))
    ensures offset[img.dimensions] * shape[img.dimensions] == |weights|
  {
    AxisStrides(shape, offset, i, img.dimensions, img.dimensions);
  }

  /** The coordinates of window index k < 3 in an axis-i window: k on axis i, 0 elsewhere. */
  lemma {:induction false} AxisLinear(wc: seq<int>, offset: seq<int>, shape: seq<int>, i: nat, k: int, dimensions: nat, d: nat)
    requires dimensions < |shape| && dimensions < |offset| && IsAxisShape(shape, i)
    requires NestedStrides(shape, offset, dimensions) && (dimensions >= 1 ==> offset[1] == 1)
    requires 1 <= i <= dimensions && |wc| == dimensions + 1 && d <= dimensions
    requires forall e :: 1 <= e <= dimensions ==> wc[e] == (if e == i then k else 0)
    ensures Linear(wc, offset, d) == (if d >= i then k else 0)
  {
    if d > 0 {
      AxisLinear(wc, offset, shape, i, k, dimensions, d - 1);
      if d == i {
        AxisStrides(shape, offset, i, dimensions, d);
      }
    }
  }

  /**
    Pass i moves along axis i only: window index k in {0, 1, 2} of the axis-i window
    reaches, from the centre, the image coordinate `clamp(c[i] + k - 1)` on axis i and
    the centre's own coordinate on every other axis.
  */
  lemma AxisWindowTaps(img: Layout, weights: seq<real>, shape: seq<int>, offset: seq<int>, i: nat, index: int, k: int)
    requires ValidLayout(img) && 1 <= i <= img.dimensions && |weights| == 3
    requires img.dimensions < |shape| && img.dimensions < |offset| && IsAxisShape(shape, i)
    requires NestedStrides(shape, offset, img.dimensions) && offset[1] == 1
    requires 0 <= index < img.size && 0 <= k < 3
    ensures Compatible(img, AxisWindow(weights, shape, offset, img.dimensions))
    ensures forall d :: 1 <= d <= img.dimensions ==>
      TapCoord(index, img, AxisWindow(weights, shape, offset, img.dimensions), k, d) ==
        if d == i then Clamp(DigitAt(index, img.offset, img.dimensions, i) + k - 1, 0, img.shape[i] - 1)
        else DigitAt(index, img.offset, img.dimensions, d)
  {
    var n := img.dimensions;
    var w := AxisWindow(weights, shape, offset, n);
    AxisWindowFits(img, weights, shape, offset, i);
    var wc := seq(n + 1, e requires 0 <= e <= n => if e == i then k else 0);
    AxisLinear(wc, offset, shape, i, k, n, n);
    LinearDecomposes(wc, 0, shape, offset, n);
    CoordsInRange(index, img.shape, img.offset, n);
    forall d | 1 <= d <= n
      ensures TapCoord(index, img, w, k, d) ==
        if d == i then Clamp(DigitAt(index, img.offset, n, i) + k - 1, 0, img.shape[i] - 1)
        else DigitAt(index, img.offset, n, d)
    {
      assert Coords(k, offset, n)[d] == DigitAt(k, offset, n, d) == wc[d];
      assert Coords(index, img.offset, n)[d] == DigitAt(index, img.offset, n, d);
    }
  }

  /** The cube weights of one axis window: three ones. */
  const CubeWeights: seq<real> := [1.0, 1.0, 1.0]

  /**
    One erosion pass along axis i with the cube weights: every sample becomes the
    minimum of the three samples at offsets -1, 0, +1 along axis i (clamped at the edges).
  */
  lemma AxisErodeIsLineMin(input: seq<uint8>, img: Layout, shape: seq<int>, offset: seq<int>, i: nat, index: int)
    requires ValidLayout(img) && 1 <= i <= img.dimensions && |input| == img.size
    requires img.dimensions < |shape| && img.dimensions < |offset| && IsAxisShape(shape, i)
    requires NestedStrides(shape, offset, img.dimensions) && offset[1] == 1
    requires 0 <= index < img.size
    ensures Compatible(img, AxisWindow(CubeWeights, shape, offset, img.dimensions))
    ensures Broadcasts(img, AxisWindow(CubeWeights, shape, offset, img.dimensions))
    ensures var w := AxisWindow(CubeWeights, shape, offset, img.dimensions);
      ErodeAt(input, img, w, index) ==
        Min(Min(Reached(input, img, w, index, 0), Reached(input, img, w, index, 1)), Reached(input, img, w, index, 2))
  {
    var w := AxisWindow(CubeWeights, shape, offset, img.dimensions);
    AxisWindowFits(img, CubeWeights, shape, offset, i);
    var taps := Taps(index, img, w);
    assert TapsUpTo(index, img, w, 1) == [Tap(TapIndex(index, img, w, 0), 0)];
    assert TapsUpTo(index, img, w, 2) == TapsUpTo(index, img, w, 1) + [Tap(TapIndex(index, img, w, 1), 1)];
    assert taps == TapsUpTo(index, img, w, 2) + [Tap(TapIndex(index, img, w, 2), 2)];
    TapsInBounds(index, img, w);
    MinOfThree(input, taps);
  }
}
