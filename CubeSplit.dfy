/**
  Why the split erosion may stand in for the cube erosion.

  Eroding with the 3-wide window of axis 1, then of axis 2, ..., then of axis N gives
  every sample the minimum of the 3 x 3 x ... x 3 box around it (clamped at the
  image's edges), which is what one erosion with the whole cube window gives.  Both
  are characterised by `IsBoxMin`; the chain reaches it one axis at a time.
*/
module CubeSplit {
  import opened Layout
  import opened StrideIndexer
  import opened WindowOverlay
  import opened Kernels
  import opened AxisWindows
  import opened Separable

  /** The coordinate of buffer index x on axis d. */
  function Coord(img: Layout, x: int, d: nat): int
    requires ValidLayout(img) && 1 <= d <= img.dimensions
  {
    DigitAt(x, img.offset, img.dimensions, d)
  }

  /**
    y is in the box of x after m passes: within one step of x on axes 1..m, on x's
    own coordinate on the axes above; its channel part is x's own before any pass and
    channel 0 after (the tap index carries no channel part).
  */
  predicate Near(img: Layout, x: int, y: int, m: nat)
    requires ValidLayout(img)
  {
    && 0 <= y < img.size
    && Remainder(y, img.offset, img.dimensions) == (if m == 0 then Remainder(x, img.offset, img.dimensions) else 0)
    && forall d :: 1 <= d <= img.dimensions ==>
         if d <= m then -1 <= Coord(img, y, d) - Coord(img, x, d) <= 1 else Coord(img, y, d) == Coord(img, x, d)
  }

  /** v is the least sample of the box of x after m passes. */
  ghost predicate IsBoxMin(v: int, input: seq<uint8>, img: Layout, x: int, m: nat)
    requires ValidLayout(img) && |input| == img.size
  {
    && (forall y :: Near(img, x, y, m) ==> v <= input[y])
    && (exists y :: Near(img, x, y, m) && v == input[y])
  }

  /** The window of axis j as the split operators build it: cube weights over an axis shape. */
  predicate IsAxisWindow(img: Layout, w: Window, j: nat)
  {
    && ValidLayout(img)
    && w == AxisWindow(CubeWeights, w.shape, w.offset, img.dimensions)
    && img.dimensions < |w.shape| && img.dimensions < |w.offset|
    && IsAxisShape(w.shape, j)
    && NestedStrides(w.shape, w.offset, img.dimensions) && w.offset[1] == 1
  }

  /** `windows[1..n]` are the axis windows of axes 1..n. */
  predicate AxisWindowsFor(img: Layout, windows: seq<Window>, n: nat)
  {
    n < |windows| && forall j :: 1 <= j <= n ==> IsAxisWindow(img, windows[j], j)
  }

  /** The cube structuring element: extent 3 and nested strides on every axis, every weight nonzero. */
  predicate IsCubeWindow(img: Layout, w: Window)
  {
    && ValidLayout(img)
    && w.dimensions == img.dimensions
    && img.dimensions < |w.shape| && img.dimensions < |w.offset|
    && (forall d :: 1 <= d <= img.dimensions ==> w.shape[d] == 3)
    && NestedStrides(w.shape, w.offset, img.dimensions) && w.offset[1] == 1
    && w.size == |w.data| == w.offset[img.dimensions] * 3
    && forall k :: 0 <= k < |w.data| ==> w.data[k] != 0.0
  }

  // ---------------------------------------------------------------------------
  // Coordinates

  /** Two indices of the image with the same coordinates and channel part are the same index. */
  lemma SameCoordsSame(img: Layout, y: int, z: int)
    requires ValidLayout(img) && 0 <= y < img.size && 0 <= z < img.size
    requires Remainder(y, img.offset, img.dimensions) == Remainder(z, img.offset, img.dimensions)
    requires forall d :: 1 <= d <= img.dimensions ==> Coord(img, y, d) == Coord(img, z, d)
    ensures y == z
  {
    var n := img.dimensions;
    var cy := Coords(y, img.offset, n);
    var cz := Coords(z, img.offset, n);
    forall d | 1 <= d <= n
      ensures cy[d] == cz[d]
    {
      assert cy[d] == Coord(img, y, d) && cz[d] == Coord(img, z, d);
    }
    LinearAgrees(cy, cz, img.offset, n);
    DecomposeReconstructs(y, img.offset, n);
    DecomposeReconstructs(z, img.offset, n);
  }

  /** Every coordinate of an index of the image lies inside the image. */
  lemma CoordInRange(img: Layout, x: int, d: nat)
    requires ValidLayout(img) && 0 <= x < img.size && 1 <= d <= img.dimensions
    ensures 0 <= Coord(img, x, d) < img.shape[d]
  {
    CoordsInRange(x, img.shape, img.offset, img.dimensions);
    assert Coords(x, img.offset, img.dimensions)[d] == Coord(img, x, d);
  }

  /** The tap a window index reaches has the tap coordinates and channel part 0. */
  lemma TapIndexCoords(index: int, img: Layout, w: Window, k: int)
    requires Compatible(img, w) && Broadcasts(img, w) && 0 <= index < img.size
    ensures 0 <= TapIndex(index, img, w, k) < img.size
    ensures Remainder(TapIndex(index, img, w, k), img.offset, img.dimensions) == 0
    ensures forall d :: 1 <= d <= img.dimensions ==> Coord(img, TapIndex(index, img, w, k), d) == TapCoord(index, img, w, k, d)
  {
    var n := img.dimensions;
    var tc := TapCoords(index, img, w, k);
    TapIndexInBounds(index, img, w, k);
    TapCoordsInRange(index, img, w, k);
    LinearDecomposes(tc, 0, img.shape, img.offset, n);
    assert Linear(tc, img.offset, n) + 0 == TapIndex(index, img, w, k);
    forall d | 1 <= d <= n
      ensures Coord(img, TapIndex(index, img, w, k), d) == TapCoord(index, img, w, k, d)
    {
      assert Coords(TapIndex(index, img, w, k), img.offset, n)[d] == Coord(img, TapIndex(index, img, w, k), d);
    }
  }

  /** A step of -1, 0 or +1 clamped to the axis stays within one step of a coordinate inside it. */
  lemma ClampStep(c: int, e: int, hi: int)
    requires 0 <= c <= hi && -1 <= e <= 1
    ensures -1 <= Clamp(c + e, 0, hi) - c <= 1
  {
  }

  // ---------------------------------------------------------------------------
  // The box minimum

  /** The box minimum is unique. */
  lemma BoxMinUnique(v1: int, v2: int, input: seq<uint8>, img: Layout, x: int, m: nat)
    requires ValidLayout(img) && |input| == img.size
    requires IsBoxMin(v1, input, img, x, m) && IsBoxMin(v2, input, img, x, m)
    ensures v1 == v2
  {
    var y1 :| Near(img, x, y1, m) && v1 == input[y1];
    var y2 :| Near(img, x, y2, m) && v2 == input[y2];
    assert v1 <= input[y2] && v2 <= input[y1];
  }

  /** Before any pass the box of x is x alone. */
  lemma BoxMinBase(input: seq<uint8>, img: Layout, x: int)
    requires ValidLayout(img) && |input| == img.size && 0 <= x < img.size
    ensures IsBoxMin(input[x], input, img, x, 0)
  {
    forall y | Near(img, x, y, 0)
      ensures input[x] <= input[y]
    {
      SameCoordsSame(img, x, y);
    }
    assert Near(img, x, x, 0);
  }

  /** Every tap of the axis-j window lies in the box of x after j passes. */
  lemma AxisTapNear(img: Layout, w: Window, j: nat, x: int, k: int)
    requires ValidLayout(img) && 1 <= j <= img.dimensions && IsAxisWindow(img, w, j)
    requires 0 <= x < img.size && 0 <= k < 3
    ensures Compatible(img, w) && Broadcasts(img, w)
    ensures Coord(img, TapIndex(x, img, w, k), j) == Clamp(Coord(img, x, j) + k - 1, 0, img.shape[j] - 1)
    ensures forall d :: 1 <= d <= img.dimensions && d != j ==> Coord(img, TapIndex(x, img, w, k), d) == Coord(img, x, d)
    ensures Remainder(TapIndex(x, img, w, k), img.offset, img.dimensions) == 0
    ensures 0 <= TapIndex(x, img, w, k) < img.size
  {
    AxisWindowFits(img, CubeWeights, w.shape, w.offset, j);
    AxisWindowTaps(img, CubeWeights, w.shape, w.offset, j, x, k);
    TapIndexCoords(x, img, w, k);
  }

  /**
    One pass along axis j: when every sample of prev is the minimum of its box after
    j - 1 passes, every sample of the eroded image is the minimum of its box after j.
  */
  lemma AxisPassBoxMin(prev: seq<uint8>, input: seq<uint8>, img: Layout, w: Window, j: nat, x: int)
    requires ValidLayout(img) && 1 <= j <= img.dimensions && IsAxisWindow(img, w, j)
    requires |prev| == img.size && |input| == img.size && 0 <= x < img.size
    requires forall z :: 0 <= z < img.size ==> IsBoxMin(prev[z], input, img, z, j - 1)
    ensures Compatible(img, w) && Broadcasts(img, w)
    ensures IsBoxMin(ErodeAt(prev, img, w, x), input, img, x, j)
  {
    AxisErodeIsLineMin(prev, img, w.shape, w.offset, j, x);
    var v := ErodeAt(prev, img, w, x);
    CoordInRange(img, x, j);
    forall y | Near(img, x, y, j)
      ensures v <= input[y]
    {
      var k := Coord(img, y, j) - Coord(img, x, j) + 1;
      AxisTapNear(img, w, j, x, k);
      CoordInRange(img, y, j);
      var t := TapIndex(x, img, w, k);
      assert Near(img, t, y, j - 1);
      assert v <= Reached(prev, img, w, x, k) == prev[t];
    }
    var k :| 0 <= k < 3 && v == Reached(prev, img, w, x, k);
    AxisTapNear(img, w, j, x, k);
    var t := TapIndex(x, img, w, k);
    ClampStep(Coord(img, x, j), k - 1, img.shape[j] - 1);
    var y :| Near(img, t, y, j - 1) && prev[t] == input[y];
    assert Near(img, x, y, j);
  }

  /** After m passes with the axis windows, every sample is the minimum of its box. */
  lemma {:induction false} ChainBoxMin(input: seq<uint8>, img: Layout, windows: seq<Window>, m: nat)
    requires ValidLayout(img) && |input| == img.size && m <= img.dimensions && AxisWindowsFor(img, windows, m)
    ensures WindowsFit(img, windows, m)
    ensures forall z :: 0 <= z < img.size ==> IsBoxMin(ErodeChain(input, img, windows, m)[z], input, img, z, m)
  {
    forall j | 1 <= j <= m
      ensures PassFits(img, windows, j)
    {
      AxisWindowFits(img, CubeWeights, windows[j].shape, windows[j].offset, j);
    }
    if m == 0 {
      forall z | 0 <= z < img.size
        ensures IsBoxMin(input[z], input, img, z, 0)
      {
        BoxMinBase(input, img, z);
      }
    } else {
      ChainBoxMin(input, img, windows, m - 1);
      var prev := ErodeChain(input, img, windows, m - 1);
      forall z | 0 <= z < img.size
        ensures IsBoxMin(ErodeChain(input, img, windows, m)[z], input, img, z, m)
      {
        AxisPassBoxMin(prev, input, img, windows[m], m, z);
      }
    }
  }

  /** One erosion with the cube window gives every sample the minimum of its full box. */
  lemma CubeBoxMin(input: seq<uint8>, img: Layout, cube: Window, x: int)
    requires IsCubeWindow(img, cube) && |input| == img.size && 0 <= x < img.size
    ensures Compatible(img, cube) && Broadcasts(img, cube)
    ensures IsBoxMin(ErodeAt(input, img, cube, x), input, img, x, img.dimensions)
  {
    var n := img.dimensions;
    var v := ErodeAt(input, img, cube, x);
    ErodeBelowReached(input, img, cube, x);
    forall y | Near(img, x, y, n)
      ensures v <= input[y]
    {
      CubeReachesNear(img, cube, x, y);
      var k :| 0 <= k < |cube.data| && TapIndex(x, img, cube, k) == y;
      assert v <= Reached(input, img, cube, x, k);
    }
    assert cube.data[0] != 0.0;
    ErodeIsReached(input, img, cube, x);
    var k :| 0 <= k < |cube.data| && cube.data[k] != 0.0 && v == Reached(input, img, cube, x, k);
    CubeTapNear(img, cube, x, k);
  }

  /** Every point of the full box of x is reached by some window index of the cube. */
  lemma CubeReachesNear(img: Layout, cube: Window, x: int, y: int)
    requires IsCubeWindow(img, cube) && 0 <= x < img.size && Near(img, x, y, img.dimensions)
    ensures Compatible(img, cube) && Broadcasts(img, cube)
    ensures exists k :: 0 <= k < |cube.data| && TapIndex(x, img, cube, k) == y
  {
    var n := img.dimensions;
    var e := seq(n + 1, d requires 0 <= d <= n => if d == 0 then 0 else Coord(img, y, d) - Coord(img, x, d) + 1);
    assert InRange(e, cube.shape, n);
    var k := Linear(e, cube.offset, n);
    LinearInBounds(e, cube.shape, cube.offset, n);
    LinearDecomposes(e, 0, cube.shape, cube.offset, n);
    assert Linear(e, cube.offset, n) + 0 == k;
    TapIndexCoords(x, img, cube, k);
    forall d | 1 <= d <= n
      ensures Coord(img, TapIndex(x, img, cube, k), d) == Coord(img, y, d)
    {
      assert Coords(k, cube.offset, n)[d] == DigitAt(k, cube.offset, n, d) == e[d];
      CoordInRange(img, y, d);
    }
    SameCoordsSame(img, TapIndex(x, img, cube, k), y);
  }

  /** Every window index of the cube reaches a point of the full box of x. */
  lemma CubeTapNear(img: Layout, cube: Window, x: int, k: int)
    requires IsCubeWindow(img, cube) && 0 <= x < img.size && 0 <= k < |cube.data|
    ensures Compatible(img, cube) && Broadcasts(img, cube)
    ensures Near(img, x, TapIndex(x, img, cube, k), img.dimensions)
  {
    var n := img.dimensions;
    TapIndexCoords(x, img, cube, k);
    CoordsInRange(k, cube.shape, cube.offset, n);
    forall d | 1 <= d <= n
      ensures -1 <= Coord(img, TapIndex(x, img, cube, k), d) - Coord(img, x, d) <= 1
    {
      assert Coords(k, cube.offset, n)[d] == DigitAt(k, cube.offset, n, d);
      CoordInRange(img, x, d);
      ClampStep(Coord(img, x, d), DigitAt(k, cube.offset, n, d) - 1, img.shape[d] - 1);
    }
  }

  /**
    Separability: the N erosion passes with the axis windows give the same image as
    one erosion with the cube window.
  */
  lemma SplitErodeIsCubeErode(input: seq<uint8>, img: Layout, windows: seq<Window>, cube: Window)
    requires ValidLayout(img) && |input| == img.size
    requires AxisWindowsFor(img, windows, img.dimensions) && IsCubeWindow(img, cube)
    ensures WindowsFit(img, windows, img.dimensions) && Compatible(img, cube) && Broadcasts(img, cube)
    ensures ErodeChain(input, img, windows, img.dimensions) == ErodeImage(input, img, cube)
  {
    var n := img.dimensions;
    ChainBoxMin(input, img, windows, n);
    assert Compatible(img, cube) && Broadcasts(img, cube);
    var split := ErodeChain(input, img, windows, n);
    var whole := ErodeImage(input, img, cube);
    forall z | 0 <= z < img.size
      ensures split[z] == whole[z]
    {
      CubeBoxMin(input, img, cube, z);
      BoxMinUnique(split[z], whole[z], input, img, z, n);
    }
  }
}
