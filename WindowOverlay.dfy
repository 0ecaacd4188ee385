/**
  `WindowKernel::map`: for one output index, the (image index, window index) pairs
  the window visits.

  The centre index is split into image coordinates, each shifted by the window's
  half-width `(shape[d] - 1) / 2`.  Then, for every window weight that is nonzero,
  in increasing window index, the window index is split with the window's strides,
  added to the shifted centre, clamped to the image on the window's own axes, and
  recombined with the image strides.  Image axes above the window's dimension count
  keep the shifted centre coordinate, unclamped.

  The callback the source passes to `map` is modelled by the list of calls it
  receives, in order: `Map` returns that list.
*/
module WindowOverlay {
  import opened Layout
  import opened StrideIndexer

  /** One call of the visitor: `apply(image_index, window_index)`. */
  datatype Tap = Tap(imageIndex: int, windowIndex: int)

  /** `image_coord[d]`: the centre's coordinate on axis d, shifted by the window's half-width. */
  function CentreCoord(index: int, img: Layout, w: Window, d: nat): int
    requires Compatible(img, w) && 1 <= d <= img.dimensions
  {
    DigitAt(index, img.offset, img.dimensions, d) - (w.shape[d] - 1) / 2
  }

  /** The image coordinate on axis d that window index k reaches from the centre `index`. */
  function TapCoord(index: int, img: Layout, w: Window, k: int, d: nat): int
    requires Compatible(img, w) && 1 <= d <= img.dimensions
  {
    if d <= w.dimensions then
      Clamp(DigitAt(k, w.offset, w.dimensions, d) + CentreCoord(index, img, w, d), 0, img.shape[d] - 1)
    else
      CentreCoord(index, img, w, d)
  }

  /** All image coordinates of the tap, entry 0 unused. */
  function TapCoords(index: int, img: Layout, w: Window, k: int): (c: seq<int>)
    requires Compatible(img, w)
    ensures |c| == img.dimensions + 1
  {
    seq(img.dimensions + 1, d requires 0 <= d <= img.dimensions =>
      if d == 0 then 0 else TapCoord(index, img, w, k, d))
  }

  /** `image_index` for window index k. */
  function TapIndex(index: int, img: Layout, w: Window, k: int): int
    requires Compatible(img, w)
  {
    Linear(TapCoords(index, img, w, k), img.offset, img.dimensions)
  }

  /** The visits for window indices below n, in order. */
  function TapsUpTo(index: int, img: Layout, w: Window, n: nat): seq<Tap>
    requires Compatible(img, w) && n <= |w.data|
  {
    if n == 0 then []
    else
      TapsUpTo(index, img, w, n - 1)
      + (if w.data[n - 1] != 0.0 then [Tap(TapIndex(index, img, w, n - 1), n - 1)] else [])
  }

  /** Every visit `map(index, apply)` makes, in order. */
  function Taps(index: int, img: Layout, w: Window): seq<Tap>
    requires Compatible(img, w)
  {
    TapsUpTo(index, img, w, |w.data|)
  }

  /**
    The overlay loop nest, as in `WindowKernel::map`: returns the sequence of
    `(image_index, window_index)` calls it makes to the visitor.
  */
  method Map(index: int, img: Layout, w: Window) returns (taps: seq<Tap>)
    requires Compatible(img, w) && 0 <= index
    ensures taps == Taps(index, img, w)
  {
    var imageCoord := ShiftedCentre(index, img, w);
    taps := [];
    for windowIndex := 0 to w.size
      invariant taps == TapsUpTo(index, img, w, windowIndex)
      invariant forall d :: 1 <= d <= img.dimensions ==> imageCoord[d] == CentreCoord(index, img, w, d)
    {
      if w.data[windowIndex] == 0.0 {
        continue;
      }
      var imageIndex := OverlayIndex(index, img, w, imageCoord, windowIndex);
      taps := taps + [Tap(imageIndex, windowIndex)];
    }
  }

  /** The first loop of `map`: split the centre index and shift each coordinate by the half-width. */
  method ShiftedCentre(index: int, img: Layout, w: Window) returns (imageCoord: array<int>)
    requires Compatible(img, w)
    ensures fresh(imageCoord) && imageCoord.Length == img.dimensions + 1
    ensures forall d :: 1 <= d <= img.dimensions ==> imageCoord[d] == CentreCoord(index, img, w, d)
  {
    imageCoord := new int[img.dimensions + 1];
    var ires := index;
    var d := img.dimensions;
    while d >= 1
      invariant 0 <= d <= img.dimensions
      invariant ires == ResidueAt(index, img.offset, img.dimensions, d)
      invariant forall e :: d < e <= img.dimensions ==> imageCoord[e] == CentreCoord(index, img, w, e)
    {
      var off := img.offset[d];
      var idim := ires / off;
      ires := ires - idim * off;
      imageCoord[d] := idim - (w.shape[d] - 1) / 2;
      d := d - 1;
    }
  }

  /**
    The body of `map`'s tap loop for one active window index: outer axes add the
    shifted centre unclamped, window axes add the clamped sum of window and centre
    coordinates.
  */
  method OverlayIndex(index: int, img: Layout, w: Window, imageCoord: array<int>, windowIndex: int)
    returns (imageIndex: int)
    requires Compatible(img, w) && 0 <= windowIndex
    requires imageCoord.Length == img.dimensions + 1
    requires forall d :: 1 <= d <= img.dimensions ==> imageCoord[d] == CentreCoord(index, img, w, d)
    ensures imageIndex == TapIndex(index, img, w, windowIndex)
  {
    ghost var tc := TapCoords(index, img, w, windowIndex);
    var ires := windowIndex;
    imageIndex := 0;

    var d := img.dimensions;
    while d > w.dimensions
      invariant w.dimensions <= d <= img.dimensions
      invariant imageIndex + Linear(tc, img.offset, d) == Linear(tc, img.offset, img.dimensions)
    {
      assert tc[d] == imageCoord[d];
      imageIndex := imageIndex + img.offset[d] * imageCoord[d];
      d := d - 1;
    }

    while d >= 1
      invariant 0 <= d <= w.dimensions
      invariant ires == ResidueAt(windowIndex, w.offset, w.dimensions, d)
      invariant imageIndex + Linear(tc, img.offset, d) == Linear(tc, img.offset, img.dimensions)
    {
      var off := w.offset[d];
      var idim := ires / off;
      ires := ires - idim * off;
      var windowCoord := idim + imageCoord[d];
      windowCoord := Clamp(windowCoord, 0, img.shape[d] - 1);
      assert tc[d] == windowCoord;
      imageIndex := imageIndex + img.offset[d] * windowCoord;
      d := d - 1;
    }
  }

  // ---------------------------------------------------------------------------
  // Which taps are visited, and in what order

  /**
    Every visit is of a nonzero weight below n, reported with its own image index, and
    the window indices of the visits strictly increase (so each is visited at most once).
  */
  lemma {:induction false} TapsUpToSound(index: int, img: Layout, w: Window, n: nat)
    requires Compatible(img, w) && n <= |w.data|
    ensures forall j :: 0 <= j < |TapsUpTo(index, img, w, n)| ==>
      var t := TapsUpTo(index, img, w, n)[j];
      0 <= t.windowIndex < n && w.data[t.windowIndex] != 0.0 && t.imageIndex == TapIndex(index, img, w, t.windowIndex)
    ensures forall i, j :: 0 <= i < j < |TapsUpTo(index, img, w, n)| ==>
      TapsUpTo(index, img, w, n)[i].windowIndex < TapsUpTo(index, img, w, n)[j].windowIndex
  {
    if n > 0 {
      TapsUpToSound(index, img, w, n - 1);
      var prev := TapsUpTo(index, img, w, n - 1);
      var all := TapsUpTo(index, img, w, n);
      if w.data[n - 1] != 0.0 {
        assert all == prev + [Tap(TapIndex(index, img, w, n - 1), n - 1)];
        forall j | 0 <= j < |all|
          ensures 0 <= all[j].windowIndex < n && w.data[all[j].windowIndex] != 0.0
          ensures all[j].imageIndex == TapIndex(index, img, w, all[j].windowIndex)
        {
          if j < |prev| {
            assert all[j] == prev[j];
          }
        }
        forall i, j | 0 <= i < j < |all|
          ensures all[i].windowIndex < all[j].windowIndex
        {
          assert all[i] == prev[i];
          if j < |prev| {
            assert all[j] == prev[j];
          }
        }
      } else {
        assert all == prev;
      }
    }
  }

  /** Some visit in `taps` is of window index k. */
  predicate Visited(taps: seq<Tap>, k: int)
  {
    exists j :: 0 <= j < |taps| && taps[j].windowIndex == k
  }

  /** Every nonzero weight below n is visited. */
  lemma {:induction false} TapsUpToComplete(index: int, img: Layout, w: Window, n: nat)
    requires Compatible(img, w) && n <= |w.data|
    ensures forall k :: 0 <= k < n && w.data[k] != 0.0 ==> Visited(TapsUpTo(index, img, w, n), k)
  {
    if n > 0 {
      TapsUpToComplete(index, img, w, n - 1);
      var prev := TapsUpTo(index, img, w, n - 1);
      var all := TapsUpTo(index, img, w, n);
      forall k | 0 <= k < n && w.data[k] != 0.0
        ensures Visited(all, k)
      {
        if k < n - 1 {
          var j :| 0 <= j < |prev| && prev[j].windowIndex == k;
          assert all[j] == prev[j];
        } else {
          assert all == prev + [Tap(TapIndex(index, img, w, n - 1), n - 1)];
          assert all[|all| - 1].windowIndex == k;
        }
      }
    }
  }

  /**
    `map` visits window index k iff `window->data[k] != 0`, each such k exactly once,
    in increasing order, reporting `TapIndex` for it.
  */
  lemma VisitsActiveTapsInOrder(index: int, img: Layout, w: Window)
    requires Compatible(img, w)
    ensures forall j :: 0 <= j < |Taps(index, img, w)| ==>
      var t := Taps(index, img, w)[j];
      0 <= t.windowIndex < |w.data| && w.data[t.windowIndex] != 0.0 && t.imageIndex == TapIndex(index, img, w, t.windowIndex)
    ensures forall i, j :: 0 <= i < j < |Taps(index, img, w)| ==>
      Taps(index, img, w)[i].windowIndex < Taps(index, img, w)[j].windowIndex
    ensures forall k :: (0 <= k < |w.data| && w.data[k] != 0.0) <==> Visited(Taps(index, img, w), k)
  {
    TapsUpToSound(index, img, w, |w.data|);
    TapsUpToComplete(index, img, w, |w.data|);
    var taps := Taps(index, img, w);
    forall k | Visited(taps, k)
      ensures 0 <= k < |w.data| && w.data[k] != 0.0
    {
      var j :| 0 <= j < |taps| && taps[j].windowIndex == k;
    }
  }

  /** A window with no nonzero weight makes no visit at all. */
  lemma {:induction false} NoActiveNoTaps(index: int, img: Layout, w: Window, n: nat)
    requires Compatible(img, w) && n <= |w.data|
    requires forall k :: 0 <= k < |w.data| ==> w.data[k] == 0.0
    ensures TapsUpTo(index, img, w, n) == []
  {
    if n > 0 {
      NoActiveNoTaps(index, img, w, n - 1);
    }
  }

  // ---------------------------------------------------------------------------
  // Clamping keeps every read inside the image

  /** Every tap coordinate of an in-bounds centre lies inside the image on every axis. */
  lemma TapCoordsInRange(index: int, img: Layout, w: Window, k: int)
    requires Compatible(img, w) && Broadcasts(img, w) && 0 <= index < img.size
    ensures InRange(TapCoords(index, img, w, k), img.shape, img.dimensions)
  {
    CoordsInRange(index, img.shape, img.offset, img.dimensions);
    var c := Coords(index, img.offset, img.dimensions);
    forall d | 1 <= d <= img.dimensions
      ensures 0 <= TapCoords(index, img, w, k)[d] < img.shape[d]
    {
      assert c[d] == DigitAt(index, img.offset, img.dimensions, d);
    }
  }

  /** Each `image_index` the overlay produces indexes the image buffer: `0 <= image_index < size`. */
  lemma TapIndexInBounds(index: int, img: Layout, w: Window, k: int)
    requires Compatible(img, w) && Broadcasts(img, w) && 0 <= index < img.size
    ensures 0 <= TapIndex(index, img, w, k) < img.size
  {
    TapCoordsInRange(index, img, w, k);
    LinearInBounds(TapCoords(index, img, w, k), img.shape, img.offset, img.dimensions);
  }

  /** No visit of `map` reads outside the image. */
  lemma TapsInBounds(index: int, img: Layout, w: Window)
    requires Compatible(img, w) && Broadcasts(img, w) && 0 <= index < img.size
    ensures forall j :: 0 <= j < |Taps(index, img, w)| ==> 0 <= Taps(index, img, w)[j].imageIndex < img.size
  {
    VisitsActiveTapsInOrder(index, img, w);
    forall j | 0 <= j < |Taps(index, img, w)|
      ensures 0 <= Taps(index, img, w)[j].imageIndex < img.size
    {
      TapIndexInBounds(index, img, w, Taps(index, img, w)[j].windowIndex);
    }
  }

  // ---------------------------------------------------------------------------
  // Centring

  /**
    On a window axis, the window coordinate equal to the half-width `(shape[d]-1)/2`
    (coordinate 1 on a 3-wide axis) lands on the centre's own coordinate.
  */
  lemma CentreTapCoord(index: int, img: Layout, w: Window, k: int, d: nat)
    requires Compatible(img, w) && 0 <= index < img.size && 1 <= d <= w.dimensions
    requires DigitAt(k, w.offset, w.dimensions, d) == (w.shape[d] - 1) / 2
    ensures TapCoord(index, img, w, k, d) == DigitAt(index, img.offset, img.dimensions, d)
  {
    CoordsInRange(index, img.shape, img.offset, img.dimensions);
    assert Coords(index, img.offset, img.dimensions)[d] == DigitAt(index, img.offset, img.dimensions, d);
  }

  /**
    The window index whose coordinates are the half-widths on every window axis reads
    the centre sample itself (up to the channel remainder below `offset[1]`).
  */
  lemma CentreTapIsCentre(index: int, img: Layout, w: Window, k: int)
    requires Compatible(img, w) && Broadcasts(img, w) && 0 <= index < img.size
    requires forall d :: 1 <= d <= w.dimensions ==> DigitAt(k, w.offset, w.dimensions, d) == (w.shape[d] - 1) / 2
    ensures TapIndex(index, img, w, k) + Remainder(index, img.offset, img.dimensions) == index
  {
    var c := Coords(index, img.offset, img.dimensions);
    var tc := TapCoords(index, img, w, k);
    forall d | 1 <= d <= img.dimensions
      ensures tc[d] == c[d]
    {
      if d <= w.dimensions {
        CentreTapCoord(index, img, w, k, d);
      }
    }
    LinearAgrees(tc, c, img.offset, img.dimensions);
    DecomposeReconstructs(index, img.offset, img.dimensions);
  }
}
