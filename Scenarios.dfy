/**
  Concrete one-dimensional cases: a 3-sample line image with the 3-tap cube window
  `[1, 1, 1]`, and the invert and threshold examples.
*/
module Scenarios {
  import opened Layout
  import opened StrideIndexer
  import opened WindowOverlay
  import opened Kernels

  /** A 3-sample line: one axis of extent 3, stride 1 (one channel). */
  const Line3: Layout := Layout([1, 3], [1, 1], 1, 3)

  /** The 3-tap cube window along axis 1. */
  const Cube3: Window := Window([1.0, 1.0, 1.0], [1, 3], [1, 1], 1, 3)

  /** On the line, window index k reaches from i the sample `clamp(i + k - 1, 0, 2)`. */
  lemma Line3TapIndex(i: int, k: int)
    requires 0 <= i < 3 && 0 <= k
    ensures Compatible(Line3, Cube3) && Broadcasts(Line3, Cube3)
    ensures TapIndex(i, Line3, Cube3, k) == Clamp(i + k - 1, 0, 2)
  {
    assert ValidLayout(Line3);
    assert Compatible(Line3, Cube3);
    var tc := TapCoords(i, Line3, Cube3, k);
    assert DigitAt(i, Line3.offset, 1, 1) == i;
    assert DigitAt(k, Cube3.offset, 1, 1) == k;
    assert tc[1] == Clamp(k + i - 1, 0, 2);
    assert Linear(tc, Line3.offset, 1) == Linear(tc, Line3.offset, 0) + 1 * tc[1];
  }

  /** The visits from sample i: window indices 0, 1, 2 in order, reading i-1, i, i+1 clamped. */
  lemma Line3Taps(i: int)
    requires 0 <= i < 3
    ensures Compatible(Line3, Cube3) && Broadcasts(Line3, Cube3)
    ensures Taps(i, Line3, Cube3) ==
      [Tap(Clamp(i - 1, 0, 2), 0), Tap(Clamp(i, 0, 2), 1), Tap(Clamp(i + 1, 0, 2), 2)]
  {
    Line3Fits();
    Line3TapIndex(i, 0);
    Line3TapIndex(i, 1);
    Line3TapIndex(i, 2);
    Line3TapsInOrder(i);
  }

  /** Every weight of the cube is nonzero, so the visits are window indices 0, 1, 2 in order. */
  lemma Line3TapsInOrder(i: int)
    requires 0 <= i < 3
    ensures Compatible(Line3, Cube3)
    ensures Taps(i, Line3, Cube3) ==
      [Tap(TapIndex(i, Line3, Cube3, 0), 0), Tap(TapIndex(i, Line3, Cube3, 1), 1), Tap(TapIndex(i, Line3, Cube3, 2), 2)]
  {
    Line3Fits();
    ThreeTaps(i, Line3, Cube3);
  }

  /** A window of three nonzero weights is visited at window indices 0, 1, 2 in order. */
  lemma ThreeTaps(index: int, img: Layout, w: Window)
    requires Compatible(img, w) && |w.data| == 3
    requires w.data[0] != 0.0 && w.data[1] != 0.0 && w.data[2] != 0.0
    ensures Taps(index, img, w) ==
      [Tap(TapIndex(index, img, w, 0), 0), Tap(TapIndex(index, img, w, 1), 1), Tap(TapIndex(index, img, w, 2), 2)]
  {
    var u1, u2 := TapsUpTo(index, img, w, 1), TapsUpTo(index, img, w, 2);
    assert TapsUpTo(index, img, w, 0) == [];
    assert u1 == [Tap(TapIndex(index, img, w, 0), 0)];
    assert u2 == u1 + [Tap(TapIndex(index, img, w, 1), 1)];
  }

  /** Erosion of `[10, 200, 10]` with `[1, 1, 1]` and clamped edges gives `[10, 10, 10]`. */
  lemma ErodeLineScenario()
    ensures Compatible(Line3, Cube3) && Broadcasts(Line3, Cube3)
    ensures ErodeImage([10, 200, 10], Line3, Cube3) == [10, 10, 10]
  {
    Line3Fits();
    var input: seq<uint8> := [10, 200, 10];
    var r := ErodeImage(input, Line3, Cube3);
    forall i | 0 <= i < 3
      ensures r[i] == 10
    {
      ErodeLineAt(i);
    }
  }

  lemma Line3Fits()
    ensures Compatible(Line3, Cube3) && Broadcasts(Line3, Cube3)
  {
    assert ValidLayout(Line3);
  }

  /** One sample of the scenario above. */
  lemma ErodeLineAt(i: int)
    requires 0 <= i < 3
    ensures Compatible(Line3, Cube3) && Broadcasts(Line3, Cube3)
    ensures ErodeAt([10, 200, 10], Line3, Cube3, i) == 10
  {
    var input: seq<uint8> := [10, 200, 10];
    Line3Taps(i);
    var taps := Taps(i, Line3, Cube3);
    TapsInBounds(i, Line3, Cube3);
    MinOfThree(input, taps);
  }

  /** The running minimum over three visits, spelled out. */
  lemma MinOfThree(input: seq<uint8>, taps: seq<Tap>)
    requires |taps| == 3 && ReadsInside(input, taps)
    ensures MinSample(input, taps) ==
      Min(Min(Min(MaxSample, input[taps[0].imageIndex]), input[taps[1].imageIndex]), input[taps[2].imageIndex])
  {
    assert taps[..2][..1] == taps[..1];
    assert taps[..1][..0] == [];
  }

  /** Invert on `[0, 255, 128]` gives `[255, 0, 127]`. */
  lemma InvertScenario()
    ensures InvertImage([0, 255, 128]) == [255, 0, 127]
  {
  }

  /** Threshold 128 / high 255 (the values the benchmark attaches) on `[0, 128, 200]` gives `[0, 0, 255]`. */
  lemma ThresholdScenario()
    ensures ThresholdImage([0, 128, 200], 128, 255) == [0, 0, 255]
  {
  }
}
