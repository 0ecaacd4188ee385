/**
  The per-element kernels and the dispatch that runs them over a whole image.

  Each kernel's `operator()(item)` reads the input buffer and writes exactly one
  output slot, `output[item]`.  `parallel_for(size, kernel)` runs it for every item
  independently; since no item reads what another writes (input and output are
  distinct buffers), it is modelled as a sequential loop over `0..size-1`.
*/
module Kernels {
  import opened Layout
  import opened StrideIndexer
  import opened WindowOverlay

  // ---------------------------------------------------------------------------
  // Invert

  /** One inverted sample: `255 - x`. */
  function Invert(x: uint8): (r: uint8)
    ensures r as int + x as int == MaxSample as int
  {
    MaxSample - x
  }

  /** Inverting twice gives back the sample. */
  lemma InvertInvolutive(x: uint8)
    ensures Invert(Invert(x)) == x
  {
  }

  /** The inverted image, sample by sample. */
  function InvertImage(s: seq<uint8>): (r: seq<uint8>)
    ensures |r| == |s|
  {
    seq(|s|, i requires 0 <= i < |s| => Invert(s[i]))
  }

  /** Inverting a whole image twice gives it back. */
  lemma InvertImageInvolutive(s: seq<uint8>)
    ensures InvertImage(InvertImage(s)) == s
  {
  }

  /** `InvertKernel::operator()` for one item: writes `output[index] = 255 - input[index]` and nothing else. */
  method InvertKernel(input: array<uint8>, output: array<uint8>, index: nat)
    requires input != output && input.Length == output.Length && index < input.Length
    modifies output
    ensures output[..] == old(output[..])[index := Invert(input[index])]
  {
    output[index] := MaxSample - input[index];
  }

  /** `parallel_for(image_size, InvertKernel(input, output))`. */
  method InvertAll(input: array<uint8>, output: array<uint8>)
    requires input != output && input.Length == output.Length
    modifies output
    ensures output[..] == InvertImage(input[..])
  {
    for i := 0 to input.Length
      invariant forall j :: 0 <= j < i ==> output[j] == Invert(input[j])
    {
      InvertKernel(input, output, i);
    }
  }

  // ---------------------------------------------------------------------------
  // Threshold

  /** `ThresholdKernel`'s default threshold, `numeric_limits<uint8_t>::max() / 2`. */
  const DefaultThreshold: uint8 := MaxSample / 2

  /** `ThresholdKernel`'s default high value, `numeric_limits<uint8_t>::max()`. */
  const DefaultMaxValue: uint8 := MaxSample

  /**
    One thresholded sample: the high value when the sample is above the threshold,
    0 otherwise.  The result is one of those two values, and (for a nonzero high value)
    it is the high value exactly when the sample exceeds the threshold.
  */
  function Threshold(x: uint8, threshold: uint8, maxValue: uint8): (r: uint8)
    ensures r == 0 || r == maxValue
    ensures maxValue != 0 ==> (r == maxValue <==> x > threshold)
  {
    if x > threshold then maxValue else 0
  }

  /** With the defaults, a sample becomes 255 exactly when it is above 127, and 0 otherwise. */
  lemma ThresholdDefaults(x: uint8)
    ensures DefaultThreshold == 127 && DefaultMaxValue == 255
    ensures Threshold(x, DefaultThreshold, DefaultMaxValue) == (if x > 127 then 255 else 0)
  {
  }

  /** The thresholded image, sample by sample. */
  function ThresholdImage(s: seq<uint8>, threshold: uint8, maxValue: uint8): (r: seq<uint8>)
    ensures |r| == |s|
  {
    seq(|s|, i requires 0 <= i < |s| => Threshold(s[i], threshold, maxValue))
  }

  /** `ThresholdKernel::operator()` for one item. */
  method ThresholdKernel(input: array<uint8>, output: array<uint8>, threshold: uint8, maxValue: uint8, index: nat)
    requires input != output && input.Length == output.Length && index < input.Length
    modifies output
    ensures output[..] == old(output[..])[index := Threshold(input[index], threshold, maxValue)]
  {
    output[index] := if input[index] > threshold then maxValue else 0;
  }

  /** `parallel_for(image_size, ThresholdKernel(input, output, threshold, max_value))`. */
  method ThresholdAll(input: array<uint8>, output: array<uint8>, threshold: uint8, maxValue: uint8)
    requires input != output && input.Length == output.Length
    modifies output
    ensures output[..] == ThresholdImage(input[..], threshold, maxValue)
  {
    for i := 0 to input.Length
      invariant forall j :: 0 <= j < i ==> output[j] == Threshold(input[j], threshold, maxValue)
    {
      ThresholdKernel(input, output, threshold, maxValue, i);
    }
  }

  // ---------------------------------------------------------------------------
  // Erode

  /** Every visit reads inside the sample buffer. */
  predicate ReadsInside(input: seq<uint8>, taps: seq<Tap>)
  {
    forall j :: 0 <= j < |taps| ==> 0 <= taps[j].imageIndex < |input|
  }

  /**
    The running minimum `pmin = min(pmin, input[image_index])` over the visits, in
    order, starting from 255.  It is at most every sample visited, and it is either
    one of them or, when there is none, 255.
  */
  function MinSample(input: seq<uint8>, taps: seq<Tap>): (r: uint8)
    requires ReadsInside(input, taps)
    ensures forall j :: 0 <= j < |taps| ==> r <= input[taps[j].imageIndex]
    ensures r == MaxSample || exists j :: 0 <= j < |taps| && r == input[taps[j].imageIndex]
    ensures taps == [] ==> r == MaxSample
  {
    if taps == [] then MaxSample
    else
      var last := taps[|taps| - 1];
      assert ReadsInside(input, taps[..|taps| - 1]);
      Min(MinSample(input, taps[..|taps| - 1]), input[last.imageIndex])
  }

  /** `ErodeKernel`'s value at `index`: the running minimum over `map(index, ...)`. */
  function ErodeAt(input: seq<uint8>, img: Layout, w: Window, index: int): uint8
    requires Compatible(img, w) && Broadcasts(img, w) && |input| == img.size && 0 <= index < img.size
  {
    TapsInBounds(index, img, w);
    MinSample(input, Taps(index, img, w))
  }

  /** The eroded image, element by element. */
  function ErodeImage(input: seq<uint8>, img: Layout, w: Window): (r: seq<uint8>)
    requires Compatible(img, w) && Broadcasts(img, w) && |input| == img.size
    ensures |r| == img.size
  {
    seq(img.size, i requires 0 <= i < img.size => ErodeAt(input, img, w, i))
  }

  /**
    `ErodeKernel::operator()` for one item (also the inline loop of the single-file
    variant): start from 255, take the minimum over every visit of the overlay, and
    write it to `output[index]` only.
  */
  method ErodeKernel(input: array<uint8>, output: array<uint8>, img: Layout, w: Window, index: nat)
    requires input != output && input.Length == img.size && output.Length == img.size
    requires Compatible(img, w) && Broadcasts(img, w) && index < img.size
    modifies output
    ensures output[..] == old(output[..])[index := ErodeAt(input[..], img, w, index)]
  {
    var pmin: uint8 := 255;
    var taps := Map(index, img, w);
    TapsInBounds(index, img, w);
    for j := 0 to |taps|
      invariant ReadsInside(input[..], taps[..j])
      invariant pmin == MinSample(input[..], taps[..j])
    {
      assert taps[..j + 1][..j] == taps[..j];
      pmin := Min(pmin, input[taps[j].imageIndex]);
    }
    assert taps[..|taps|] == taps;
    output[index] := pmin;
  }

  /** `parallel_for(image_size, ErodeKernel(input, output, window))`. */
  method ErodeAll(input: array<uint8>, output: array<uint8>, img: Layout, w: Window)
    requires input != output && input.Length == img.size && output.Length == img.size
    requires Compatible(img, w) && Broadcasts(img, w)
    modifies output
    ensures output[..] == ErodeImage(input[..], img, w)
  {
    for i := 0 to img.size
      invariant forall j :: 0 <= j < i ==> output[j] == ErodeAt(input[..], img, w, j)
    {
      ErodeKernel(input, output, img, w, i);
    }
  }

  // ---------------------------------------------------------------------------
  // What erosion promises

  /** The sample window index k reaches from the centre `index` (always inside the image). */
  function Reached(input: seq<uint8>, img: Layout, w: Window, index: int, k: int): uint8
    requires Compatible(img, w) && Broadcasts(img, w) && |input| == img.size && 0 <= index < img.size
  {
    TapIndexInBounds(index, img, w, k);
    input[TapIndex(index, img, w, k)]
  }

  /** The eroded value is at most every sample the window reaches through a nonzero weight. */
  lemma ErodeBelowReached(input: seq<uint8>, img: Layout, w: Window, index: int)
    requires Compatible(img, w) && Broadcasts(img, w) && |input| == img.size && 0 <= index < img.size
    ensures forall k :: 0 <= k < |w.data| && w.data[k] != 0.0 ==>
      ErodeAt(input, img, w, index) <= Reached(input, img, w, index, k)
  {
    var taps := Taps(index, img, w);
    TapsInBounds(index, img, w);
    VisitsActiveTapsInOrder(index, img, w);
    var r := ErodeAt(input, img, w, index);
    forall k | 0 <= k < |w.data| && w.data[k] != 0.0
      ensures r <= Reached(input, img, w, index, k)
    {
      assert Visited(taps, k);
      var j :| 0 <= j < |taps| && taps[j].windowIndex == k;
      assert r <= input[taps[j].imageIndex];
    }
  }

  /** The eroded value is one of the samples reached through a nonzero weight, when there is one. */
  lemma ErodeIsReached(input: seq<uint8>, img: Layout, w: Window, index: int)
    requires Compatible(img, w) && Broadcasts(img, w) && |input| == img.size && 0 <= index < img.size
    requires exists k :: 0 <= k < |w.data| && w.data[k] != 0.0
    ensures exists k :: 0 <= k < |w.data| && w.data[k] != 0.0 && ErodeAt(input, img, w, index) == Reached(input, img, w, index, k)
  {
    var taps := Taps(index, img, w);
    TapsInBounds(index, img, w);
    VisitsActiveTapsInOrder(index, img, w);
    var r := ErodeAt(input, img, w, index);
    var k0 :| 0 <= k0 < |w.data| && w.data[k0] != 0.0;
    assert Visited(taps, k0);
    var j0 :| 0 <= j0 < |taps| && taps[j0].windowIndex == k0;
    if r == MaxSample {
      assert r <= input[taps[j0].imageIndex];
      assert r == Reached(input, img, w, index, k0);
    } else {
      var j :| 0 <= j < |taps| && r == input[taps[j].imageIndex];
      assert r == Reached(input, img, w, index, taps[j].windowIndex);
    }
  }

  /**
    The eroded value is at most every sample the window reaches, 255 when the window
    has no nonzero weight, and otherwise one of the reached samples.
  */
  lemma ErodeIsMinimum(input: seq<uint8>, img: Layout, w: Window, index: int)
    requires Compatible(img, w) && Broadcasts(img, w) && |input| == img.size && 0 <= index < img.size
    ensures forall k :: 0 <= k < |w.data| && w.data[k] != 0.0 ==>
      ErodeAt(input, img, w, index) <= Reached(input, img, w, index, k)
    ensures (forall k :: 0 <= k < |w.data| ==> w.data[k] == 0.0) ==> ErodeAt(input, img, w, index) == MaxSample
    ensures (exists k :: 0 <= k < |w.data| && w.data[k] != 0.0) ==>
      exists k :: 0 <= k < |w.data| && w.data[k] != 0.0 && ErodeAt(input, img, w, index) == Reached(input, img, w, index, k)
  {
    ErodeBelowReached(input, img, w, index);
    if forall k :: 0 <= k < |w.data| ==> w.data[k] == 0.0 {
      NoActiveNoTaps(index, img, w, |w.data|);
    } else {
      ErodeIsReached(input, img, w, index);
    }
  }

  /** A constant image erodes to itself wherever the window has a nonzero weight. */
  lemma ErodeConstant(input: seq<uint8>, c: uint8, img: Layout, w: Window, index: int)
    requires Compatible(img, w) && Broadcasts(img, w) && |input| == img.size && 0 <= index < img.size
    requires forall i :: 0 <= i < |input| ==> input[i] == c
    requires exists k :: 0 <= k < |w.data| && w.data[k] != 0.0
    ensures ErodeAt(input, img, w, index) == c
  {
    ErodeIsMinimum(input, img, w, index);
    var k :| 0 <= k < |w.data| && w.data[k] != 0.0 && ErodeAt(input, img, w, index) == Reached(input, img, w, index, k);
    TapIndexInBounds(index, img, w, k);
  }
}
