/**
  The view records the kernels work on.

  An `Image` record in the benchmark is a buffer pointer plus a shape, an offset
  (stride) table, a dimension count and an element count.  The buffers are the only
  thing the kernels ever change, so here they are `array<uint8>`s held apart, and the
  rest of the record is the immutable value `Layout`.  A `Window` (structuring
  element or convolution kernel) is never written, so it is a value, weights included.

  Axis 0 of every shape/offset table is reserved (it is the channel axis of the
  image library), axes 1..dimensions are spatial, axis 1 is the innermost.
*/
module Layout {

  /** An 8-bit pixel sample. */
  type uint8 = x: int | 0 <= x < 256

  /** Largest sample value, `std::numeric_limits<uint8_t>::max()`. */
  const MaxSample: uint8 := 255

  /** Shape, offset table, dimension count and element count of an image. */
  datatype Layout = Layout(shape: seq<int>, offset: seq<int>, dimensions: nat, size: nat)

  /**
    A structuring element / kernel: weights (zero means "not part of the window"),
    its own shape and offset tables, its dimension count, and `size`, the number of
    weights the overlay loop runs over.
  */
  datatype Window = Window(data: seq<real>, shape: seq<int>, offset: seq<int>, dimensions: nat, size: nat)

  /** Every stride of axes 1..top is positive (no division by zero in the decomposition). */
  predicate PositiveStrides(offset: seq<int>, top: nat)
    requires top < |offset|
  {
    forall d :: 1 <= d <= top ==> offset[d] > 0
  }

  /**
    Row-major nesting of strides as the image library lays them out: every stride is
    positive, every extent is at least one and each stride is the previous stride
    times the previous extent.
  */
  predicate NestedStrides(shape: seq<int>, offset: seq<int>, top: nat)
    requires top < |shape| && top < |offset|
  {
    && PositiveStrides(offset, top)
    && (forall d :: 1 <= d <= top ==> shape[d] >= 1)
    && (forall d :: 1 <= d < top ==> offset[d] * shape[d] == offset[d + 1])
  }

  /** A well-formed image layout: 1 or more axes, nested strides, size = outer stride times outer extent. */
  predicate ValidLayout(img: Layout)
  {
    && 1 <= img.dimensions
    && img.dimensions < |img.shape|
    && img.dimensions < |img.offset|
    && NestedStrides(img.shape, img.offset, img.dimensions)
    && img.size == img.offset[img.dimensions] * img.shape[img.dimensions]
  }

  /**
    What the overlay needs of a window laid over an image: no more axes than the
    image, a window extent for every image axis (the centring shift reads one for each),
    positive strides on the window's own axes, and `size` counting the weights.
  */
  predicate Compatible(img: Layout, w: Window)
  {
    && ValidLayout(img)
    && w.dimensions <= img.dimensions
    && img.dimensions < |w.shape|
    && w.dimensions < |w.offset|
    && (forall d :: 1 <= d <= img.dimensions ==> w.shape[d] >= 1)
    && PositiveStrides(w.offset, w.dimensions)
    && w.size == |w.data|
  }

  /**
    Axes of the image above the window's own are not clamped; they stay inside the
    image exactly when the centring shift `(shape - 1) / 2` is zero on them.
  */
  predicate Broadcasts(img: Layout, w: Window)
    requires Compatible(img, w)
  {
    forall d :: w.dimensions < d <= img.dimensions ==> (w.shape[d] - 1) / 2 == 0
  }

  /** `sycl::clamp(x, lo, hi)` on integers, for lo <= hi. */
  function Clamp(x: int, lo: int, hi: int): (r: int)
    requires lo <= hi
    ensures lo <= r <= hi
    ensures lo <= x <= hi ==> r == x
    ensures x < lo ==> r == lo
    ensures x > hi ==> r == hi
  {
    if x < lo then lo else if x > hi then hi else x
  }

  /** `sycl::min` on two samples. */
  function Min(a: uint8, b: uint8): (r: uint8)
    ensures r <= a && r <= b
    ensures r == a || r == b
  {
    if b < a then b else a
  }
}
