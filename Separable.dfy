/**
  The separable ("split") operators: N one-dimensional erosion passes, one per axis,
  ping-ponging between an auxiliary buffer and the output buffer, then a fix-up copy
  when N is odd.

  Pass 1 reads the input and writes aux; pass i >= 2 reads output and writes aux when
  i is odd, reads aux and writes output when i is even.  After N passes the last result
  is in aux when N is odd.  The VisionGL back-end then copies tmp (its aux) into
  output.  The SYCL back-ends call `memcpy(aux, output)`, whose first argument is the
  destination: they copy output into aux instead, so output does not receive the
  last pass.  Both are modelled: `SplitErodeSycl` as written, `SplitErode` with the
  copy going the intended way.
*/
module Separable {
  import opened Layout
  import opened Kernels
  import opened Scenarios

  // ---------------------------------------------------------------------------
  // Buffer roles

  /** The three buffers of a split operator (VisionGL calls them image, tmp and output). */
  datatype Role = Input | Aux | Output

  /** The buffer pass i writes: aux for odd i, output for even i.  The input is never a destination. */
  function PassDest(i: nat): (r: Role)
    requires i >= 1
    ensures r != Input
  {
    if i % 2 == 1 then Aux else Output
  }

  /**
    The buffer pass i reads: the input for pass 1, output for odd i >= 3, aux for even i.
    Each pass after the first reads what the previous pass wrote, and no pass reads
    the buffer it writes.
  */
  function PassSource(i: nat): (r: Role)
    requires i >= 1
    ensures r != PassDest(i)
    ensures i >= 2 ==> r == PassDest(i - 1)
  {
    if i == 1 then Input else if i % 2 == 1 then Output else Aux
  }

  /** The contents of the three buffers. */
  datatype Buffers = Buffers(input: seq<uint8>, aux: seq<uint8>, output: seq<uint8>)
  {
    function Get(r: Role): seq<uint8>
    {
      match r
      case Input => input
      case Aux => aux
      case Output => output
    }

    function Put(r: Role, s: seq<uint8>): (b: Buffers)
      ensures b.Get(r) == s
      ensures forall other :: other != r ==> b.Get(other) == Get(other)
    {
      match r
      case Input => this.(input := s)
      case Aux => this.(aux := s)
      case Output => this.(output := s)
    }
  }

  // ---------------------------------------------------------------------------
  // The ping-pong, for any pass

  /**
    One pass of a split operator: the image it reads and the pass number (the axis)
    give the image it writes.  Split erosion and split convolution share the ping-pong
    and differ only in this.
  */
  type PassFn = (seq<uint8>, nat) -> seq<uint8>

  /** The three buffers after passes 1..i, before any fix-up. */
  function SplitState(b: Buffers, pass: PassFn, i: nat): (r: Buffers)
    ensures r.input == b.input
  {
    if i == 0 then b
    else
      var prev := SplitState(b, pass, i - 1);
      prev.Put(PassDest(i), pass(prev.Get(PassSource(i)), i))
  }

  /** The intended result after i passes: pass 1 on the input, then pass 2 on that, ..., then pass i. */
  function Chain(input: seq<uint8>, pass: PassFn, i: nat): seq<uint8>
  {
    if i == 0 then input else pass(Chain(input, pass, i - 1), i)
  }

  /** The SYCL fix-up as written: for odd N, `memcpy(aux, output)` copies output into aux. */
  function SyclFixup(b: Buffers, n: nat): Buffers
  {
    if n % 2 == 1 then b.(aux := b.output) else b
  }

  /** The VisionGL fix-up (the intended one): for odd N, `vglClNdCopy(tmp, output)` copies aux into output. */
  function VglFixup(b: Buffers, n: nat): Buffers
  {
    if n % 2 == 1 then b.(output := b.aux) else b
  }

  /** After i >= 1 passes, the buffer pass i wrote holds the chain of passes 1..i over the input. */
  lemma {:induction false} SplitChain(b: Buffers, pass: PassFn, i: nat)
    requires i >= 1
    ensures SplitState(b, pass, i).Get(PassDest(i)) == Chain(b.input, pass, i)
  {
    var prev := SplitState(b, pass, i - 1);
    if i >= 2 {
      SplitChain(b, pass, i - 1);
      assert PassSource(i) == PassDest(i - 1);
    }
    assert prev.Get(PassSource(i)) == Chain(b.input, pass, i - 1);
  }

  /**
    With the VisionGL fix-up, output ends holding the result of all N passes for every
    N >= 1 (for even N the last pass already wrote output), and the input is untouched.
  */
  lemma {:induction false} VglSplitDelivers(b: Buffers, pass: PassFn, n: nat)
    requires n >= 1
    ensures VglFixup(SplitState(b, pass, n), n).output == Chain(b.input, pass, n)
    ensures VglFixup(SplitState(b, pass, n), n).input == b.input
  {
    SplitChain(b, pass, n);
  }

  /**
    With the SYCL fix-up as written: for even N output holds the result of all N passes;
    for odd N aux and output both end holding what output held before the copy, that is
    the result of N - 1 passes for N >= 3 and output's initial contents for N = 1.
  */
  lemma SyclSplitResult(b: Buffers, pass: PassFn, n: nat)
    requires n >= 1
    ensures var r := SyclFixup(SplitState(b, pass, n), n);
      && r.input == b.input
      && (n % 2 == 0 ==> r.output == Chain(b.input, pass, n))
      && (n % 2 == 1 ==> r.aux == r.output)
      && (n % 2 == 1 && n >= 3 ==> r.output == Chain(b.input, pass, n - 1))
      && (n == 1 ==> r.output == b.output)
  {
    SplitChain(b, pass, n);
    if n % 2 == 1 && n >= 3 {
      SplitChain(b, pass, n - 1);
      assert SplitState(b, pass, n).output == SplitState(b, pass, n - 1).output;
    }
  }

  // ---------------------------------------------------------------------------
  // The erosion passes

  /** Window i may be laid over the image. */
  predicate PassFits(img: Layout, windows: seq<Window>, i: nat)
  {
    1 <= i < |windows| && Compatible(img, windows[i]) && Broadcasts(img, windows[i])
  }

  /** The per-axis windows `windows[1..n]` (entry 0 unused) may each be laid over the image. */
  predicate WindowsFit(img: Layout, windows: seq<Window>, n: nat)
  {
    n < |windows| && forall i :: 1 <= i <= n ==> PassFits(img, windows, i)
  }

  /** Erosion pass i: erode with `windows[i]` (an image of another size, or a window that does not fit, is passed through). */
  function ErodePass(img: Layout, windows: seq<Window>): PassFn
  {
    (s: seq<uint8>, i: nat) =>
      if |s| == img.size && PassFits(img, windows, i) then ErodeImage(s, img, windows[i]) else s
  }

  /** The reference result: erode with windows[1], then windows[2], ..., then windows[i]. */
  function ErodeChain(input: seq<uint8>, img: Layout, windows: seq<Window>, i: nat): (r: seq<uint8>)
    requires |input| == img.size && WindowsFit(img, windows, i)
    ensures |r| == img.size
  {
    if i == 0 then input
    else
      assert WindowsFit(img, windows, i - 1) && PassFits(img, windows, i);
      ErodeImage(ErodeChain(input, img, windows, i - 1), img, windows[i])
  }

  /** Chaining the erosion passes is the chain of erosions. */
  lemma {:induction false} ErodePassesChain(input: seq<uint8>, img: Layout, windows: seq<Window>, i: nat)
    requires |input| == img.size && WindowsFit(img, windows, i)
    ensures Chain(input, ErodePass(img, windows), i) == ErodeChain(input, img, windows, i)
  {
    if i > 0 {
      assert WindowsFit(img, windows, i - 1) && PassFits(img, windows, i);
      ErodePassesChain(input, img, windows, i - 1);
    }
  }

  /**
    The SYCL fix-up loses the result: on the line `[10, 200, 10]` with the 3-tap cube
    window (N = 1) and an output buffer holding zeros, the eroded line is `[10, 10, 10]`
    but output ends `[0, 0, 0]`.
  */
  lemma SyclFixupLosesResult()
    ensures WindowsFit(Line3, [Cube3, Cube3], 1)
    ensures ErodeChain([10, 200, 10], Line3, [Cube3, Cube3], 1) == [10, 10, 10]
    ensures SyclFixup(SplitState(Buffers([10, 200, 10], [0, 0, 0], [0, 0, 0]), ErodePass(Line3, [Cube3, Cube3]), 1), 1).output
      == [0, 0, 0]
  {
    Line3Fits();
    ErodeLineScenario();
    assert PassFits(Line3, [Cube3, Cube3], 1);
    SyclSplitResult(Buffers([10, 200, 10], [0, 0, 0], [0, 0, 0]), ErodePass(Line3, [Cube3, Cube3]), 1);
  }

  // ---------------------------------------------------------------------------
  // The controllers

  /** A whole-buffer copy into `dst` from `src` (`memcpy(dst, src, size)`, `vglClNdCopy(src, dst)`). */
  method Memcpy(dst: array<uint8>, src: array<uint8>)
    requires dst != src && dst.Length == src.Length
    modifies dst
    ensures dst[..] == src[..]
  {
    for i := 0 to dst.Length
      invariant forall j :: 0 <= j < i ==> dst[j] == src[j]
    {
      dst[i] := src[i];
    }
  }

  /**
    The split erosion with the fix-up copying aux into output (the VisionGL order,
    `vglClNdCopy(tmp, output)`): output ends holding the N-th pass's result.
  */
  method SplitErode(input: array<uint8>, aux: array<uint8>, output: array<uint8>, img: Layout, windows: seq<Window>)
    requires input != aux && input != output && aux != output
    requires input.Length == img.size && aux.Length == img.size && output.Length == img.size
    requires ValidLayout(img) && WindowsFit(img, windows, img.dimensions)
    modifies aux, output
    ensures Buffers(input[..], aux[..], output[..]) ==
      VglFixup(SplitState(Buffers(old(input[..]), old(aux[..]), old(output[..])), ErodePass(img, windows), img.dimensions), img.dimensions)
    ensures output[..] == ErodeChain(old(input[..]), img, windows, img.dimensions)
  {
    var n := img.dimensions;
    ghost var b0 := Buffers(input[..], aux[..], output[..]);
    Passes(input, aux, output, img, windows, b0);
    if n % 2 == 1 {
      Memcpy(output, aux);
    }
    VglSplitDelivers(b0, ErodePass(img, windows), n);
    ErodePassesChain(b0.input, img, windows, n);
  }

  /**
    The split erosion of the SYCL back-ends as written: the same passes, then for odd N
    `memcpy(aux, output)`, which copies output into aux.
  */
  method SplitErodeSycl(input: array<uint8>, aux: array<uint8>, output: array<uint8>, img: Layout, windows: seq<Window>)
    requires input != aux && input != output && aux != output
    requires input.Length == img.size && aux.Length == img.size && output.Length == img.size
    requires ValidLayout(img) && WindowsFit(img, windows, img.dimensions)
    modifies aux, output
    ensures Buffers(input[..], aux[..], output[..]) ==
      SyclFixup(SplitState(Buffers(old(input[..]), old(aux[..]), old(output[..])), ErodePass(img, windows), img.dimensions), img.dimensions)
  {
    var n := img.dimensions;
    ghost var b0 := Buffers(input[..], aux[..], output[..]);
    Passes(input, aux, output, img, windows, b0);
    if n % 2 == 1 {
      Memcpy(aux, output);
    }
  }

  /** The N passes shared by both split operators: pass 1 input -> aux, then alternate by the parity of i. */
  method Passes(input: array<uint8>, aux: array<uint8>, output: array<uint8>, img: Layout, windows: seq<Window>, ghost b0: Buffers)
    requires input != aux && input != output && aux != output
    requires input.Length == img.size && aux.Length == img.size && output.Length == img.size
    requires ValidLayout(img) && WindowsFit(img, windows, img.dimensions)
    requires b0 == Buffers(input[..], aux[..], output[..])
    modifies aux, output
    ensures Buffers(input[..], aux[..], output[..]) == SplitState(b0, ErodePass(img, windows), img.dimensions)
  {
    var n := img.dimensions;
    Pass(input, aux, output, img, windows, 1);
    for i := 2 to n + 1
      invariant Buffers(input[..], aux[..], output[..]) == SplitState(b0, ErodePass(img, windows), i - 1)
    {
      Pass(input, aux, output, img, windows, i);
    }
  }

  /**
    Pass i: `input -> aux` for i = 1, `output -> aux` for odd i >= 3, `aux -> output`
    for even i, eroding with the axis-i window.
  */
  method Pass(input: array<uint8>, aux: array<uint8>, output: array<uint8>, img: Layout, windows: seq<Window>, i: nat)
    requires input != aux && input != output && aux != output
    requires input.Length == img.size && aux.Length == img.size && output.Length == img.size
    requires 1 <= i && WindowsFit(img, windows, i)
    modifies aux, output
    ensures var before := Buffers(old(input[..]), old(aux[..]), old(output[..]));
      Buffers(input[..], aux[..], output[..]) ==
        before.Put(PassDest(i), ErodePass(img, windows)(before.Get(PassSource(i)), i))
  {
    assert PassFits(img, windows, i);
    if i == 1 {
      ErodeAll(input, aux, img, windows[i]);
    } else if i % 2 == 1 {
      ErodeAll(output, aux, img, windows[i]);
    } else {
      ErodeAll(aux, output, img, windows[i]);
    }
  }
}
