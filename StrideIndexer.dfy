/**
  Flat index <-> per-axis coordinates.

  The overlay splits an index by walking the axes from the outermost (`top`) down to
  axis 1: `idim = ires / offset[d]; ires = ires - idim * offset[d]`.  `ResidueAt`
  is the value of `ires` when that walk reaches axis `d`, `DigitAt` the coordinate it
  produces there, and `Remainder` what is left after axis 1 (the channel part).
  All operands are non-negative, so C's truncating division and Dafny's agree.
*/
module StrideIndexer {
  import opened Layout

  /** `ires` on reaching axis `d` (axes top..d+1 already split off). */
  function ResidueAt(x: int, offset: seq<int>, top: nat, d: nat): int
    requires d <= top < |offset| && PositiveStrides(offset, top)
    decreases top - d
  {
    if d == top then x
    else
      var r := ResidueAt(x, offset, top, d + 1);
      r - (r / offset[d + 1]) * offset[d + 1]
  }

  /** `idim` computed on axis `d`. */
  function DigitAt(x: int, offset: seq<int>, top: nat, d: nat): int
    requires 1 <= d <= top < |offset| && PositiveStrides(offset, top)
  {
    ResidueAt(x, offset, top, d) / offset[d]
  }

  /** What is left of `x` once every axis is split off. */
  function Remainder(x: int, offset: seq<int>, top: nat): int
    requires top < |offset| && PositiveStrides(offset, top)
  {
    ResidueAt(x, offset, top, 0)
  }

  /** The coordinate table the split fills: entry d for axes 1..top, entry 0 unused. */
  function Coords(x: int, offset: seq<int>, top: nat): (c: seq<int>)
    requires top < |offset| && PositiveStrides(offset, top)
    ensures |c| == top + 1
  {
    seq(top + 1, d requires 0 <= d <= top => if d == 0 then 0 else DigitAt(x, offset, top, d))
  }

  /** Recombination: the sum of `coord[e] * offset[e]` over axes 1..d. */
  function Linear(c: seq<int>, offset: seq<int>, d: nat): int
    requires d < |c| && d < |offset|
  {
    if d == 0 then 0 else Linear(c, offset, d - 1) + offset[d] * c[d]
  }

  /** Every coordinate of axes 1..top lies within its extent. */
  predicate InRange(c: seq<int>, shape: seq<int>, top: nat)
    requires top < |c| && top < |shape|
  {
    forall d :: 1 <= d <= top ==> 0 <= c[d] < shape[d]
  }

  // ---------------------------------------------------------------------------
  // Arithmetic helpers

  lemma MulLeMono(a: int, b: int, o: int)
    requires a <= b && o >= 0
    ensures a * o <= b * o
  {
    assert b * o - a * o == (b - a) * o;
  }

  /** One division step keeps the residue inside the divisor. */
  lemma DivStep(r: int, o: int)
    requires r >= 0 && o > 0
    ensures r / o >= 0
    ensures 0 <= r - (r / o) * o < o
  {
  }

  /** Below `o * s` the quotient by `o` stays below `s`. */
  lemma DivBelow(r: int, o: int, s: int)
    requires 0 <= r < o * s && o > 0
    ensures 0 <= r / o < s
  {
    DivStep(r, o);
    if r / o >= s {
      MulLeMono(s, r / o, o);
    }
  }

  /** Division undoes `o * q + a` for `0 <= a < o`. */
  lemma DivUnique(a: int, q: int, o: int)
    requires 0 <= a < o
    ensures (o * q + a) / o == q
    ensures (o * q + a) - ((o * q + a) / o) * o == a
  {
    var x := o * q + a;
    var k, m := x / o, x % o;
    assert x == k * o + m && 0 <= m < o;
    // k * o and q * o differ by a - m, which lies strictly between -o and o, so k == q
    assert (k - q) * o == a - m;
    if k - q >= 1 {
      MulLeMono(1, k - q, o);
    } else if k - q <= -1 {
      MulLeMono(k - q, -1, o);
    }
    assert k == q;
  }

  // ---------------------------------------------------------------------------
  // Decomposition is exact

  /** Residue on reaching axis d = what the axes below d recombine to, plus the remainder. */
  lemma {:induction false} ResidueSplits(x: int, offset: seq<int>, top: nat, d: nat)
    requires d <= top < |offset| && PositiveStrides(offset, top)
    ensures ResidueAt(x, offset, top, d) == Linear(Coords(x, offset, top), offset, d) + Remainder(x, offset, top)
    decreases d
  {
    if d > 0 {
      ResidueSplits(x, offset, top, d - 1);
      var c := Coords(x, offset, top);
      assert c[d] == DigitAt(x, offset, top, d);
    }
  }

  /**
    Round trip, index -> coordinates -> index: the coordinates recombine with the
    strides to `x` minus the remainder, which lies in `[0, offset[1])`.
  */
  lemma {:induction false} DecomposeReconstructs(x: int, offset: seq<int>, top: nat)
    requires 1 <= top < |offset| && PositiveStrides(offset, top) && x >= 0
    ensures Linear(Coords(x, offset, top), offset, top) + Remainder(x, offset, top) == x
    ensures 0 <= Remainder(x, offset, top) < offset[1]
  {
    ResidueSplits(x, offset, top, top);
    ResidueNonNegative(x, offset, top, 1);
    DivStep(ResidueAt(x, offset, top, 1), offset[1]);
  }

  lemma {:induction false} ResidueNonNegative(x: int, offset: seq<int>, top: nat, d: nat)
    requires d <= top < |offset| && PositiveStrides(offset, top) && x >= 0
    ensures ResidueAt(x, offset, top, d) >= 0
    decreases top - d
  {
    if d < top {
      ResidueNonNegative(x, offset, top, d + 1);
      DivStep(ResidueAt(x, offset, top, d + 1), offset[d + 1]);
    }
  }

  /** With nested strides, the residue on reaching axis d lies below `offset[d] * shape[d]`. */
  lemma {:induction false} ResidueBelow(x: int, shape: seq<int>, offset: seq<int>, top: nat, d: nat)
    requires 1 <= d <= top < |offset| && top < |shape| && NestedStrides(shape, offset, top)
    requires 0 <= x < offset[top] * shape[top]
    ensures 0 <= ResidueAt(x, offset, top, d) < offset[d] * shape[d]
    decreases top - d
  {
    ResidueNonNegative(x, offset, top, d);
    if d < top {
      DivStep(ResidueAt(x, offset, top, d + 1), offset[d + 1]);
    }
  }

  /** Every coordinate of an in-bounds index lies within its axis's extent. */
  lemma CoordsInRange(x: int, shape: seq<int>, offset: seq<int>, top: nat)
    requires 1 <= top < |offset| && top < |shape| && NestedStrides(shape, offset, top)
    requires 0 <= x < offset[top] * shape[top]
    ensures InRange(Coords(x, offset, top), shape, top)
  {
    var c := Coords(x, offset, top);
    forall d | 1 <= d <= top
      ensures 0 <= c[d] < shape[d]
    {
      ResidueBelow(x, shape, offset, top, d);
      DivBelow(ResidueAt(x, offset, top, d), offset[d], shape[d]);
    }
  }

  /** In-range coordinates recombine to at most the last index of the block of axes 1..d, less the channel part. */
  lemma {:induction false} LinearBound(c: seq<int>, shape: seq<int>, offset: seq<int>, d: nat)
    requires 1 <= d < |c| && d < |offset| && d < |shape|
    requires NestedStrides(shape, offset, d) && InRange(c, shape, d)
    ensures 0 <= Linear(c, offset, d) <= offset[d] * shape[d] - offset[1]
  {
    MulLeMono(c[d], shape[d] - 1, offset[d]);
    MulLeMono(0, c[d], offset[d]);
    if d > 1 {
      LinearBound(c, shape, offset, d - 1);
    }
  }

  /** Linear only reads axes 1..d. */
  lemma {:induction false} LinearAgrees(c1: seq<int>, c2: seq<int>, offset: seq<int>, d: nat)
    requires d < |c1| && d < |c2| && d < |offset|
    requires forall e :: 1 <= e <= d ==> c1[e] == c2[e]
    ensures Linear(c1, offset, d) == Linear(c2, offset, d)
  {
    if d > 0 {
      LinearAgrees(c1, c2, offset, d - 1);
    }
  }

  lemma {:induction false} ResidueOfLinear(c: seq<int>, r: int, shape: seq<int>, offset: seq<int>, top: nat, d: nat)
    requires 1 <= top < |c| && top < |offset| && top < |shape|
    requires NestedStrides(shape, offset, top) && InRange(c, shape, top) && 0 <= r < offset[1]
    requires d <= top
    ensures ResidueAt(Linear(c, offset, top) + r, offset, top, d) == Linear(c, offset, d) + r
    decreases top - d
  {
    if d < top {
      ResidueOfLinear(c, r, shape, offset, top, d + 1);
      var low := Linear(c, offset, d) + r;
      if d >= 1 {
        LinearBound(c, shape, offset, d);
      }
      assert 0 <= low < offset[d + 1];
      assert Linear(c, offset, d + 1) + r == offset[d + 1] * c[d + 1] + low;
      DivUnique(low, c[d + 1], offset[d + 1]);
    }
  }

  /** The coordinate the split produces on axis d of a recombined index is the one recombined. */
  lemma DigitOfLinear(c: seq<int>, r: int, shape: seq<int>, offset: seq<int>, top: nat, d: nat)
    requires 1 <= top < |c| && top < |offset| && top < |shape|
    requires NestedStrides(shape, offset, top) && InRange(c, shape, top) && 0 <= r < offset[1]
    requires 1 <= d <= top
    ensures DigitAt(Linear(c, offset, top) + r, offset, top, d) == c[d]
  {
    var x := Linear(c, offset, top) + r;
    ResidueOfLinear(c, r, shape, offset, top, d);
    var low := Linear(c, offset, d - 1) + r;
    if d > 1 {
      LinearBound(c, shape, offset, d - 1);
    }
    assert ResidueAt(x, offset, top, d) == offset[d] * c[d] + low;
    DivUnique(low, c[d], offset[d]);
  }

  /**
    Round trip, coordinates -> index -> coordinates: splitting the recombination of
    in-range coordinates plus a channel part gives back both.
  */
  lemma LinearDecomposes(c: seq<int>, r: int, shape: seq<int>, offset: seq<int>, top: nat)
    requires 1 <= top < |c| && top < |offset| && top < |shape|
    requires NestedStrides(shape, offset, top) && InRange(c, shape, top) && 0 <= r < offset[1]
    ensures forall d :: 1 <= d <= top ==> Coords(Linear(c, offset, top) + r, offset, top)[d] == c[d]
    ensures Remainder(Linear(c, offset, top) + r, offset, top) == r
  {
    var x := Linear(c, offset, top) + r;
    var coords := Coords(x, offset, top);
    forall d | 1 <= d <= top
      ensures coords[d] == c[d]
    {
      DigitOfLinear(c, r, shape, offset, top, d);
      assert coords[d] == DigitAt(x, offset, top, d);
    }
    assert Remainder(x, offset, top) == r by {
      ResidueOfLinear(c, r, shape, offset, top, 0);
    }
  }

  /** Recombining in-range coordinates never leaves the image: the result is below `offset[top] * shape[top]`. */
  lemma LinearInBounds(c: seq<int>, shape: seq<int>, offset: seq<int>, top: nat)
    requires 1 <= top < |c| && top < |offset| && top < |shape|
    requires NestedStrides(shape, offset, top) && InRange(c, shape, top)
    ensures 0 <= Linear(c, offset, top) < offset[top] * shape[top]
  {
    LinearBound(c, shape, offset, top);
  }
}
