/** Nearest-neighbour resizing of a square bitmap.  Destination column (row) `d`
    samples source column (row) `round(d * (srcSize - 1) / (newSize - 1))`, so the
    first and last columns line up, and each pixel's three channels are copied
    unchanged: no colour is ever blended. */
module Resizing {
  import opened Pixels
  import opened Rounding

  /** The source coordinate sampled for destination coordinate `d`: the nearest
      point of the source grid to `d` scaled by `(srcSize - 1) / (newSize - 1)`. */
  function SourceIndex(d: nat, srcSize: nat, newSize: nat): (s: nat)
    requires srcSize >= 1 && newSize >= 2 && d < newSize
    ensures s < srcSize
    ensures -(newSize - 1) <= 2 * (s * (newSize - 1) - d * (srcSize - 1)) <= newSize - 1
  {
    SampleInRange(d, srcSize, newSize);
    RoundHalfEven(d * (srcSize - 1), newSize - 1)
  }

  /** Rounding `d * (srcSize - 1) / (newSize - 1)` for `d <= newSize - 1` cannot
      pass `srcSize - 1`. */
  lemma SampleInRange(d: nat, srcSize: nat, newSize: nat)
    requires srcSize >= 1 && newSize >= 2 && d < newSize
    ensures RoundHalfEven(d * (srcSize - 1), newSize - 1) < srcSize
  {
    var S, D := srcSize - 1, newSize - 1;
    var s := RoundHalfEven(d * S, D);
    if s >= srcSize {
      MulMono(S + 1, s, D);
      MulMono(d, D, S);
      assert false;
    }
  }

  /** `GenerateResizedMarker`: a `newSize` x `newSize` bitmap whose pixel (x, y)
      is the source pixel at the sampled coordinates. */
  function Resize(src: Grid, newSize: nat): (dst: Grid)
    requires |src| >= 1 && IsSquare(src, |src|) && newSize >= 2
    ensures IsSquare(dst, newSize)
    ensures forall x, y :: 0 <= x < newSize && 0 <= y < newSize ==>
      dst[x][y] == src[SourceIndex(x, |src|, newSize)][SourceIndex(y, |src|, newSize)]
  {
    var n := |src|;
    seq(newSize, x requires 0 <= x < newSize =>
      seq(newSize, y requires 0 <= y < newSize =>
        src[SourceIndex(x, n, newSize)][SourceIndex(y, n, newSize)]))
  }

  /** The first destination coordinate samples the first source coordinate and
      the last samples the last: the image is stretched corner to corner. */
  lemma SourceIndexEndpoints(srcSize: nat, newSize: nat)
    requires srcSize >= 1 && newSize >= 2
    ensures SourceIndex(0, srcSize, newSize) == 0
    ensures SourceIndex(newSize - 1, srcSize, newSize) == srcSize - 1
  {
    RoundExact(0, newSize - 1);
    assert (newSize - 1) * (srcSize - 1) == (srcSize - 1) * (newSize - 1);
    RoundExact(srcSize - 1, newSize - 1);
  }

  /** Resizing to the same size has scale 1 and returns the bitmap unchanged. */
  lemma {:induction false} ResizeIdentity(src: Grid)
    requires |src| >= 2 && IsSquare(src, |src|)
    ensures Resize(src, |src|) == src
  {
    var n := |src|;
    var dst := Resize(src, n);
    forall d | 0 <= d < n
      ensures SourceIndex(d, n, n) == d
    {
      RoundExact(d, n - 1);
    }
    GridExtensionality(dst, src, n);
  }

  /** Enlarging and then shrinking back recovers the original exactly: every
      source pixel survives an enlargement. */
  lemma {:induction false} ResizeUpThenDown(src: Grid, newSize: nat)
    requires |src| >= 2 && IsSquare(src, |src|) && newSize >= |src|
    ensures Resize(Resize(src, newSize), |src|) == src
  {
    var n := |src|;
    var up := Resize(src, newSize);
    var back := Resize(up, n);
    forall d | 0 <= d < n
      ensures SourceIndex(SourceIndex(d, newSize, n), n, newSize) == d
    {
      UpThenDownIndex(d, n, newSize);
    }
    GridExtensionality(back, src, n);
  }

  /** Coordinate form of `ResizeUpThenDown`: shrinking coordinate `d` by
      `D / S` and enlarging the result by `S / D` lands on `d` again, because the
      first rounding error, at most a half, shrinks by the factor `S / D <= 1`. */
  lemma UpThenDownIndex(d: nat, n: nat, newSize: nat)
    requires n >= 2 && newSize >= n && d < n
    ensures SourceIndex(SourceIndex(d, newSize, n), n, newSize) == d
  {
    var m := SourceIndex(d, newSize, n);
    if n == newSize {
      RoundExact(d, n - 1);
    } else {
      FinerThenCoarser(d, m, n, newSize);
    }
  }

  /** The finer-grid case of `UpThenDownIndex`, on the rounding itself. */
  lemma FinerThenCoarser(d: nat, m: nat, n: nat, newSize: nat)
    requires 2 <= n < newSize
    requires -(n - 1) <= 2 * (m * (n - 1) - d * (newSize - 1)) <= n - 1
    ensures RoundHalfEven(m * (n - 1), newSize - 1) == d
  {
    CloserOnFinerGrid(m * (n - 1) - d * (newSize - 1), n - 1, newSize - 1);
    RoundUnique(m * (n - 1), newSize - 1, d);
  }

  /** An error of at most half a coarse step is less than half a finer one. */
  lemma CloserOnFinerGrid(e: int, S: int, D: int)
    requires 0 < S < D && -S <= 2 * e <= S
    ensures -D < 2 * -e < D
  {
  }

  /** A resized black-and-white bitmap is still black and white: sampling
      introduces no intermediate grey. */
  lemma ResizeKeepsBlackAndWhite(src: Grid, newSize: nat)
    requires |src| >= 1 && IsSquare(src, |src|) && newSize >= 2
    requires IsBlackAndWhite(src, |src|)
    ensures IsBlackAndWhite(Resize(src, newSize), newSize)
  {
  }
}
