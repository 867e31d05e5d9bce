/** Pixel grids: the 24-bit RGB bitmaps the generator draws into.  A grid is a
    sequence of columns, so `g[x][y]` is the pixel in column `x`, row `y`,
    the same (x, y) order the program uses for `SetPixel` and for its loops. */
module Pixels {

  newtype byte = x: int | 0 <= x < 256

  /** One pixel of a 24-bit-per-pixel bitmap: three 8-bit colour channels. */
  datatype Rgb = Rgb(r: byte, g: byte, b: byte)

  const Black := Rgb(0, 0, 0)
  const White := Rgb(255, 255, 255)

  type Grid = seq<seq<Rgb>>

  /** `g` is an `n` x `n` bitmap. */
  predicate IsSquare(g: Grid, n: nat) {
    |g| == n && forall x :: 0 <= x < n ==> |g[x]| == n
  }

  /** Every pixel of the `n` x `n` grid `g` is black or white. */
  predicate IsBlackAndWhite(g: Grid, n: nat)
    requires IsSquare(g, n)
  {
    forall x, y :: 0 <= x < n && 0 <= y < n ==> g[x][y] == Black || g[x][y] == White
  }

  /** Two square grids of the same side with the same pixels are the same grid. */
  lemma GridExtensionality(a: Grid, b: Grid, n: nat)
    requires IsSquare(a, n) && IsSquare(b, n)
    requires forall x, y :: 0 <= x < n && 0 <= y < n ==> a[x][y] == b[x][y]
    ensures a == b
  {
    forall x | 0 <= x < n
      ensures a[x] == b[x]
    {
      assert forall y :: 0 <= y < n ==> a[x][y] == b[x][y];
    }
  }

  /** `Graphics.Clear(c)`: an `n` x `n` grid painted entirely in `c`. */
  function Clear(n: nat, c: Rgb): (g: Grid)
    ensures IsSquare(g, n)
    ensures forall x, y :: 0 <= x < n && 0 <= y < n ==> g[x][y] == c
  {
    seq(n, x => seq(n, y => c))
  }

  /** The pixel (x, y) lies in the rectangle with corner (left, top) and the given extent. */
  predicate InRect(x: int, y: int, left: int, top: int, width: int, height: int) {
    left <= x < left + width && top <= y < top + height
  }

  /** `Graphics.FillRectangle` with smoothing off: every pixel of the rectangle
      that lies on the bitmap becomes `c`; the part outside the bitmap is clipped. */
  function FillRectangle(g: Grid, n: nat, left: int, top: int, width: int, height: int, c: Rgb): (r: Grid)
    requires IsSquare(g, n)
    ensures IsSquare(r, n)
    ensures forall x, y :: 0 <= x < n && 0 <= y < n && InRect(x, y, left, top, width, height) ==> r[x][y] == c
    ensures forall x, y :: 0 <= x < n && 0 <= y < n && !InRect(x, y, left, top, width, height) ==> r[x][y] == g[x][y]
  {
    seq(n, x requires 0 <= x < n =>
      seq(n, y requires 0 <= y < n =>
        if InRect(x, y, left, top, width, height) then c else g[x][y]))
  }
}
