/** The base marker: a square bitmap with a black frame, a white padding ring and
    an interior whose pixels are drawn, column by column, from a seeded
    pseudo-random bit stream.  Also the choice of size, frame and padding per
    marker kind. */
module Synthesis {
  import opened Wrappers
  import opened Pixels
  import Rounding

  /** The outcomes of successive `Next(2)` calls on one seeded generator:
      `bits(k)` is true when the call numbered `k` (from 0) returned 1. */
  type BitStream = nat -> bool

  /** A deterministic pseudo-random generator: `new Random(seed)` seen as the
      bit stream it produces. */
  type Generator = Int32 -> BitStream

  /** The pixel lies in the frame drawn by the four black rectangles
      (top, right, bottom, left) of thickness `border`. */
  predicate InFrame(size: nat, border: nat, x: int, y: int) {
    y < border || x >= size - border || y >= size - border || x < border
  }

  /** The pixel lies in the pattern area, inside frame and padding. */
  predicate InInterior(size: nat, border: nat, padding: nat, x: int, y: int) {
    var bp := border + padding;
    bp <= x < size - bp && bp <= y < size - bp
  }

  /** Side of the pattern area (0 when frame and padding fill the bitmap). */
  function InteriorWidth(size: nat, border: nat, padding: nat): (w: nat)
    ensures w == 0 <==> size <= 2 * (border + padding)
  {
    if size > 2 * (border + padding) then size - 2 * (border + padding) else 0
  }

  /** Number of the generator call that decides interior pixel (x, y):
      the pattern is filled with x outer and y inner. */
  function BitIndex(size: nat, border: nat, padding: nat, x: int, y: int): (k: nat)
    requires InInterior(size, border, padding, x, y)
    ensures k < InteriorWidth(size, border, padding) * InteriorWidth(size, border, padding)
  {
    var bp := border + padding;
    var w := InteriorWidth(size, border, padding);
    IndexBound(x - bp, y - bp, w);
    (x - bp) * w + (y - bp)
  }

  lemma IndexBound(i: nat, j: nat, w: nat)
    requires i < w && j < w
    ensures i * w + j < w * w
  {
    assert i * w + j < (i + 1) * w;
    Rounding.MulMono(i + 1, w, w);
  }

  /** A drawn bit's colour: 1 is black, 0 is white. */
  function BitColour(b: bool): (c: Rgb)
    ensures c == Black <==> b
    ensures c == White <==> !b
  {
    if b then Black else White
  }

  /** The bitmap after the frame is painted: white with a black frame. */
  function FrameColour(size: nat, border: nat, x: int, y: int): Rgb {
    if InFrame(size, border, x, y) then Black else White
  }

  /** The frame as the program paints it: clear to white, then fill the top,
      right, bottom and left rectangles with black. */
  function DrawBorder(size: nat, border: nat): (g: Grid)
    requires border > 0
    ensures IsSquare(g, size)
    ensures forall x, y :: 0 <= x < size && 0 <= y < size ==> g[x][y] == FrameColour(size, border, x, y)
  {
    var clear := Clear(size, White);
    var top := FillRectangle(clear, size, 0, 0, size, border, Black);
    var right := FillRectangle(top, size, size - border, 0, border, size, Black);
    var bottom := FillRectangle(right, size, 0, size - border, size, border, Black);
    FillRectangle(bottom, size, 0, 0, border, size, Black)
  }

  /** The finished base marker, pixel by pixel: the pattern area takes its bit,
      everything else keeps the colour left by the frame painting. */
  function MarkerPixel(size: nat, border: nat, padding: nat, bits: BitStream, x: int, y: int): Rgb {
    if InInterior(size, border, padding, x, y) then BitColour(bits(BitIndex(size, border, padding, x, y)))
    else FrameColour(size, border, x, y)
  }

  function MarkerImage(size: nat, border: nat, padding: nat, bits: BitStream): (g: Grid)
    ensures IsSquare(g, size)
    ensures forall x, y :: 0 <= x < size && 0 <= y < size ==> g[x][y] == MarkerPixel(size, border, padding, bits, x, y)
  {
    seq(size, x => seq(size, y => MarkerPixel(size, border, padding, bits, x, y)))
  }

  /** The pattern area never reaches the frame, so the pattern cannot paint over it. */
  lemma InteriorMissesFrame(size: nat, border: nat, padding: nat, x: int, y: int)
    requires InInterior(size, border, padding, x, y)
    ensures !InFrame(size, border, x, y)
  {
  }

  /** `GenerateMarkerImage(seed, baseMarkerSize, borderSize, borderPadding)`:
      paint the frame, then fill the pattern area from `new Random(seed)`,
      x outer and y inner, one `Next(2)` per pixel. */
  method GenerateMarkerImage(seed: Int32, size: nat, border: nat, padding: nat, gen: Generator)
    returns (marker: Grid)
    requires size > 0 && border > 0
    ensures IsSquare(marker, size)
    ensures forall x, y :: 0 <= x < size && 0 <= y < size && InFrame(size, border, x, y) ==> marker[x][y] == Black
    ensures forall x, y :: 0 <= x < size && 0 <= y < size ==>
      (!InFrame(size, border, x, y) && !InInterior(size, border, padding, x, y) ==> marker[x][y] == White)
    ensures forall x, y :: InInterior(size, border, padding, x, y) ==>
      0 <= x < size && 0 <= y < size && (marker[x][y] == Black <==> gen(seed)(BitIndex(size, border, padding, x, y)))
    ensures marker == MarkerImage(size, border, padding, gen(seed))
  {
    var bp := border + padding;
    var hi := size - bp;
    var w := InteriorWidth(size, border, padding);
    var bits := gen(seed);

    marker := DrawBorder(size, border);
    var k: nat := 0;
    var x := bp;
    while x < hi
      invariant bp <= x && (x <= hi || x == bp)
      invariant k == (x - bp) * w
      invariant IsSquare(marker, size)
      invariant forall i, j :: 0 <= i < size && 0 <= j < size ==>
        marker[i][j] == if i < x then MarkerPixel(size, border, padding, bits, i, j) else FrameColour(size, border, i, j)
    {
      var y := bp;
      while y < hi
        invariant bp <= y <= hi
        invariant k == (x - bp) * w + (y - bp)
        invariant IsSquare(marker, size)
        invariant forall i, j :: 0 <= i < size && 0 <= j < size ==>
          marker[i][j] == if i < x || (i == x && j < y) then MarkerPixel(size, border, padding, bits, i, j)
                          else FrameColour(size, border, i, j)
      {
        marker := marker[x := marker[x][y := BitColour(bits(k))]];
        k := k + 1;
        y := y + 1;
      }
      assert (x + 1 - bp) * w == (x - bp) * w + w;
      x := x + 1;
    }
    forall x, y | InInterior(size, border, padding, x, y)
      ensures 0 <= x < size && 0 <= y < size && (marker[x][y] == Black <==> bits(BitIndex(size, border, padding, x, y)))
    {
      InteriorMissesFrame(size, border, padding, x, y);
    }
    GridExtensionality(marker, MarkerImage(size, border, padding, bits), size);
  }

  /** The first `n` bits of a stream. */
  function Prefix(bits: BitStream, n: nat): (p: seq<bool>)
    ensures |p| == n
  {
    seq(n, k requires 0 <= k < n => bits(k))
  }

  /** The pattern area read back, column by column, as the bits it shows
      (black is 1). */
  function ReadPattern(g: Grid, size: nat, border: nat, padding: nat): (bits: seq<bool>)
    requires IsSquare(g, size)
    ensures |bits| == InteriorWidth(size, border, padding) * InteriorWidth(size, border, padding)
  {
    var bp := border + padding;
    var w := InteriorWidth(size, border, padding);
    seq(w * w, k requires 0 <= k < w * w =>
      DivModBound(k, w);
      g[bp + k / w][bp + k % w] == Black)
  }

  lemma DivModBound(k: nat, w: nat)
    requires k < w * w
    ensures w > 0 && k / w < w && k % w < w && (k / w) * w + k % w == k
  {
  }

  /** Pixel (i, j) of the pattern area is drawn from bit `i * w + j`. */
  lemma BitIndexAt(size: nat, border: nat, padding: nat, i: nat, j: nat)
    requires i < InteriorWidth(size, border, padding) && j < InteriorWidth(size, border, padding)
    ensures InInterior(size, border, padding, border + padding + i, border + padding + j)
    ensures BitIndex(size, border, padding, border + padding + i, border + padding + j)
            == i * InteriorWidth(size, border, padding) + j
  {
  }

  /** The pattern area of a marker spells out exactly the first `w * w` bits
      of its stream, in drawing order: the marker encodes its generator prefix. */
  lemma {:induction false} PatternEncodesStream(size: nat, border: nat, padding: nat, bits: BitStream)
    ensures var w := InteriorWidth(size, border, padding);
      ReadPattern(MarkerImage(size, border, padding, bits), size, border, padding) == Prefix(bits, w * w)
  {
    var bp := border + padding;
    var w := InteriorWidth(size, border, padding);
    var g := MarkerImage(size, border, padding, bits);
    var p := ReadPattern(g, size, border, padding);
    forall k | 0 <= k < w * w
      ensures p[k] == bits(k)
    {
      PatternBitAt(size, border, padding, bits, k);
    }
    assert forall k :: 0 <= k < w * w ==> Prefix(bits, w * w)[k] == bits(k);
  }

  /** Entry `k` of the read-back pattern is bit `k` of the stream. */
  lemma PatternBitAt(size: nat, border: nat, padding: nat, bits: BitStream, k: nat)
    requires k < InteriorWidth(size, border, padding) * InteriorWidth(size, border, padding)
    ensures ReadPattern(MarkerImage(size, border, padding, bits), size, border, padding)[k] == bits(k)
  {
    PixelShowsBit(size, border, padding, bits, k);
  }

  /** The pattern pixel that shows bit `k` (column `k / w`, row `k % w` of the
      pattern area) is black exactly when that bit is set. */
  lemma PixelShowsBit(size: nat, border: nat, padding: nat, bits: BitStream, k: nat)
    requires k < InteriorWidth(size, border, padding) * InteriorWidth(size, border, padding)
    ensures var w, bp := InteriorWidth(size, border, padding), border + padding;
      && w > 0 && bp + k / w < size && bp + k % w < size
      && (MarkerImage(size, border, padding, bits)[bp + k / w][bp + k % w] == Black <==> bits(k))
  {
    var w := InteriorWidth(size, border, padding);
    DivModBound(k, w);
    BitIndexAt(size, border, padding, k / w, k % w);
  }

  /** Only the first `w * w` bits of the stream matter: streams that agree on
      them give the same marker. */
  lemma {:induction false} PrefixDeterminesMarker(size: nat, border: nat, padding: nat, a: BitStream, b: BitStream)
    requires forall k :: 0 <= k < InteriorWidth(size, border, padding) * InteriorWidth(size, border, padding) ==> a(k) == b(k)
    ensures MarkerImage(size, border, padding, a) == MarkerImage(size, border, padding, b)
  {
    var ga := MarkerImage(size, border, padding, a);
    var gb := MarkerImage(size, border, padding, b);
    forall x, y | 0 <= x < size && 0 <= y < size
      ensures ga[x][y] == gb[x][y]
    {
      if InInterior(size, border, padding, x, y) {
        var k := BitIndex(size, border, padding, x, y);
        assert a(k) == b(k);
      }
    }
    GridExtensionality(ga, gb, size);
  }

  /** A marker kind: the program's `MarkerType` enumeration, which may hold any
      `int`; only 1 and 2 are named. */
  newtype MarkerType = Int32
  const Vuforia: MarkerType := 1
  const ARToolkit: MarkerType := 2

  /** Base size, frame thickness and padding of a marker family. */
  datatype Profile = Profile(baseSize: nat, border: nat, padding: nat)

  /** The `switch` on the marker kind: ARToolkit markers are 32 pixels with an
      8-pixel frame and 1 pixel of padding; Vuforia and every unnamed value fall
      to the default of 64 pixels, a 4-pixel frame and 3 pixels of padding. */
  function ProfileFor(t: MarkerType): (p: Profile)
    ensures t == ARToolkit ==> p == Profile(32, 8, 1)
    ensures t != ARToolkit ==> p == Profile(64, 4, 3)
  {
    match t
    case ARToolkit => Profile(32, 8, 1)
    case _ => Profile(64, 4, 3)
  }

  /** Both families have a frame and a non-empty pattern area:
      14 x 14 pixels for ARToolkit and 50 x 50 for Vuforia. */
  lemma ProfilesDrawable(t: MarkerType)
    ensures var p := ProfileFor(t);
      && p.border > 0
      && InteriorWidth(p.baseSize, p.border, p.padding) == if t == ARToolkit then 14 else 50
  {
  }

  /** `GenerateMarkerImage(type, seed)`: the base marker of the kind's profile. */
  method GenerateMarkerImageForType(t: MarkerType, seed: Int32, gen: Generator) returns (marker: Grid)
    ensures IsSquare(marker, ProfileFor(t).baseSize)
    ensures var p := ProfileFor(t);
      marker == MarkerImage(p.baseSize, p.border, p.padding, gen(seed))
  {
    var p := ProfileFor(t);
    marker := GenerateMarkerImage(seed, p.baseSize, p.border, p.padding, gen);
  }

  /** The Vuforia layout: a 64-pixel marker whose rows and columns 0 to 3 and
      60 to 63 are black, whose pixel (32, 32) shows bit 1275 of the stream
      ((32 - 7) * 50 + (32 - 7)), and whose pixel (5, 5) lies in the white padding. */
  lemma VuforiaLayout(bits: BitStream)
    ensures var g := MarkerImage(64, 4, 3, bits);
      && (forall x, y :: 0 <= x < 64 && 0 <= y < 64 && (x < 4 || y < 4 || x >= 60 || y >= 60) ==> g[x][y] == Black)
      && (g[32][32] == Black <==> bits(1275))
      && g[5][5] == White
  {
    var g := MarkerImage(64, 4, 3, bits);
    assert BitIndex(64, 4, 3, 32, 32) == 1275;
  }
}
