/** The 128x64 monochrome pixel grid as a value, and the point sets the
    drawing primitives paint. A grid is stored row-major, as Go stores
    `[64][128]bool`: pixel (x, y) lives at index y*128 + x. */
module Raster {
  import opened Util

  const Width: int := 128
  const Height: int := 64
  const PixelCount: int := 8192

  type Point = (int, int)
  type Grid = seq<bool>

  predicate IsGrid(g: Grid) { |g| == PixelCount }

  predicate InBounds(x: int, y: int) { 0 <= x < Width && 0 <= y < Height }

  /** Where pixel (x, y) is stored. */
  function Idx(x: int, y: int): (i: nat)
    requires InBounds(x, y)
    ensures i < PixelCount && i % Width == x && i / Width == y
  {
    y * Width + x
  }

  /** The pixel stored at index i. */
  function PointOf(i: int): (p: Point)
    requires 0 <= i < PixelCount
    ensures InBounds(p.0, p.1) && Idx(p.0, p.1) == i
  {
    (i % Width, i / Width)
  }

  /** A read of the grid: false outside the display, as `GetPixel` answers. */
  function Pixel(g: Grid, x: int, y: int): bool
    requires IsGrid(g)
  {
    if InBounds(x, y) then g[Idx(x, y)] else false
  }

  /** Two grids with the same pixels are the same grid. */
  lemma GridExt(g: Grid, h: Grid)
    requires IsGrid(g) && IsGrid(h)
    requires forall x, y :: Pixel(g, x, y) == Pixel(h, x, y)
    ensures g == h
  {
    forall i | 0 <= i < PixelCount
      ensures g[i] == h[i]
    {
      var p := PointOf(i);
      assert Pixel(g, p.0, p.1) == Pixel(h, p.0, p.1);
    }
  }

  function Blank(): (r: Grid)
    ensures IsGrid(r)
    ensures forall x, y :: !Pixel(r, x, y)
  {
    seq(PixelCount, _ => false)
  }

  function Solid(): (r: Grid)
    ensures IsGrid(r)
    ensures forall x, y :: Pixel(r, x, y) == InBounds(x, y)
  {
    seq(PixelCount, _ => true)
  }

  function Inverted(g: Grid): (r: Grid)
    requires IsGrid(g)
    ensures IsGrid(r)
    ensures forall x, y :: Pixel(r, x, y) == (InBounds(x, y) && !Pixel(g, x, y))
  {
    seq(PixelCount, i requires 0 <= i < PixelCount => !g[i])
  }

  lemma InvertedTwice(g: Grid)
    requires IsGrid(g)
    ensures Inverted(Inverted(g)) == g
  {
    GridExt(Inverted(Inverted(g)), g);
  }

  /** `SetPixel` on a grid value: writes outside the display are dropped. */
  function WithPixel(g: Grid, x: int, y: int, on: bool): (r: Grid)
    requires IsGrid(g)
    ensures IsGrid(r)
    ensures forall a, b :: Pixel(r, a, b) ==
                          (if (a, b) == (x, y) && InBounds(x, y) then on else Pixel(g, a, b))
  {
    if InBounds(x, y) then g[Idx(x, y) := on] else g
  }

  /** `Invert` on a grid value: toggles one pixel, nothing outside the display. */
  function Toggled(g: Grid, x: int, y: int): (r: Grid)
    requires IsGrid(g)
    ensures IsGrid(r)
    ensures forall a, b :: Pixel(r, a, b) ==
                          (if (a, b) == (x, y) && InBounds(x, y) then !Pixel(g, a, b) else Pixel(g, a, b))
  {
    if InBounds(x, y) then g[Idx(x, y) := !g[Idx(x, y)]] else g
  }

  lemma ToggledTwice(g: Grid, x: int, y: int)
    requires IsGrid(g)
    ensures Toggled(Toggled(g, x, y), x, y) == g
  {
    GridExt(Toggled(Toggled(g, x, y), x, y), g);
  }

  /** The grid `g` with every pixel of `pts` that lies on the display set to `on`. */
  ghost function Paint(g: Grid, pts: iset<Point>, on: bool): (r: Grid)
    requires IsGrid(g)
    ensures IsGrid(r)
    ensures forall x, y :: Pixel(r, x, y) ==
                          (if InBounds(x, y) && (x, y) in pts then on else Pixel(g, x, y))
  {
    seq(PixelCount, i requires 0 <= i < PixelCount => if PointOf(i) in pts then on else g[i])
  }

  lemma PaintNothing(g: Grid, on: bool)
    requires IsGrid(g)
    ensures Paint(g, iset{}, on) == g
  {
    GridExt(Paint(g, iset{}, on), g);
  }

  /** Painting two sets one after the other in the same colour paints their union. */
  lemma PaintUnion(g: Grid, p: iset<Point>, q: iset<Point>, on: bool)
    requires IsGrid(g)
    ensures Paint(Paint(g, p, on), q, on) == Paint(g, p + q, on)
  {
    GridExt(Paint(Paint(g, p, on), q, on), Paint(g, p + q, on));
  }

  /** Painting one more pixel after a paint extends the painted set by it. */
  lemma PaintOneMore(g: Grid, p: iset<Point>, x: int, y: int, on: bool)
    requires IsGrid(g)
    ensures WithPixel(Paint(g, p, on), x, y, on) == Paint(g, p + iset{(x, y)}, on)
  {
    GridExt(WithPixel(Paint(g, p, on), x, y, on), Paint(g, p + iset{(x, y)}, on));
  }

  /** A paint of the whole display in one colour does not depend on the old grid. */
  lemma PaintEverything(g: Grid, pts: iset<Point>, on: bool)
    requires IsGrid(g)
    requires forall x, y :: InBounds(x, y) ==> (x, y) in pts
    ensures Paint(g, pts, on) == if on then Solid() else Blank()
  {
    GridExt(Paint(g, pts, on), if on then Solid() else Blank());
  }

  /** The pixels of the points listed in `s`. */
  ghost function PointsOf(s: seq<Point>): (r: iset<Point>)
    ensures forall p :: p in r <==> p in s
  {
    iset p | p in s
  }

  /** The cells `DrawHLine(x1, x2, y)` visits: row y from the smaller to the larger end. */
  ghost function HSpan(x1: int, x2: int, y: int): iset<Point>
  {
    iset p: Point | p.1 == y && Min(x1, x2) <= p.0 <= Max(x1, x2)
  }

  /** The cells `DrawVLine(x, y1, y2)` visits. */
  ghost function VSpan(x: int, y1: int, y2: int): iset<Point>
  {
    iset p: Point | p.0 == x && Min(y1, y2) <= p.1 <= Max(y1, y2)
  }

  /** The cells `FillRect(x, y, w, h)` visits: rows y .. y+h-1, each the span
      from x to x+w-1 (which has its ends swapped when w is not positive). */
  ghost function FilledBox(x: int, y: int, w: int, h: int): iset<Point>
  {
    iset p: Point | y <= p.1 < y + h && Min(x, x + w - 1) <= p.0 <= Max(x, x + w - 1)
  }

  /** The cells `DrawRect(x, y, w, h)` visits: its four edges. */
  ghost function Outline(x: int, y: int, w: int, h: int): iset<Point>
  {
    HSpan(x, x + w - 1, y) + HSpan(x, x + w - 1, y + h - 1)
      + VSpan(x, y, y + h - 1) + VSpan(x + w - 1, y, y + h - 1)
  }

  /** For a positive width the filled box is exactly the half-open rectangle. */
  lemma FilledBoxExact(x: int, y: int, w: int, h: int, a: int, b: int)
    requires w >= 1
    ensures (a, b) in FilledBox(x, y, w, h) <==> x <= a < x + w && y <= b < y + h
  {
  }

  /** A rectangle outline of size at least 1x1 holds its four corners; every
      cell strictly inside is left out. */
  lemma OutlineShape(x: int, y: int, w: int, h: int, a: int, b: int)
    requires w >= 1 && h >= 1
    ensures (x, y) in Outline(x, y, w, h) && (x + w - 1, y) in Outline(x, y, w, h)
    ensures (x, y + h - 1) in Outline(x, y, w, h) && (x + w - 1, y + h - 1) in Outline(x, y, w, h)
    ensures x < a < x + w - 1 && y < b < y + h - 1 ==> (a, b) !in Outline(x, y, w, h)
    ensures (a, b) in Outline(x, y, w, h) ==> x <= a < x + w && y <= b < y + h
  {
  }

  /** The cells of an 8-pixel-tall column bitmap placed at (x, y): bit k of
      column c marks (x + c, y + k). Glyphs and icons are drawn this way. */
  ghost function BitmapPoints(cols: seq<bv8>, x: int, y: int): iset<Point>
  {
    iset p: Point | x <= p.0 < x + |cols| && y <= p.1 < y + 8
      && BitOf(cols[p.0 - x], p.1 - y)
  }

  /** The byte `1 << k`. */
  function Mask(k: int): bv8
    requires 0 <= k < 8
  {
    match k
    case 0 => 0x01 case 1 => 0x02 case 2 => 0x04 case 3 => 0x08
    case 4 => 0x10 case 5 => 0x20 case 6 => 0x40 case _ => 0x80
  }

  /** The table is the shift. */
  lemma MaskIsShift(k: int)
    requires 0 <= k < 8
    ensures Mask(k) == 1 << k
  {
  }

  /** Bit k of a byte, bit 0 being the least significant. */
  function BitOf(b: bv8, k: int): bool
    requires 0 <= k < 8
  {
    b & Mask(k) != 0
  }
}
