/** The frame buffer object: a 128x64 pixel array updated in place by the
    drawing primitives, and its conversion to and from the upload image. */
module FrameBuffers {
  import opened Util
  import opened Raster
  import opened WireFormat
  import opened Bresenham

  class FrameBuffer {
    /** Pixel (x, y) is `data[y*128 + x]`. */
    const data: array<bool>

    predicate Valid() { data.Length == PixelCount }

    /** The pixels as a grid value. */
    function Pixels(): (g: Grid)
      reads this, data
      requires Valid()
      ensures IsGrid(g)
    {
      data[..]
    }

    /** A new buffer has every pixel off. */
    constructor ()
      ensures Valid() && fresh(data)
      ensures Pixels() == Blank()
    {
      data := new bool[PixelCount](_ => false);
    }

    method Clear()
      requires Valid()
      modifies data
      ensures Pixels() == Blank()
    {
      for y := 0 to Height
        invariant forall i :: 0 <= i < y * Width ==> !data[i]
      {
        for x := 0 to Width
          invariant forall i :: 0 <= i < y * Width + x ==> !data[i]
        {
          data[Idx(x, y)] := false;
        }
      }
    }

    method Fill()
      requires Valid()
      modifies data
      ensures Pixels() == Solid()
    {
      for y := 0 to Height
        invariant forall i :: 0 <= i < y * Width ==> data[i]
      {
        for x := 0 to Width
          invariant forall i :: 0 <= i < y * Width + x ==> data[i]
        {
          data[Idx(x, y)] := true;
        }
      }
    }

    /** Writes outside the display are ignored. */
    method SetPixel(x: int, y: int, on: bool)
      requires Valid()
      modifies data
      ensures Pixels() == WithPixel(old(Pixels()), x, y, on)
    {
      if x < 0 || x >= Width || y < 0 || y >= Height {
        return;
      }
      data[Idx(x, y)] := on;
    }

    /** Reads outside the display answer false. */
    method GetPixel(x: int, y: int) returns (on: bool)
      requires Valid()
      ensures on <==> InBounds(x, y) && data[Idx(x, y)]
    {
      if x < 0 || x >= Width || y < 0 || y >= Height {
        return false;
      }
      return data[Idx(x, y)];
    }

    method Invert(x: int, y: int)
      requires Valid()
      modifies data
      ensures Pixels() == Toggled(old(Pixels()), x, y)
    {
      if x < 0 || x >= Width || y < 0 || y >= Height {
        return;
      }
      data[Idx(x, y)] := !data[Idx(x, y)];
    }

    method InvertAll()
      requires Valid()
      modifies data
      ensures Pixels() == Inverted(old(Pixels()))
    {
      for y := 0 to Height
        invariant forall i :: 0 <= i < y * Width ==> data[i] == !old(data[i])
        invariant forall i :: y * Width <= i < PixelCount ==> data[i] == old(data[i])
      {
        for x := 0 to Width
          invariant forall i :: 0 <= i < y * Width + x ==> data[i] == !old(data[i])
          invariant forall i :: y * Width + x <= i < PixelCount ==> data[i] == old(data[i])
        {
          data[Idx(x, y)] := !data[Idx(x, y)];
        }
      }
    }

    /** The byte for column x of band `band`, bit by bit. */
    method PackColumn(x: int, band: int) returns (b: bv8)
      requires Valid() && 0 <= x < Width && 0 <= band < 8
      ensures b == StripByte(Pixels(), x, band)
    {
      ghost var g := Pixels();
      b := 0;
      for bit := 0 to 8
        invariant b == PackBits(g, x, band, bit)
      {
        var y := band * 8 + bit;
        PackBitsNext(g, x, band, bit);
        assert data[Idx(x, y)] == Pixel(g, x, y);
        if data[Idx(x, y)] {
          b := b | Mask(bit);
        }
      }
    }

    /** The first half of `ToDeviceFormat`: the column-major layout
        (byte band*128 + x) of the pixels. */
    method PackAll() returns (raw: array<bv8>)
      requires Valid()
      ensures fresh(raw) && raw.Length == BufferSize
      ensures forall x, b :: 0 <= x < Width && 0 <= b < 8 ==> raw[RawIndex(x, b)] == StripByte(Pixels(), x, b)
    {
      ghost var g := Pixels();
      raw := new bv8[BufferSize];
      for x := 0 to Width
        modifies raw
        invariant forall x', b :: 0 <= x' < x && 0 <= b < 8 ==> raw[RawIndex(x', b)] == StripByte(g, x', b)
      {
        for band := 0 to 8
          modifies raw
          invariant forall x', b :: 0 <= x' < x && 0 <= b < 8 ==> raw[RawIndex(x', b)] == StripByte(g, x', b)
          invariant forall b :: 0 <= b < band ==> raw[RawIndex(x, b)] == StripByte(g, x, b)
        {
          var b := PackColumn(x, band);
          raw[RawIndex(x, band)] := b;
        }
      }
    }

    /** The upload image: first the column-major bytes (band*128 + x), then
        the left half of every band followed by the right half of every band. */
    method ToDeviceFormat() returns (r: Image)
      requires Valid()
      ensures r == Encode(Pixels())
    {
      var raw := PackAll();
      r := Split(raw);
      forall i | 0 <= i < BufferSize
        ensures r[i] == Encode(Pixels())[i]
      {
        OffsetPlacement(WireColumn(i), WireBand(i));
      }
    }

    /** The innermost loop of `FromDeviceFormat`: the 8 bits of one byte
        become the pixels of column x in band `band`. */
    method UnpackColumn(x: int, band: int, b: bv8)
      requires Valid() && 0 <= x < Width && 0 <= band < 8
      modifies data
      ensures forall y :: band * 8 <= y < band * 8 + 8 ==> data[Idx(x, y)] == BitOf(b, y - band * 8)
      ensures forall x', y :: InBounds(x', y) && (x' != x || !(band * 8 <= y < band * 8 + 8)) ==>
        data[Idx(x', y)] == old(data[Idx(x', y)])
    {
      for bit := 0 to 8
        invariant forall y :: band * 8 <= y < band * 8 + bit ==> data[Idx(x, y)] == BitOf(b, y - band * 8)
        invariant forall x', y :: InBounds(x', y) && (x' != x || !(band * 8 <= y < band * 8 + bit)) ==>
          data[Idx(x', y)] == old(data[Idx(x', y)])
      {
        var y := band * 8 + bit;
        data[Idx(x, y)] := BitOf(b, bit);
      }
    }

    /** The band loop of `FromDeviceFormat` for column x: the 8 bytes of the
        column in the column-major layout become its 64 pixels. */
    method DecodeColumn(x: int, raw: array<bv8>, ghost d: Image)
      requires Valid() && 0 <= x < Width && IsImage(d) && raw.Length == BufferSize
      requires forall b :: 0 <= b < 8 ==> raw[RawIndex(x, b)] == d[WireOffset(x, b)]
      modifies data
      ensures forall y :: 0 <= y < Height ==> data[Idx(x, y)] == Decode(d)[Idx(x, y)]
      ensures forall x', y :: InBounds(x', y) && x' != x ==> data[Idx(x', y)] == old(data[Idx(x', y)])
    {
      for band := 0 to 8
        invariant forall y :: 0 <= y < band * 8 ==> data[Idx(x, y)] == Decode(d)[Idx(x, y)]
        invariant forall x', y :: InBounds(x', y) && x' != x ==> data[Idx(x', y)] == old(data[Idx(x', y)])
      {
        var b := raw[RawIndex(x, band)];
        UnpackColumn(x, band, b);
        forall y | band * 8 <= y < band * 8 + 8
          ensures data[Idx(x, y)] == Decode(d)[Idx(x, y)]
        {
          DecodedBit(d, x, band, y - band * 8);
        }
      }
    }

    /** Shows an upload image: undoes the half split into the column-major
        layout, then unpacks each byte into its 8 pixels. */
    method FromDeviceFormat(d: Image)
      requires Valid() && IsImage(d)
      modifies data
      ensures Pixels() == Decode(d)
    {
      var raw := Unsplit(d);
      for x := 0 to Width
        modifies data
        invariant forall x', y :: 0 <= x' < x && 0 <= y < Height ==> data[Idx(x', y)] == Decode(d)[Idx(x', y)]
      {
        DecodeColumn(x, raw, d);
      }
      forall i | 0 <= i < PixelCount
        ensures data[i] == Decode(d)[i]
      {
        var p := PointOf(i);
        assert data[Idx(p.0, p.1)] == Decode(d)[Idx(p.0, p.1)];
      }
    }

    /** A separate buffer with the same pixels. */
    method Copy() returns (fb: FrameBuffer)
      requires Valid()
      ensures fresh(fb) && fresh(fb.data) && fb.Valid()
      ensures fb.Pixels() == Pixels()
    {
      fb := new FrameBuffer();
      for y := 0 to Height
        invariant fb.Valid() && fresh(fb.data)
        invariant forall i :: 0 <= i < y * Width ==> fb.data[i] == data[i]
      {
        for x := 0 to Width
          invariant forall i :: 0 <= i < y * Width + x ==> fb.data[i] == data[i]
        {
          fb.data[Idx(x, y)] := data[Idx(x, y)];
        }
      }
    }

    /** Row y from the smaller to the larger of x1 and x2. */
    method DrawHLine(x1: int, x2: int, y: int, on: bool)
      requires Valid()
      modifies data
      ensures Pixels() == Paint(old(Pixels()), HSpan(x1, x2, y), on)
    {
      var lo, hi := x1, x2;
      if lo > hi {
        lo, hi := hi, lo;
      }
      var x := lo;
      PaintNothing(Pixels(), on);
      assert RowRun(lo, x, y) == iset{};
      while x <= hi
        invariant lo <= x <= Max(lo, hi + 1)
        invariant Pixels() == Paint(old(Pixels()), RowRun(lo, x, y), on)
        decreases hi - x
      {
        PaintOneMore(old(Pixels()), RowRun(lo, x, y), x, y, on);
        SetPixel(x, y, on);
        assert RowRun(lo, x, y) + iset{(x, y)}
            == RowRun(lo, x + 1, y);
        x := x + 1;
      }
      assert RowRun(lo, x, y) == HSpan(x1, x2, y);
    }

    /** Column x from the smaller to the larger of y1 and y2. */
    method DrawVLine(x: int, y1: int, y2: int, on: bool)
      requires Valid()
      modifies data
      ensures Pixels() == Paint(old(Pixels()), VSpan(x, y1, y2), on)
    {
      var lo, hi := y1, y2;
      if lo > hi {
        lo, hi := hi, lo;
      }
      var y := lo;
      PaintNothing(Pixels(), on);
      assert ColumnRun(x, lo, y) == iset{};
      while y <= hi
        invariant lo <= y <= Max(lo, hi + 1)
        invariant Pixels() == Paint(old(Pixels()), ColumnRun(x, lo, y), on)
        decreases hi - y
      {
        PaintOneMore(old(Pixels()), ColumnRun(x, lo, y), x, y, on);
        SetPixel(x, y, on);
        assert ColumnRun(x, lo, y) + iset{(x, y)}
            == ColumnRun(x, lo, y + 1);
        y := y + 1;
      }
      assert ColumnRun(x, lo, y) == VSpan(x, y1, y2);
    }

    /** The four edges: top, bottom, left, right. */
    method DrawRect(x: int, y: int, w: int, h: int, on: bool)
      requires Valid()
      modifies data
      ensures Pixels() == Paint(old(Pixels()), Outline(x, y, w, h), on)
    {
      var g0 := Pixels();
      DrawHLine(x, x + w - 1, y, on);
      DrawHLine(x, x + w - 1, y + h - 1, on);
      PaintUnion(g0, HSpan(x, x + w - 1, y), HSpan(x, x + w - 1, y + h - 1), on);
      DrawVLine(x, y, y + h - 1, on);
      PaintUnion(g0, HSpan(x, x + w - 1, y) + HSpan(x, x + w - 1, y + h - 1), VSpan(x, y, y + h - 1), on);
      DrawVLine(x + w - 1, y, y + h - 1, on);
      PaintUnion(g0, HSpan(x, x + w - 1, y) + HSpan(x, x + w - 1, y + h - 1) + VSpan(x, y, y + h - 1),
                 VSpan(x + w - 1, y, y + h - 1), on);
    }

    /** Rows y .. y+h-1, each drawn as a horizontal line from x to x+w-1. */
    method FillRect(x: int, y: int, w: int, h: int, on: bool)
      requires Valid()
      modifies data
      ensures Pixels() == Paint(old(Pixels()), FilledBox(x, y, w, h), on)
    {
      PaintNothing(Pixels(), on);
      assert FilledBox(x, y, w, 0) == iset{};
      for dy := 0 to Max(h, 0)
        invariant Pixels() == Paint(old(Pixels()), FilledBox(x, y, w, dy), on)
      {
        DrawHLine(x, x + w - 1, y + dy, on);
        PaintUnion(old(Pixels()), FilledBox(x, y, w, dy), HSpan(x, x + w - 1, y + dy), on);
        assert FilledBox(x, y, w, dy) + HSpan(x, x + w - 1, y + dy) == FilledBox(x, y, w, dy + 1);
      }
      assert FilledBox(x, y, w, Max(h, 0)) == FilledBox(x, y, w, h);
    }

    /** Bresenham's line from (x1, y1) to (x2, y2), both ends included. */
    method DrawLine(x1: int, y1: int, x2: int, y2: int, on: bool)
      requires Valid()
      modifies data
      ensures Pixels() == Paint(old(Pixels()), PointsOf(Line(x1, y1, x2, y2)), on)
    {
      var dx := Abs(x2 - x1);
      var dy := -(Abs(y2 - y1) as int);
      var sx := 1;
      if x1 > x2 {
        sx := -1;
      }
      var sy := 1;
      if y1 > y2 {
        sy := -1;
      }
      var err := dx + dy;
      var x, y := x1, y1;
      ghost var g0 := Pixels();
      ghost var c := CourseOf(x1, y1, x2, y2);
      ghost var states := LineStates(x1, y1, x2, y2);
      ghost var line := Line(x1, y1, x2, y2);
      StartOnCourse(x1, y1, x2, y2);
      LineAt(x1, y1, x2, y2, 0);
      ghost var k := 0;
      PaintNothing(g0, on);
      assert PointsOf(line[..0]) == iset{};
      while true
        invariant c == Course(x2, y2, dx, dy, sx, sy)
        invariant 0 <= k < |states| == |line| && (x, y, err) == states[k]
        invariant Pixels() == Paint(g0, PointsOf(line[..k]), on)
        decreases |states| - k
      {
        LineAt(x1, y1, x2, y2, k);
        PaintPrefix(g0, line, k, on);
        SetPixel(x, y, on);
        if x == x2 && y == y2 {
          LineLast(x1, y1, x2, y2, k);
          assert line[..k + 1] == line;
          break;
        }
        LineNext(x1, y1, x2, y2, k);
        x, y, err := Round(c, x, y, err, dx, dy, sx, sy);
        k := k + 1;
      }
    }
  }

  /** The error update at the end of each round of `DrawLine`: one doubling
      of the error, tested against dy for a step along x and against dx for
      a step along y. */
  method Round(ghost c: Course, x: int, y: int, err: int, dx: int, dy: int, sx: int, sy: int)
    returns (x': int, y': int, err': int)
    requires c.dx == dx && c.dy == dy && c.sx == sx && c.sy == sy
    ensures (x', y', err') == Step(c, x, y, err)
  {
    x', y', err' := x, y, err;
    var e2 := 2 * err';
    if e2 >= dy {
      err' := err' + dy;
      x' := x' + sx;
    }
    if e2 <= dx {
      err' := err' + dx;
      y' := y' + sy;
    }
  }

  /** Plotting point k after points 0 .. k-1 have been painted paints points 0 .. k. */
  lemma PaintPrefix(g: Grid, s: seq<Point>, k: int, on: bool)
    requires IsGrid(g) && 0 <= k < |s|
    ensures WithPixel(Paint(g, PointsOf(s[..k]), on), s[k].0, s[k].1, on) == Paint(g, PointsOf(s[..k + 1]), on)
  {
    assert s[..k + 1] == s[..k] + [s[k]];
    assert PointsOf(s[..k + 1]) == PointsOf(s[..k]) + iset{(s[k].0, s[k].1)};
    PaintOneMore(g, PointsOf(s[..k]), s[k].0, s[k].1, on);
  }

  /** The second half of `ToDeviceFormat`: the left half of every band of
      the column-major layout, then the right half of every band. */
  method Split(raw: array<bv8>) returns (r: Image)
    requires raw.Length == BufferSize
    ensures IsImage(r)
    ensures forall i :: 0 <= i < BufferSize ==> r[i] == raw[RawIndex(WireColumn(i), WireBand(i))]
  {
    var result := new bv8[BufferSize];
    var idx := 0;
    for band := 0 to 8
      invariant idx == band * HalfWidth
      invariant forall i :: 0 <= i < idx ==> result[i] == raw[RawIndex(WireColumn(i), WireBand(i))]
    {
      for x := 0 to HalfWidth
        invariant idx == band * HalfWidth + x
        invariant forall i :: 0 <= i < idx ==> result[i] == raw[RawIndex(WireColumn(i), WireBand(i))]
      {
        assert idx == WireOffset(x, band);
        OffsetPlacement(x, band);
        result[idx] := raw[RawIndex(x, band)];
        idx := idx + 1;
      }
    }
    for band := 0 to 8
      invariant idx == HalfSize + band * HalfWidth
      invariant forall i :: 0 <= i < idx ==> result[i] == raw[RawIndex(WireColumn(i), WireBand(i))]
    {
      for x := HalfWidth to Width
        invariant idx == HalfSize + band * HalfWidth + (x - HalfWidth)
        invariant forall i :: 0 <= i < idx ==> result[i] == raw[RawIndex(WireColumn(i), WireBand(i))]
      {
        assert idx == WireOffset(x, band);
        OffsetPlacement(x, band);
        result[idx] := raw[RawIndex(x, band)];
        idx := idx + 1;
      }
    }
    r := result[..];
  }

  /** The first half of `FromDeviceFormat`: the column-major layout
      (byte band*128 + x) of an upload image. */
  method Unsplit(d: Image) returns (raw: array<bv8>)
    requires IsImage(d)
    ensures fresh(raw) && raw.Length == BufferSize
    ensures forall x, b :: 0 <= x < Width && 0 <= b < 8 ==> raw[RawIndex(x, b)] == d[WireOffset(x, b)]
  {
    raw := new bv8[BufferSize];
    UnsplitHalf(d, raw, 0);
    UnsplitHalf(d, raw, HalfWidth);
  }

  /** One of the two loops of `Unsplit`: the half of the image for columns
      lo .. lo+63, band by band, each band left to right. */
  method UnsplitHalf(d: Image, raw: array<bv8>, lo: int)
    requires IsImage(d) && raw.Length == BufferSize && (lo == 0 || lo == HalfWidth)
    modifies raw
    ensures forall x, b :: lo <= x < lo + HalfWidth && 0 <= b < 8 ==> raw[RawIndex(x, b)] == d[WireOffset(x, b)]
    ensures forall x, b :: 0 <= x < Width && !(lo <= x < lo + HalfWidth) && 0 <= b < 8 ==>
      raw[RawIndex(x, b)] == old(raw[RawIndex(x, b)])
  {
    var idx := if lo == 0 then 0 else HalfSize;
    for band := 0 to 8
      invariant idx == (if lo == 0 then 0 else HalfSize) + band * HalfWidth
      invariant forall x, b :: lo <= x < lo + HalfWidth && 0 <= b < band ==> raw[RawIndex(x, b)] == d[WireOffset(x, b)]
      invariant forall x, b :: 0 <= x < Width && 0 <= b < 8 && !(lo <= x < lo + HalfWidth && b < band) ==>
        raw[RawIndex(x, b)] == old(raw[RawIndex(x, b)])
    {
      for x := lo to lo + HalfWidth
        invariant idx == (if lo == 0 then 0 else HalfSize) + band * HalfWidth + (x - lo)
        invariant forall x', b :: lo <= x' < lo + HalfWidth && 0 <= b < band ==> raw[RawIndex(x', b)] == d[WireOffset(x', b)]
        invariant forall x' :: lo <= x' < x ==> raw[RawIndex(x', band)] == d[WireOffset(x', band)]
        invariant forall x', b :: 0 <= x' < Width && 0 <= b < 8 && !(lo <= x' < lo + HalfWidth && (b < band || (b == band && x' < x))) ==>
          raw[RawIndex(x', b)] == old(raw[RawIndex(x', b)])
      {
        assert idx == WireOffset(x, band);
        raw[RawIndex(x, band)] := d[idx];
        idx := idx + 1;
      }
    }
  }

  /** Row y from lo up to but excluding x: the cells a horizontal line has drawn so far. */
  ghost function RowRun(lo: int, x: int, y: int): iset<Point>
  {
    iset p: Point | p.1 == y && lo <= p.0 < x
  }

  /** Column x from lo up to but excluding y. */
  ghost function ColumnRun(x: int, lo: int, y: int): iset<Point>
  {
    iset p: Point | p.0 == x && lo <= p.1 < y
  }

  /** Bit `bit` of the upload byte for column x of band `band` is the pixel
      the decoded grid shows at (x, band*8 + bit). */
  lemma DecodedBit(d: Image, x: int, band: int, bit: int)
    requires IsImage(d) && 0 <= x < Width && 0 <= band < 8 && 0 <= bit < 8
    ensures Decode(d)[Idx(x, band * 8 + bit)] == BitOf(d[WireOffset(x, band)], bit)
  {
    DecodedPixel(d, x, band * 8 + bit);
    DivMod(band * 8 + bit, 8, band, bit);
  }
}
