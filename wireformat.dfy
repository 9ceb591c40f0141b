/** The 1024-byte image layout the display accepts after `ESC 'G'`.
    Each byte holds 8 vertically adjacent pixels of one column of one
    8-row band, bit 0 being the band's top row. The bytes of the left
    half of the display (columns 0-63) come first, band by band, each band
    left to right; the right half (columns 64-127) follows the same way. */
module WireFormat {
  import opened Util
  import opened Raster

  const BufferSize: int := 1024
  const HalfSize: int := 512
  const HalfWidth: int := 64

  type Image = seq<bv8>

  predicate IsImage(d: Image) { |d| == BufferSize }

  /** The byte of the image that holds column x of band `band`. */
  function WireOffset(x: int, band: int): (i: nat)
    requires 0 <= x < Width && 0 <= band < 8
    ensures i < BufferSize
  {
    if x < HalfWidth then band * HalfWidth + x else HalfSize + band * HalfWidth + (x - HalfWidth)
  }

  /** The byte of the image that holds pixel (x, y). */
  function WireIndex(x: int, y: int): (i: nat)
    requires InBounds(x, y)
    ensures i < BufferSize
  {
    WireOffset(x, y / 8)
  }

  /** The display column image byte i belongs to. */
  function WireColumn(i: int): (x: int)
    requires 0 <= i < BufferSize
    ensures 0 <= x < Width
  {
    (i / HalfSize) * HalfWidth + i % HalfWidth
  }

  /** The 8-row band image byte i belongs to. */
  function WireBand(i: int): (band: int)
    requires 0 <= i < BufferSize
    ensures 0 <= band < 8
  {
    (i % HalfSize) / HalfWidth
  }

  /** Byte positions and (column, band) pairs correspond one to one. */
  lemma OffsetPlacement(x: int, band: int)
    requires 0 <= x < Width && 0 <= band < 8
    ensures WireColumn(WireOffset(x, band)) == x && WireBand(WireOffset(x, band)) == band
  {
    var i := WireOffset(x, band);
    if x < HalfWidth {
      DivMod(i, HalfSize, 0, band * HalfWidth + x);
      DivMod(i, HalfWidth, band, x);
    } else {
      DivMod(i, HalfSize, 1, band * HalfWidth + (x - HalfWidth));
      DivMod(i, HalfWidth, 8 + band, x - HalfWidth);
      DivMod(band * HalfWidth + (x - HalfWidth), HalfWidth, band, x - HalfWidth);
    }
  }

  lemma WirePlacement(x: int, y: int)
    requires InBounds(x, y)
    ensures WireColumn(WireIndex(x, y)) == x && WireBand(WireIndex(x, y)) == y / 8
  {
    OffsetPlacement(x, y / 8);
  }

  lemma WirePlacementInverse(i: int, k: int)
    requires 0 <= i < BufferSize && 0 <= k < 8
    ensures InBounds(WireColumn(i), WireBand(i) * 8 + k)
    ensures WireIndex(WireColumn(i), WireBand(i) * 8 + k) == i
    ensures (WireBand(i) * 8 + k) % 8 == k
  {
    var half, r := i / HalfSize, i % HalfSize;
    var band, col := r / HalfWidth, r % HalfWidth;
    assert i == half * HalfSize + r && r == band * HalfWidth + col;
    assert 0 <= half <= 1 && 0 <= band < 8;
    DivMod(i, HalfWidth, half * 8 + band, col);
    assert WireColumn(i) == half * HalfWidth + col && WireBand(i) == band;
    var y := band * 8 + k;
    DivMod(y, 8, band, k);
    assert WireIndex(WireColumn(i), y) == WireOffset(half * HalfWidth + col, band);
  }

  /** Bits 0 .. n-1 of the byte for column x of band `band`: bit k is the
      pixel at row band*8 + k. */
  function PackBits(g: Grid, x: int, band: int, n: int): (b: bv8)
    requires IsGrid(g) && 0 <= n <= 8
    ensures forall k :: 0 <= k < 8 ==> BitOf(b, k) == (k < n && Pixel(g, x, band * 8 + k))
  {
    if n == 0 then 0
    else
      var rest := PackBits(g, x, band, n - 1);
      var column := seq(8, k requires 0 <= k < 8 => Pixel(g, x, band * 8 + k));
      assert forall k :: 0 <= k < 8 ==> column[k] == Pixel(g, x, band * 8 + k);
      OrBitAll(rest, n, column);
      var b := rest | (if column[n - 1] then Mask(n - 1) else 0);
      assert forall k :: 0 <= k < 8 ==> BitOf(b, k) == (k < n && column[k]);
      b
  }

  /** Setting bit n-1 to `bits[n-1]` on a byte holding `bits` below n - 1
      gives a byte holding `bits` below n. */
  lemma OrBitAll(rest: bv8, n: int, bits: seq<bool>)
    requires 1 <= n <= 8 && |bits| == 8
    requires forall k :: 0 <= k < 8 ==> BitOf(rest, k) == (k < n - 1 && bits[k])
    ensures forall k :: 0 <= k < 8 ==>
      BitOf(rest | (if bits[n - 1] then Mask(n - 1) else 0), k) == (k < n && bits[k])
  {
    forall k | 0 <= k < 8
      ensures BitOf(rest | (if bits[n - 1] then Mask(n - 1) else 0), k) == (k < n && bits[k])
    {
      OrBit(rest, bits[n - 1], n - 1, k);
    }
  }

  /** One more bit: the next row's pixel, or nothing. */
  lemma PackBitsNext(g: Grid, x: int, band: int, n: int)
    requires IsGrid(g) && 0 <= n < 8
    ensures PackBits(g, x, band, n + 1) == PackBits(g, x, band, n) | (if Pixel(g, x, band * 8 + n) then Mask(n) else 0)
  {
  }

  /** Setting bit n (or nothing) leaves the other bits as they were. */
  lemma OrBit(rest: bv8, on: bool, n: int, k: int)
    requires 0 <= n < 8 && 0 <= k < 8
    ensures BitOf(rest | (if on then Mask(n) else 0), k) == (BitOf(rest, k) || (k == n && on))
  {
    BitOr(rest, if on then Mask(n) else 0, k);
    SingleBit(n, k);
  }

  lemma BitOr(a: bv8, b: bv8, k: int)
    requires 0 <= k < 8
    ensures BitOf(a | b, k) == (BitOf(a, k) || BitOf(b, k))
  {
  }

  lemma SingleBit(n: int, k: int)
    requires 0 <= n < 8 && 0 <= k < 8
    ensures BitOf(Mask(n), k) == (n == k) && !BitOf(0, k)
  {
  }

  /** Bytes with the same eight bits are equal. */
  lemma ByteExt(a: bv8, b: bv8)
    requires forall k :: 0 <= k < 8 ==> BitOf(a, k) == BitOf(b, k)
    ensures a == b
  {
    assert BitOf(a, 0) == BitOf(b, 0) && BitOf(a, 1) == BitOf(b, 1);
    assert BitOf(a, 2) == BitOf(b, 2) && BitOf(a, 3) == BitOf(b, 3);
    assert BitOf(a, 4) == BitOf(b, 4) && BitOf(a, 5) == BitOf(b, 5);
    assert BitOf(a, 6) == BitOf(b, 6) && BitOf(a, 7) == BitOf(b, 7);
  }

  /** The byte for column x of band `band`. */
  function StripByte(g: Grid, x: int, band: int): bv8
    requires IsGrid(g)
  {
    PackBits(g, x, band, 8)
  }

  /** Bit k of the column byte is the pixel k rows into the band. */
  lemma StripByteBit(g: Grid, x: int, band: int, k: int)
    requires IsGrid(g) && 0 <= k < 8
    ensures BitOf(StripByte(g, x, band), k) == Pixel(g, x, band * 8 + k)
  {
  }

  /** A byte whose bits are the band's pixels is the column byte. */
  lemma StripByteOf(g: Grid, x: int, band: int, v: bv8)
    requires IsGrid(g)
    requires forall k :: 0 <= k < 8 ==> Pixel(g, x, band * 8 + k) == BitOf(v, k)
    ensures StripByte(g, x, band) == v
  {
    forall k | 0 <= k < 8
      ensures BitOf(StripByte(g, x, band), k) == BitOf(v, k)
    {
      StripByteBit(g, x, band, k);
    }
    ByteExt(StripByte(g, x, band), v);
  }

  /** Where the column-major intermediate layout keeps column x of band `band`. */
  function RawIndex(x: int, band: int): (i: nat)
    requires 0 <= x < Width && 0 <= band < 8
    ensures i < BufferSize
  {
    band * Width + x
  }

  /** The upload image of a grid. */
  function Encode(g: Grid): (d: Image)
    requires IsGrid(g)
    ensures IsImage(d)
  {
    seq(BufferSize, i requires 0 <= i < BufferSize => StripByte(g, WireColumn(i), WireBand(i)))
  }

  /** The grid an upload image shows. */
  function Decode(d: Image): (g: Grid)
    requires IsImage(d)
    ensures IsGrid(g)
  {
    seq(PixelCount, i requires 0 <= i < PixelCount =>
      BitOf(d[WireIndex(i % Width, i / Width)], (i / Width) % 8))
  }

  /** Encoding is bit-exact: pixel (x, y) is bit y%8 of byte WireIndex(x, y). */
  lemma EncodeBit(g: Grid, x: int, y: int)
    requires IsGrid(g) && InBounds(x, y)
    ensures BitOf(Encode(g)[WireIndex(x, y)], y % 8) == Pixel(g, x, y)
  {
    WirePlacement(x, y);
    assert (y / 8) * 8 + y % 8 == y;
  }

  lemma DecodedPixel(d: Image, x: int, y: int)
    requires IsImage(d) && InBounds(x, y)
    ensures Pixel(Decode(d), x, y) == BitOf(d[WireIndex(x, y)], y % 8)
  {
    assert PointOf(Idx(x, y)) == (x, y);
  }

  /** Decoding an encoded grid gives back every pixel. */
  lemma DecodeEncode(g: Grid)
    requires IsGrid(g)
    ensures Decode(Encode(g)) == g
  {
    forall x, y
      ensures Pixel(Decode(Encode(g)), x, y) == Pixel(g, x, y)
    {
      if InBounds(x, y) {
        DecodedPixel(Encode(g), x, y);
        EncodeBit(g, x, y);
      }
    }
    GridExt(Decode(Encode(g)), g);
  }

  /** Every image is the encoding of the grid it shows, so the two directions
      are a bijection between grids and images. */
  lemma EncodeDecode(d: Image)
    requires IsImage(d)
    ensures Encode(Decode(d)) == d
  {
    forall i | 0 <= i < BufferSize
      ensures Encode(Decode(d))[i] == d[i]
    {
      EncodeDecodeByte(d, i);
    }
  }

  lemma EncodeDecodeByte(d: Image, i: int)
    requires IsImage(d) && 0 <= i < BufferSize
    ensures StripByte(Decode(d), WireColumn(i), WireBand(i)) == d[i]
  {
    var g, x, band := Decode(d), WireColumn(i), WireBand(i);
    forall k | 0 <= k < 8
      ensures Pixel(g, x, band * 8 + k) == BitOf(d[i], k)
    {
      WirePlacementInverse(i, k);
      DecodedPixel(d, x, band * 8 + k);
    }
    StripByteOf(g, x, band, d[i]);
  }

  /** The test pattern of the package's tests: pixels (0, 0) and (0, 7) alone
      encode as 0x81 followed by 1023 zero bytes. */
  lemma TwoPixelImage()
    ensures Encode(WithPixel(WithPixel(Blank(), 0, 0, true), 0, 7, true))
         == [0x81] + seq(BufferSize - 1, _ => 0)
  {
    var g := WithPixel(WithPixel(Blank(), 0, 0, true), 0, 7, true);
    var want: seq<bv8> := [0x81] + seq(BufferSize - 1, _ => 0);
    forall i | 0 <= i < BufferSize
      ensures Encode(g)[i] == want[i]
    {
      TwoPixelByte(g, i);
    }
  }

  lemma TwoPixelByte(g: Grid, i: int)
    requires g == WithPixel(WithPixel(Blank(), 0, 0, true), 0, 7, true)
    requires 0 <= i < BufferSize
    ensures StripByte(g, WireColumn(i), WireBand(i)) == if i == 0 then 0x81 else 0
  {
    var x, band := WireColumn(i), WireBand(i);
    assert forall a, b :: Pixel(g, a, b) <==> a == 0 && (b == 0 || b == 7);
    var want: bv8 := if i == 0 then 0x81 else 0;
    forall k | 0 <= k < 8
      ensures BitOf(StripByte(g, x, band), k) == BitOf(want, k)
    {
      WirePlacementInverse(i, k);
      assert BitOf(StripByte(g, x, band), k) == Pixel(g, x, band * 8 + k);
      assert BitOf(0x81, k) == (k == 0 || k == 7);
      SingleBit(0, k);
    }
    ByteExt(StripByte(g, x, band), want);
  }
}
