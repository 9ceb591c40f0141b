/** Bitmap fonts and text rendering. A glyph is a run of column bytes, bit 0
    being the top pixel, so every glyph is 8 pixels tall whatever the font's
    nominal height; a character the font lacks has no glyph and is skipped.
    Text is a sequence of Unicode code points (Go's `range` over a string
    decodes UTF-8 into exactly that sequence). */
module Fonts {
  import opened Util
  import opened Raster
  import opened FrameBuffers

  /** The three queries of Go's `Font` interface. The concrete glyph tables
      are not part of this model, so a font is any choice of the three. */
  datatype Font = Font(glyph: char -> Option<seq<bv8>>, height: int, width: char -> int)

  /** How far one character moves the pen: its glyph's column count, or 0. */
  function Advance(f: Font, c: char): nat
  {
    if f.glyph(c).Some? then |f.glyph(c).value| else 0
  }

  /** The width of rendered text: the sum of its characters' advances. */
  function TextWidth(f: Font, text: seq<char>): nat
    decreases |text|
  {
    if text == [] then 0 else TextWidth(f, text[..|text| - 1]) + Advance(f, text[|text| - 1])
  }

  /** Width is additive over concatenation. */
  lemma {:induction false} TextWidthAppend(f: Font, a: seq<char>, b: seq<char>)
    ensures TextWidth(f, a + b) == TextWidth(f, a) + TextWidth(f, b)
    decreases |b|
  {
    if b == [] {
      assert a + b == a;
    } else {
      assert (a + b)[..|a + b| - 1] == a + b[..|b| - 1];
      TextWidthAppend(f, a, b[..|b| - 1]);
    }
  }

  /** Characters without a glyph add nothing; text made only of such
      characters is zero wide. */
  lemma {:induction false} TextWidthUnknown(f: Font, text: seq<char>)
    requires forall i :: 0 <= i < |text| ==> f.glyph(text[i]).None?
    ensures TextWidth(f, text) == 0
    decreases |text|
  {
    if text != [] {
      TextWidthUnknown(f, text[..|text| - 1]);
    }
  }

  /** `MeasureText`: adds up the lengths of the glyphs that exist. */
  method MeasureText(f: Font, text: seq<char>) returns (width: int)
    ensures width == TextWidth(f, text)
  {
    width := 0;
    for i := 0 to |text|
      invariant width == TextWidth(f, text[..i])
    {
      assert text[..i + 1][..i] == text[..i];
      var glyph := f.glyph(text[i]);
      if glyph.Some? {
        width := width + |glyph.value|;
      }
    }
    assert text[..|text|] == text;
  }

  /** The sum of the positive reported widths of `runes`. */
  function RunesWidth(f: Font, runes: seq<char>): nat
    decreases |runes|
  {
    if runes == [] then 0
    else RunesWidth(f, runes[..|runes| - 1]) + (if f.width(runes[|runes| - 1]) > 0 then f.width(runes[|runes| - 1]) else 0)
  }

  /** `MeasureTextRunes`: the same sum, over the font's reported widths. */
  method MeasureTextRunes(f: Font, runes: seq<char>) returns (width: int)
    ensures width == RunesWidth(f, runes)
  {
    width := 0;
    for i := 0 to |runes|
      invariant width == RunesWidth(f, runes[..i])
    {
      assert runes[..i + 1][..i] == runes[..i];
      var w := f.width(runes[i]);
      if w > 0 {
        width := width + w;
      }
    }
    assert runes[..|runes|] == runes;
  }

  /** When a font reports every character's width as its glyph's column
      count (0 for a missing glyph), both measures agree. */
  lemma {:induction false} RunesWidthAgrees(f: Font, runes: seq<char>)
    requires forall i :: 0 <= i < |runes| ==> f.width(runes[i]) == Advance(f, runes[i])
    ensures RunesWidth(f, runes) == TextWidth(f, runes)
    decreases |runes|
  {
    if runes != [] {
      RunesWidthAgrees(f, runes[..|runes| - 1]);
    }
  }

  /** The pixels text leaves lit: each glyph's bitmap, placed where the pen
      stands after the characters before it. */
  ghost function TextPoints(f: Font, x: int, y: int, text: seq<char>): iset<Point>
    decreases |text|
  {
    if text == [] then iset{}
    else
      var init, c := text[..|text| - 1], text[|text| - 1];
      TextPoints(f, x, y, init)
        + (if f.glyph(c).Some? then BitmapPoints(f.glyph(c).value, x + TextWidth(f, init), y) else iset{})
  }

  /** Text occupies the band of 8 rows from y and the columns from x to
      x plus its width, exclusive. */
  lemma {:induction false} TextPointsBounds(f: Font, x: int, y: int, text: seq<char>, a: int, b: int)
    requires (a, b) in TextPoints(f, x, y, text)
    ensures x <= a < x + TextWidth(f, text) && y <= b < y + 8
    decreases |text|
  {
    var init, c := text[..|text| - 1], text[|text| - 1];
    if (a, b) in TextPoints(f, x, y, init) {
      TextPointsBounds(f, x, y, init, a, b);
    }
  }

  /** The column of `b` at (x, y) down to row y+n-1: bit k marks (x, y+k). */
  ghost function ColumnPoints(b: bv8, x: int, y: int, n: int): iset<Point>
  {
    iset p: Point | p.0 == x && y <= p.1 < y + n && 0 <= p.1 - y < 8 && BitOf(b, p.1 - y)
  }

  /** The inner loops of the text renderers (and of `Icon.Render`): every set
      bit of every column is painted `on`, and nothing else is touched. */
  method DrawBitmap(fb: FrameBuffer, cols: seq<bv8>, x: int, y: int, on: bool)
    requires fb.Valid()
    modifies fb.data
    ensures fb.Pixels() == Paint(old(fb.Pixels()), BitmapPoints(cols, x, y), on)
  {
    ghost var g0 := fb.Pixels();
    PaintNothing(g0, on);
    assert BitmapPoints(cols[..0], x, y) == iset{};
    for col := 0 to |cols|
      invariant fb.Pixels() == Paint(g0, BitmapPoints(cols[..col], x, y), on)
    {
      DrawColumn(fb, cols[col], x + col, y, on);
      PaintUnion(g0, BitmapPoints(cols[..col], x, y), ColumnPoints(cols[col], x + col, y, 8), on);
      BitmapStep(cols, col, x, y);
    }
    assert cols[..|cols|] == cols;
  }

  /** One column byte: bit k lights (x, y+k). */
  method DrawColumn(fb: FrameBuffer, b: bv8, x: int, y: int, on: bool)
    requires fb.Valid()
    modifies fb.data
    ensures fb.Pixels() == Paint(old(fb.Pixels()), ColumnPoints(b, x, y, 8), on)
  {
    ghost var g0 := fb.Pixels();
    PaintNothing(g0, on);
    assert ColumnPoints(b, x, y, 0) == iset{};
    for bit := 0 to 8
      invariant fb.Pixels() == Paint(g0, ColumnPoints(b, x, y, bit), on)
    {
      ColumnStep(b, x, y, bit);
      if b & Mask(bit) != 0 {
        PaintOneMore(g0, ColumnPoints(b, x, y, bit), x, y + bit, on);
        fb.SetPixel(x, y + bit, on);
      }
    }
  }

  lemma ColumnStep(b: bv8, x: int, y: int, bit: int)
    requires 0 <= bit < 8
    ensures BitOf(b, bit) ==> ColumnPoints(b, x, y, bit) + iset{(x, y + bit)} == ColumnPoints(b, x, y, bit + 1)
    ensures !BitOf(b, bit) ==> ColumnPoints(b, x, y, bit) == ColumnPoints(b, x, y, bit + 1)
  {
  }

  lemma BitmapStep(cols: seq<bv8>, col: int, x: int, y: int)
    requires 0 <= col < |cols|
    ensures BitmapPoints(cols[..col], x, y) + ColumnPoints(cols[col], x + col, y, 8)
         == BitmapPoints(cols[..col + 1], x, y)
  {
    var lhs := BitmapPoints(cols[..col], x, y) + ColumnPoints(cols[col], x + col, y, 8);
    var rhs := BitmapPoints(cols[..col + 1], x, y);
    forall p: Point
      ensures p in lhs <==> p in rhs
    {
      if x <= p.0 < x + col {
        assert cols[..col][p.0 - x] == cols[..col + 1][p.0 - x];
      }
    }
  }

  /** The glyph loop shared by `RenderText` and `RenderTextInverted`: paints
      the text's pixels `on` and returns the pen position after it. */
  method DrawText(fb: FrameBuffer, f: Font, x: int, y: int, text: seq<char>, on: bool) returns (endX: int)
    requires fb.Valid()
    modifies fb.data
    ensures endX == x + TextWidth(f, text)
    ensures fb.Pixels() == Paint(old(fb.Pixels()), TextPoints(f, x, y, text), on)
  {
    ghost var g0 := fb.Pixels();
    PaintNothing(g0, on);
    endX := x;
    for i := 0 to |text|
      invariant endX == x + TextWidth(f, text[..i])
      invariant fb.Pixels() == Paint(g0, TextPoints(f, x, y, text[..i]), on)
    {
      TextStep(f, x, y, text, i);
      var glyph := f.glyph(text[i]);
      if glyph.Some? {
        DrawBitmap(fb, glyph.value, endX, y, on);
        PaintUnion(g0, TextPoints(f, x, y, text[..i]), BitmapPoints(glyph.value, endX, y), on);
        endX := endX + |glyph.value|;
      }
    }
    assert text[..|text|] == text;
  }

  /** One more character: its glyph's points at the pen position, and its
      advance; a character without a glyph adds neither. */
  lemma TextStep(f: Font, x: int, y: int, text: seq<char>, i: int)
    requires 0 <= i < |text|
    ensures TextWidth(f, text[..i + 1]) == TextWidth(f, text[..i]) + Advance(f, text[i])
    ensures f.glyph(text[i]).Some? ==>
      TextPoints(f, x, y, text[..i + 1])
      == TextPoints(f, x, y, text[..i]) + BitmapPoints(f.glyph(text[i]).value, x + TextWidth(f, text[..i]), y)
    ensures f.glyph(text[i]).None? ==> TextPoints(f, x, y, text[..i + 1]) == TextPoints(f, x, y, text[..i])
  {
    assert text[..i + 1][..i] == text[..i];
    assert TextPoints(f, x, y, text[..i]) + iset{} == TextPoints(f, x, y, text[..i]);
  }

  /** Lit glyph pixels on whatever is there; returns the x after the text. */
  method RenderText(fb: FrameBuffer, f: Font, x: int, y: int, text: seq<char>) returns (endX: int)
    requires fb.Valid()
    modifies fb.data
    ensures endX == x + TextWidth(f, text)
    ensures fb.Pixels() == Paint(old(fb.Pixels()), TextPoints(f, x, y, text), true)
  {
    endX := DrawText(fb, f, x, y, text, true);
  }

  /** The text's box (its width by the font's height) lit, then the glyph
      pixels cleared in it; returns the x after the text. */
  method RenderTextInverted(fb: FrameBuffer, f: Font, x: int, y: int, text: seq<char>) returns (endX: int)
    requires fb.Valid()
    modifies fb.data
    ensures endX == x + TextWidth(f, text)
    ensures fb.Pixels() == InvertedText(old(fb.Pixels()), f, x, y, text)
  {
    var width := MeasureText(f, text);
    fb.FillRect(x, y, width, f.height, true);
    endX := DrawText(fb, f, x, y, text, false);
  }

  /** What `RenderTextInverted` leaves on grid g. */
  ghost function InvertedText(g: Grid, f: Font, x: int, y: int, text: seq<char>): (r: Grid)
    requires IsGrid(g)
    ensures IsGrid(r)
  {
    Paint(Paint(g, FilledBox(x, y, TextWidth(f, text), f.height), true), TextPoints(f, x, y, text), false)
  }

  /** Inside the box of non-empty text, inverted rendering is the exact
      negation of ordinary rendering onto a blank screen, whatever was on
      the screen before; outside the box and the glyphs nothing changes. */
  lemma InvertedIsNegation(g: Grid, f: Font, x: int, y: int, text: seq<char>, a: int, b: int)
    requires IsGrid(g) && InBounds(a, b) && TextWidth(f, text) >= 1
    ensures x <= a < x + TextWidth(f, text) && y <= b < y + f.height ==>
      Pixel(InvertedText(g, f, x, y, text), a, b) == !Pixel(Paint(Blank(), TextPoints(f, x, y, text), true), a, b)
    ensures !(x <= a < x + TextWidth(f, text) && y <= b < y + f.height) && (a, b) !in TextPoints(f, x, y, text) ==>
      Pixel(InvertedText(g, f, x, y, text), a, b) == Pixel(g, a, b)
  {
    FilledBoxExact(x, y, TextWidth(f, text), f.height, a, b);
  }

  /** Empty text measures 0, yet its box is filled from x-1 to x: `FillRect`
      with width 0 draws the line from x to x-1, whose ends it swaps. */
  lemma EmptyInvertedBar(g: Grid, f: Font, x: int, y: int)
    requires IsGrid(g) && f.height >= 1 && InBounds(x - 1, y) && InBounds(x, y)
    ensures Pixel(InvertedText(g, f, x, y, []), x - 1, y) && Pixel(InvertedText(g, f, x, y, []), x, y)
  {
    assert TextPoints(f, x, y, []) == iset{};
    assert (x - 1, y) in FilledBox(x, y, 0, f.height) && (x, y) in FilledBox(x, y, 0, f.height);
  }
}
