/** Reusable widgets drawn into a frame buffer. In the source every widget
    uses the package's built-in font; here that font is a parameter. */
module Widgets {
  import opened Util
  import opened Raster
  import opened FrameBuffers
  import opened Fonts
  import Bresenham

  /** The caption's horizontal and vertical inset inside a button. */
  const PadX: int := 4
  const PadY: int := 2

  class Button {
    var caption: seq<char>  // the source's `Label` field
    var selected: bool
    var disabled: bool
    var width: int
    var height: int

    /** `NewButton`: 4 pixels of padding on each side of the caption, 2 above
        and below; neither selected nor disabled. */
    constructor New(f: Font, caption: seq<char>)
      ensures this.caption == caption && !selected && !disabled
      ensures width == TextWidth(f, caption) + 2 * PadX && height == f.height + 2 * PadY
    {
      var w := MeasureText(f, caption);
      this.caption := caption;
      selected := false;
      disabled := false;
      width := w + 8;
      height := f.height + 4;
    }

    /** The row of the strike-through line of a disabled button. */
    function StrikeRow(y: int): int
      reads this
    {
      y + Quot(height, 2)
    }

    /** What `Render` leaves on grid g: a selected button is a filled box
        with the caption cut out of it, any other an outline with the caption
        lit; a disabled one is struck through at half height. */
    ghost function Look(g: Grid, f: Font, x: int, y: int): (r: Grid)
      reads this
      requires IsGrid(g)
      ensures IsGrid(r)
    {
      var text := TextPoints(f, x + PadX, y + PadY, caption);
      var framed :=
        if selected then Paint(Paint(g, FilledBox(x, y, width, height), true), text, false)
        else Paint(Paint(g, Outline(x, y, width, height), true), text, true);
      if disabled then Paint(framed, HSpan(x, x + width - 1, StrikeRow(y)), true) else framed
    }

    method Render(fb: FrameBuffer, f: Font, x: int, y: int)
      requires fb.Valid()
      modifies fb.data
      ensures fb.Pixels() == Look(old(fb.Pixels()), f, x, y)
    {
      ghost var g0 := fb.Pixels();
      ghost var text := TextPoints(f, x + PadX, y + PadY, caption);
      if selected {
        fb.FillRect(x, y, width, height, true);
        var _ := DrawText(fb, f, x + 4, y + 2, caption, false);
        assert fb.Pixels() == Paint(Paint(g0, FilledBox(x, y, width, height), true), text, false);
      } else {
        fb.DrawRect(x, y, width, height, true);
        var _ := RenderText(fb, f, x + 4, y + 2, caption);
        assert fb.Pixels() == Paint(Paint(g0, Outline(x, y, width, height), true), text, true);
      }
      ghost var framed := fb.Pixels();
      if disabled {
        var midY := y + Quot(height, 2);
        fb.DrawHLine(x, x + width - 1, midY, true);
        assert fb.Pixels() == Paint(framed, HSpan(x, x + width - 1, StrikeRow(y)), true);
      }
    }

    function Width(): int reads this { width }
    function Height(): int reads this { height }
  }

  /** A button built by `New` holds its caption strictly inside its border:
      the glyph columns lie between the left and right edges, and with a
      font at least 7 pixels tall the glyph rows lie between the top and
      bottom edges. */
  lemma LabelInsideButton(f: Font, caption: seq<char>, x: int, y: int, a: int, b: int)
    requires (a, b) in TextPoints(f, x + PadX, y + PadY, caption)
    ensures var width, height := TextWidth(f, caption) + 2 * PadX, f.height + 2 * PadY;
      x < a < x + width - 1 && (f.height >= 7 ==> y < b < y + height - 1)
  {
    TextPointsBounds(f, x + PadX, y + PadY, caption, a, b);
  }

  /** Inside a selected, enabled button every pixel is lit except the
      caption's glyph pixels, whatever was there before. */
  lemma SelectedButtonFace(btn: Button, g: Grid, f: Font, x: int, y: int, a: int, b: int)
    requires IsGrid(g) && InBounds(a, b) && btn.selected && !btn.disabled && btn.width >= 1
    requires x <= a < x + btn.width && y <= b < y + btn.height
    ensures Pixel(btn.Look(g, f, x, y), a, b) == ((a, b) !in TextPoints(f, x + PadX, y + PadY, btn.caption))
  {
    FilledBoxExact(x, y, btn.width, btn.height, a, b);
  }

  class Checkbox {
    var caption: seq<char>  // the source's `Label` field
    var checked: bool
    const size: int

    /** `NewCheckbox`: an unchecked 8x8 box. */
    constructor New(caption: seq<char>)
      ensures this.caption == caption && !checked && size == 8
    {
      this.caption := caption;
      checked := false;
      size := 8;
    }

    method Toggle()
      modifies this
      ensures checked == !old(checked) && caption == old(caption)
    {
      checked := !checked;
    }

    /** The tick: two strokes, down-right then up-right. */
    static ghost function Tick(x: int, y: int): iset<Point>
    {
      PointsOf(Bresenham.Line(x + 2, y + 4, x + 3, y + 6)) + PointsOf(Bresenham.Line(x + 3, y + 6, x + 6, y + 2))
    }

    /** What `Render` leaves on grid g: the box, the tick when checked, and
        the caption 4 pixels right of the box. */
    ghost function Look(g: Grid, f: Font, x: int, y: int): (r: Grid)
      reads this
      requires IsGrid(g)
      ensures IsGrid(r)
    {
      var boxed := Paint(g, Outline(x, y, size, size), true);
      var ticked := if checked then Paint(boxed, Tick(x, y), true) else boxed;
      Paint(ticked, TextPoints(f, x + size + 4, y, caption), true)
    }

    method Render(fb: FrameBuffer, f: Font, x: int, y: int)
      requires fb.Valid()
      modifies fb.data
      ensures fb.Pixels() == Look(old(fb.Pixels()), f, x, y)
    {
      fb.DrawRect(x, y, size, size, true);
      if checked {
        DrawTick(fb, x, y);
      }
      var _ := RenderText(fb, f, x + size + 4, y, caption);
    }

    /** The two strokes of the tick. */
    static method DrawTick(fb: FrameBuffer, x: int, y: int)
      requires fb.Valid()
      modifies fb.data
      ensures fb.Pixels() == Paint(old(fb.Pixels()), Tick(x, y), true)
    {
      fb.DrawLine(x + 2, y + 4, x + 3, y + 6, true);
      fb.DrawLine(x + 3, y + 6, x + 6, y + 2, true);
      PaintUnion(old(fb.Pixels()), PointsOf(Bresenham.Line(x + 2, y + 4, x + 3, y + 6)),
                 PointsOf(Bresenham.Line(x + 3, y + 6, x + 6, y + 2)), true);
    }

    /** The box, a 4-pixel gap, then the caption. */
    function Width(f: Font): (w: int)
      reads this
      ensures w == size + 4 + TextWidth(f, caption)
    {
      size + 4 + TextWidth(f, caption)
    }

    function Height(): int reads this { size }
  }

  /** The tick of a checked box stays strictly inside its 8x8 border. */
  lemma TickInsideBox(x: int, y: int, a: int, b: int)
    requires (a, b) in Checkbox.Tick(x, y)
    ensures x < a < x + 7 && y < b < y + 7
  {
    if (a, b) in PointsOf(Bresenham.Line(x + 2, y + 4, x + 3, y + 6)) {
      Bresenham.LineShape(x + 2, y + 4, x + 3, y + 6);
    } else {
      Bresenham.LineShape(x + 3, y + 6, x + 6, y + 2);
    }
  }

  class Label {
    var text: seq<char>
    var inverted: bool

    constructor New(text: seq<char>)
      ensures this.text == text && !inverted
    {
      this.text := text;
      inverted := false;
    }

    method Render(fb: FrameBuffer, f: Font, x: int, y: int)
      requires fb.Valid()
      modifies fb.data
      ensures inverted ==> fb.Pixels() == InvertedText(old(fb.Pixels()), f, x, y, text)
      ensures !inverted ==> fb.Pixels() == Paint(old(fb.Pixels()), TextPoints(f, x, y, text), true)
    {
      if inverted {
        var _ := RenderTextInverted(fb, f, x, y, text);
      } else {
        var _ := RenderText(fb, f, x, y, text);
      }
    }

    function Width(f: Font): nat reads this { TextWidth(f, text) }
    function Height(f: Font): int { f.height }
  }

  class Divider {
    var w: int

    constructor New(width: int)
      ensures w == width
    {
      w := width;
    }

    /** A line across the divider's width, one row below y. */
    method Render(fb: FrameBuffer, x: int, y: int)
      requires fb.Valid()
      modifies fb.data
      ensures fb.Pixels() == Paint(old(fb.Pixels()), HSpan(x, x + w - 1, y + 1), true)
    {
      fb.DrawHLine(x, x + w - 1, y + 1, true);
    }

    function Width(): int reads this { w }
    function Height(): int { 3 }
  }

  /** An 8x8 icon: 8 column bytes, bit 0 at the top. */
  class Icon {
    var data: seq<bv8>

    constructor New(data: seq<bv8>)
      requires |data| == 8
      ensures this.data == data
    {
      this.data := data;
    }

    method Render(fb: FrameBuffer, x: int, y: int)
      requires fb.Valid()
      modifies fb.data
      ensures fb.Pixels() == Paint(old(fb.Pixels()), BitmapPoints(data, x, y), true)
    {
      DrawBitmap(fb, data, x, y, true);
    }

    function Width(): int { 8 }
    function Height(): int { 8 }
  }

  const ArrowUp: seq<bv8> := [0x00, 0x04, 0x02, 0xFF, 0x02, 0x04, 0x00, 0x00]
  const ArrowDown: seq<bv8> := [0x00, 0x20, 0x40, 0xFF, 0x40, 0x20, 0x00, 0x00]
  const ArrowLeft: seq<bv8> := [0x00, 0x08, 0x1C, 0x3E, 0x7F, 0x1C, 0x08, 0x00]
  const ArrowRight: seq<bv8> := [0x00, 0x08, 0x1C, 0x7F, 0x3E, 0x1C, 0x08, 0x00]
  const Check: seq<bv8> := [0x00, 0x60, 0x30, 0x18, 0x0C, 0x06, 0x03, 0x00]
  const Cross: seq<bv8> := [0x00, 0x63, 0x36, 0x1C, 0x1C, 0x36, 0x63, 0x00]

  /** The up and down arrows are mirror images of each other top to bottom:
      row k of one is row 7-k of the other. */
  lemma ArrowsMirror(c: int, k: int)
    requires 0 <= c < 8 && 0 <= k < 8
    ensures BitOf(ArrowUp[c], k) == BitOf(ArrowDown[c], 7 - k)
  {
  }
}
