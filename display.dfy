/** The high-level display: a device connection, a frame buffer drawn into
    locally, and the current font. Drawing touches only the frame buffer;
    `Update` is the single point where the picture reaches the device. */
module Displays {
  import opened Util
  import opened Raster
  import opened FrameBuffers
  import opened Fonts
  import opened Devices
  import WireFormat
  import Protocol
  import Bresenham

  /** Where `PrintLineCentered` starts text of width w: half the spare room,
      rounded toward zero, and never left of column 0. */
  function CenteredX(w: int): (x: int)
    ensures x >= 0
    ensures 0 <= w <= Width ==> x <= Width - w - x <= x + 1
    ensures w >= Width ==> x == 0
  {
    Max(Quot(Width - w, 2), 0)
  }

  /** Where `PrintLineRight` starts text of width w: flush with the right
      edge, or at column 0 when the text is wider than the display. */
  function RightX(w: int): (x: int)
    ensures x >= 0
    ensures 0 <= w <= Width ==> x + w == Width
    ensures w >= Width ==> x == 0
  {
    Max(Width - w, 0)
  }

  /** An uploaded frame is one `ESC 'G'` command that shows exactly the grid
      it was encoded from. */
  lemma UploadShowsFrame(g: Grid)
    requires IsGrid(g)
    ensures var img := WireFormat.Encode(g);
      Protocol.ParseAll([Protocol.Esc, Protocol.CmdUpload] + img) == Some([Protocol.Upload(img)])
      && WireFormat.Decode(img) == g
  {
    var img := WireFormat.Encode(g);
    var cs := [Protocol.Upload(img)];
    assert cs[1..] == [];
    assert Protocol.EncodeAll(cs) == [Protocol.Esc, Protocol.CmdUpload] + img + [];
    assert [Protocol.Esc, Protocol.CmdUpload] + img + [] == [Protocol.Esc, Protocol.CmdUpload] + img;
    Protocol.ParseAllEncodeAll(cs);
    WireFormat.DecodeEncode(g);
  }

  class Display {
    const device: Device
    const fb: FrameBuffer
    var font: Font

    predicate Valid()
      reads this, fb
    {
      fb.Valid()
    }

    /** `New`: opening the device cannot fail, so neither can this; the
        frame buffer starts blank and nothing is sent (no `Init`). */
    constructor New(portPath: string, f: Font)
      ensures Valid() && fresh(device) && fresh(fb) && fresh(fb.data)
      ensures device.portPath == portPath && device.buffer == [] && device.sent == []
      ensures fb.Pixels() == Blank() && font == f
    {
      device := new Device.Open(portPath);
      fb := new FrameBuffer();
      font := f;
    }

    constructor NewWithDevice(device: Device, f: Font)
      ensures Valid() && this.device == device && fresh(fb) && fresh(fb.data)
      ensures fb.Pixels() == Blank() && font == f
    {
      this.device := device;
      fb := new FrameBuffer();
      font := f;
    }

    method Close(outcome: SendOutcome) returns (err: Option<Error>)
      modifies device
      ensures device.FlushedFrom(old(device.buffer), old(device.sent), outcome, err)
    {
      err := device.Close(outcome);
    }

    method SetFont(f: Font)
      modifies this
      ensures font == f
    {
      font := f;
    }

    /** Clears the frame buffer only; the device is not told. */
    method Clear() returns (err: Option<Error>)
      requires Valid()
      modifies fb.data
      ensures fb.Pixels() == Blank() && err == None
    {
      fb.Clear();
      err := None;
    }

    /** Encodes the frame buffer and uploads it in one flush. */
    method Update(outcome: SendOutcome) returns (err: Option<Error>)
      requires Valid()
      modifies device
      ensures device.FlushedFrom(old(device.buffer) + [0x1B, 0x47] + WireFormat.Encode(fb.Pixels()),
                                 old(device.sent), outcome, err)
    {
      var data := fb.ToDeviceFormat();
      err := device.UploadImage(data, outcome);
    }

    method ClearAndUpdate(outcome: SendOutcome) returns (err: Option<Error>)
      requires Valid()
      modifies fb.data, device
      ensures fb.Pixels() == Blank()
      ensures device.FlushedFrom(old(device.buffer) + [0x1B, 0x47] + WireFormat.Encode(Blank()),
                                 old(device.sent), outcome, err)
    {
      fb.Clear();
      err := Update(outcome);
    }

    method Print(x: int, y: int, text: seq<char>)
      requires Valid()
      modifies fb.data
      ensures fb.Pixels() == Paint(old(fb.Pixels()), TextPoints(font, x, y, text), true)
    {
      var _ := RenderText(fb, font, x, y, text);
    }

    method PrintInverted(x: int, y: int, text: seq<char>)
      requires Valid()
      modifies fb.data
      ensures fb.Pixels() == InvertedText(old(fb.Pixels()), font, x, y, text)
    {
      var _ := RenderTextInverted(fb, font, x, y, text);
    }

    /** Text at column 0 of line `line`, a line being one font height. */
    method PrintLine(line: int, text: seq<char>)
      requires Valid()
      modifies fb.data
      ensures fb.Pixels() == Paint(old(fb.Pixels()), TextPoints(font, 0, line * font.height, text), true)
    {
      var y := line * font.height;
      var _ := RenderText(fb, font, 0, y, text);
    }

    method PrintLineCentered(line: int, text: seq<char>)
      requires Valid()
      modifies fb.data
      ensures fb.Pixels() == Paint(old(fb.Pixels()),
        TextPoints(font, CenteredX(TextWidth(font, text)), line * font.height, text), true)
    {
      var y := line * font.height;
      var width := MeasureText(font, text);
      var x := Quot(Width - width, 2);
      if x < 0 {
        x := 0;
      }
      var _ := RenderText(fb, font, x, y, text);
    }

    method PrintLineRight(line: int, text: seq<char>)
      requires Valid()
      modifies fb.data
      ensures fb.Pixels() == Paint(old(fb.Pixels()),
        TextPoints(font, RightX(TextWidth(font, text)), line * font.height, text), true)
    {
      var y := line * font.height;
      var width := MeasureText(font, text);
      var x := Width - width;
      if x < 0 {
        x := 0;
      }
      var _ := RenderText(fb, font, x, y, text);
    }

    /** `MaxLines`: how many lines of the font's height the 64 rows hold
        (Go's truncating division; a zero height would panic). */
    function MaxLines(): (n: int)
      reads this
      requires font.height != 0
      ensures font.height >= 1 ==> n >= 0 && n * font.height <= Height < (n + 1) * font.height
    {
      Quot(Height, font.height)
    }

    method SetBacklight(level: bv8) returns (err: Option<Error>)
      modifies device
      ensures device.buffer == old(device.buffer) + [0x1B, 0x42, level] && device.sent == old(device.sent)
      ensures err == None
    {
      err := device.SetBacklight(level);
    }

    method SetLED(led: int, color: int, outcome: SendOutcome) returns (err: Option<Error>)
      modifies device
      ensures device.FlushedFrom(old(device.buffer) + Protocol.EncodeAll(Protocol.ColorCommands(led, color)),
                                 old(device.sent), outcome, err)
    {
      err := device.SetLED(led, color, outcome);
    }

    method DrawLine(x1: int, y1: int, x2: int, y2: int)
      requires Valid()
      modifies fb.data
      ensures fb.Pixels() == Paint(old(fb.Pixels()), PointsOf(Bresenham.Line(x1, y1, x2, y2)), true)
    {
      fb.DrawLine(x1, y1, x2, y2, true);
    }

    method DrawRect(x: int, y: int, w: int, h: int)
      requires Valid()
      modifies fb.data
      ensures fb.Pixels() == Paint(old(fb.Pixels()), Outline(x, y, w, h), true)
    {
      fb.DrawRect(x, y, w, h, true);
    }

    method FillRect(x: int, y: int, w: int, h: int)
      requires Valid()
      modifies fb.data
      ensures fb.Pixels() == Paint(old(fb.Pixels()), FilledBox(x, y, w, h), true)
    {
      fb.FillRect(x, y, w, h, true);
    }

    method SetPixel(x: int, y: int, on: bool)
      requires Valid()
      modifies fb.data
      ensures fb.Pixels() == WithPixel(old(fb.Pixels()), x, y, on)
    {
      fb.SetPixel(x, y, on);
    }
  }
}
