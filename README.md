# EZIO-G500 LCD driver stack, modelled in Dafny

This project models the deterministic core of the EZIO-G500 driver stack.
The EZIO-G500 is the 128x64 monochrome front-panel LCD, with three bicolour
LEDs and six keys, found on some firewall appliances. The model covers each
layer of the stack:

- **Frame buffer** (`framebuffer.dfy`, `raster.dfy`, `bresenham.dfy`). A class
  over a flat `array<bool>` of 8192 pixels, with its drawing primitives. Each
  drawing method is specified as a `Paint` of a point set on the grid value.
- **Wire format** (`wireformat.dfy`). The 1024-byte upload image: 8-row bands,
  column bytes with bit 0 at the top, and the two 512-byte halves interleaved
  on the wire. Encoding and decoding are proved to be mutual inverses.
- **Device** (`device.dfy`). The buffered connection. Commands accumulate in a
  byte buffer, and a flush hands the whole buffer to the external sender.
- **Command protocol** (`protocol.dfy`). The command vocabulary (ESC `@`,
  `B`, `G`, `L`, `P`, `S`, `r`, `[`, FF, VT) with a display-side parser as
  its partner, and the LED codes with a lamp semantics: which half of which
  LED is lit.
- **Buttons** (`buttons.dfy`). Key bytes, the two readers, and the bounded
  key channel that drops keys when it is full.
- **Fonts** (`font.dfy`). Text width and the glyph-column renderer, plain and
  inverted.
- **Display facade** (`display.dfy`) and **widgets** (`widgets.dfy`).
- **Menus** (`menu.dfy`). Pointer-linked `Menu` objects with
  selection that skips disabled items and wraps round, the scroll window, and
  the per-key step of the menu controller.
- **Status daemon** (`status.dfy`, `screens.dfy`). The metrics history, the
  per-interface rate tables with pruning, the LED rules, screen rotation, the
  marquee `scrollText`, the interface filters of the traffic screens, and
  their paging.
- **Templates** (`templates.dfy`). The status template renderer, the system
  and network templates, `formatDuration`, and the multi-screen cycler.

Go's `/` and `%` truncate toward zero. They are modelled by `Util.Quot` and
`Util.Rem`. `uint64` counter arithmetic wraps, modelled by `Util.WrapSub` and
`Util.WrapAdd`. Floating-point values (CPU load, memory percentage, rates) are
modelled as `real`.

Everything outside the program is a parameter:

- how the external `cu` send went (`SendOutcome`);
- what a metrics fetch returned (`Option<Metrics>`);
- each reading of the clock (an integer count of nanoseconds; a metrics fetch reads it twice, once in the history and once for the rate tables);
- the bytes a read returned;
- the errors of menu actions and screen renderers;
- the font.

Behaviours of the code a reader might not expect:

- The LAN traffic screen pages every 25 frames. The interface and tunnel
  screens page every 15.
- `FillRect` and `DrawHLine` with a width of zero or less go through the
  endpoint swap of `DrawHLine`. So `FillRect(x, y, 0, h)` lights columns
  x-1 and x. As a result, empty inverted text leaves a two-pixel-wide bar
  (`Fonts.EmptyInvertedBar`).
- The memory percentage divides by `MemTotal` even when it is zero. Go's
  float division then gives +Inf when memory is used and NaN when it is not.
  The LED rules are modelled with exactly that outcome (`StatusDaemons.MemAbove`).

## Model

| member | source | states |
|---|---|---|
| Util.Quot | pkg/display/templates.go:143-145 | Go's truncating division: the magnitude is the quotient of the magnitudes, and the result is negative exactly when the signs differ and the quotient is non-zero |
| Util.Rem | pkg/display/templates.go:143-145 | Go's remainder: it pairs with `Quot` to rebuild the dividend, its magnitude is the remainder of the magnitudes, and it carries the dividend's sign |
| Util.WrapSub | pkg/pfsense/screens.go:79-80 | `uint64` subtraction: the result is a `uint64` congruent to a - b, and when b <= a it is exactly a - b |
| Util.WrapAdd | pkg/pfsense/screens.go:72-75 | `uint64` addition: the result is a `uint64` congruent to a + b |
| Util.DecimalString | pkg/display/templates.go:148-153 | `%d` prints a non-empty string: a leading digit for naturals, a minus sign followed by the digits for negatives |
| Util.DecimalStringInjective | pkg/display/templates.go:148-153 | `%d` never prints two integers the same way |
| Util.DigitsRoundTrip | pkg/display/templates.go:148-153 | reading back the printed digits gives the number |
| Raster.IsGrid | pkg/eziog500/framebuffer.go:14-27 | a grid is exactly 128 x 64 pixels |
| Raster.InBounds | pkg/eziog500/framebuffer.go:54-68 | the bounds test of `SetPixel`/`GetPixel`: 0 <= x < 128 and 0 <= y < 64 |
| Raster.Idx | pkg/eziog500/framebuffer.go:54-59 | each on-screen pixel has its own storage cell, row-major |
| Raster.PointOf | pkg/eziog500/framebuffer.go:54-59 | the inverse of `Idx`: every storage cell belongs to exactly one pixel |
| Raster.GridExt | pkg/eziog500/framebuffer.go:14-18 | two grids that agree on every pixel are equal |
| Raster.Blank | pkg/eziog500/framebuffer.go:30-41 | the cleared grid: every pixel is off |
| Raster.Solid | pkg/eziog500/framebuffer.go:44-50 | the filled grid: every on-screen pixel is on |
| Raster.Inverted | pkg/eziog500/framebuffer.go:79-85 | `InvertAll`: every on-screen pixel is flipped |
| Raster.InvertedTwice | pkg/eziog500/framebuffer.go:79-85 | inverting twice gives back the grid |
| Raster.WithPixel | pkg/eziog500/framebuffer.go:54-59 | `SetPixel` as a value: only pixel (x, y) may change, it takes `on`, and writes outside the display change nothing |
| Raster.Toggled | pkg/eziog500/framebuffer.go:71-76 | `Invert` as a value: only pixel (x, y) flips, and nothing changes off the display |
| Raster.ToggledTwice | pkg/eziog500/framebuffer.go:71-76 | toggling the same pixel twice gives back the grid |
| Raster.Paint | pkg/eziog500/framebuffer.go:194-226 | every on-screen pixel of the point set takes `on`, and every other pixel is unchanged |
| Raster.PaintNothing | pkg/eziog500/framebuffer.go:194-201 | painting no points leaves the grid as it was |
| Raster.PaintUnion | pkg/eziog500/framebuffer.go:214-226 | two paints in the same colour are one paint of the union, which is how the line loops compose |
| Raster.PaintOneMore | pkg/eziog500/framebuffer.go:194-211 | one more `SetPixel` after a paint extends the painted set by that point |
| Raster.PaintEverything | pkg/eziog500/framebuffer.go:35-50 | painting every pixel does not depend on the old grid, so `Clear`/`Fill` forget the old picture |
| Raster.PointsOf | pkg/eziog500/framebuffer.go:229-257 | the points of a plotted sequence are exactly its elements |
| Raster.FilledBoxExact | pkg/eziog500/framebuffer.go:222-226 | for positive width and height, `FillRect` covers exactly the w x h rectangle at (x, y) |
| Raster.OutlineShape | pkg/eziog500/framebuffer.go:214-219 | a `DrawRect` outline of size at least 1x1 holds its four corners, and every point lies on one of the four edges |
| Raster.MaskIsShift | pkg/eziog500/framebuffer.go:109-113 | the byte table `Mask(k)` is the shift `1 << k` the loop uses |
| WireFormat.IsImage | pkg/eziog500/framebuffer.go:27 | an upload image is 1024 bytes |
| WireFormat.WireOffset | pkg/eziog500/framebuffer.go:124-142 | the wire position of the byte for column x of a band, after the half interleave, is in range |
| WireFormat.WireIndex | pkg/eziog500/framebuffer.go:99-145 | the image byte holding pixel (x, y) is in range |
| WireFormat.WireColumn | pkg/eziog500/framebuffer.go:148-180 | the display column an image byte belongs to is a column of the display |
| WireFormat.WireBand | pkg/eziog500/framebuffer.go:148-180 | the band an image byte belongs to is one of the eight bands |
| WireFormat.OffsetPlacement | pkg/eziog500/framebuffer.go:124-168 | byte positions and (column, band) pairs correspond one to one |
| WireFormat.WirePlacement | pkg/eziog500/framebuffer.go:124-168 | the wire position of an image byte's (column, band) is that byte |
| WireFormat.WirePlacementInverse | pkg/eziog500/framebuffer.go:124-168 | the (column, band) of a (column, band)'s wire position is that pair |
| WireFormat.PackBits | pkg/eziog500/framebuffer.go:106-117 | the column byte's bit k is the pixel k rows into the band, for k below n |
| WireFormat.ByteExt | pkg/eziog500/framebuffer.go:106-117 | bytes with the same eight bits are equal |
| WireFormat.RawIndex | pkg/eziog500/framebuffer.go:103-116 | the column-major intermediate index band*128 + x is in range |
| WireFormat.Encode | pkg/eziog500/framebuffer.go:99-145 | `ToDeviceFormat` as a value: it yields a 1024-byte image |
| WireFormat.Decode | pkg/eziog500/framebuffer.go:148-180 | `FromDeviceFormat` as a value: it yields a grid |
| WireFormat.EncodeBit | pkg/eziog500/framebuffer.go:99-145 | pixel (x, y) is bit y mod 8 of image byte `WireIndex(x, y)` |
| WireFormat.DecodedPixel | pkg/eziog500/framebuffer.go:148-180 | the decoded pixel (x, y) is that bit of that byte |
| WireFormat.DecodeEncode | pkg/eziog500/framebuffer_test.go:114-139 | decoding an encoded grid gives back the grid |
| WireFormat.EncodeDecode | pkg/eziog500/framebuffer.go:99-180 | encoding the decoded grid gives back every 1024-byte image, so the two formats are in bijection |
| WireFormat.TwoPixelImage | pkg/eziog500/framebuffer_test.go:86-94 | the grid with only (0,0) and (0,7) lit uploads as 0x81 followed by 1023 zero bytes |
| FrameBuffers.FrameBuffer.Pixels | pkg/eziog500/framebuffer.go:14-18 | the buffer's contents as a grid |
| FrameBuffers.FrameBuffer.Clear | pkg/eziog500/framebuffer.go:35-41 | afterwards the buffer is the blank grid |
| FrameBuffers.FrameBuffer.Fill | pkg/eziog500/framebuffer.go:44-50 | afterwards the buffer is the solid grid |
| FrameBuffers.FrameBuffer.SetPixel | pkg/eziog500/framebuffer.go:54-59 | the new grid is `WithPixel` of the old one |
| FrameBuffers.FrameBuffer.GetPixel | pkg/eziog500/framebuffer.go:63-68 | returns the pixel, or false off the display, and changes nothing |
| FrameBuffers.FrameBuffer.Invert | pkg/eziog500/framebuffer.go:71-76 | the new grid is `Toggled` of the old one |
| FrameBuffers.FrameBuffer.InvertAll | pkg/eziog500/framebuffer.go:79-85 | the new grid is `Inverted` of the old one |
| FrameBuffers.FrameBuffer.PackColumn | pkg/eziog500/framebuffer.go:107-117 | the byte it assembles bit by bit is the column byte of the band |
| FrameBuffers.FrameBuffer.PackAll | pkg/eziog500/framebuffer.go:104-118 | the column-major layout holds, at band*128 + x, the column byte of that band |
| FrameBuffers.Split | pkg/eziog500/framebuffer.go:124-142 | image byte i is the column-major byte of the column and band that byte i stands for |
| FrameBuffers.FrameBuffer.ToDeviceFormat | pkg/eziog500/framebuffer.go:99-145 | returns exactly `Encode` of the pixels, through the column-major layout and the half interleave, and leaves the buffer unchanged |
| FrameBuffers.FrameBuffer.FromDeviceFormat | pkg/eziog500/framebuffer.go:148-180 | afterwards the buffer is `Decode` of the image |
| FrameBuffers.Unsplit | pkg/eziog500/framebuffer.go:149-168 | undoing the half interleave puts each wire byte back at its column-major index |
| FrameBuffers.UnsplitHalf | pkg/eziog500/framebuffer.go:152-168 | one half's loop fills the column-major bytes of its 64 columns and leaves the other half's bytes alone |
| FrameBuffers.FrameBuffer.UnpackColumn | pkg/eziog500/framebuffer.go:173-177 | the 8 rows of the band take the byte's 8 bits, bit 0 at the top, and no other pixel changes |
| FrameBuffers.FrameBuffer.DecodeColumn | pkg/eziog500/framebuffer.go:172-178 | the whole column becomes `Decode` of the image, and no other column changes |
| FrameBuffers.DecodedBit | pkg/eziog500/framebuffer.go:170-179 | bit `bit` of the column-major byte becomes the pixel `bit` rows into the band |
| FrameBuffers.FrameBuffer.Copy | pkg/eziog500/framebuffer_test.go:233-247 | a fresh buffer with the same pixels, so later writes to either do not reach the other |
| FrameBuffers.FrameBuffer.DrawHLine | pkg/eziog500/framebuffer.go:194-201 | paints `HSpan`: row y from the smaller to the larger x |
| FrameBuffers.FrameBuffer.DrawVLine | pkg/eziog500/framebuffer.go:204-211 | paints `VSpan`: column x from the smaller to the larger y |
| FrameBuffers.FrameBuffer.DrawRect | pkg/eziog500/framebuffer.go:214-219 | paints the four edges |
| FrameBuffers.FrameBuffer.FillRect | pkg/eziog500/framebuffer.go:222-226 | paints rows y .. y+h-1, each as `DrawHLine(x, x+w-1)` |
| FrameBuffers.FrameBuffer.DrawLine | pkg/eziog500/framebuffer.go:229-257 | paints exactly the cells of the Bresenham walk `Bresenham.Line` |
| FrameBuffers.Round | pkg/eziog500/framebuffer.go:246-254 | the error update of one round is the `Bresenham.Step` the walk is defined by |
| Bresenham.StepOnCourse | pkg/eziog500/framebuffer.go:240-256 | a round of the loop that starts on course and away from the end stays on course and moves one cell toward the end |
| Bresenham.ErrorBounds | pkg/eziog500/framebuffer.go:245-255 | the error-term tests never step an axis that is already done, and always step at least one axis |
| Bresenham.Plot | pkg/eziog500/framebuffer.go:240-256 | the cells plotted from a state start at that state's cell and end at the end point |
| Bresenham.States | pkg/eziog500/framebuffer.go:240-256 | the loop passes through finitely many states, the last at the end point |
| Bresenham.PlotStates | pkg/eziog500/framebuffer.go:240-256 | the plotted cells are the positions of the loop states |
| Bresenham.PlotStep | pkg/eziog500/framebuffer.go:240-256 | one round plots the current cell, then the cells from the next state |
| Bresenham.LineShape | pkg/eziog500/framebuffer.go:229-257 | the line starts at (x1, y1) and ends at (x2, y2), each cell is an 8-connected neighbour of the one before, and every cell lies in the bounding box of the end points |
| Bresenham.StepNearLine | pkg/eziog500/framebuffer.go:245-255 | a round keeps the error term within half the longer distance of the ideal line |
| Bresenham.PlotLength | pkg/eziog500/framebuffer.go:240-256 | near the ideal line every round steps along the longer axis, so the cells left are the distance left along it plus one |
| Bresenham.LineLength | pkg/eziog500/framebuffer.go:229-257 | the line has max(abs(x2 - x1), abs(y2 - y1)) + 1 cells |
| Bresenham.LineApproaches | pkg/eziog500/framebuffer.go:229-257 | no cell is farther from (x2, y2), along either axis, than the cell before it |
| Bresenham.HorizontalLine | pkg/eziog500/framebuffer_test.go:212-216 | a horizontal line plots exactly the cells `DrawHLine` would |
| Bresenham.VerticalLine | pkg/eziog500/framebuffer.go:204-211 | a vertical line plots exactly the cells `DrawVLine` would |
| Bresenham.DiagonalLine | pkg/eziog500/framebuffer.go:229-257 | a 45-degree line plots cell i at (x1 + i*sx, y1 + i*sy) and no others |
| Bresenham.DiagonalExample | pkg/eziog500/framebuffer_test.go:218-223 | the line from (0,0) to (20,20) passes through (10,10) |
| Protocol.DirectionOf | pkg/eziog500/commands.go:31-38 | a direction number maps to one of the four directions, and unknown numbers map to Up |
| Protocol.TextCommands | pkg/eziog500/commands.go:125-127 | text becomes one character command per byte |
| Protocol.Parse | pkg/eziog500/commands.go:4-28 | the parser consumes a non-empty prefix and returns the rest |
| Protocol.ParseEscape | pkg/eziog500/commands.go:4-28 | the ESC-prefixed commands consume their fixed argument lengths, with 1024 bytes for ESC `G` |
| Protocol.ParseEncode | pkg/eziog500/commands.go:4-28 | the display reads every well-formed command back from its encoding, whatever follows |
| Protocol.ParseExact | pkg/eziog500/commands.go:4-28 | whatever the parser reads is exactly the encoding of a well-formed command, followed by the rest |
| Protocol.ParseAllEncodeAll | pkg/eziog500/commands.go:4-28 | a stream of well-formed commands parses back to itself |
| Protocol.EncodeAllParseAll | pkg/eziog500/commands.go:4-28 | a stream that parses is the encoding of what it parses to |
| Protocol.EncodeNonEmpty | pkg/eziog500/commands.go:4-28 | every command encodes to at least one byte |
| Protocol.EncodeAllAppend | pkg/eziog500/commands.go:4-28 | encoding distributes over concatenation |
| Protocol.TextRoundTrip | pkg/eziog500/commands.go:125-127 | text without control bytes reaches the display as that text |
| Protocol.LedIndex | pkg/eziog500/led.go:49-62 | out-of-range LED numbers address LED1 |
| Protocol.LedCodes | pkg/eziog500/led.go:28-38 | LED k's red half is addressed by 0x10*(2k+1) and its green half by 0x10*(2k+2) |
| Protocol.ColorCommandsShape | pkg/eziog500/led.go:64-97 | `SetLED` sends two LED commands for the four colours and none otherwise, each carrying one of the LED's codes with status 0 or 1 |
| Protocol.ColorPairShape | pkg/eziog500/led.go:64-97 | the two commands per colour: off turns both halves off, red turns green off then red on, green turns red off then green on, orange turns both on |
| Protocol.LedPair | pkg/eziog500/led.go:64-97 | two LED commands encode as two 3-byte `ESC 'L' v` groups |
| Protocol.IsLamps | pkg/eziog500/led.go:3-4 | three LEDs, each with a red and a green half |
| Protocol.ApplyLed | pkg/eziog500/led.go:25-38 | `ESC 'L' v` sets the half its high nibble selects to bit 0 of v, and changes nothing else |
| Protocol.Lamps | pkg/eziog500/led.go:25-38 | a command stream changes only the lamps its LED commands address |
| Protocol.SetLedEffect | pkg/eziog500/led.go:40-101 | whatever the LEDs showed before, the commands of `SetLED(led, colour)` leave the addressed LED showing exactly that colour (red, green, both or neither) and the other LEDs untouched |
| Protocol.LedCodeMeaning | pkg/eziog500/led.go:28-38 | the six code bytes decode to their LED index and their red or green half |
| Protocol.SwitchHalf | pkg/eziog500/led.go:28-38 | the code byte of one half of an LED, with the status bit on or off, switches exactly that half of that LED and leaves every other half as it was |
| Protocol.ColorSteps | pkg/eziog500/led.go:40-101 | the two commands of a colour, one per half, leave the LED showing both halves as commanded and the other LEDs as they were |
| Protocol.LampsAppend | pkg/eziog500/led.go:46-101 | the lamps after two command streams are the lamps after the first, then the second |
| Devices.SendError | pkg/eziog500/device.go:104-121 | the flush reports an error exactly when the send did not go through |
| Devices.Device.Open | pkg/eziog500/device.go:51-60 | opening cannot fail, and starts with an empty buffer and an empty log |
| Devices.Device.Write | pkg/eziog500/device.go:166-187 | appends the data to the buffer, sends nothing, and cannot fail |
| Devices.Device.Flush | pkg/eziog500/device.go:86-153 | an empty buffer is not sent; a delivered send logs the whole buffer and empties it; a failed send reports its error and keeps the buffer |
| Devices.Device.Close | pkg/eziog500/device.go:69-83 | flushes only when something is buffered |
| Devices.Device.Read | pkg/eziog500/device.go:198-200 | no byte and end of file |
| Devices.Device.Init | pkg/eziog500/commands.go:42-44 | buffers ESC `@` |
| Devices.Device.Clear | pkg/eziog500/commands.go:47-49 | buffers FF (0x0C) |
| Devices.Device.Home | pkg/eziog500/commands.go:52-54 | buffers VT (0x0B) |
| Devices.Device.SetBacklight | pkg/eziog500/commands.go:58-60 | buffers ESC `B` and the level |
| Devices.Device.UploadImage | pkg/eziog500/commands.go:66-77 | ESC `G` and the 1024 image bytes are buffered, then flushed at once |
| Devices.Device.ShowPage | pkg/eziog500/commands.go:80-82 | buffers ESC `P` and the page |
| Devices.Device.SavePage | pkg/eziog500/commands.go:85-87 | buffers ESC `S` and the page |
| Devices.Device.SetInverted | pkg/eziog500/commands.go:90-96 | buffers ESC `r` and 1 or 0 |
| Devices.Device.MoveCursor | pkg/eziog500/commands.go:99-114 | buffers ESC `[` and A/B/C/D, with A for unknown directions |
| Devices.Device.CursorHome | pkg/eziog500/commands.go:117-119 | buffers ESC `[` `H` |
| Devices.Device.WriteText | pkg/eziog500/commands.go:125-127 | buffers the text's bytes unchanged |
| Devices.Device.WriteTextLine | pkg/eziog500/commands.go:131-136 | buffers the text followed by a line feed |
| Devices.Device.SetLED | pkg/eziog500/led.go:46-101 | buffers the colour's LED commands, then flushes |
| Devices.Device.WriteColor | pkg/eziog500/led.go:64-97 | buffers exactly `ColorCommands(led, colour)` |
| Devices.Device.WriteCodes | pkg/eziog500/led.go:67-96 | buffers the two LED commands, one write each |
| Devices.Device.SetLEDRaw | pkg/eziog500/led.go:105-107 | buffers ESC `L` and the raw value, without a flush |
| Buttons.IsKey | pkg/eziog500/buttons.go:10-19 | the key bytes are 0x41 .. 0x47 |
| Buttons.Name | pkg/eziog500/buttons.go:22-41 | a byte is named something other than "None" exactly when it is a key |
| Buttons.NameInjective | pkg/eziog500/buttons.go:22-41 | distinct keys have distinct names |
| Buttons.FirstKey | pkg/eziog500/buttons.go:59-70 | a failed or empty read gives no key; otherwise the key is the byte read |
| Buttons.ButtonReader.ReadButton | pkg/eziog500/buttons.go:59-70 | over the device, whose reads return nothing, no key is ever reported |
| Buttons.LastKeyMeaning | pkg/eziog500/buttons.go:139-155 | the key found is none exactly when every byte is zero; otherwise it is a byte of the read followed only by zeros |
| Buttons.SessionReadButton | pkg/eziog500/buttons.go:139-155 | the backward scan returns the last non-zero byte of the read, or none on a failed or empty read |
| Buttons.ButtonQueue.Valid | pkg/eziog500/buttons.go:92 | the channel holds at most 10 keys |
| Buttons.ButtonQueue.Offer | pkg/eziog500/buttons.go:108-112 | a non-blocking send: accepted exactly when there is room, appended then, and queued keys are never disturbed |
| Buttons.ButtonQueue.Receive | pkg/eziog500/buttons.go:91-125 | returns the oldest key and removes it, or nothing from an empty channel |
| Buttons.Keys | pkg/eziog500/buttons.go:177-187 | the non-zero bytes of a read, in order |
| Buttons.EnqueuedKeys | pkg/eziog500/buttons.go:177-187 | the queued keys stay, the read's non-zero keys follow in order until the capacity is reached, and the rest are dropped |
| Buttons.PollSession | pkg/eziog500/buttons.go:171-188 | one read of the session poller offers each non-zero byte in turn |
| Buttons.PollDevice | pkg/eziog500/buttons.go:104-114 | one read of the device poller offers its byte when it is non-zero |
| Fonts.TextWidthAppend | pkg/font/font.go:77-86 | text width is additive over concatenation |
| Fonts.TextWidthUnknown | pkg/font/font.go:77-86 | characters without a glyph add no width |
| Fonts.MeasureText | pkg/font/font.go:77-86 | the loop returns the sum of the glyph widths of the text |
| Fonts.MeasureTextRunes | pkg/font/font.go:89-98 | the loop returns the sum of the positive reported widths |
| Fonts.RunesWidthAgrees | pkg/font/font.go:77-98 | when a font reports each glyph's column count as its width, the two measures agree |
| Fonts.TextPointsBounds | pkg/font/font.go:25-45 | rendered text stays in the 8 rows from y and the columns from x to x + width - 1 |
| Fonts.DrawBitmap | pkg/font/font.go:33-41 | the column loops light exactly the set bits of each column byte, and never clear a pixel |
| Fonts.DrawColumn | pkg/font/font.go:35-40 | one column byte: bit k lights (x, y+k) |
| Fonts.DrawText | pkg/font/font.go:25-74 | the glyph loop paints every glyph at its pen position and returns x plus the text width |
| Fonts.RenderText | pkg/font/font.go:25-45 | paints the text's lit pixels on the grid and returns the x after the text |
| Fonts.RenderTextInverted | pkg/font/font.go:48-74 | fills the text's box, then clears the glyph pixels |
| Fonts.InvertedText | pkg/font/font.go:48-74 | the picture inverted rendering leaves on a grid |
| Fonts.InvertedIsNegation | pkg/font/font.go:48-74 | inside the box of non-empty text, inverted rendering is the exact negation of plain rendering on a blank grid |
| Fonts.EmptyInvertedBar | pkg/font/font.go:48-74 | empty text measures 0, yet a two-pixel-wide bar, columns x-1 and x, is lit because `FillRect` swaps the ends of an empty span |
| Displays.CenteredX | pkg/display/display.go:98-106 | centred text starts at half the spare room, so the right margin is the left margin or one more, and at 0 when the text is too wide |
| Displays.RightX | pkg/display/display.go:109-117 | right-aligned text ends at column 128, or starts at 0 when too wide |
| Displays.UploadShowsFrame | pkg/display/display.go:70-73 | an uploaded frame is one ESC `G` command that the display decodes to exactly the frame buffer's picture |
| Displays.Display.New | pkg/display/display.go:17-32 | a blank frame buffer on a freshly opened device, nothing sent |
| Displays.Display.NewWithDevice | pkg/display/display.go:35-41 | a blank frame buffer on the given device |
| Displays.Display.Close | pkg/display/display.go:44-46 | closes the device |
| Displays.Display.SetFont | pkg/display/display.go:59-61 | the font is replaced |
| Displays.Display.Clear | pkg/display/display.go:64-67 | clears only the frame buffer, and cannot fail |
| Displays.Display.Update | pkg/display/display.go:70-73 | uploads the encoded frame buffer in one flush |
| Displays.Display.ClearAndUpdate | pkg/display/display.go:76-79 | uploads a blank frame |
| Displays.Display.Print | pkg/display/display.go:82-84 | renders text at (x, y) |
| Displays.Display.PrintInverted | pkg/display/display.go:87-89 | renders inverted text at (x, y) |
| Displays.Display.PrintLine | pkg/display/display.go:92-95 | renders text at column 0 of row line * font height |
| Displays.Display.PrintLineCentered | pkg/display/display.go:98-106 | renders text at `CenteredX` of its width |
| Displays.Display.PrintLineRight | pkg/display/display.go:109-117 | renders text at `RightX` of its width |
| Displays.Display.MaxLines | pkg/display/display.go:120-122 | the largest number of font-height lines that fit in 64 rows |
| Displays.Display.SetBacklight | pkg/display/display.go:125-127 | buffers the backlight command |
| Displays.Display.SetLED | pkg/display/display.go:130-132 | the device's `SetLED` |
| Displays.Display.DrawLine | pkg/display/display.go:135-137 | lights the Bresenham line |
| Displays.Display.DrawRect | pkg/display/display.go:140-142 | lights the rectangle outline |
| Displays.Display.FillRect | pkg/display/display.go:145-147 | lights the filled rectangle |
| Displays.Display.SetPixel | pkg/display/display.go:150-152 | sets one pixel |
| Widgets.Button.New | pkg/ui/widgets.go:26-34 | the button is the caption's width plus 8 and the font height plus 4, enabled and not selected |
| Widgets.Button.Look | pkg/ui/widgets.go:37-72 | the picture of a button: a filled box with inverted caption when selected, an outline otherwise, and a strike-through when disabled |
| Widgets.Button.Render | pkg/ui/widgets.go:37-72 | draws exactly `Look` |
| Widgets.Button.Width | pkg/ui/widgets.go:74 | the stored width |
| Widgets.Button.Height | pkg/ui/widgets.go:75 | the stored height |
| Widgets.LabelInsideButton | pkg/ui/widgets.go:26-72 | a new button holds its caption strictly inside its border |
| Widgets.SelectedButtonFace | pkg/ui/widgets.go:41-60 | inside a selected, enabled button every pixel is lit except the caption's glyph pixels |
| Widgets.Checkbox.New | pkg/ui/widgets.go:146-151 | an unchecked 8x8 box |
| Widgets.Checkbox.Toggle | pkg/ui/widgets.go:154-156 | flips the checked state and nothing else |
| Widgets.Checkbox.Look | pkg/ui/widgets.go:159-173 | the picture: the box, the tick when checked, and the caption beside it |
| Widgets.Checkbox.Render | pkg/ui/widgets.go:159-173 | draws exactly `Look` |
| Widgets.Checkbox.DrawTick | pkg/ui/widgets.go:166-169 | draws the tick's two strokes |
| Widgets.Checkbox.Width | pkg/ui/widgets.go:175-177 | the box, a 4-pixel gap, then the caption |
| Widgets.Checkbox.Height | pkg/ui/widgets.go:179 | the box size |
| Widgets.TickInsideBox | pkg/ui/widgets.go:159-173 | the tick of a checked box stays strictly inside its border |
| Widgets.Label.New | pkg/ui/widgets.go:116-118 | a label holding its text |
| Widgets.Label.Render | pkg/ui/widgets.go:121-128 | renders the text, inverted when asked |
| Widgets.Label.Width | pkg/ui/widgets.go:130-132 | the text width |
| Widgets.Label.Height | pkg/ui/widgets.go:134-136 | the font height |
| Widgets.Divider.New | pkg/ui/widgets.go:187-189 | a divider of the given width |
| Widgets.Divider.Render | pkg/ui/widgets.go:192-194 | a line across the width, one row below y |
| Widgets.Divider.Width | pkg/ui/widgets.go:196 | the stored width |
| Widgets.Divider.Height | pkg/ui/widgets.go:197 | 3 |
| Widgets.Icon.New | pkg/ui/widgets.go:200-202 | an icon of 8 column bytes |
| Widgets.Icon.Render | pkg/ui/widgets.go:205-213 | lights exactly the set bits of its 8 columns |
| Widgets.Icon.Width | pkg/ui/widgets.go:215 | 8 |
| Widgets.Icon.Height | pkg/ui/widgets.go:216 | 8 |
| Widgets.ArrowsMirror | pkg/ui/widgets.go:219-226 | the up and down arrows are mirror images of each other top to bottom |
| Menus.ScanNext | pkg/menu/menu.go:63-77 | the forward search stops at an offset within one round, at an enabled item or at full round |
| Menus.NextIndex | pkg/menu/menu.go:63-77 | the new selection indexes an item |
| Menus.ScanPrev | pkg/menu/menu.go:82-94 | the backward search stops within one round |
| Menus.PrevIndex | pkg/menu/menu.go:82-94 | the new selection indexes an item |
| Menus.CoverAll | pkg/menu/menu.go:98-105 | offsets 1 .. n from any start visit every index, so if every one is disabled, all items are |
| Menus.WrapIsRemainder | pkg/menu/menu.go:65-68 | the wrapped offsets the loops reach are the remainders of s+k and s-k modulo n |
| Menus.ScanNextMeaning | pkg/menu/menu.go:63-77 | the search stops at the first enabled item after the start; every offset before it is disabled |
| Menus.ScanPrevMeaning | pkg/menu/menu.go:82-94 | the mirror image for the backward search |
| Menus.NextIndexMeaning | pkg/menu/menu.go:63-77 | `SelectNext` lands on the first enabled item after s, wrapping, every item passed over being disabled; with every item disabled it moves exactly one place, to (s+1) mod n |
| Menus.PrevIndexMeaning | pkg/menu/menu.go:82-94 | the mirror image for `SelectPrevious` |
| Menus.ScrollKeepsVisible | pkg/menu/menu.go:107-116 | with a window of at least one row, the selection ends up in the window, and the window does not move when it already showed the selection |
| Menus.Menu.New | pkg/menu/menu.go:30-36 | first item selected, six visible rows, no parent |
| Menus.Menu.SetMaxVisible | pkg/menu/menu.go:39-41 | sets the window size only |
| Menus.Menu.AddItem | pkg/menu/menu.go:44-46 | appends the item |
| Menus.Menu.AddSubMenu | pkg/menu/menu.go:49-55 | the submenu's parent becomes this menu, and one item labelled with " >" leading to it is appended |
| Menus.Menu.AllItemsDisabled | pkg/menu/menu.go:98-105 | the loop answers whether every item is disabled |
| Menus.Menu.SelectNext | pkg/menu/menu.go:63-79 | the selection moves to `NextIndex` and the window follows it |
| Menus.Menu.SelectPrevious | pkg/menu/menu.go:82-96 | the selection moves to `PrevIndex` and the window follows it |
| Menus.Menu.MoveNext | pkg/menu/menu.go:64-77 | the search loop moves only the selection, one place at a time with wrap to 0, and stops at `NextIndex`: the first enabled item, or one place on when every item is disabled |
| Menus.Menu.MovePrevious | pkg/menu/menu.go:83-94 | the mirror-image loop, wrapping to the last item, stops at `PrevIndex` |
| Menus.NextRound | pkg/menu/menu.go:64-77 | one round of the forward loop: the increment with wrap; an enabled item, or a wholly disabled menu, ends the search at `NextIndex`; otherwise the search goes on with an untried offset left |
| Menus.PrevRound | pkg/menu/menu.go:83-94 | the same round for the backward loop |
| Menus.Menu.UpdateScroll | pkg/menu/menu.go:107-116 | slides the window just far enough to show the selection |
| Menus.Menu.Execute | pkg/menu/menu.go:120-134 | nothing for an out-of-range or disabled item; otherwise the submenu, else the action's error |
| Menus.Menu.VisibleEnd | pkg/menu/menu.go:149-153 | the rows drawn run from the scroll offset to the window's end or the last item |
| Menus.SelectedIsDrawn | pkg/menu/menu.go:107-116 | after a move, the selected row is among the rows drawn |
| Menus.Controller.New | pkg/menu/menu.go:222-229 | the controller starts at the root menu |
| Menus.Controller.Handle | pkg/menu/menu.go:242-282 | Up and Down move the selection to `PrevIndex`/`NextIndex`, move the window to `ScrollFor` and keep the menu's title, items, parent and window size; Enter and Right open a submenu or run the action; Left and Esc return to the parent, and leave from the root; other keys change nothing |
| Menus.Controller.GoToRoot | pkg/menu/menu.go:291-293 | the current menu becomes the root |
| StatusScreens.Rotated | pkg/pfsense/screens.go:310-314 | text turned left keeps its length and contents |
| StatusScreens.ScrollOffset | pkg/pfsense/screens.go:298-307 | the marquee start position lies within the padded text |
| StatusScreens.ScrollText | pkg/pfsense/screens.go:282-316 | text that fits is returned whole; longer text gives exactly `maxLen` bytes: its prefix during the 20-frame pause, otherwise the window of text plus four spaces starting at `ScrollOffset`, wrapping |
| StatusScreens.RotatedAt | pkg/pfsense/screens.go:310-314 | byte i of the rotated text is byte (k + i) mod length |
| StatusScreens.MarqueePeriodic | pkg/pfsense/screens.go:290-296 | the marquee repeats every cycle of (length + 4) * 5 + 20 frames |
| StatusScreens.MarqueeAdvances | pkg/pfsense/screens.go:289-307 | while scrolling, the window advances one byte every five frames |
| StatusScreens.SelectMeaning | pkg/pfsense/screens.go:475-480 | a screen's list holds exactly the snapshot's interfaces that screen accepts, in snapshot order, each no more often than in the snapshot |
| StatusScreens.SelectPrefix | pkg/pfsense/screens.go:531-543 | the list of a prefix of the snapshot is a prefix of the list |
| StatusScreens.LanDisjoint | pkg/pfsense/screens.go:625-641 | the LAN list shares no interface with the WAN or the tunnel list |
| StatusScreens.TrafficScreensCover | pkg/pfsense/screens.go:531-641 | every described interface appears on at least one traffic screen |
| StatusScreens.Collect | pkg/pfsense/screens.go:531-543 | the list-building loop returns the accepted interfaces in order, cut at the limit |
| StatusScreens.WanRows | pkg/pfsense/screens.go:531-543 | the WAN screen shows the first four WAN interfaces at most |
| StatusScreens.Rows | pkg/pfsense/screens.go:493-495 | the rows shown number min(5, total) |
| StatusScreens.RowsInRange | pkg/pfsense/screens.go:493-495 | every row shown indexes the list |
| StatusScreens.RowsDistinct | pkg/pfsense/screens.go:493-495 | no list entry is shown twice |
| StatusScreens.RowsCoverShortList | pkg/pfsense/screens.go:486-495 | a list of at most five is shown whole, whatever the scroll position |
| StatusScreens.PeriodOf | pkg/pfsense/screens.go:648-651 | the LAN screen turns its page every 25 frames, the interface and tunnel screens (lines 489 and 583) every 15 |
| StatusScreens.PagedList.New | pkg/pfsense/screens.go:486-490 | a paging screen's period is fixed by its kind (15 frames for the interface and tunnel screens, 25 for LAN); it starts at frame 0 and position 0; the WAN screen has no paging state |
| StatusScreens.PagedList.SetFrame | pkg/pfsense/screens.go:211-225 | the screen receives the daemon's frame count |
| StatusScreens.PagedList.Page | pkg/pfsense/screens.go:486-495 | a list longer than five moves the scroll position to (frame / period) mod length, and shorter lists keep it; row i shows the list entry `Rows(...)[i]` |
| StatusDaemons.Seconds | pkg/pfsense/screens.go:77 | the elapsed seconds are positive exactly when the elapsed time is |
| StatusDaemons.Rate | pkg/pfsense/screens.go:78-80 | the rate is non-negative, and rate times elapsed is the wrapped difference of the readings, which is the plain difference when the counter did not wrap |
| StatusDaemons.Total | pkg/pfsense/screens.go:71-75 | the summed counter is a `uint64` |
| StatusDaemons.TotalIsExactModulo | pkg/pfsense/screens.go:71-75 | the wrapping total is the exact total modulo 2^64 |
| StatusDaemons.Totals | pkg/pfsense/screens.go:71-75 | the summing loop computes both totals |
| StatusDaemons.Push | pkg/pfsense/screens.go:64-68 | the history keeps the newest `max` samples in order, ending with the new one |
| StatusDaemons.RateHistory | pkg/pfsense/screens.go:76-93 | a rate history stays within `max` samples |
| StatusDaemons.MetricsHistory.New | pkg/pfsense/screens.go:53-60 | empty histories, zero totals, no sample time |
| StatusDaemons.MetricsHistory.AddSample | pkg/pfsense/screens.go:62-96 | the CPU load is always pushed; rates are pushed only after a previous sample and a positive elapsed time; the totals and time are recorded |
| StatusDaemons.MetricsHistory.AddRates | pkg/pfsense/screens.go:76-93 | the rate part, measured against the previous totals |
| StatusDaemons.Sweep | pkg/pfsense/screens.go:166-177 | the rate pass keeps the counter table valid |
| StatusDaemons.SweepStep | pkg/pfsense/screens.go:167-176 | one interface's step keeps the counter table valid |
| StatusDaemons.FetchTables | pkg/pfsense/screens.go:152-180 | the tables after a successful fetch keep the counter table valid |
| StatusDaemons.SweepKeys | pkg/pfsense/screens.go:166-177 | the rate pass stores a counter for every interface of the snapshot and a rate for each that already had one, and, with distinct names, creates no rate without an earlier counter |
| StatusDaemons.SweepValues | pkg/pfsense/screens.go:166-177 | with distinct names, each interface's counter is its own reading and its rate is measured against its own earlier reading |
| StatusDaemons.SweepUntouched | pkg/pfsense/screens.go:166-177 | names the rate pass does not meet keep their entries |
| StatusDaemons.FetchKeepsTablesConsistent | pkg/pfsense/screens.go:152-180 | after every successful fetch, rates exist only for interfaces with a counter, and counters only for interfaces of the latest snapshot |
| StatusDaemons.SecondFetch | pkg/pfsense/screens.go:164-180 | the fetch after one that only noted the time stores a counter for exactly the snapshot's interfaces and no rate |
| StatusDaemons.RateAfterFetch | pkg/pfsense/screens.go:164-180 | a fetch after time has passed gives a rate to every snapshot interface that already had a counter |
| StatusDaemons.FirstRatesOnThirdFetch | pkg/pfsense/screens.go:164-180 | rates need three fetches: the first only notes the time, the second stores counters, the third yields rates |
| StatusDaemons.InfoColor | pkg/pfsense/screens.go:248-256 | LED1 is green exactly on screen 0, orange exactly on screens 4 to 6, off on every other screen, and never red |
| StatusDaemons.HealthColor | pkg/pfsense/screens.go:262-268 | LED2 is red exactly when CPU exceeds 90 or memory exceeds 90%, green exactly when CPU is at most 70 and memory at most 80%, and orange otherwise |
| StatusDaemons.HomeColor | pkg/pfsense/screens.go:271-276 | LED3 is green exactly on the logo screen |
| StatusDaemons.HealthMonotone | pkg/pfsense/screens.go:262-268 | more CPU or memory load never shows a calmer health colour |
| StatusDaemons.HealthBoundaries | pkg/pfsense/screens.go:262-268 | the thresholds are strict: 90% CPU is still orange, 70% still green, 90.1% red |
| StatusDaemons.StatusLampsShown | pkg/pfsense/screens.go:240-278 | whatever the LEDs showed, after `updateLEDs`' commands they show the info, health and home colours |
| StatusDaemons.RotationsAdvance | pkg/pfsense/screens.go:197-198 | k rotations advance the screen by k, wrapping |
| StatusDaemons.RotationReachesAll | pkg/pfsense/screens.go:197-198 | every screen is reached within one round of rotations |
| StatusDaemons.TrafficScreensAreOrange | pkg/pfsense/screens.go:248-256 | on the default screens, LED1 is orange exactly on the three traffic screens, green exactly on the logo, and off exactly on the CPU, memory and interface screens |
| StatusDaemons.AddedScreensAreDark | pkg/pfsense/screens.go:248-256 | a screen added after the seven defaults leaves LED1 and LED3 off |
| StatusDaemons.StatusDaemon.New | pkg/pfsense/screens.go:98-120 | the seven default screens, the logo first, a 12-sample history, empty tables, no cached metrics |
| StatusDaemons.StatusDaemon.AddScreen | pkg/pfsense/screens.go:122 | appends a screen and changes nothing else |
| StatusDaemons.StatusDaemon.Fetch | pkg/pfsense/screens.go:141-181 | a failed fetch changes nothing; a successful one caches the snapshot, adds a history sample stamped with the history's own clock reading and records the snapshot's byte totals there, prunes and updates the rate tables as `FetchTables` says against the second clock reading, and records that second reading as the sample time |
| StatusDaemons.StatusDaemon.UpdateTables | pkg/pfsense/screens.go:150-180 | the counter and rate tables become `FetchTables` of the old ones, stay consistent, and the sample time becomes now |
| StatusDaemons.StatusDaemon.Prune | pkg/pfsense/screens.go:157-162 | removes the counters and rates of interfaces gone from the snapshot |
| StatusDaemons.PruneTables | pkg/pfsense/screens.go:157-162 | the pruning loop leaves exactly the counters of names still in the snapshot, and drops the rate of every name whose counter it dropped |
| StatusDaemons.StatusDaemon.SweepRates | pkg/pfsense/screens.go:166-177 | the rate loop computes `Sweep` |
| StatusDaemons.StatusDaemon.CurrentNames | pkg/pfsense/screens.go:151-154 | the set of the snapshot's interface names |
| StatusDaemons.StatusDaemon.GetIfaceRate | pkg/pfsense/screens.go:232-237 | the stored rates, or zeros for an unknown name |
| StatusDaemons.StatusDaemon.UpdateLeds | pkg/pfsense/screens.go:240-278 | three `SetLED` calls with the info, health and home colours, each flushed on its own |
| StatusDaemons.StatusDaemon.SetLed | pkg/pfsense/screens.go:251-276 | one `SetLED` whose error is dropped |
| StatusDaemons.StatusDaemon.Render | pkg/pfsense/screens.go:204-230 | nothing until a fetch has succeeded; then the LEDs are updated and the current screen is rendered with the frame count |
| StatusDaemons.StatusDaemon.AnimationTick | pkg/pfsense/screens.go:194-196 | one more frame, then a render: the device is untouched before the first fetch, and afterwards receives the three LED commands for the current screen and the cached snapshot; the tables and sample time are unchanged |
| StatusDaemons.StatusDaemon.RotateTick | pkg/pfsense/screens.go:197-198 | the next screen, wrapping to the first; the tables and sample time are unchanged |
| Templates.LineText | pkg/display/templates.go:42-46 | a line shows its label alone when the value is empty, and otherwise the label, ": " and the value |
| Templates.Emitted | pkg/display/templates.go:36-51 | no more rows are drawn than there are lines |
| Templates.EmittedMeaning | pkg/display/templates.go:36-51 | line k is drawn at row y + k * font height with its own text, every drawn row starts above row 64, and as many lines are drawn as fit |
| Templates.FlatFontDrawsAll | pkg/display/templates.go:36-51 | with a font of height zero or less, every line is drawn |
| Templates.RenderTemplate | pkg/display/templates.go:24-54 | the uploaded picture is the cleared screen, the inverted title when there is one, then the lines that fit, one font height apart |
| Templates.DrawLines | pkg/display/templates.go:36-51 | the line loop paints exactly the rows `Emitted` lists |
| Templates.Candidates | pkg/display/templates.go:68-99 | six candidate lines, one per field |
| Templates.Present | pkg/display/templates.go:68-99 | no more lines than candidates |
| Templates.SystemTemplate | pkg/display/templates.go:68-100 | the title is "PFSENSE STATUS" and there are at most six lines |
| Templates.PresentMembership | pkg/display/templates.go:68-99 | a line is present exactly when its candidate is |
| Templates.PresentOrdered | pkg/display/templates.go:68-99 | present lines keep their candidates' order |
| Templates.CandidatesRanked | pkg/display/templates.go:68-99 | candidate k carries the k-th label of Host, Up, CPU, Mem, Load, IP |
| Templates.SystemTemplateOrder | pkg/display/templates.go:68-99 | every line carries one of the six labels, in that order, so none is repeated |
| Templates.SystemTemplateLines | pkg/display/templates.go:71-97 | every line of the system template is exactly the line its label's field gives |
| Templates.LabelPresent | pkg/display/templates.go:71-97 | a label's line is there exactly when its field's condition holds |
| Templates.SystemTemplateFields | pkg/display/templates.go:71-97 | the host, load and address lines appear exactly when those fields are non-empty, carrying them unchanged; the Up, CPU and Mem lines appear exactly when the uptime, the CPU load and the memory total are positive |
| Templates.NetworkTemplate | pkg/display/templates.go:117-139 | the title is "NETWORK" |
| Templates.NetworkLinesMeaning | pkg/display/templates.go:117-139 | one line per interface plus one per interface with traffic, and each interface's name line shows its address, or its status when it has none |
| Templates.NetworkLinesAppend | pkg/display/templates.go:120-135 | the lines of a concatenation of interface lists are the lines of the first list followed by those of the second |
| Templates.NetworkLinesAt | pkg/display/templates.go:120-135 | interface i's name line sits after the lines of the interfaces before it, in input order, and its `" "` traffic line follows it directly when it has a rate; otherwise the next interface's name line does |
| Templates.DurationFields | pkg/display/templates.go:143-145 | for non-negative durations: whole days, hours below 24 and minutes below 60 that add back up to the whole minutes |
| Templates.UnderADay | pkg/display/templates.go:142-154 | below a day there are no days, and the output is the hours-and-minutes form |
| Templates.FormatDurationUnderADay | pkg/display/templates.go:142-154 | below a day, two durations print the same exactly when they hold the same whole minutes |
| Templates.HoursMinutesInjective | pkg/display/templates.go:150-153 | distinct hours or minutes print differently |
| Templates.NextPreviousInverse | pkg/display/templates.go:211-222 | `Previous` undoes `Next` and `Next` undoes `Previous` |
| Templates.MultiScreen.New | pkg/display/templates.go:190-195 | no screens, the first index |
| Templates.MultiScreen.AddScreen | pkg/display/templates.go:198-200 | appends a screen |
| Templates.MultiScreen.RenderCurrent | pkg/display/templates.go:203-208 | no screens means no error; otherwise the current screen's error |
| Templates.MultiScreen.Next | pkg/display/templates.go:211-215 | the next screen, wrapping; nothing without screens |
| Templates.MultiScreen.Previous | pkg/display/templates.go:218-222 | the previous screen, wrapping; nothing without screens |
| Templates.MultiScreen.SetScreen | pkg/display/templates.go:225-229 | moves to an existing index, and otherwise changes nothing |

## Left out

- Concurrency: the device mutex, the tickers and `select` loop of `Run`, the metrics goroutine and the button goroutines. Their single steps are modelled (`Fetch`, `AnimationTick`, `RotateTick`, `PollSession`, `PollDevice`); scheduling between them is not.
- The `cu` subprocess, its pipes, sleeps and two-second timeout. A flush receives the outcome of the send as a parameter. The persistent session (`StartSession` and its reads and writes) is not modelled beyond the bytes a session read returns.
- `SetVerbose`, `debugf`, `SetCommandDelay`, `PortPath` and `OpenWithoutStty`: logging, delays and accessors with nothing to prove.
- `ReadButtonBlocking` and the blocking waits of the channel loops: they depend on timing.
- The built-in font's glyph tables and the `Font` interface's implementations. A font is a parameter (a glyph function and a height).
- UTF-8: text is treated as a sequence of characters, each one byte on the wire. `MeasureTextRunes` is modelled over characters.
- Float formatting (`%.1f`, `FormatRate`) is a parameter. Floating-point rounding is not modelled: rates and percentages are real numbers.
- `Duration.Seconds`, `Hours` and `Minutes` float precision, and the saturation of `time.Sub`. Time is an integer count of nanoseconds.
- The `Render` bodies of the logo, CPU, memory and list screens beyond their lists and paging: `draw3DPF`, `drawBar`, the text layout, and `ProgressBar`/`ProgressIndicator`.
- `sort.Slice` by traffic in the list screens. Lists are kept in snapshot order; membership, the paging rule and the rows shown are proved for whichever order the list has.
- The `nil` device check in `updateLEDs`: a display always has a device here.
- The layout of `Menu.Render` beyond the rows it draws (`Menus.Menu.VisibleEnd`). The menu trees of `menu/pfsense.go` and the metrics collection of `metrics.go` are not part of this model.
- `DrawCircle`, `FillCircle`, `DrawRoundedRect`, `drawCorner` and `DrawTriangle`.
- StatusScreens.ScrollText: the reduction `pos % textLen` when `pos >= textLen` is unreachable, because the frame is reduced modulo the cycle first. The model proves the branch dead rather than executing it.
- Displays.Display.MaxLines, Menus.Menu.SelectNext, Menus.Menu.SelectPrevious, Menus.Controller.Handle, StatusDaemons.Push and StatusDaemons.RateHistory: inputs on which the Go code panics are excluded by a `requires` rather than modelled as a crash. These are a font of height 0 (`MaxLines` divides by it), Up or Down on a menu with no items (the selection search indexes `Items[0]` or `Items[-1]`), and a history limit of 0 (trimming slices `[1:]` of an empty slice). No caller in the code reaches them: the built-in font is 8 rows high, the menus built have items, and the daemon keeps 12 samples.
- Devices.Device.UploadImage: the early returns after each `Write` are not written out, because `Write` cannot fail.
