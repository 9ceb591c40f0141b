/** The driver's connection to the display: every command is appended to a
    pending byte buffer, and a flush hands the whole buffer to an external
    sender (the `cu` program) in one piece. The sender is not modelled; each
    flush is told how the send went. `sent` records, in order, every chunk a
    successful flush delivered. */
module Devices {
  import opened Util
  import opened Protocol

  /** How the external sender fared: delivered, or failed creating its
      input pipe, starting, or taking the data. */
  datatype SendOutcome = Delivered | PipeFails | StartFails | WriteFails

  datatype Error = PipeFailed | StartFailed | WriteFailed | EndOfFile

  /** The error a flush reports for a send outcome. */
  function SendError(o: SendOutcome): (e: Option<Error>)
    ensures e.None? <==> o == Delivered
  {
    match o
    case Delivered => None
    case PipeFails => Some(PipeFailed)
    case StartFails => Some(StartFailed)
    case WriteFails => Some(WriteFailed)
  }

  class Device {
    const portPath: string
    var buffer: seq<bv8>
    ghost var sent: seq<seq<bv8>>

    /** `Open` touches no port and cannot fail. */
    constructor Open(portPath: string)
      ensures this.portPath == portPath && buffer == [] && sent == []
    {
      this.portPath := portPath;
      buffer := [];
      sent := [];
    }

    /** The state after flushing `pending` on top of the log `log`: nothing
        to send is not an error; a delivered send logs the buffer and empties
        it; a failed one reports the failure and keeps the buffer. */
    ghost predicate FlushedFrom(pending: seq<bv8>, log: seq<seq<bv8>>, outcome: SendOutcome, err: Option<Error>)
      reads this
    {
      (pending == [] ==> buffer == [] && sent == log && err == None)
      && (pending != [] && outcome == Delivered ==> buffer == [] && sent == log + [pending] && err == None)
      && (pending != [] && outcome != Delivered ==> buffer == pending && sent == log && err == SendError(outcome))
    }

    /** Buffers `data`; nothing is sent and no error is possible. */
    method Write(data: seq<bv8>) returns (err: Option<Error>)
      modifies this
      ensures buffer == old(buffer) + data && sent == old(sent) && err == None
    {
      buffer := buffer + data;
      err := None;
    }

    /** `Flush`/`flushWithCu`: an empty buffer is not sent at all. */
    method Flush(outcome: SendOutcome) returns (err: Option<Error>)
      modifies this
      ensures FlushedFrom(old(buffer), old(sent), outcome, err)
    {
      if |buffer| == 0 {
        return None;
      }
      err := SendError(outcome);
      if err == None {
        sent := sent + [buffer];
        buffer := [];
      }
    }

    /** Flushes only when something is buffered. */
    method Close(outcome: SendOutcome) returns (err: Option<Error>)
      modifies this
      ensures FlushedFrom(old(buffer), old(sent), outcome, err)
    {
      if |buffer| > 0 {
        err := Flush(outcome);
      } else {
        err := None;
      }
    }

    /** Reading is not implemented: no byte, and end of file. */
    method Read(buf: array<bv8>) returns (n: int, err: Option<Error>)
      ensures n == 0 && err == Some(EndOfFile)
    {
      n, err := 0, Some(EndOfFile);
    }

    // ------------------------------------------------------- commands

    method Init() returns (err: Option<Error>)
      modifies this
      ensures buffer == old(buffer) + [0x1B, 0x40] && sent == old(sent) && err == None
    {
      err := Write(Encode(Protocol.Init));
    }

    method Clear() returns (err: Option<Error>)
      modifies this
      ensures buffer == old(buffer) + [0x0C] && sent == old(sent) && err == None
    {
      err := Write(Encode(ClearScreen));
    }

    method Home() returns (err: Option<Error>)
      modifies this
      ensures buffer == old(buffer) + [0x0B] && sent == old(sent) && err == None
    {
      err := Write(Encode(Protocol.Home));
    }

    method SetBacklight(level: bv8) returns (err: Option<Error>)
      modifies this
      ensures buffer == old(buffer) + [0x1B, 0x42, level] && sent == old(sent) && err == None
    {
      err := Write(Encode(Backlight(level)));
    }

    /** ESC 'G', the 1024 image bytes, then an immediate flush. `Write`
        cannot fail, so the source's early returns after each write are
        never taken and are not written out. */
    method UploadImage(data: seq<bv8>, outcome: SendOutcome) returns (err: Option<Error>)
      requires |data| == ImageSize
      modifies this
      ensures FlushedFrom(old(buffer) + [0x1B, 0x47] + data, old(sent), outcome, err)
    {
      var _ := Write([Esc, CmdUpload]);
      var _ := Write(data);
      assert buffer == old(buffer) + Encode(Upload(data));
      err := Flush(outcome);
    }

    method ShowPage(page: bv8) returns (err: Option<Error>)
      modifies this
      ensures buffer == old(buffer) + [0x1B, 0x50, page] && sent == old(sent) && err == None
    {
      err := Write(Encode(Protocol.ShowPage(page)));
    }

    method SavePage(page: bv8) returns (err: Option<Error>)
      modifies this
      ensures buffer == old(buffer) + [0x1B, 0x53, page] && sent == old(sent) && err == None
    {
      err := Write(Encode(Protocol.SavePage(page)));
    }

    method SetInverted(on: bool) returns (err: Option<Error>)
      modifies this
      ensures buffer == old(buffer) + [0x1B, 0x72, if on then 1 else 0] && sent == old(sent) && err == None
    {
      err := Write(Encode(Inverted(on)));
    }

    /** ESC '[' and the direction letter; an unknown direction moves up. */
    method MoveCursor(direction: int) returns (err: Option<Error>)
      modifies this
      ensures var d: bv8 := if direction == 1 then 0x42 else if direction == 2 then 0x43
                            else if direction == 3 then 0x44 else 0x41;
        buffer == old(buffer) + [0x1B, 0x5B, d] && sent == old(sent) && err == None
    {
      err := Write(Encode(Cursor(DirectionOf(direction))));
    }

    method CursorHome() returns (err: Option<Error>)
      modifies this
      ensures buffer == old(buffer) + [0x1B, 0x5B, 0x48] && sent == old(sent) && err == None
    {
      err := Write(Encode(Protocol.CursorHome));
    }

    /** The text's bytes, as they are. */
    method WriteText(text: seq<bv8>) returns (err: Option<Error>)
      modifies this
      ensures buffer == old(buffer) + text && sent == old(sent) && err == None
    {
      err := Write(text);
    }

    method WriteTextLine(text: seq<bv8>) returns (err: Option<Error>)
      modifies this
      ensures buffer == old(buffer) + text + [0x0A] && sent == old(sent) && err == None
    {
      var _ := Write(text);
      err := Write([Newline]);
    }

    // ----------------------------------------------------------- LEDs

    /** Two LED commands chosen by colour (none for an unknown colour), then
        a flush so the change shows at once. */
    method SetLED(led: int, color: int, outcome: SendOutcome) returns (err: Option<Error>)
      modifies this
      ensures FlushedFrom(old(buffer) + EncodeAll(ColorCommands(led, color)), old(sent), outcome, err)
    {
      WriteColor(led, color);
      err := Flush(outcome);
    }

    /** The colour switch of `SetLED`: the LED's red and green codes with
        their status bits, in the order each colour needs. */
    method WriteColor(led: int, color: int)
      modifies this
      ensures buffer == old(buffer) + EncodeAll(ColorCommands(led, color)) && sent == old(sent)
    {
      var red, green := RedCode(led), GreenCode(led);
      var first: bv8, second: bv8;
      if color == LedOff {
        first, second := red | StatusOff, green | StatusOff;
      } else if color == LedRed {
        first, second := green | StatusOff, red | StatusOn;
      } else if color == LedGreen {
        first, second := red | StatusOff, green | StatusOn;
      } else if color == LedOrange {
        first, second := red | StatusOn, green | StatusOn;
      } else {
        assert old(buffer) + EncodeAll([]) == old(buffer);
        return;
      }
      ColorPairCases(red, green, color, first, second);
      WriteCodes(first, second);
    }

    /** Two LED commands, one write each. */
    method WriteCodes(first: bv8, second: bv8)
      modifies this
      ensures buffer == old(buffer) + EncodeAll([Led(first), Led(second)]) && sent == old(sent)
    {
      var _ := Write([Esc, CmdLed, first]);
      var _ := Write([Esc, CmdLed, second]);
      LedPair(first, second);
    }

    /** ESC 'L' and the raw code; no flush. */
    method SetLEDRaw(value: bv8) returns (err: Option<Error>)
      modifies this
      ensures buffer == old(buffer) + [0x1B, 0x4C, value] && sent == old(sent) && err == None
    {
      err := Write(Encode(Led(value)));
    }
  }
}
