/** The byte protocol of the EZIO-G500: a command is one control byte
    (0x0C clear, 0x0B home) or ESC followed by a command letter and its
    argument; anything else is text for the display's own character mode.
    `Encode` is what the driver appends for each command; `Parse` is the
    display's reading of a byte stream, the inverse the encodings are
    checked against. The LED commands are also given a meaning on three
    red/green lamps. */
module Protocol {
  import opened Util

  const Esc: bv8 := 0x1B
  const CmdClear: bv8 := 0x0C
  const CmdHome: bv8 := 0x0B
  const CmdInit: bv8 := 0x40
  const CmdBacklight: bv8 := 0x42
  const CmdUpload: bv8 := 0x47
  const CmdLed: bv8 := 0x4C
  const CmdShowPage: bv8 := 0x50
  const CmdSavePage: bv8 := 0x53
  const CmdInverted: bv8 := 0x72
  const CmdCursorPrefix: bv8 := 0x5B
  const CursorUp: bv8 := 0x41
  const CursorDown: bv8 := 0x42
  const CursorRight: bv8 := 0x43
  const CursorLeft: bv8 := 0x44
  const CursorHomeByte: bv8 := 0x48
  const Newline: bv8 := 0x0A

  /** The length of an uploaded image. */
  const ImageSize: int := 1024

  datatype Direction = Up | Down | Right | Left

  /** Go's `Direction` is an int with Up = 0 .. Left = 3; any other value
      moves the cursor up, as `MoveCursor`'s default branch does. */
  function DirectionOf(d: int): (dir: Direction)
    ensures (d == 1 <==> dir == Down) && (d == 2 <==> dir == Right) && (d == 3 <==> dir == Left)
  {
    if d == 1 then Down else if d == 2 then Right else if d == 3 then Left else Up
  }

  function DirectionByte(dir: Direction): bv8
  {
    match dir
    case Up => CursorUp
    case Down => CursorDown
    case Right => CursorRight
    case Left => CursorLeft
  }

  datatype Command =
    | Init
    | ClearScreen
    | Home
    | Backlight(level: bv8)
    | Upload(image: seq<bv8>)
    | ShowPage(page: bv8)
    | SavePage(page: bv8)
    | Inverted(on: bool)
    | Cursor(dir: Direction)
    | CursorHome
    | Led(value: bv8)
    | Char(b: bv8)

  /** The bytes that start a command rather than show as text. */
  predicate IsControl(b: bv8)
  {
    b == Esc || b == CmdClear || b == CmdHome
  }

  /** Commands the driver can emit: images are exactly 1024 bytes, and a
      text byte is not a control byte. */
  predicate WellFormed(c: Command)
  {
    match c
    case Upload(image) => |image| == ImageSize
    case Char(b) => !IsControl(b)
    case _ => true
  }

  function Encode(c: Command): seq<bv8>
  {
    match c
    case Init => [Esc, CmdInit]
    case ClearScreen => [CmdClear]
    case Home => [CmdHome]
    case Backlight(level) => [Esc, CmdBacklight, level]
    case Upload(image) => [Esc, CmdUpload] + image
    case ShowPage(page) => [Esc, CmdShowPage, page]
    case SavePage(page) => [Esc, CmdSavePage, page]
    case Inverted(on) => [Esc, CmdInverted, if on then 1 else 0]
    case Cursor(dir) => [Esc, CmdCursorPrefix, DirectionByte(dir)]
    case CursorHome => [Esc, CmdCursorPrefix, CursorHomeByte]
    case Led(value) => [Esc, CmdLed, value]
    case Char(b) => [b]
  }

  function EncodeAll(cs: seq<Command>): seq<bv8>
  {
    if cs == [] then [] else Encode(cs[0]) + EncodeAll(cs[1..])
  }

  /** Plain text as commands: one `Char` per byte. */
  function TextCommands(t: seq<bv8>): (cs: seq<Command>)
    ensures |cs| == |t| && forall i :: 0 <= i < |t| ==> cs[i] == Char(t[i])
  {
    seq(|t|, i requires 0 <= i < |t| => Char(t[i]))
  }

  /** The first command of a byte stream and the bytes after it; `None`
      when the stream is empty or starts with an incomplete or unknown
      escape sequence. */
  function Parse(b: seq<bv8>): (r: Option<(Command, seq<bv8>)>)
    ensures r.Some? ==> |r.value.1| < |b|
  {
    if |b| == 0 then None
    else if b[0] == Esc then ParseEscape(b[1..])
    else if b[0] == CmdClear then Some((ClearScreen, b[1..]))
    else if b[0] == CmdHome then Some((Home, b[1..]))
    else Some((Char(b[0]), b[1..]))
  }

  function ParseEscape(b: seq<bv8>): (r: Option<(Command, seq<bv8>)>)
    ensures r.Some? ==> |r.value.1| < |b|
  {
    if |b| == 0 then None
    else if b[0] == CmdInit then Some((Init, b[1..]))
    else if b[0] == CmdUpload then
      if |b| < ImageSize + 1 then None else Some((Upload(b[1..ImageSize + 1]), b[ImageSize + 1..]))
    else if |b| < 2 then None
    else
      var a := b[1];
      var rest := b[2..];
      if b[0] == CmdBacklight then Some((Backlight(a), rest))
      else if b[0] == CmdLed then Some((Led(a), rest))
      else if b[0] == CmdShowPage then Some((ShowPage(a), rest))
      else if b[0] == CmdSavePage then Some((SavePage(a), rest))
      else if b[0] == CmdInverted then
        if a == 0 then Some((Inverted(false), rest))
        else if a == 1 then Some((Inverted(true), rest))
        else None
      else if b[0] == CmdCursorPrefix then
        if a == CursorUp then Some((Cursor(Up), rest))
        else if a == CursorDown then Some((Cursor(Down), rest))
        else if a == CursorRight then Some((Cursor(Right), rest))
        else if a == CursorLeft then Some((Cursor(Left), rest))
        else if a == CursorHomeByte then Some((CursorHome, rest))
        else None
      else None
  }

  /** The commands of a whole byte stream, `None` if some part does not parse. */
  function ParseAll(b: seq<bv8>): Option<seq<Command>>
    decreases |b|
  {
    if b == [] then Some([])
    else match Parse(b)
      case None => None
      case Some((c, rest)) =>
        match ParseAll(rest)
        case None => None
        case Some(cs) => Some([c] + cs)
  }

  /** The display reads every well-formed command back from its encoding,
      whatever follows it. */
  lemma ParseEncode(c: Command, rest: seq<bv8>)
    requires WellFormed(c)
    ensures Parse(Encode(c) + rest) == Some((c, rest))
  {
    var b := Encode(c) + rest;
    match c
    case Upload(image) =>
      assert b[1..] == [CmdUpload] + (image + rest);
      assert (image + rest)[..ImageSize] == image;
      assert b[1..][1..ImageSize + 1] == (image + rest)[..ImageSize];
      assert b[1..][ImageSize + 1..] == rest;
    case Init =>
      assert b[1..][1..] == rest;
    case ClearScreen =>
      assert b[1..] == rest;
    case Home =>
      assert b[1..] == rest;
    case Char(_) =>
      assert b[1..] == rest;
    case _ =>
      assert b[1..][2..] == rest;
  }

  /** Conversely, whatever the display reads is exactly the encoding of a
      well-formed command. */
  lemma ParseExact(b: seq<bv8>)
    requires Parse(b).Some?
    ensures var (c, rest) := Parse(b).value; WellFormed(c) && b == Encode(c) + rest
  {
    var (c, rest) := Parse(b).value;
    if b[0] == Esc {
      var e := b[1..];
      if e[0] == CmdUpload {
        assert b == [Esc, CmdUpload] + e[1..ImageSize + 1] + e[ImageSize + 1..];
      } else if e[0] == CmdInit {
        assert b == [Esc, CmdInit] + e[1..];
      } else {
        assert b == [Esc, e[0], e[1]] + e[2..];
      }
    } else {
      assert b == [b[0]] + b[1..];
    }
  }

  lemma {:induction false} ParseAllEncodeAll(cs: seq<Command>)
    requires forall i :: 0 <= i < |cs| ==> WellFormed(cs[i])
    ensures ParseAll(EncodeAll(cs)) == Some(cs)
    decreases |cs|
  {
    if cs != [] {
      ParseAllEncodeAll(cs[1..]);
      EncodeNonEmpty(cs[0]);
      ParseEncode(cs[0], EncodeAll(cs[1..]));
      assert [cs[0]] + cs[1..] == cs;
    }
  }

  lemma {:induction false} EncodeAllParseAll(b: seq<bv8>)
    requires ParseAll(b).Some?
    ensures var cs := ParseAll(b).value;
      EncodeAll(cs) == b && forall i :: 0 <= i < |cs| ==> WellFormed(cs[i])
    decreases |b|
  {
    if b != [] {
      var (c, rest) := Parse(b).value;
      ParseExact(b);
      EncodeAllParseAll(rest);
      var cs := ParseAll(b).value;
      assert cs == [c] + ParseAll(rest).value;
      assert cs[1..] == ParseAll(rest).value;
    }
  }

  lemma EncodeNonEmpty(c: Command)
    ensures |Encode(c)| >= 1
  {
  }

  lemma {:induction false} EncodeAllAppend(a: seq<Command>, b: seq<Command>)
    ensures EncodeAll(a + b) == EncodeAll(a) + EncodeAll(b)
    decreases |a|
  {
    if a != [] {
      assert (a + b)[0] == a[0] && (a + b)[1..] == a[1..] + b;
      EncodeAllAppend(a[1..], b);
      assert EncodeAll(a + b) == Encode(a[0]) + EncodeAll(a[1..] + b);
    } else {
      assert a + b == b;
    }
  }

  /** Text without control bytes reaches the display as that text. */
  lemma {:induction false} TextRoundTrip(t: seq<bv8>)
    requires forall i :: 0 <= i < |t| ==> !IsControl(t[i])
    ensures EncodeAll(TextCommands(t)) == t
    ensures ParseAll(t) == Some(TextCommands(t))
    decreases |t|
  {
    if t != [] {
      TextRoundTrip(t[1..]);
      assert TextCommands(t)[1..] == TextCommands(t[1..]);
      assert EncodeAll(TextCommands(t)) == [t[0]] + t[1..];
      ParseAllEncodeAll(TextCommands(t));
    }
  }

  // ---------------------------------------------------------------- LEDs

  /** Go's `LED` (LED1 = 0 .. LED3 = 2) and `LEDColor` (Off = 0, Red = 1,
      Green = 2, Orange = 3) are plain ints. */
  const Led1: int := 0
  const Led2: int := 1
  const Led3: int := 2
  const LedOff: int := 0
  const LedRed: int := 1
  const LedGreen: int := 2
  const LedOrange: int := 3

  const StatusOn: bv8 := 0x01
  const StatusOff: bv8 := 0x00

  /** The LED a command addresses: out-of-range values address LED1. */
  function LedIndex(led: int): (k: int)
    ensures 0 <= k < 3 && (0 <= led < 3 ==> k == led) && (!(0 <= led < 3) ==> k == 0)
  {
    if 0 <= led < 3 then led else 0
  }

  function RedCode(led: int): bv8
  {
    if led == Led2 then 0x30 else if led == Led3 then 0x50 else 0x10
  }

  function GreenCode(led: int): bv8
  {
    if led == Led2 then 0x40 else if led == Led3 then 0x60 else 0x20
  }

  /** LED k's red half is addressed by 0x10*(2k+1) and its green half by
      0x10*(2k+2), both with bit 0 clear. */
  lemma LedCodes(led: int)
    ensures var k := LedIndex(led);
      RedCode(led) as int == 0x10 * (2 * k + 1) && GreenCode(led) as int == 0x10 * (2 * k + 2)
    ensures RedCode(led) & 1 == 0 && GreenCode(led) & 1 == 0
  {
  }

  /** The LED commands `SetLED` writes, in order, before it flushes; none
      for an unknown colour. */
  function ColorCommands(led: int, color: int): seq<Command>
  {
    ColorPair(RedCode(led), GreenCode(led), color)
  }

  function ColorPair(red: bv8, green: bv8, color: int): seq<Command>
  {
    if color == LedOff then [Led(red | StatusOff), Led(green | StatusOff)]
    else if color == LedRed then [Led(green | StatusOff), Led(red | StatusOn)]
    else if color == LedGreen then [Led(red | StatusOff), Led(green | StatusOn)]
    else if color == LedOrange then [Led(red | StatusOn), Led(green | StatusOn)]
    else []
  }

  /** The two codes of each colour, case by case. */
  lemma ColorPairCases(red: bv8, green: bv8, color: int, first: bv8, second: bv8)
    requires color == LedOff ==> first == red | StatusOff && second == green | StatusOff
    requires color == LedRed ==> first == green | StatusOff && second == red | StatusOn
    requires color == LedGreen ==> first == red | StatusOff && second == green | StatusOn
    requires color == LedOrange ==> first == red | StatusOn && second == green | StatusOn
    requires 0 <= color <= 3
    ensures ColorPair(red, green, color) == [Led(first), Led(second)]
  {
  }

  /** A code byte `SetLED` may send for `led`: its red or green code with
      status bit 0 or 1. */
  predicate IsLedValue(led: int, v: bv8)
  {
    IsCodeOf(RedCode(led), GreenCode(led), v)
  }

  predicate IsCodeOf(red: bv8, green: bv8, v: bv8)
  {
    v == red | StatusOff || v == red | StatusOn || v == green | StatusOff || v == green | StatusOn
  }

  /** Every LED command is ESC 'L' followed by one of the LED's codes with
      its status bit, and a known colour takes exactly two of them. */
  lemma ColorCommandsShape(led: int, color: int)
    ensures var b := EncodeAll(ColorCommands(led, color));
      (0 <= color <= 3 ==>
        (|b| == 6 && b[0] == Esc && b[1] == CmdLed && b[3] == Esc && b[4] == CmdLed
         && IsLedValue(led, b[2]) && IsLedValue(led, b[5])))
      && (!(0 <= color <= 3) ==> b == [])
  {
    ColorPairShape(RedCode(led), GreenCode(led), color);
  }

  lemma ColorPairShape(red: bv8, green: bv8, color: int)
    ensures var b := EncodeAll(ColorPair(red, green, color));
      (0 <= color <= 3 ==>
        (|b| == 6 && b[0] == Esc && b[1] == CmdLed && b[3] == Esc && b[4] == CmdLed
         && IsCodeOf(red, green, b[2]) && IsCodeOf(red, green, b[5])))
      && (!(0 <= color <= 3) ==> b == [])
  {
    if color == LedOff {
      CodePair(red, green, red | StatusOff, green | StatusOff);
    } else if color == LedRed {
      CodePair(red, green, green | StatusOff, red | StatusOn);
    } else if color == LedGreen {
      CodePair(red, green, red | StatusOff, green | StatusOn);
    } else if color == LedOrange {
      CodePair(red, green, red | StatusOn, green | StatusOn);
    }
  }

  /** Two LED commands carrying codes of one LED encode as two groups
      `ESC 'L' v`, each v one of its codes. */
  lemma CodePair(red: bv8, green: bv8, first: bv8, second: bv8)
    requires IsCodeOf(red, green, first) && IsCodeOf(red, green, second)
    ensures var b := EncodeAll([Led(first), Led(second)]);
      |b| == 6 && b[0] == Esc && b[1] == CmdLed && b[3] == Esc && b[4] == CmdLed
      && IsCodeOf(red, green, b[2]) && IsCodeOf(red, green, b[5])
  {
    LedPair(first, second);
  }

  /** Two LED commands encode as two 3-byte `ESC 'L' v` groups. */
  lemma LedPair(first: bv8, second: bv8)
    ensures EncodeAll([Led(first), Led(second)]) == [Esc, CmdLed, first, Esc, CmdLed, second]
  {
    var cs := [Led(first), Led(second)];
    assert cs[1..][1..] == [];
    assert EncodeAll(cs[1..]) == Encode(cs[1]) + EncodeAll(cs[1..][1..]);
  }

  /** One bicolour LED: its red and its green half. */
  datatype Lamp = Lamp(red: bool, green: bool)

  predicate IsLamps(lamps: seq<Lamp>) { |lamps| == 3 }

  /** The meaning of `ESC 'L' v`: the high nibble 1..6 picks the red or green
      half of LED (nibble-1)/2 and bit 0 switches it; other nibbles do nothing. */
  function ApplyLed(lamps: seq<Lamp>, v: bv8): (r: seq<Lamp>)
    requires IsLamps(lamps)
    ensures IsLamps(r)
  {
    var id := (v >> 4) as int;
    var on := v & 1 == 1;
    if 1 <= id <= 6 then
      var k := (id - 1) / 2;
      if id % 2 == 1 then lamps[k := lamps[k].(red := on)] else lamps[k := lamps[k].(green := on)]
    else lamps
  }

  /** The lamps after a command stream; commands other than LED ones leave them. */
  function Lamps(lamps: seq<Lamp>, cs: seq<Command>): (r: seq<Lamp>)
    requires IsLamps(lamps)
    ensures IsLamps(r)
    decreases |cs|
  {
    if cs == [] then lamps
    else Lamps(if cs[0].Led? then ApplyLed(lamps, cs[0].value) else lamps, cs[1..])
  }

  function ColorLamp(color: int): Lamp
  {
    if color == LedRed then Lamp(true, false)
    else if color == LedGreen then Lamp(false, true)
    else if color == LedOrange then Lamp(true, true)
    else Lamp(false, false)
  }

  /** `SetLED(led, color)` leaves the addressed LED showing exactly `color`
      and the other two as they were; an unknown colour changes nothing. */
  lemma SetLedEffect(lamps: seq<Lamp>, led: int, color: int)
    requires IsLamps(lamps)
    ensures 0 <= color <= 3 ==>
      Lamps(lamps, ColorCommands(led, color)) == lamps[LedIndex(led) := ColorLamp(color)]
    ensures !(0 <= color <= 3) ==> Lamps(lamps, ColorCommands(led, color)) == lamps
  {
    if color == LedOff {
      ColorSteps(lamps, led, true, false, false);
      assert ColorCommands(led, color) == [Led(HalfCode(led, true, false)), Led(HalfCode(led, false, false))];
    } else if color == LedRed {
      ColorSteps(lamps, led, false, false, true);
      assert ColorCommands(led, color) == [Led(HalfCode(led, false, false)), Led(HalfCode(led, true, true))];
    } else if color == LedGreen {
      ColorSteps(lamps, led, true, false, true);
      assert ColorCommands(led, color) == [Led(HalfCode(led, true, false)), Led(HalfCode(led, false, true))];
    } else if color == LedOrange {
      ColorSteps(lamps, led, true, true, true);
      assert ColorCommands(led, color) == [Led(HalfCode(led, true, true)), Led(HalfCode(led, false, true))];
    }
  }

  /** The code byte switching the red (or green) half of `led` on or off. */
  function HalfCode(led: int, red: bool, on: bool): bv8
  {
    (if red then RedCode(led) else GreenCode(led)) | (if on then StatusOn else StatusOff)
  }

  /** The lamps with the red (or green) half of LED k switched. */
  function Switched(lamps: seq<Lamp>, k: int, red: bool, on: bool): (r: seq<Lamp>)
    requires IsLamps(lamps) && 0 <= k < 3
    ensures IsLamps(r)
  {
    if red then lamps[k := lamps[k].(red := on)] else lamps[k := lamps[k].(green := on)]
  }

  /** A half's code byte switches that half of its LED and nothing else. */
  lemma SwitchHalf(lamps: seq<Lamp>, led: int, red: bool, on: bool)
    requires IsLamps(lamps)
    ensures ApplyLed(lamps, HalfCode(led, red, on)) == Switched(lamps, LedIndex(led), red, on)
  {
    LedCodeMeaning(led);
  }

  /** The two commands of a colour switch one half and then the other. */
  lemma ColorSteps(lamps: seq<Lamp>, led: int, red1: bool, on1: bool, on2: bool)
    requires IsLamps(lamps)
    ensures
      var k := LedIndex(led);
      Lamps(lamps, [Led(HalfCode(led, red1, on1)), Led(HalfCode(led, !red1, on2))])
      == lamps[k := if red1 then Lamp(on1, on2) else Lamp(on2, on1)]
  {
    LampsOfPair(lamps, HalfCode(led, red1, on1), HalfCode(led, !red1, on2));
    SwitchHalf(lamps, led, red1, on1);
    SwitchHalf(ApplyLed(lamps, HalfCode(led, red1, on1)), led, !red1, on2);
  }

  /** Two LED commands are applied one after the other. */
  lemma LampsOfPair(lamps: seq<Lamp>, first: bv8, second: bv8)
    requires IsLamps(lamps)
    ensures Lamps(lamps, [Led(first), Led(second)]) == ApplyLed(ApplyLed(lamps, first), second)
  {
    var cs := [Led(first), Led(second)];
    var l1 := ApplyLed(lamps, first);
    assert cs[1..] == [Led(second)] && cs[1..][1..] == [];
    assert Lamps(lamps, cs) == Lamps(l1, cs[1..]);
    assert Lamps(l1, cs[1..]) == Lamps(ApplyLed(l1, second), cs[1..][1..]);
  }

  /** What the four code bytes of an LED select: its index and red or green. */
  lemma LedCodeMeaning(led: int)
    ensures var k := LedIndex(led);
      ((RedCode(led) | StatusOff) >> 4) as int == 2 * k + 1 && (RedCode(led) | StatusOff) & 1 == 0
      && ((RedCode(led) | StatusOn) >> 4) as int == 2 * k + 1 && (RedCode(led) | StatusOn) & 1 == 1
      && ((GreenCode(led) | StatusOff) >> 4) as int == 2 * k + 2 && (GreenCode(led) | StatusOff) & 1 == 0
      && ((GreenCode(led) | StatusOn) >> 4) as int == 2 * k + 2 && (GreenCode(led) | StatusOn) & 1 == 1
  {
  }

  lemma {:induction false} LampsAppend(lamps: seq<Lamp>, a: seq<Command>, b: seq<Command>)
    requires IsLamps(lamps)
    ensures Lamps(lamps, a + b) == Lamps(Lamps(lamps, a), b)
    decreases |a|
  {
    if a == [] {
      assert a + b == b;
    } else {
      assert (a + b)[0] == a[0] && (a + b)[1..] == a[1..] + b;
      LampsAppend(if a[0].Led? then ApplyLed(lamps, a[0].value) else lamps, a[1..], b);
    }
  }
}
