/** Ready-made text layouts for the display: a status template of
    "Label: Value" lines under an inverted title, the two templates built
    from system and network status, the compact duration format, and a
    cycling set of screens. Formatting a float (`%.1f%%`) is a parameter. */
module Templates {
  import opened Util
  import opened Raster
  import opened FrameBuffers
  import opened Fonts
  import opened Devices
  import Displays
  import WireFormat

  datatype StatusLine = StatusLine(caption: string, value: string)  // `caption` is the source's `Label`

  /** `MaxWidth` is carried but never read by `Render`. */
  datatype StatusTemplate = StatusTemplate(title: string, lines: seq<StatusLine>, maxWidth: int)

  /** A line's text: the label alone when there is no value. */
  function LineText(l: StatusLine): (s: string)
    ensures l.value == "" ==> s == l.caption
    ensures l.value != "" ==> HasPrefix(s, l.caption + ": ") && s[|l.caption| + 2..] == l.value
  {
    if l.value != "" then l.caption + ": " + l.value else l.caption
  }

  /** The lines `Render` draws from row y on, one font height apart, as
      (row, text) pairs: it stops at the first line that would start at or
      below row 64. */
  function Emitted(lines: seq<StatusLine>, y: int, h: int): (rows: seq<(int, string)>)
    ensures |rows| <= |lines|
    decreases |lines|
  {
    if lines == [] || y >= Height then []
    else [(y, LineText(lines[0]))] + Emitted(lines[1..], y + h, h)
  }

  /** The number of line rows that start above row 64 from row y on, with
      rows h >= 1 apart. */
  function Slots(y: int, h: int): nat
    requires h >= 1
    decreases Height - y
  {
    if y >= Height then 0 else 1 + Slots(y + h, h)
  }

  /** Line k is drawn at row y + k*h with its own text, every drawn row is
      above row 64, and as many lines are drawn as fit. */
  lemma {:induction false} EmittedMeaning(lines: seq<StatusLine>, y: int, h: int)
    requires h >= 1
    ensures |Emitted(lines, y, h)| == Min(|lines|, Slots(y, h))
    ensures forall k :: 0 <= k < |Emitted(lines, y, h)| ==>
      Emitted(lines, y, h)[k] == (y + k * h, LineText(lines[k])) && y + k * h < Height
  {
    EmittedLength(lines, y, h);
    EmittedRows(lines, y, h);
  }

  lemma {:induction false} EmittedLength(lines: seq<StatusLine>, y: int, h: int)
    requires h >= 1
    ensures |Emitted(lines, y, h)| == Min(|lines|, Slots(y, h))
    decreases |lines|
  {
    if lines != [] && y < Height {
      EmittedLength(lines[1..], y + h, h);
    }
  }

  lemma {:induction false} EmittedRows(lines: seq<StatusLine>, y: int, h: int)
    ensures forall k :: 0 <= k < |Emitted(lines, y, h)| ==>
      Emitted(lines, y, h)[k] == (y + k * h, LineText(lines[k])) && y + k * h < Height
    decreases |lines|
  {
    if lines != [] && y < Height {
      var tail := Emitted(lines[1..], y + h, h);
      EmittedRows(lines[1..], y + h, h);
      var rows := Emitted(lines, y, h);
      assert rows == [(y, LineText(lines[0]))] + tail;
      forall k | 0 <= k < |rows|
        ensures rows[k] == (y + k * h, LineText(lines[k])) && y + k * h < Height
      {
        if k == 0 {
          assert y + k * h == y;
        } else {
          assert rows[k] == tail[k - 1] && lines[1..][k - 1] == lines[k];
          NextRow(y, h, k);
        }
      }
    }
  }

  lemma NextRow(y: int, h: int, k: int)
    ensures (y + h) + (k - 1) * h == y + k * h
  {
  }

  /** A font of zero or negative height never moves the pen down, so every
      line is drawn. */
  lemma {:induction false} FlatFontDrawsAll(lines: seq<StatusLine>, y: int, h: int)
    requires h <= 0 && y < Height
    ensures |Emitted(lines, y, h)| == |lines|
    decreases |lines|
  {
    if lines != [] {
      FlatFontDrawsAll(lines[1..], y + h, h);
    }
  }

  /** The grid after drawing these rows of text, in order, on g. */
  ghost function Drawn(g: Grid, f: Font, rows: seq<(int, string)>): (r: Grid)
    requires IsGrid(g)
    ensures IsGrid(r)
    decreases |rows|
  {
    if rows == [] then g
    else
      var last := rows[|rows| - 1];
      Paint(Drawn(g, f, rows[..|rows| - 1]), TextPoints(f, 0, last.0, last.1), true)
  }

  /** Where the lines start: below the title when there is one. */
  function FirstRow(t: StatusTemplate, h: int): int
  {
    if t.title != "" then h else 0
  }

  /** The picture `Render` uploads: a cleared screen, the title inverted at
      the top, then the lines that fit. */
  ghost function Picture(t: StatusTemplate, f: Font): (r: Grid)
    ensures IsGrid(r)
  {
    var top := if t.title != "" then InvertedText(Blank(), f, 0, 0, t.title) else Blank();
    Drawn(top, f, Emitted(t.lines, FirstRow(t, f.height), f.height))
  }

  /** Drawing one more row paints its text over what was drawn. */
  lemma DrawnSnoc(g: Grid, f: Font, rows: seq<(int, string)>, row: (int, string))
    requires IsGrid(g)
    ensures Drawn(g, f, rows + [row]) == Paint(Drawn(g, f, rows), TextPoints(f, 0, row.0, row.1), true)
  {
    assert (rows + [row])[..|rows|] == rows;
  }

  /** Line i is emitted at row y when row y is above the bottom, after
      whatever was emitted before it. */
  lemma EmittedStep(lines: seq<StatusLine>, i: int, y: int, h: int, done: seq<(int, string)>)
    requires 0 <= i < |lines| && y < Height
    ensures done + Emitted(lines[i..], y, h) == (done + [(y, LineText(lines[i]))]) + Emitted(lines[i + 1..], y + h, h)
  {
    assert lines[i..][1..] == lines[i + 1..];
    assert Emitted(lines[i..], y, h) == [(y, LineText(lines[i]))] + Emitted(lines[i + 1..], y + h, h);
  }

  /** `StatusTemplate.Render`: draws the template and uploads the frame. */
  method RenderTemplate(t: StatusTemplate, d: Displays.Display, outcome: SendOutcome) returns (err: Option<Error>)
    requires d.Valid()
    modifies d.fb.data, d.device
    ensures d.fb.Pixels() == Picture(t, d.font)
    ensures d.device.FlushedFrom(old(d.device.buffer) + [0x1B, 0x47] + WireFormat.Encode(d.fb.Pixels()),
                                 old(d.device.sent), outcome, err)
  {
    ghost var buffer, sent := d.device.buffer, d.device.sent;
    d.fb.Clear();
    var y := 0;
    var fontHeight := d.font.height;
    if t.title != "" {
      var _ := RenderTextInverted(d.fb, d.font, 0, y, t.title);
      y := y + fontHeight;
    }
    DrawLines(d.fb, d.font, t.lines, y);
    ghost var picture := d.fb.Pixels();
    assert picture == Picture(t, d.font);
    assert d.device.buffer == buffer && d.device.sent == sent;
    err := d.Update(outcome);
    assert d.fb.Pixels() == picture;
  }

  /** The line loop of `Render`: from row y down, one font height a line,
      until the lines run out or the next would start below the screen. */
  method DrawLines(fb: FrameBuffer, f: Font, lines: seq<StatusLine>, y0: int)
    requires fb.Valid()
    modifies fb.data
    ensures fb.Pixels() == Drawn(old(fb.Pixels()), f, Emitted(lines, y0, f.height))
  {
    ghost var top := fb.Pixels();
    ghost var done: seq<(int, string)> := [];
    var y := y0;
    var i := 0;
    while i < |lines|
      invariant 0 <= i <= |lines|
      invariant Emitted(lines, y0, f.height) == done + Emitted(lines[i..], y, f.height)
      invariant fb.Pixels() == Drawn(top, f, done)
    {
      if y >= Height {
        break;
      }
      var line := lines[i];
      var text := line.caption;
      if line.value != "" {
        text := line.caption + ": " + line.value;
      }
      assert text == LineText(line);
      EmittedStep(lines, i, y, f.height, done);
      var _ := RenderText(fb, f, 0, y, text);
      DrawnSnoc(top, f, done, (y, text));
      done := done + [(y, text)];
      y := y + f.height;
      i := i + 1;
    }
    assert done + [] == done;
  }

  // ------------------------------------------------------------ system status

  /** `SystemStatus`; the uptime is in nanoseconds. */
  datatype SystemStatus = SystemStatus(hostname: string, uptime: int, cpu: real, memUsed: int, memTotal: int,
                                       loadAvg: string, ipAddress: string)

  /** The labels of a system template, in the order lines appear. */
  const SystemLabels: seq<string> := ["Host", "Up", "CPU", "Mem", "Load", "IP"]

  /** The line each field would give, in `SystemLabels` order, or none
      when the field is unset; `percent` stands for `%.1f%%` formatting. */
  function Candidates(s: SystemStatus, percent: real -> string): (c: seq<Option<StatusLine>>)
    ensures |c| == |SystemLabels|
  {
    [ if s.hostname != "" then Some(StatusLine("Host", s.hostname)) else None,
      if s.uptime > 0 then Some(StatusLine("Up", FormatDuration(s.uptime))) else None,
      if s.cpu > 0.0 then Some(StatusLine("CPU", percent(s.cpu))) else None,
      if s.memTotal > 0 then Some(StatusLine("Mem", percent(s.memUsed as real / s.memTotal as real * 100.0))) else None,
      if s.loadAvg != "" then Some(StatusLine("Load", s.loadAvg)) else None,
      if s.ipAddress != "" then Some(StatusLine("IP", s.ipAddress)) else None ]
  }

  /** The lines present, in order. */
  function Present(c: seq<Option<StatusLine>>): (ls: seq<StatusLine>)
    ensures |ls| <= |c|
    decreases |c|
  {
    if c == [] then []
    else Present(c[..|c| - 1]) + (if c[|c| - 1].Some? then [c[|c| - 1].value] else [])
  }

  /** `SystemStatus.ToTemplate`: one line per field that is set, in a fixed
      order. */
  function SystemTemplate(s: SystemStatus, percent: real -> string): (t: StatusTemplate)
    ensures t.title == "PFSENSE STATUS" && |t.lines| <= |SystemLabels|
  {
    StatusTemplate("PFSENSE STATUS", Present(Candidates(s, percent)), 0)
  }

  /** Where a label comes in `SystemLabels`. */
  function LabelRank(c: string): int
  {
    if c == "Host" then 0 else if c == "Up" then 1 else if c == "CPU" then 2
    else if c == "Mem" then 3 else if c == "Load" then 4 else if c == "IP" then 5 else 6
  }

  /** A line is present exactly when its candidate is. */
  lemma {:induction false} PresentMembership(c: seq<Option<StatusLine>>, l: StatusLine)
    ensures l in Present(c) <==> Some(l) in c
    decreases |c|
  {
    if c != [] {
      PresentMembership(c[..|c| - 1], l);
      assert c == c[..|c| - 1] + [c[|c| - 1]];
    }
  }

  /** When candidate k, if any, has rank k, the present lines have ranks
      below |c| in increasing order. */
  lemma {:induction false} PresentOrdered(c: seq<Option<StatusLine>>)
    requires forall k :: 0 <= k < |c| && c[k].Some? ==> LabelRank(c[k].value.caption) == k
    ensures forall i :: 0 <= i < |Present(c)| ==> 0 <= LabelRank(Present(c)[i].caption) < |c|
    ensures forall i, j :: 0 <= i < j < |Present(c)| ==>
      LabelRank(Present(c)[i].caption) < LabelRank(Present(c)[j].caption)
    decreases |c|
  {
    if c != [] {
      var init := c[..|c| - 1];
      assert forall k :: 0 <= k < |init| ==> init[k] == c[k];
      PresentOrdered(init);
      var p, ls := Present(init), Present(c);
      var tail := if c[|c| - 1].Some? then [c[|c| - 1].value] else [];
      assert ls == p + tail;
      assert forall i :: 0 <= i < |tail| ==> LabelRank(tail[i].caption) == |c| - 1;
      forall i, j | 0 <= i < j < |ls|
        ensures LabelRank(ls[i].caption) < LabelRank(ls[j].caption)
      {
        assert ls[i] == p[i] && LabelRank(p[i].caption) < |init|;
        if j >= |p| {
          assert ls[j] == tail[j - |p|] && LabelRank(tail[j - |p|].caption) == |init|;
        } else {
          assert ls[j] == p[j] && LabelRank(p[i].caption) < LabelRank(p[j].caption);
        }
      }
      forall i | 0 <= i < |ls|
        ensures 0 <= LabelRank(ls[i].caption) < |c|
      {
        if i >= |p| {
          assert ls[i] == tail[i - |p|] && LabelRank(tail[i - |p|].caption) == |init|;
        } else {
          assert ls[i] == p[i] && 0 <= LabelRank(p[i].caption) < |init|;
        }
      }
    }
  }

  /** Candidate k carries label k. */
  lemma CandidatesRanked(s: SystemStatus, percent: real -> string)
    ensures var c := Candidates(s, percent);
      forall k :: 0 <= k < |c| && c[k].Some? ==> c[k].value.caption == SystemLabels[k] && LabelRank(c[k].value.caption) == k
  {
  }

  /** The system template's lines keep the label order, so no label is
      repeated, and every line carries one of the six labels. */
  lemma SystemTemplateOrder(s: SystemStatus, percent: real -> string)
    ensures var ls := SystemTemplate(s, percent).lines;
      (forall i :: 0 <= i < |ls| ==> ls[i].caption in SystemLabels)
      && forall i, j :: 0 <= i < j < |ls| ==> LabelRank(ls[i].caption) < LabelRank(ls[j].caption)
  {
    var c := Candidates(s, percent);
    CandidatesRanked(s, percent);
    PresentOrdered(c);
    var ls := Present(c);
    forall i | 0 <= i < |ls|
      ensures ls[i].caption in SystemLabels
    {
      var k := LabelRank(ls[i].caption);
      assert 0 <= k < |c| == |SystemLabels|;
      assert SystemLabels[k] == ls[i].caption;
    }
  }

  /** Some line carries label l. */
  predicate HasLabel(ls: seq<StatusLine>, l: string)
  {
    exists i :: 0 <= i < |ls| && ls[i].caption == l
  }

  /** Every line of the system template is the line its label's field gives. */
  lemma SystemTemplateLines(s: SystemStatus, percent: real -> string)
    ensures var ls, c := SystemTemplate(s, percent).lines, Candidates(s, percent);
      forall i :: 0 <= i < |ls| ==> 0 <= LabelRank(ls[i].caption) < |c| && c[LabelRank(ls[i].caption)] == Some(ls[i])
  {
    var c := Candidates(s, percent);
    var ls := Present(c);
    CandidatesRanked(s, percent);
    forall i | 0 <= i < |ls|
      ensures 0 <= LabelRank(ls[i].caption) < |c| && c[LabelRank(ls[i].caption)] == Some(ls[i])
    {
      PresentMembership(c, ls[i]);
      var k :| 0 <= k < |c| && c[k] == Some(ls[i]);
      assert LabelRank(ls[i].caption) == k;
    }
  }

  /** The line labelled `SystemLabels[k]` is there exactly when field k is set. */
  lemma LabelPresent(s: SystemStatus, percent: real -> string, k: int)
    requires 0 <= k < |SystemLabels|
    ensures HasLabel(SystemTemplate(s, percent).lines, SystemLabels[k]) <==> Candidates(s, percent)[k].Some?
  {
    var c := Candidates(s, percent);
    var ls := Present(c);
    CandidatesRanked(s, percent);
    SystemTemplateLines(s, percent);
    if c[k].Some? {
      PresentMembership(c, c[k].value);
      var i :| 0 <= i < |ls| && ls[i] == c[k].value;
      assert ls[i].caption == SystemLabels[k];
    }
    if HasLabel(ls, SystemLabels[k]) {
      var i :| 0 <= i < |ls| && ls[i].caption == SystemLabels[k];
      assert LabelRank(SystemLabels[k]) == k;
    }
  }

  /** Each line appears exactly when its field is set: a non-empty host,
      load or address (carried unchanged), a positive uptime, a positive CPU
      load, a positive memory total. */
  lemma SystemTemplateFields(s: SystemStatus, percent: real -> string)
    ensures var ls := SystemTemplate(s, percent).lines;
      (StatusLine("Host", s.hostname) in ls <==> s.hostname != "")
      && (HasLabel(ls, "Up") <==> s.uptime > 0)
      && (HasLabel(ls, "CPU") <==> s.cpu > 0.0)
      && (HasLabel(ls, "Mem") <==> s.memTotal > 0)
      && (StatusLine("Load", s.loadAvg) in ls <==> s.loadAvg != "")
      && (StatusLine("IP", s.ipAddress) in ls <==> s.ipAddress != "")
  {
    var c := Candidates(s, percent);
    PresentMembership(c, StatusLine("Host", s.hostname));
    PresentMembership(c, StatusLine("Load", s.loadAvg));
    PresentMembership(c, StatusLine("IP", s.ipAddress));
    LabelPresent(s, percent, 1);
    LabelPresent(s, percent, 2);
    LabelPresent(s, percent, 3);
  }

  // ------------------------------------------------------------ network status

  /** `InterfaceInfo`; the rates come already formatted. */
  datatype InterfaceInfo = InterfaceInfo(name: string, status: string, ip: string, rxRate: string, txRate: string)

  predicate HasTraffic(x: InterfaceInfo) { x.rxRate != "" || x.txRate != "" }

  /** The lines for one interface: its name with its address (or its status
      when it has none), then a traffic line when a rate is known. */
  function InterfaceLines(x: InterfaceInfo): seq<StatusLine>
  {
    [StatusLine(x.name, if x.ip != "" then x.ip else x.status)]
    + (if HasTraffic(x) then [StatusLine(" ", "R:" + x.rxRate + " T:" + x.txRate)] else [])
  }

  function NetworkLines(ifaces: seq<InterfaceInfo>): seq<StatusLine>
    decreases |ifaces|
  {
    if ifaces == [] then [] else NetworkLines(ifaces[..|ifaces| - 1]) + InterfaceLines(ifaces[|ifaces| - 1])
  }

  /** How many interfaces have a traffic line. */
  function TrafficCount(ifaces: seq<InterfaceInfo>): nat
    decreases |ifaces|
  {
    if ifaces == [] then 0
    else TrafficCount(ifaces[..|ifaces| - 1]) + (if HasTraffic(ifaces[|ifaces| - 1]) then 1 else 0)
  }

  /** `NetworkStatus.ToTemplate`. */
  function NetworkTemplate(ifaces: seq<InterfaceInfo>): (t: StatusTemplate)
    ensures t.title == "NETWORK"
  {
    StatusTemplate("NETWORK", NetworkLines(ifaces), 0)
  }

  /** One line per interface plus one per interface with traffic, and every
      interface's name line is there, showing its address when it has one. */
  lemma {:induction false} NetworkLinesMeaning(ifaces: seq<InterfaceInfo>)
    ensures |NetworkLines(ifaces)| == |ifaces| + TrafficCount(ifaces)
    ensures forall x :: x in ifaces ==>
      StatusLine(x.name, if x.ip != "" then x.ip else x.status) in NetworkLines(ifaces)
    decreases |ifaces|
  {
    if ifaces != [] {
      var init, last := ifaces[..|ifaces| - 1], ifaces[|ifaces| - 1];
      NetworkLinesMeaning(init);
      assert ifaces == init + [last];
      assert InterfaceLines(last)[0] in NetworkLines(ifaces);
    }
  }

  /** The lines of two interface lists are the lines of the first followed
      by the lines of the second: each interface contributes its own lines,
      in input order. */
  lemma {:induction false} NetworkLinesAppend(a: seq<InterfaceInfo>, b: seq<InterfaceInfo>)
    ensures NetworkLines(a + b) == NetworkLines(a) + NetworkLines(b)
    decreases |b|
  {
    if b == [] {
      assert a + b == a;
    } else {
      var init, last := b[..|b| - 1], b[|b| - 1];
      assert (a + b)[..|a + b| - 1] == a + init;
      NetworkLinesAppend(a, init);
    }
  }

  /** Interface i's name line comes after the lines of the interfaces before
      it (one each, plus one per traffic line), and its traffic line, when it
      has one, comes right after it; otherwise the next interface's name line
      does (the position formula at i + 1). */
  lemma NetworkLinesAt(ifaces: seq<InterfaceInfo>, i: int)
    requires 0 <= i < |ifaces|
    ensures var ls, k := NetworkLines(ifaces), i + TrafficCount(ifaces[..i]);
      k < |ls| && ls[k] == StatusLine(ifaces[i].name, if ifaces[i].ip != "" then ifaces[i].ip else ifaces[i].status)
      && (HasTraffic(ifaces[i]) ==>
            k + 1 < |ls| && ls[k + 1] == StatusLine(" ", "R:" + ifaces[i].rxRate + " T:" + ifaces[i].txRate))
    ensures TrafficCount(ifaces[..i + 1]) == TrafficCount(ifaces[..i]) + (if HasTraffic(ifaces[i]) then 1 else 0)
  {
    var before, x, after := ifaces[..i], ifaces[i], ifaces[i + 1..];
    assert ifaces == (before + [x]) + after;
    assert ifaces[..i + 1] == before + [x];
    assert ifaces[..i + 1][..i] == before;
    NetworkLinesAppend(before + [x], after);
    assert (before + [x])[..|before + [x]| - 1] == before;
    NetworkLinesMeaning(before);
  }

  // ------------------------------------------------------------ durations

  const Minute: int := 60_000_000_000
  const Hour: int := 3_600_000_000_000

  /** The fields `formatDuration` prints: whole days, and the hours and
      minutes past them (Go's truncating `/` and `%`). */
  function DurationFields(d: int): (r: (int, int, int))
    ensures d >= 0 ==> r.0 >= 0 && 0 <= r.1 < 24 && 0 <= r.2 < 60
    ensures d >= 0 ==> (r.0 * 24 + r.1) * 60 + r.2 == d / Minute
  {
    var hours := Quot(d, Hour);
    MinutesSplit(d);
    (Quot(hours, 24), Rem(hours, 24), Rem(Quot(d, Minute), 60))
  }

  /** From zero on, the whole hours are the whole minutes divided by 60, so
      days, hours and minutes put back together give the whole minutes. */
  lemma MinutesSplit(d: int)
    ensures d >= 0 ==>
      var h := Quot(d, Hour); (Quot(h, 24) * 24 + Rem(h, 24)) * 60 + Rem(Quot(d, Minute), 60) == d / Minute
  {
    if d >= 0 {
      var m := d / Minute;
      DivMod(d, Hour, m / 60, (m % 60) * Minute + d % Minute);
      assert Quot(d, Hour) == m / 60 && Quot(d, Minute) == m;
    }
  }

  /** `formatDuration`: "Dd Hh" from one day on, "Hh Mm" from one hour on,
      otherwise "Mm". */
  function FormatDuration(d: int): string
  {
    var (days, hours, mins) := DurationFields(d);
    if days > 0 then DecimalString(days) + "d " + DecimalString(hours) + "h"
    else if hours > 0 then DecimalString(hours) + "h " + DecimalString(mins) + "m"
    else DecimalString(mins) + "m"
  }

  /** What `formatDuration` prints when there are no whole days. */
  function HoursMinutes(h: int, m: int): string
  {
    if h > 0 then DecimalString(h) + "h " + DecimalString(m) + "m" else DecimalString(m) + "m"
  }

  /** Below a day there are no whole days, and the hours and minutes are
      the whole minutes split at 60. */
  lemma UnderADay(d: int)
    requires 0 <= d < 24 * Hour
    ensures DurationFields(d).0 == 0
    ensures FormatDuration(d) == HoursMinutes(DurationFields(d).1, DurationFields(d).2)
    ensures DurationFields(d).1 * 60 + DurationFields(d).2 == d / Minute
  {
    DivMod(d, Hour, d / Hour, d % Hour);
    var q := Quot(d, Hour);
    assert q == d / Hour;
    if q >= 24 {
      MulSign(q - 23, Hour);
      assert false;
    }
    DivMod(q, 24, 0, q);
  }

  /** Below a day the format loses nothing but seconds: two durations
      format the same exactly when they hold the same whole minutes. */
  lemma FormatDurationUnderADay(d1: int, d2: int)
    requires 0 <= d1 < 24 * Hour && 0 <= d2 < 24 * Hour
    ensures FormatDuration(d1) == FormatDuration(d2) <==> d1 / Minute == d2 / Minute
  {
    var (a1, h1, m1) := DurationFields(d1);
    var (a2, h2, m2) := DurationFields(d2);
    UnderADay(d1);
    UnderADay(d2);
    if FormatDuration(d1) == FormatDuration(d2) {
      HoursMinutesInjective(h1, m1, h2, m2);
    }
    if d1 / Minute == d2 / Minute {
      DivMod(d1 / Minute, 60, h1, m1);
      DivMod(d2 / Minute, 60, h2, m2);
    }
  }

  /** Distinct hours or minutes format differently. */
  lemma HoursMinutesInjective(h1: int, m1: int, h2: int, m2: int)
    requires h1 >= 0 && m1 >= 0 && h2 >= 0 && m2 >= 0 && HoursMinutes(h1, m1) == HoursMinutes(h2, m2)
    ensures h1 == h2 && m1 == m2
  {
    NumeralHasNoLetter(h1, 'h');
    NumeralHasNoLetter(h2, 'h');
    NumeralHasNoLetter(m1, 'h');
    NumeralHasNoLetter(m2, 'h');
    NumeralHasNoLetter(m1, 'm');
    NumeralHasNoLetter(m2, 'm');
    var dh1, dh2, dm1, dm2 := DecimalString(h1), DecimalString(h2), DecimalString(m1), DecimalString(m2);
    var r1, r2 := " " + dm1 + "m", " " + dm2 + "m";
    if h1 > 0 && h2 > 0 {
      assert HoursMinutes(h1, m1) == dh1 + ['h'] + r1;
      assert HoursMinutes(h2, m2) == dh2 + ['h'] + r2;
      SplitAtLetter(dh1, dh2, r1, r2, 'h');
      DecimalStringInjective(h1, h2);
      assert r1[1..] == dm1 + ['m'] + [] && r2[1..] == dm2 + ['m'] + [];
      SplitAtLetter(dm1, dm2, [], [], 'm');
      DecimalStringInjective(m1, m2);
    } else if h1 == 0 && h2 == 0 {
      assert HoursMinutes(h1, m1) == dm1 + ['m'] + [] && HoursMinutes(h2, m2) == dm2 + ['m'] + [];
      SplitAtLetter(dm1, dm2, [], [], 'm');
      DecimalStringInjective(m1, m2);
    } else if h1 > 0 {
      assert HoursMinutes(h1, m1) == dh1 + ['h'] + r1;
      NoLetter(dh1, r1, dm2, 'h');
      assert false;
    } else {
      assert HoursMinutes(h2, m2) == dh2 + ['h'] + r2;
      NoLetter(dh2, r2, dm1, 'h');
      assert false;
    }
  }

  /** A decimal numeral never contains a letter. */
  predicate Without(s: string, c: char)
  {
    forall i :: 0 <= i < |s| ==> s[i] != c
  }

  lemma NumeralHasNoLetter(n: int, c: char)
    requires c == 'h' || c == 'm'
    ensures Without(DecimalString(n), c)
  {
  }

  /** Two strings that each run up to the first c split the same way. */
  lemma SplitAtLetter(a: string, b: string, r1: string, r2: string, c: char)
    requires Without(a, c) && Without(b, c) && a + [c] + r1 == b + [c] + r2
    ensures a == b && r1 == r2
  {
    var s, t := a + [c] + r1, b + [c] + r2;
    assert s[|a|] == c && forall i :: 0 <= i < |a| ==> s[i] == a[i];
    assert t[|b|] == c && forall i :: 0 <= i < |b| ==> t[i] == b[i];
    assert |a| == |b|;
    assert a == s[..|a|] && b == t[..|b|];
    assert r1 == s[|a| + 1..] && r2 == t[|b| + 1..];
  }

  /** "Hh Mm" has an 'h', "Mm" none. */
  lemma NoLetter(h: string, rest: string, m: string, c: char)
    requires c == 'h' && Without(m, c)
    ensures h + [c] + rest != m + "m"
  {
    assert (h + [c] + rest)[|h|] == c;
    assert forall i :: 0 <= i < |m + "m"| ==> (m + "m")[i] != c by {
      forall i | 0 <= i < |m + "m"|
        ensures (m + "m")[i] != c
      {
        if i < |m| {
          assert (m + "m")[i] == m[i];
        }
      }
    }
  }

  // ------------------------------------------------------------ multiple screens

  /** A screen of a `MultiScreen`: its render function is not modelled, so a
      screen is known by an identifier and its rendering's error is a
      parameter. */
  type ScreenId = int

  function NextScreen(c: int, n: int): int
    requires n >= 1
  {
    (c + 1) % n
  }

  function PreviousScreen(c: int, n: int): int
    requires n >= 1
  {
    (c - 1 + n) % n
  }

  /** Previous undoes Next and Next undoes Previous. */
  lemma NextPreviousInverse(c: int, n: int)
    requires n >= 1 && 0 <= c < n
    ensures 0 <= NextScreen(c, n) < n && 0 <= PreviousScreen(c, n) < n
    ensures PreviousScreen(NextScreen(c, n), n) == c
    ensures NextScreen(PreviousScreen(c, n), n) == c
  {
    if c + 1 < n {
      DivMod(c + 1, n, 0, c + 1);
      DivMod(c + n, n, 1, c);
    } else {
      DivMod(c + 1, n, 1, 0);
      DivMod(n - 1, n, 0, n - 1);
    }
    if c >= 1 {
      DivMod(c - 1 + n, n, 1, c - 1);
      DivMod(c, n, 0, c);
    } else {
      DivMod(n - 1, n, 0, n - 1);
      DivMod(n, n, 1, 0);
    }
  }

  class MultiScreen {
    var screens: seq<ScreenId>
    var current: int
    const interval: int

    /** The current index names a screen, or is 0 while there is none. */
    predicate Valid() reads this
    {
      0 <= current && (current < |screens| || current == 0)
    }

    constructor New(interval: int)
      ensures Valid() && screens == [] && current == 0 && this.interval == interval
    {
      screens := [];
      current := 0;
      this.interval := interval;
    }

    method AddScreen(s: ScreenId)
      requires Valid()
      modifies this
      ensures Valid() && screens == old(screens) + [s] && current == old(current)
    {
      screens := screens + [s];
    }

    /** Runs the current screen: no screens means no error; otherwise that
        screen's error is returned. */
    method RenderCurrent(screenErr: ScreenId -> Option<string>) returns (shown: Option<ScreenId>, err: Option<string>)
      requires Valid()
      ensures screens == [] ==> shown == None && err == None
      ensures screens != [] ==> shown == Some(screens[current]) && err == screenErr(screens[current])
    {
      if |screens| == 0 {
        return None, None;
      }
      shown := Some(screens[current]);
      err := screenErr(screens[current]);
    }

    method Next()
      requires Valid()
      modifies this
      ensures Valid() && screens == old(screens)
      ensures |screens| > 0 ==> current == NextScreen(old(current), |screens|)
      ensures |screens| == 0 ==> current == old(current)
    {
      if |screens| > 0 {
        current := (current + 1) % |screens|;
      }
    }

    method Previous()
      requires Valid()
      modifies this
      ensures Valid() && screens == old(screens)
      ensures |screens| > 0 ==> current == PreviousScreen(old(current), |screens|)
      ensures |screens| == 0 ==> current == old(current)
    {
      if |screens| > 0 {
        current := (current - 1 + |screens|) % |screens|;
      }
    }

    /** Moves to screen `index` when there is one; otherwise nothing. */
    method SetScreen(index: int)
      requires Valid()
      modifies this
      ensures Valid() && screens == old(screens)
      ensures current == if 0 <= index < |screens| then index else old(current)
    {
      if index >= 0 && index < |screens| {
        current := index;
      }
    }
  }
}
