/** The layout logic of the pfSense status screens: the marquee that scrolls
    a long name, the interface lists each traffic screen shows, and the
    paging through a list longer than five rows. Go strings are byte
    strings; here each character stands for one byte. */
module StatusScreens {
  import opened Util

  /** One interface of a metrics snapshot; the byte counters are `uint64`. */
  datatype Interface = Interface(name: string, description: string, status: string, ip: string,
                                 rxBytes: int, txBytes: int)

  // ------------------------------------------------------------ marquee

  const PauseFrames: int := 20
  const FramesPerChar: int := 5
  const Gap: string := "    "

  /** The length of one marquee cycle for text of n bytes: five frames per
      byte of the text and its four-space gap, plus the pause. */
  function CycleLength(n: int): int
  {
    (n + |Gap|) * FramesPerChar + PauseFrames
  }

  /** s turned left by k places. */
  function Rotated(s: string, k: int): (r: string)
    requires 0 <= k <= |s|
    ensures |r| == |s|
  {
    s[k..] + s[..k]
  }

  /** Which byte of the padded text the window starts at, `frame` frames
      into the scrolling phase of a cycle. */
  function ScrollOffset(n: int, frame: int): (pos: int)
    requires n >= 0
    requires Rem(frame, CycleLength(n)) >= PauseFrames
    ensures 0 <= pos < n + |Gap|
  {
    (Rem(frame, CycleLength(n)) - PauseFrames) / FramesPerChar
  }

  /** `scrollText`: text that fits is returned whole; longer text shows its
      first `maxLen` bytes for the first 20 frames of each cycle, and
      otherwise the `maxLen`-byte window of text-plus-gap that starts at the
      scroll offset, wrapping round to the start. */
  method ScrollText(text: string, maxLen: int, frame: int) returns (r: string)
    requires maxLen >= 0
    ensures |text| <= maxLen ==> r == text
    ensures |text| > maxLen ==> |r| == maxLen
    ensures |text| > maxLen && Rem(frame, CycleLength(|text|)) < PauseFrames ==> r == text[..maxLen]
    ensures |text| > maxLen && Rem(frame, CycleLength(|text|)) >= PauseFrames ==>
      r == Rotated(text + Gap, ScrollOffset(|text|, frame))[..maxLen]
  {
    if |text| <= maxLen {
      return text;
    }
    var padded := text + Gap;
    var textLen := |padded|;
    var cycleLen := textLen * 5 + PauseFrames;
    var adjustedFrame := Rem(frame, cycleLen);
    if adjustedFrame < PauseFrames {
      return text[..maxLen];
    }
    var pos := (adjustedFrame - PauseFrames) / 5;
    if pos >= textLen {
      // the frame is below five times the padded length past the pause,
      // so this reduction of `pos` modulo `textLen` cannot happen
      assert false;
    }
    var result := new char[maxLen];
    for i := 0 to maxLen
      invariant forall j :: 0 <= j < i ==> result[j] == Rotated(padded, pos)[j]
    {
      RotatedAt(padded, pos, i);
      result[i] := padded[(pos + i) % textLen];
    }
    r := result[..];
  }

  /** Byte i of s turned left by k is byte (k + i) mod |s| of s. */
  lemma RotatedAt(s: string, k: int, i: int)
    requires 0 <= k < |s| && 0 <= i < |s|
    ensures Rotated(s, k)[i] == s[(k + i) % |s|]
  {
    if k + i < |s| {
      DivMod(k + i, |s|, 0, k + i);
    } else {
      DivMod(k + i, |s|, 1, k + i - |s|);
    }
  }

  /** The marquee repeats every cycle: frames one cycle apart show the
      same window (for frames at or after 0, as the frame counter is). */
  lemma MarqueePeriodic(n: int, frame: int)
    requires n >= 0 && frame >= 0
    ensures Rem(frame + CycleLength(n), CycleLength(n)) == Rem(frame, CycleLength(n))
  {
    var c := CycleLength(n);
    DivMod(frame + c, c, frame / c + 1, frame % c);
  }

  /** During scrolling the window advances one byte every five frames: five
      frames later, within the same cycle, the window starts one byte on. */
  lemma MarqueeAdvances(n: int, frame: int)
    requires n >= 0 && frame >= 0
    requires PauseFrames <= frame % CycleLength(n) < CycleLength(n) - FramesPerChar
    ensures Rem(frame + FramesPerChar, CycleLength(n)) >= PauseFrames
    ensures ScrollOffset(n, frame + FramesPerChar) == ScrollOffset(n, frame) + 1
  {
    var c := CycleLength(n);
    DivMod(frame + FramesPerChar, c, frame / c, frame % c + FramesPerChar);
    var a := frame % c - PauseFrames;
    DivMod(a + FramesPerChar, FramesPerChar, a / FramesPerChar + 1, a % FramesPerChar);
  }

  // ------------------------------------------------------------ interface lists

  /** The WAN screen's test: a description that is "WAN" or starts with it. */
  predicate IsWan(iface: Interface)
  {
    iface.description == "WAN" || HasPrefix(iface.description, "WAN")
  }

  /** The tunnel screen's test: a WireGuard device name or a gateway, WG or
      Mullvad description. */
  predicate IsTunnel(iface: Interface)
  {
    HasPrefix(iface.name, "tun_wg") || HasPrefix(iface.description, "GW_")
    || HasPrefix(iface.description, "WG_") || HasPrefix(iface.description, "MULLVAD")
  }

  /** The LAN screen's test: described, and neither WAN nor tunnel. */
  predicate IsLan(iface: Interface)
  {
    iface.description != "" && !IsWan(iface) && !IsTunnel(iface)
  }

  /** The interface screen's test: an address and an active link. */
  predicate IsActive(iface: Interface)
  {
    iface.ip != "" && iface.status == "active"
  }

  datatype ListKind = ActiveList | WanList | TunnelList | LanList

  predicate Accepts(kind: ListKind, iface: Interface)
  {
    match kind
    case ActiveList => IsActive(iface)
    case WanList => IsWan(iface)
    case TunnelList => IsTunnel(iface)
    case LanList => IsLan(iface)
  }

  /** The interfaces a screen lists, in snapshot order. */
  function Select(ifaces: seq<Interface>, kind: ListKind): seq<Interface>
    decreases |ifaces|
  {
    if ifaces == [] then []
    else
      var last := ifaces[|ifaces| - 1];
      Select(ifaces[..|ifaces| - 1], kind) + (if Accepts(kind, last) then [last] else [])
  }

  /** A list holds exactly the snapshot's interfaces the screen accepts,
      each as often as it occurs there, in snapshot order. */
  lemma {:induction false} SelectMeaning(ifaces: seq<Interface>, kind: ListKind)
    ensures forall x :: x in Select(ifaces, kind) <==> x in ifaces && Accepts(kind, x)
    ensures multiset(Select(ifaces, kind)) <= multiset(ifaces)
    ensures |Select(ifaces, kind)| <= |ifaces|
    decreases |ifaces|
  {
    if ifaces != [] {
      var init, last := ifaces[..|ifaces| - 1], ifaces[|ifaces| - 1];
      SelectMeaning(init, kind);
      assert ifaces == init + [last];
    }
  }

  /** The list of a prefix of the snapshot is a prefix of the list. */
  lemma {:induction false} SelectPrefix(ifaces: seq<Interface>, kind: ListKind, k: int)
    requires 0 <= k <= |ifaces|
    ensures Select(ifaces[..k], kind) <= Select(ifaces, kind)
    decreases |ifaces|
  {
    if k < |ifaces| {
      var init := ifaces[..|ifaces| - 1];
      SelectPrefix(init, kind, k);
      assert init[..k] == ifaces[..k];
    } else {
      assert ifaces[..k] == ifaces;
    }
  }

  /** The LAN list shares no interface with the WAN or the tunnel list. */
  lemma LanDisjoint(ifaces: seq<Interface>, x: Interface)
    requires x in Select(ifaces, LanList)
    ensures x !in Select(ifaces, WanList) && x !in Select(ifaces, TunnelList)
  {
    SelectMeaning(ifaces, LanList);
    SelectMeaning(ifaces, WanList);
    SelectMeaning(ifaces, TunnelList);
  }

  /** Every described interface is on at least one traffic screen. */
  lemma TrafficScreensCover(ifaces: seq<Interface>, x: Interface)
    requires x in ifaces && x.description != ""
    ensures x in Select(ifaces, WanList) || x in Select(ifaces, TunnelList) || x in Select(ifaces, LanList)
  {
    SelectMeaning(ifaces, LanList);
    SelectMeaning(ifaces, WanList);
    SelectMeaning(ifaces, TunnelList);
  }

  /** The list-building loop of a screen: the accepted interfaces in order,
      stopping at `limit` of them (the WAN screen's `count >= 4` break; the
      other screens take them all). */
  method Collect(ifaces: seq<Interface>, kind: ListKind, limit: int) returns (list: seq<Interface>)
    requires limit >= 0
    ensures list == Select(ifaces, kind)[..Min(limit, |Select(ifaces, kind)|)]
  {
    list := [];
    var i := 0;
    while i < |ifaces|
      invariant 0 <= i <= |ifaces|
      invariant |list| <= limit
      invariant list == Select(ifaces[..i], kind)[..Min(limit, |Select(ifaces[..i], kind)|)]
    {
      assert ifaces[..i + 1][..i] == ifaces[..i];
      if Accepts(kind, ifaces[i]) {
        if |list| >= limit {
          SelectPrefix(ifaces, kind, i);
          return;
        }
        list := list + [ifaces[i]];
      }
      i := i + 1;
    }
    assert ifaces[..|ifaces|] == ifaces;
  }

  /** The WAN screen shows at most four WAN interfaces. */
  const MaxWanRows: int := 4

  method WanRows(ifaces: seq<Interface>) returns (rows: seq<Interface>)
    ensures |rows| <= MaxWanRows
    ensures rows == Select(ifaces, WanList)[..Min(MaxWanRows, |Select(ifaces, WanList)|)]
  {
    rows := Collect(ifaces, WanList, MaxWanRows);
  }

  // ------------------------------------------------------------ paging

  const MaxVisibleRows: int := 5

  /** The list indices shown, top to bottom, from scroll position p. */
  function Rows(p: int, total: int): (rows: seq<int>)
    requires p >= 0 && total >= 0
    ensures |rows| == Min(MaxVisibleRows, total)
  {
    seq(Min(MaxVisibleRows, total), i requires 0 <= i < Min(MaxVisibleRows, total) => (p + i) % total)
  }

  /** Every row indexes the list. */
  lemma RowsInRange(p: int, total: int, i: int)
    requires p >= 0 && total >= 0 && 0 <= i < |Rows(p, total)|
    ensures 0 <= Rows(p, total)[i] < total
  {
  }

  /** No list index is shown twice. */
  lemma RowsDistinct(p: int, total: int, i: int, j: int)
    requires p >= 0 && total >= 0 && 0 <= i < j < |Rows(p, total)|
    ensures Rows(p, total)[i] != Rows(p, total)[j]
  {
    ModDistinct(p + i, p + j, total);
  }

  /** A list that fits on the screen is shown whole, whatever the scroll
      position left over from a longer list. */
  lemma RowsCoverShortList(p: int, total: int, k: int)
    requires p >= 0 && 0 <= k < total <= MaxVisibleRows
    ensures k in Rows(p, total)
  {
    var r := p % total;
    var i := if k >= r then k - r else k - r + total;
    DivMod(p, total, p / total, r);
    if k >= r {
      DivMod(p + i, total, p / total, k);
    } else {
      DivMod(p + i, total, p / total + 1, k);
    }
    assert Rows(p, total)[i] == k;
  }

  /** Two numbers less than m apart have different remainders modulo m. */
  lemma ModDistinct(a: int, b: int, m: int)
    requires m > 0 && a < b < a + m
    ensures a % m != b % m
  {
    if a % m == b % m {
      DivMod(b - a, m, b / m - a / m, 0);
      MulSign(b / m - a / m, m);
    }
  }

  /** Frames per page of a paging list screen: the interface and tunnel
      screens turn the page every 15 frames, the LAN screen every 25. */
  function PeriodOf(kind: ListKind): (p: int)
    ensures p >= 1
  {
    if kind == LanList then 25 else 15
  }

  /** A list screen's paging state: `frame` is the daemon's frame count as
      of the last render; `scrollPos` the first row shown. The WAN screen
      does not page (it shows `WanRows`), so no paging state has its kind. */
  class PagedList {
    const kind: ListKind
    const period: int
    var frame: int
    var scrollPos: int

    predicate Valid() reads this
    {
      kind != WanList && period == PeriodOf(kind) && frame >= 0 && scrollPos >= 0
    }

    /** A fresh screen, at frame 0 and the top of its list. */
    constructor New(kind: ListKind)
      requires kind != WanList
      ensures Valid() && this.kind == kind && frame == 0 && scrollPos == 0
      ensures period == PeriodOf(kind)
      ensures kind == LanList ==> period == 25
      ensures kind != LanList ==> period == 15
    {
      this.kind := kind;
      this.period := PeriodOf(kind);
      frame := 0;
      scrollPos := 0;
    }

    method SetFrame(f: int)
      requires Valid() && f >= 0
      modifies this
      ensures Valid() && frame == f && scrollPos == old(scrollPos)
    {
      frame := f;
    }

    /** The paging part of the screen's `Render`: build the list, move the
        window when the list is longer than five rows (otherwise the window
        stays where it was), then take up to five rows from it, wrapping. */
    method Page(ifaces: seq<Interface>) returns (shown: seq<Interface>)
      requires Valid()
      modifies this
      ensures Valid() && frame == old(frame)
      ensures var list := Select(ifaces, kind);
        (|list| > MaxVisibleRows ==> scrollPos == (frame / period) % |list|)
        && (|list| <= MaxVisibleRows ==> scrollPos == old(scrollPos))
        && |shown| == |Rows(scrollPos, |list|)|
        && forall i :: 0 <= i < |shown| ==> shown[i] == list[Rows(scrollPos, |list|)[i]]
    {
      var list := Collect(ifaces, kind, |ifaces|);
      assert list == Select(ifaces, kind) by {
        SelectMeaning(ifaces, kind);
      }
      var total := |list|;
      if total > MaxVisibleRows {
        scrollPos := (frame / period) % total;
      }
      shown := [];
      var i := 0;
      while i < MaxVisibleRows && i < total
        invariant 0 <= i <= Min(MaxVisibleRows, total)
        invariant |shown| == i
        invariant forall j :: 0 <= j < i ==> shown[j] == list[Rows(scrollPos, total)[j]]
      {
        var idx := (scrollPos + i) % total;
        assert Rows(scrollPos, total)[i] == idx;
        shown := shown + [list[idx]];
        i := i + 1;
      }
    }
  }
}
