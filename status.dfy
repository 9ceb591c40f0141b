/** The pfSense status daemon: which screen is up, a short history of CPU
    load and total traffic, per-interface byte counters and rates kept
    between fetches, and the three LEDs it drives from the metrics.
    Collecting metrics (shell commands), the clock and the tickers are
    outside the model: a fetch's result and the current time are
    parameters. Times are nanoseconds; `None` is Go's zero time. */
module StatusDaemons {
  import opened Util
  import opened StatusScreens
  import opened Devices
  import Protocol
  import Displays

  /** A metrics snapshot: CPU load in percent, memory in bytes, uptime in
      nanoseconds. The load averages only feed formatted text. */
  datatype Metrics = Metrics(hostname: string, cpu: real, memUsed: int, memTotal: int,
                             uptime: int, interfaces: seq<Interface>)

  predicate CountersValid(ifaces: seq<Interface>)
  {
    forall i :: 0 <= i < |ifaces| ==> IsUint64(ifaces[i].rxBytes) && IsUint64(ifaces[i].txBytes)
  }

  predicate MetricsValid(m: Metrics)
  {
    IsUint64(m.memUsed) && IsUint64(m.memTotal) && CountersValid(m.interfaces)
  }

  /** Go's `Duration.Seconds`. */
  function Seconds(nanos: int): (s: real)
    ensures s > 0.0 <==> nanos > 0
  {
    nanos as real / 1000000000.0
  }

  /** Bytes per second between two readings of a `uint64` counter taken
      `elapsed` seconds apart; a counter that went backwards has wrapped. */
  function Rate(cur: int, last: int, elapsed: real): (r: real)
    requires IsUint64(cur) && IsUint64(last) && elapsed > 0.0
    ensures r >= 0.0
    ensures r * elapsed == WrapSub(cur, last) as real
    ensures cur >= last ==> r * elapsed == (cur - last) as real
  {
    WrapSub(cur, last) as real / elapsed
  }

  // ------------------------------------------------------------ totals

  function Counter(iface: Interface, tx: bool): int
  {
    if tx then iface.txBytes else iface.rxBytes
  }

  /** The sum of one counter over all interfaces, added up in `uint64`. */
  function Total(ifaces: seq<Interface>, tx: bool): (t: int)
    requires CountersValid(ifaces)
    ensures IsUint64(t)
    decreases |ifaces|
  {
    if ifaces == [] then 0
    else WrapAdd(Total(ifaces[..|ifaces| - 1], tx), Counter(ifaces[|ifaces| - 1], tx))
  }

  /** The same sum in unbounded integers. */
  function ExactTotal(ifaces: seq<Interface>, tx: bool): int
    decreases |ifaces|
  {
    if ifaces == [] then 0
    else ExactTotal(ifaces[..|ifaces| - 1], tx) + Counter(ifaces[|ifaces| - 1], tx)
  }

  /** The wrapping total is the exact total modulo 2^64. */
  lemma {:induction false} TotalIsExactModulo(ifaces: seq<Interface>, tx: bool)
    requires CountersValid(ifaces)
    ensures Total(ifaces, tx) == ExactTotal(ifaces, tx) % Uint64Modulus
    decreases |ifaces|
  {
    if ifaces != [] {
      var init := ifaces[..|ifaces| - 1];
      TotalIsExactModulo(init, tx);
      ModAdd(ExactTotal(init, tx), Counter(ifaces[|ifaces| - 1], tx), Uint64Modulus);
    }
  }

  lemma ModAdd(a: int, b: int, m: int)
    requires m > 0
    ensures (a % m + b) % m == (a + b) % m
  {
    var q, r := a / m, a % m;
    var q2, r2 := (r + b) / m, (r + b) % m;
    assert (q + q2) * m == q * m + q2 * m;
    DivMod(a + b, m, q + q2, r2);
  }

  /** The summing loop of `AddSample`. */
  method Totals(ifaces: seq<Interface>) returns (totalTx: int, totalRx: int)
    requires CountersValid(ifaces)
    ensures totalTx == Total(ifaces, true) && totalRx == Total(ifaces, false)
  {
    totalTx, totalRx := 0, 0;
    for i := 0 to |ifaces|
      invariant totalTx == Total(ifaces[..i], true) && totalRx == Total(ifaces[..i], false)
    {
      assert ifaces[..i + 1][..i] == ifaces[..i];
      totalTx := WrapAdd(totalTx, ifaces[i].txBytes);
      totalRx := WrapAdd(totalRx, ifaces[i].rxBytes);
    }
    assert ifaces[..|ifaces|] == ifaces;
  }

  // ------------------------------------------------------------ history

  /** The daemon keeps 12 samples (a minute at one fetch per 5 seconds). */
  const MaxSamples: int := 12

  /** A history of at most `max` samples after one more: the newest `max`
      of the samples so far, newest last. */
  function Push(h: seq<real>, v: real, max: int): (r: seq<real>)
    requires 1 <= max && |h| <= max
    ensures |r| == Min(|h| + 1, max) && r[|r| - 1] == v
    ensures r == (h + [v])[|h| + 1 - |r|..]
  {
    if |h| >= max then
      assert h[1..max] + [v] == (h + [v])[1..];
      h[1..max] + [v]
    else h + [v]
  }

  /** A rate history after a sample: a rate is added only when a previous
      sample time exists and time has moved forward since it. */
  function RateHistory(h: seq<real>, cur: int, last: int, time: Option<int>, now: int, max: int): (r: seq<real>)
    requires 1 <= max && |h| <= max && IsUint64(cur) && IsUint64(last)
    ensures |r| <= max
  {
    if time.Some? && Seconds(now - time.value) > 0.0 then
      Push(h, Rate(cur, last, Seconds(now - time.value)), max)
    else h
  }

  class MetricsHistory {
    var cpuHistory: seq<real>
    var txRateHistory: seq<real>
    var rxRateHistory: seq<real>
    const maxSamples: int
    var lastTxBytes: int
    var lastRxBytes: int
    var lastSampleTime: Option<int>

    /** The source panics adding to a history of capacity 0, so a usable
        history has room for one sample. The two rate histories always
        grow together, and never past the CPU history. */
    predicate Valid() reads this
    {
      1 <= maxSamples && |cpuHistory| <= maxSamples
      && |txRateHistory| == |rxRateHistory| <= |cpuHistory|
      && IsUint64(lastTxBytes) && IsUint64(lastRxBytes)
    }

    constructor New(maxSamples: int)
      ensures this.maxSamples == maxSamples && (1 <= maxSamples ==> Valid())
      ensures cpuHistory == [] && txRateHistory == [] && rxRateHistory == []
      ensures lastTxBytes == 0 && lastRxBytes == 0 && lastSampleTime == None
    {
      this.maxSamples := maxSamples;
      cpuHistory, txRateHistory, rxRateHistory := [], [], [];
      lastTxBytes, lastRxBytes, lastSampleTime := 0, 0, None;
    }

    /** Records a snapshot taken at `now`: its CPU load always, the total
        transfer rates when there is an earlier sample to measure from. */
    method AddSample(m: Metrics, now: int)
      requires Valid() && CountersValid(m.interfaces)
      modifies this
      ensures Valid()
      ensures cpuHistory == Push(old(cpuHistory), m.cpu, maxSamples)
      ensures txRateHistory == RateHistory(old(txRateHistory), Total(m.interfaces, true), old(lastTxBytes),
                                           old(lastSampleTime), now, maxSamples)
      ensures rxRateHistory == RateHistory(old(rxRateHistory), Total(m.interfaces, false), old(lastRxBytes),
                                           old(lastSampleTime), now, maxSamples)
      ensures lastTxBytes == Total(m.interfaces, true) && lastRxBytes == Total(m.interfaces, false)
      ensures lastSampleTime == Some(now)
    {
      cpuHistory := Push(cpuHistory, m.cpu, maxSamples);
      var totalTx, totalRx := Totals(m.interfaces);
      AddRates(totalTx, totalRx, now);
      lastTxBytes, lastRxBytes, lastSampleTime := totalTx, totalRx, Some(now);
    }

    /** The rate part of `AddSample`, measured against the previous totals. */
    method AddRates(totalTx: int, totalRx: int, now: int)
      requires Valid() && IsUint64(totalTx) && IsUint64(totalRx)
      requires |txRateHistory| < |cpuHistory| || |cpuHistory| == maxSamples
      modifies this
      ensures Valid()
      ensures txRateHistory == RateHistory(old(txRateHistory), totalTx, lastTxBytes, lastSampleTime, now, maxSamples)
      ensures rxRateHistory == RateHistory(old(rxRateHistory), totalRx, lastRxBytes, lastSampleTime, now, maxSamples)
      ensures cpuHistory == old(cpuHistory) && lastTxBytes == old(lastTxBytes) && lastRxBytes == old(lastRxBytes)
      ensures lastSampleTime == old(lastSampleTime)
    {
      if lastSampleTime.Some? {
        var elapsed := Seconds(now - lastSampleTime.value);
        if elapsed > 0.0 {
          var txRate := Rate(totalTx, lastTxBytes, elapsed);
          var rxRate := Rate(totalRx, lastRxBytes, elapsed);
          txRateHistory := Push(txRateHistory, txRate, maxSamples);
          rxRateHistory := Push(rxRateHistory, rxRate, maxSamples);
        }
      }
    }
  }

  // ------------------------------------------------------------ per-interface tables

  datatype Counters = Counters(tx: int, rx: int)
  datatype IfaceRate = IfaceRate(txRate: real, rxRate: real)

  type Tables = (map<string, Counters>, map<string, IfaceRate>)

  predicate TableValid(last: map<string, Counters>)
  {
    forall n :: n in last ==> IsUint64(last[n].tx) && IsUint64(last[n].rx)
  }

  function Names(ifaces: seq<Interface>): set<string>
  {
    set i | 0 <= i < |ifaces| :: ifaces[i].name
  }

  /** The names of one more interface. */
  lemma NamesSnoc(ifaces: seq<Interface>, k: int)
    requires 0 <= k < |ifaces|
    ensures Names(ifaces[..k + 1]) == Names(ifaces[..k]) + {ifaces[k].name}
  {
    var a, b := ifaces[..k + 1], ifaces[..k];
    assert forall j :: 0 <= j < k ==> a[j] == b[j] == ifaces[j];
    assert a[k] == ifaces[k];
  }

  predicate DistinctNames(ifaces: seq<Interface>)
  {
    forall i, j :: 0 <= i < j < |ifaces| ==> ifaces[i].name != ifaces[j].name
  }

  /** The pruning pass: counters of interfaces gone from the snapshot are
      dropped, and so are their rates. */
  function Pruned(t: Tables, names: set<string>): (r: Tables)
  {
    (map n | n in t.0 && n in names :: t.0[n],
     map n | n in t.1 && !(n in t.0 && n !in names) :: t.1[n])
  }

  /** The pruning loop: every counter name is visited once, and a name not
      in the snapshot loses its counter and its rate. */
  method PruneTables(last0: map<string, Counters>, rates0: map<string, IfaceRate>, names: set<string>)
    returns (last: map<string, Counters>, rates: map<string, IfaceRate>)
    ensures (last, rates) == Pruned((last0, rates0), names)
  {
    last, rates := last0, rates0;
    var todo := last.Keys;
    while todo != {}
      invariant todo <= last0.Keys
      invariant last == map n | n in last0 && (n in todo || n in names) :: last0[n]
      invariant rates == map n | n in rates0 && !(n in last0 && n !in todo && n !in names) :: rates0[n]
      decreases todo
    {
      var n :| n in todo;
      if n !in names {
        last := last - {n};
        rates := rates - {n};
      }
      todo := todo - {n};
    }
    ghost var p := Pruned((last0, rates0), names);
    assert last == p.0;
    assert rates == p.1;
  }

  /** The rate pass over the snapshot in order: an interface with a stored
      counter gets a rate from it, and every interface's counter is then
      stored. */
  function Sweep(t: Tables, ifaces: seq<Interface>, elapsed: real): (r: Tables)
    requires elapsed > 0.0 && TableValid(t.0) && CountersValid(ifaces)
    ensures TableValid(r.0)
    decreases |ifaces|
  {
    if ifaces == [] then t
    else
      var prev := Sweep(t, ifaces[..|ifaces| - 1], elapsed);
      SweepStep(prev, ifaces[|ifaces| - 1], elapsed)
  }

  function SweepStep(t: Tables, iface: Interface, elapsed: real): (r: Tables)
    requires elapsed > 0.0 && TableValid(t.0) && IsUint64(iface.txBytes) && IsUint64(iface.rxBytes)
    ensures TableValid(r.0)
  {
    var n := iface.name;
    (t.0[n := Counters(iface.txBytes, iface.rxBytes)],
     if n in t.0 then t.1[n := IfaceRate(Rate(iface.txBytes, t.0[n].tx, elapsed), Rate(iface.rxBytes, t.0[n].rx, elapsed))]
     else t.1)
  }

  /** The tables after a successful fetch at `now` of a snapshot with
      these interfaces, the previous sample having been taken at `time`. */
  function FetchTables(t: Tables, time: Option<int>, ifaces: seq<Interface>, now: int): (r: Tables)
    requires TableValid(t.0) && CountersValid(ifaces)
    ensures TableValid(r.0)
  {
    var p := Pruned(t, Names(ifaces));
    if time.Some? && Seconds(now - time.value) > 0.0 then Sweep(p, ifaces, Seconds(now - time.value)) else p
  }

  /** The rate pass stores a counter for every interface of the snapshot,
      rates only where counters are, and a rate for every interface that
      had a counter before. */
  lemma {:induction false} SweepKeys(t: Tables, ifaces: seq<Interface>, elapsed: real)
    requires elapsed > 0.0 && TableValid(t.0) && CountersValid(ifaces)
    ensures Sweep(t, ifaces, elapsed).0.Keys == t.0.Keys + Names(ifaces)
    ensures t.1.Keys <= t.0.Keys ==> Sweep(t, ifaces, elapsed).1.Keys <= Sweep(t, ifaces, elapsed).0.Keys
    ensures forall n :: n in t.0 && n in Names(ifaces) ==> n in Sweep(t, ifaces, elapsed).1
    ensures t.1.Keys <= Sweep(t, ifaces, elapsed).1.Keys
    ensures DistinctNames(ifaces) ==> Sweep(t, ifaces, elapsed).1.Keys <= t.1.Keys + t.0.Keys
    decreases |ifaces|
  {
    if ifaces != [] {
      var init, last := ifaces[..|ifaces| - 1], ifaces[|ifaces| - 1];
      SweepKeys(t, init, elapsed);
      assert Names(ifaces) == Names(init) + {last.name} by {
        NamesSnoc(ifaces, |ifaces| - 1);
        assert ifaces[..|ifaces|] == ifaces;
      }
      if DistinctNames(ifaces) {
        assert DistinctNames(init);
        assert last.name !in Names(init);
      }
    }
  }

  /** With distinct interface names, each interface's counter is its own
      reading, and its rate is measured against the counter stored before
      the fetch; an interface without one keeps whatever rate entry it had. */
  lemma {:induction false} SweepValues(t: Tables, ifaces: seq<Interface>, elapsed: real, i: int)
    requires elapsed > 0.0 && TableValid(t.0) && CountersValid(ifaces) && DistinctNames(ifaces)
    requires 0 <= i < |ifaces|
    ensures var r, x := Sweep(t, ifaces, elapsed), ifaces[i];
      x.name in r.0 && r.0[x.name] == Counters(x.txBytes, x.rxBytes)
      && (x.name in t.0 ==>
            x.name in r.1 && r.1[x.name] == IfaceRate(Rate(x.txBytes, t.0[x.name].tx, elapsed), Rate(x.rxBytes, t.0[x.name].rx, elapsed)))
      && (x.name !in t.0 ==> (x.name in r.1 <==> x.name in t.1) && (x.name in t.1 ==> r.1[x.name] == t.1[x.name]))
    decreases |ifaces|
  {
    var init, last := ifaces[..|ifaces| - 1], ifaces[|ifaces| - 1];
    var x := ifaces[i];
    if i < |ifaces| - 1 {
      SweepValues(t, init, elapsed, i);
      assert init[i] == x;
    } else {
      SweepUntouched(t, init, elapsed, x.name);
      assert x.name !in Names(init);
    }
  }

  /** Names the rate pass does not meet keep their entries. */
  lemma {:induction false} SweepUntouched(t: Tables, ifaces: seq<Interface>, elapsed: real, n: string)
    requires elapsed > 0.0 && TableValid(t.0) && CountersValid(ifaces)
    requires n !in Names(ifaces)
    ensures (n in Sweep(t, ifaces, elapsed).0 <==> n in t.0) && (n in t.0 ==> Sweep(t, ifaces, elapsed).0[n] == t.0[n])
    ensures (n in Sweep(t, ifaces, elapsed).1 <==> n in t.1) && (n in t.1 ==> Sweep(t, ifaces, elapsed).1[n] == t.1[n])
    decreases |ifaces|
  {
    if ifaces != [] {
      var init := ifaces[..|ifaces| - 1];
      assert ifaces[|ifaces| - 1].name != n;
      assert n !in Names(init) by {
        assert forall i :: 0 <= i < |init| ==> init[i] == ifaces[i];
      }
      SweepUntouched(t, init, elapsed, n);
    }
  }

  /** After every successful fetch, rates exist only for interfaces with a
      counter, and counters only for interfaces of the latest snapshot. */
  lemma FetchKeepsTablesConsistent(t: Tables, time: Option<int>, ifaces: seq<Interface>, now: int)
    requires TableValid(t.0) && CountersValid(ifaces) && t.1.Keys <= t.0.Keys
    ensures var r := FetchTables(t, time, ifaces, now);
      r.1.Keys <= r.0.Keys <= Names(ifaces)
  {
    var p := Pruned(t, Names(ifaces));
    if time.Some? && Seconds(now - time.value) > 0.0 {
      SweepKeys(p, ifaces, Seconds(now - time.value));
    }
  }

  /** The second fetch, after one that only noted the time: counters for
      exactly the snapshot's names and no rate yet. */
  lemma SecondFetch(b: seq<Interface>, t1: int, t2: int)
    requires CountersValid(b) && DistinctNames(b) && t1 < t2
    ensures var r := FetchTables((map[], map[]), Some(t1), b, t2);
      r.1 == map[] && r.0.Keys == Names(b)
  {
    var empty: Tables := (map[], map[]);
    assert Pruned(empty, Names(b)) == empty;
    SweepKeys(empty, b, Seconds(t2 - t1));
    var r := FetchTables(empty, Some(t1), b, t2);
    assert r.1.Keys == {};
  }

  /** Rates need three fetches: the first only notes the time, the second
      only records counters (with distinct names), and the third measures a
      rate for every interface present in both of the later snapshots. */
  lemma FirstRatesOnThirdFetch(a: seq<Interface>, b: seq<Interface>, c: seq<Interface>, t1: int, t2: int, t3: int, n: string)
    requires CountersValid(a) && CountersValid(b) && CountersValid(c) && DistinctNames(b)
    requires t1 < t2 < t3
    ensures var empty: Tables := (map[], map[]);
      var r1 := FetchTables(empty, None, a, t1);
      var r2 := FetchTables(r1, Some(t1), b, t2);
      var r3 := FetchTables(r2, Some(t2), c, t3);
      r1 == empty && r2.1 == map[] && r2.0.Keys == Names(b)
      && (n in Names(b) && n in Names(c) ==> n in r3.1)
  {
    var empty: Tables := (map[], map[]);
    var r1 := FetchTables(empty, None, a, t1);
    assert r1 == empty;
    SecondFetch(b, t1, t2);
    var r2 := FetchTables(r1, Some(t1), b, t2);
    if n in Names(b) && n in Names(c) {
      RateAfterFetch(r2, t2, c, t3, n);
    }
  }

  /** A fetch some time after the last one measures a rate for every
      interface of the snapshot that already had a counter. */
  lemma RateAfterFetch(t: Tables, last: int, ifaces: seq<Interface>, now: int, n: string)
    requires TableValid(t.0) && CountersValid(ifaces) && last < now
    requires n in t.0 && n in Names(ifaces)
    ensures n in FetchTables(t, Some(last), ifaces, now).1
  {
    var p := Pruned(t, Names(ifaces));
    assert n in p.0;
    SweepKeys(p, ifaces, Seconds(now - last));
  }

  // ------------------------------------------------------------ LEDs

  /** Go's `float64(used) / float64(total) * 100 > t`. Dividing by a zero
      total gives +Inf for a positive `used` (above every threshold) and NaN
      for zero (above none). */
  predicate MemAbove(used: int, total: int, t: real)
  {
    if total == 0 then used > 0 else (used as real / total as real) * 100.0 > t
  }

  /** LED1, the screen indicator: green on the logo screen, orange on the
      three traffic screens, off otherwise. */
  function InfoColor(screen: int): (c: int)
    ensures 0 <= c <= 3
    ensures c == Protocol.LedGreen <==> screen == 0
    ensures c == Protocol.LedOrange <==> 4 <= screen <= 6
    ensures c == Protocol.LedOff <==> screen != 0 && !(4 <= screen <= 6)
    ensures c != Protocol.LedRed
  {
    if screen == 0 then Protocol.LedGreen
    else if 4 <= screen <= 6 then Protocol.LedOrange
    else Protocol.LedOff
  }

  /** LED2, the health indicator, with strict thresholds. */
  function HealthColor(cpu: real, used: int, total: int): (c: int)
    ensures c == Protocol.LedRed || c == Protocol.LedOrange || c == Protocol.LedGreen
    ensures c == Protocol.LedRed <==> cpu > 90.0 || MemAbove(used, total, 90.0)
    ensures c == Protocol.LedGreen <==> cpu <= 70.0 && !MemAbove(used, total, 80.0)
  {
    if cpu > 90.0 || MemAbove(used, total, 90.0) then Protocol.LedRed
    else if cpu > 70.0 || MemAbove(used, total, 80.0) then Protocol.LedOrange
    else Protocol.LedGreen
  }

  /** LED3, the home indicator: green exactly on the logo screen. */
  function HomeColor(screen: int): (c: int)
    ensures 0 <= c <= 3
    ensures c == Protocol.LedGreen <==> screen == 0
  {
    if screen == 0 then Protocol.LedGreen else Protocol.LedOff
  }

  /** How alarming a health colour is. */
  function Severity(c: int): int
  {
    if c == Protocol.LedRed then 2 else if c == Protocol.LedOrange then 1 else 0
  }

  /** More load never shows a calmer colour: health is monotone in CPU
      load and in memory use. */
  lemma HealthMonotone(cpu1: real, cpu2: real, used1: int, used2: int, total: int)
    requires cpu1 <= cpu2 && 0 <= used1 <= used2 && total >= 0
    ensures Severity(HealthColor(cpu1, used1, total)) <= Severity(HealthColor(cpu2, used2, total))
  {
    if total > 0 {
      MemMonotone(used1, used2, total, 90.0);
      MemMonotone(used1, used2, total, 80.0);
    }
  }

  lemma MemMonotone(used1: int, used2: int, total: int, t: real)
    requires 0 <= used1 <= used2 && total > 0
    ensures MemAbove(used1, total, t) ==> MemAbove(used2, total, t)
  {
    var d := total as real;
    assert used1 as real / d <= used2 as real / d by {
      assert used1 as real / d * d == used1 as real;
      assert used2 as real / d * d == used2 as real;
    }
  }

  /** The thresholds are strict: 90% CPU is still orange and 70% still
      green, while memory stays low. */
  lemma HealthBoundaries(total: int)
    requires total > 0
    ensures HealthColor(90.0, 0, total) == Protocol.LedOrange
    ensures HealthColor(70.0, 0, total) == Protocol.LedGreen
    ensures HealthColor(90.1, 0, total) == Protocol.LedRed
  {
    assert (0 as real / total as real) == 0.0;
  }

  /** The commands `updateLEDs` sends, in order. */
  function StatusCommands(screen: int, m: Metrics): seq<Protocol.Command>
  {
    Protocol.ColorCommands(Protocol.Led1, InfoColor(screen))
    + Protocol.ColorCommands(Protocol.Led2, HealthColor(m.cpu, m.memUsed, m.memTotal))
    + Protocol.ColorCommands(Protocol.Led3, HomeColor(screen))
  }

  /** Whatever the LEDs showed, once `updateLEDs`' commands arrive they show
      the screen indicator, the health colour and the home indicator. */
  lemma StatusLampsShown(lamps: seq<Protocol.Lamp>, screen: int, m: Metrics)
    requires Protocol.IsLamps(lamps)
    ensures Protocol.Lamps(lamps, StatusCommands(screen, m)) ==
      [Protocol.ColorLamp(InfoColor(screen)), Protocol.ColorLamp(HealthColor(m.cpu, m.memUsed, m.memTotal)),
       Protocol.ColorLamp(HomeColor(screen))]
  {
    var c1 := Protocol.ColorCommands(Protocol.Led1, InfoColor(screen));
    var c2 := Protocol.ColorCommands(Protocol.Led2, HealthColor(m.cpu, m.memUsed, m.memTotal));
    var c3 := Protocol.ColorCommands(Protocol.Led3, HomeColor(screen));
    Protocol.LampsAppend(lamps, c1 + c2, c3);
    Protocol.LampsAppend(lamps, c1, c2);
    Protocol.SetLedEffect(lamps, Protocol.Led1, InfoColor(screen));
    var l1 := Protocol.Lamps(lamps, c1);
    Protocol.SetLedEffect(l1, Protocol.Led2, HealthColor(m.cpu, m.memUsed, m.memTotal));
    var l2 := Protocol.Lamps(l1, c2);
    Protocol.SetLedEffect(l2, Protocol.Led3, HomeColor(screen));
  }

  /** The device's buffer and log after a flush of `pending`. */
  function AfterFlush(pending: seq<bv8>, log: seq<seq<bv8>>, outcome: SendOutcome): (seq<bv8>, seq<seq<bv8>>)
  {
    if pending == [] then ([], log)
    else if outcome == Delivered then ([], log + [pending])
    else (pending, log)
  }

  /** The device state after `SetLED` from the state (buffer, log). */
  function AfterSetLed(s: (seq<bv8>, seq<seq<bv8>>), led: int, color: int, outcome: SendOutcome): (seq<bv8>, seq<seq<bv8>>)
  {
    AfterFlush(s.0 + Protocol.EncodeAll(Protocol.ColorCommands(led, color)), s.1, outcome)
  }

  // ------------------------------------------------------------ rotation

  /** The screen after k rotations from screen c of n. */
  function Rotations(c: int, n: int, k: nat): int
    requires n >= 1
  {
    if k == 0 then c else (Rotations(c, n, k - 1) + 1) % n
  }

  /** k rotations advance the screen by k places, wrapping. */
  lemma {:induction false} RotationsAdvance(c: int, n: int, k: nat)
    requires n >= 1 && 0 <= c < n
    ensures Rotations(c, n, k) == (c + k) % n
  {
    if k == 0 {
      DivMod(c, n, 0, c);
    } else {
      RotationsAdvance(c, n, k - 1);
      ModAdd(c + k - 1, 1, n);
    }
  }

  /** Rotation reaches every screen within one round. */
  lemma RotationReachesAll(c: int, n: int, target: int)
    requires n >= 1 && 0 <= c < n && 0 <= target < n
    ensures var k := (target - c) % n; k < n && Rotations(c, n, k) == target
  {
    var k := if target >= c then target - c else target - c + n;
    DivMod(target - c, n, if target >= c then 0 else -1, k);
    RotationsAdvance(c, n, k);
    DivMod(c + k, n, if target >= c then 0 else 1, target);
  }

  // ------------------------------------------------------------ the daemon

  /** The screens in their rotation order; `Extra` is one added later. */
  datatype Screen = Logo | Cpu | Memory | InterfaceList | WanTraffic | TunnelTraffic | LanTraffic | Extra(title: string)

  const DefaultScreens: seq<Screen> := [Logo, Cpu, Memory, InterfaceList, WanTraffic, TunnelTraffic, LanTraffic]

  /** Each screen's `Name`. */
  function ScreenName(s: Screen): string
  {
    match s
    case Logo => "Logo"
    case Cpu => "CPU"
    case Memory => "Memory"
    case InterfaceList => "Interfaces"
    case WanTraffic => "WAN Traffic"
    case TunnelTraffic => "Tunnel Traffic"
    case LanTraffic => "LAN Traffic"
    case Extra(title) => title
  }

  /** The LED1 rule singles out the default traffic screens by position. */
  lemma TrafficScreensAreOrange(i: int)
    requires 0 <= i < |DefaultScreens|
    ensures InfoColor(i) == Protocol.LedOrange <==> DefaultScreens[i] in {WanTraffic, TunnelTraffic, LanTraffic}
    ensures InfoColor(i) == Protocol.LedGreen <==> DefaultScreens[i] == Logo
    ensures InfoColor(i) == Protocol.LedOff <==> DefaultScreens[i] in {Cpu, Memory, InterfaceList}
  {
  }

  /** Screens added after the seven defaults leave LED1 and LED3 off. */
  lemma AddedScreensAreDark(i: int)
    requires i >= |DefaultScreens|
    ensures InfoColor(i) == Protocol.LedOff && HomeColor(i) == Protocol.LedOff
  {
  }

  class StatusDaemon {
    const display: Displays.Display
    var screens: seq<Screen>
    var currentScreen: int
    const history: MetricsHistory
    var frameCount: int
    var lastIfaceBytes: map<string, Counters>
    var lastSampleTime: Option<int>
    var ifaceRates: map<string, IfaceRate>
    var cachedMetrics: Option<Metrics>

    predicate Valid()
      reads this, history
    {
      history.Valid() && history.maxSamples == MaxSamples
      && 1 <= |screens| && 0 <= currentScreen < |screens| && frameCount >= 0
      && TableValid(lastIfaceBytes) && ifaceRates.Keys <= lastIfaceBytes.Keys
      && (cachedMetrics.Some? ==> MetricsValid(cachedMetrics.value))
    }

    /** `NewStatusDaemon`: the seven screens, the logo first; a 12-sample
        history; empty tables; nothing fetched yet. */
    constructor New(display: Displays.Display)
      ensures Valid() && this.display == display && fresh(history)
      ensures screens == DefaultScreens && currentScreen == 0 && frameCount == 0
      ensures lastIfaceBytes == map[] && ifaceRates == map[] && lastSampleTime == None && cachedMetrics == None
      ensures history.cpuHistory == [] && history.txRateHistory == [] && history.lastSampleTime == None
    {
      this.display := display;
      screens := DefaultScreens;
      currentScreen := 0;
      history := new MetricsHistory.New(MaxSamples);
      frameCount := 0;
      lastIfaceBytes := map[];
      lastSampleTime := None;
      ifaceRates := map[];
      cachedMetrics := None;
    }

    method AddScreen(s: Screen)
      requires Valid()
      modifies this
      ensures Valid() && screens == old(screens) + [s] && currentScreen == old(currentScreen)
      ensures cachedMetrics == old(cachedMetrics) && frameCount == old(frameCount)
      ensures lastIfaceBytes == old(lastIfaceBytes) && ifaceRates == old(ifaceRates)
      ensures lastSampleTime == old(lastSampleTime)
    {
      screens := screens + [s];
    }

    /** `fetchMetrics`: a failed fetch (`None`) changes nothing. A snapshot
        is cached and added to the history, with the history reading the
        clock at `sampleNow`; then the tables are pruned to its interfaces
        and, when time has passed since the last sample, swept for rates
        against a second reading of the clock, `tableNow`, which becomes the
        new sample time. */
    method Fetch(fetched: Option<Metrics>, sampleNow: int, tableNow: int)
      requires Valid() && (fetched.Some? ==> MetricsValid(fetched.value))
      modifies this, history
      ensures Valid()
      ensures screens == old(screens) && currentScreen == old(currentScreen) && frameCount == old(frameCount)
      ensures fetched.None? ==>
        unchanged(history) && cachedMetrics == old(cachedMetrics) && lastSampleTime == old(lastSampleTime)
        && lastIfaceBytes == old(lastIfaceBytes) && ifaceRates == old(ifaceRates)
      ensures fetched.Some? ==>
        var m := fetched.value;
        cachedMetrics == fetched && lastSampleTime == Some(tableNow)
        && (lastIfaceBytes, ifaceRates) == FetchTables((old(lastIfaceBytes), old(ifaceRates)), old(lastSampleTime), m.interfaces, tableNow)
        && history.cpuHistory == Push(old(history.cpuHistory), m.cpu, MaxSamples)
        && history.txRateHistory == RateHistory(old(history.txRateHistory), Total(m.interfaces, true),
                                                old(history.lastTxBytes), old(history.lastSampleTime), sampleNow, MaxSamples)
        && history.rxRateHistory == RateHistory(old(history.rxRateHistory), Total(m.interfaces, false),
                                                old(history.lastRxBytes), old(history.lastSampleTime), sampleNow, MaxSamples)
        && history.lastTxBytes == Total(m.interfaces, true) && history.lastRxBytes == Total(m.interfaces, false)
        && history.lastSampleTime == Some(sampleNow)
    {
      if fetched.None? {
        return;
      }
      var m := fetched.value;
      cachedMetrics := fetched;
      history.AddSample(m, sampleNow);
      UpdateTables(m.interfaces, tableNow);
    }

    /** The table part of `fetchMetrics`: pruning to the snapshot's names,
        the rate sweep when time has passed, and the new sample time. */
    method UpdateTables(ifaces: seq<Interface>, now: int)
      requires TableValid(lastIfaceBytes) && ifaceRates.Keys <= lastIfaceBytes.Keys && CountersValid(ifaces)
      modifies this
      ensures (lastIfaceBytes, ifaceRates) == FetchTables((old(lastIfaceBytes), old(ifaceRates)), old(lastSampleTime), ifaces, now)
      ensures TableValid(lastIfaceBytes) && ifaceRates.Keys <= lastIfaceBytes.Keys
      ensures lastSampleTime == Some(now)
      ensures screens == old(screens) && currentScreen == old(currentScreen) && frameCount == old(frameCount)
      ensures cachedMetrics == old(cachedMetrics)
    {
      var names := CurrentNames(ifaces);
      ghost var t0: Tables := (lastIfaceBytes, ifaceRates);
      FetchKeepsTablesConsistent(t0, lastSampleTime, ifaces, now);
      Prune(names);
      if lastSampleTime.Some? {
        var elapsed := Seconds(now - lastSampleTime.value);
        if elapsed > 0.0 {
          SweepRates(ifaces, elapsed);
        }
      }
      lastSampleTime := Some(now);
    }

    /** The pruning loop over the counter table's names. */
    method Prune(names: set<string>)
      requires TableValid(lastIfaceBytes)
      modifies this
      ensures (lastIfaceBytes, ifaceRates) == Pruned((old(lastIfaceBytes), old(ifaceRates)), names)
      ensures TableValid(lastIfaceBytes)
      ensures screens == old(screens) && currentScreen == old(currentScreen) && frameCount == old(frameCount)
      ensures cachedMetrics == old(cachedMetrics) && lastSampleTime == old(lastSampleTime)
    {
      lastIfaceBytes, ifaceRates := PruneTables(lastIfaceBytes, ifaceRates, names);
    }

    /** The rate loop over the snapshot's interfaces. */
    method SweepRates(ifaces: seq<Interface>, elapsed: real)
      requires elapsed > 0.0 && TableValid(lastIfaceBytes) && CountersValid(ifaces)
      modifies this
      ensures (lastIfaceBytes, ifaceRates) == Sweep((old(lastIfaceBytes), old(ifaceRates)), ifaces, elapsed)
      ensures screens == old(screens) && currentScreen == old(currentScreen) && frameCount == old(frameCount)
      ensures cachedMetrics == old(cachedMetrics) && lastSampleTime == old(lastSampleTime)
    {
      ghost var t0: Tables := (lastIfaceBytes, ifaceRates);
      for i := 0 to |ifaces|
        invariant TableValid(lastIfaceBytes)
        invariant (lastIfaceBytes, ifaceRates) == Sweep(t0, ifaces[..i], elapsed)
        invariant screens == old(screens) && currentScreen == old(currentScreen) && frameCount == old(frameCount)
        invariant cachedMetrics == old(cachedMetrics) && lastSampleTime == old(lastSampleTime)
      {
        assert ifaces[..i + 1][..i] == ifaces[..i];
        var iface := ifaces[i];
        if iface.name in lastIfaceBytes {
          var last := lastIfaceBytes[iface.name];
          ifaceRates := ifaceRates[iface.name := IfaceRate(Rate(iface.txBytes, last.tx, elapsed),
                                                           Rate(iface.rxBytes, last.rx, elapsed))];
        }
        lastIfaceBytes := lastIfaceBytes[iface.name := Counters(iface.txBytes, iface.rxBytes)];
      }
      assert ifaces[..|ifaces|] == ifaces;
    }

    /** The snapshot's interface names, collected in a loop. */
    static method CurrentNames(ifaces: seq<Interface>) returns (names: set<string>)
      ensures names == Names(ifaces)
    {
      names := {};
      for i := 0 to |ifaces|
        invariant names == Names(ifaces[..i])
      {
        NamesSnoc(ifaces, i);
        names := names + {ifaces[i].name};
      }
      assert ifaces[..|ifaces|] == ifaces;
    }

    /** `GetIfaceRate`: the stored rates, or zero for an unknown name. */
    function GetIfaceRate(name: string): (r: (real, real))
      reads this
      ensures name !in ifaceRates ==> r == (0.0, 0.0)
      ensures name in ifaceRates ==> r == (ifaceRates[name].txRate, ifaceRates[name].rxRate)
    {
      if name in ifaceRates then (ifaceRates[name].txRate, ifaceRates[name].rxRate) else (0.0, 0.0)
    }

    /** `updateLEDs`: three `SetLED` calls, each flushed on its own; their
        errors are ignored. */
    method UpdateLeds(m: Metrics, o1: SendOutcome, o2: SendOutcome, o3: SendOutcome)
      modifies display.device
      ensures (display.device.buffer, display.device.sent) ==
        AfterSetLed(AfterSetLed(AfterSetLed((old(display.device.buffer), old(display.device.sent)),
          Protocol.Led1, InfoColor(currentScreen), o1),
          Protocol.Led2, HealthColor(m.cpu, m.memUsed, m.memTotal), o2),
          Protocol.Led3, HomeColor(currentScreen), o3)
    {
      var dev := display.device;
      SetLed(dev, Protocol.Led1, InfoColor(currentScreen), o1);
      SetLed(dev, Protocol.Led2, HealthColor(m.cpu, m.memUsed, m.memTotal), o2);
      SetLed(dev, Protocol.Led3, HomeColor(currentScreen), o3);
    }

    /** One `SetLED` whose error is dropped. */
    static method SetLed(dev: Device, led: int, color: int, outcome: SendOutcome)
      modifies dev
      ensures (dev.buffer, dev.sent) == AfterSetLed((old(dev.buffer), old(dev.sent)), led, color, outcome)
    {
      var _ := dev.SetLED(led, color, outcome);
    }

    /** `render`: nothing until a fetch has succeeded; then the LEDs are
        updated and the current screen is drawn with the current frame
        count. Returns the screen drawn and its frame; the drawing itself is
        not modelled. */
    method Render(o1: SendOutcome, o2: SendOutcome, o3: SendOutcome) returns (shown: Option<(Screen, int)>)
      requires Valid()
      modifies display.device
      ensures cachedMetrics.None? ==> shown == None && unchanged(display.device)
      ensures cachedMetrics.Some? ==>
        shown == Some((screens[currentScreen], frameCount))
        && (display.device.buffer, display.device.sent) ==
          AfterSetLed(AfterSetLed(AfterSetLed((old(display.device.buffer), old(display.device.sent)),
            Protocol.Led1, InfoColor(currentScreen), o1),
            Protocol.Led2, HealthColor(cachedMetrics.value.cpu, cachedMetrics.value.memUsed, cachedMetrics.value.memTotal), o2),
            Protocol.Led3, HomeColor(currentScreen), o3)
    {
      if cachedMetrics.None? {
        return None;
      }
      UpdateLeds(cachedMetrics.value, o1, o2, o3);
      if currentScreen < |screens| {
        shown := Some((screens[currentScreen], frameCount));
      } else {
        shown := None;
      }
    }

    /** The animation ticker: one more frame, then a render. */
    method AnimationTick(o1: SendOutcome, o2: SendOutcome, o3: SendOutcome) returns (shown: Option<(Screen, int)>)
      requires Valid()
      modifies this, display.device
      ensures Valid() && frameCount == old(frameCount) + 1
      ensures screens == old(screens) && currentScreen == old(currentScreen) && cachedMetrics == old(cachedMetrics)
      ensures lastIfaceBytes == old(lastIfaceBytes) && ifaceRates == old(ifaceRates)
      ensures lastSampleTime == old(lastSampleTime)
      ensures cachedMetrics.None? ==> shown == None && unchanged(display.device)
      ensures cachedMetrics.Some? ==>
        shown == Some((screens[currentScreen], frameCount))
        && (display.device.buffer, display.device.sent) ==
          AfterSetLed(AfterSetLed(AfterSetLed((old(display.device.buffer), old(display.device.sent)),
            Protocol.Led1, InfoColor(currentScreen), o1),
            Protocol.Led2, HealthColor(cachedMetrics.value.cpu, cachedMetrics.value.memUsed, cachedMetrics.value.memTotal), o2),
            Protocol.Led3, HomeColor(currentScreen), o3)
    {
      frameCount := frameCount + 1;
      shown := Render(o1, o2, o3);
    }

    /** The rotation ticker: the next screen, wrapping to the first. */
    method RotateTick()
      requires Valid()
      modifies this
      ensures Valid() && currentScreen == Rotations(old(currentScreen), |screens|, 1)
      ensures screens == old(screens) && frameCount == old(frameCount) && cachedMetrics == old(cachedMetrics)
      ensures lastIfaceBytes == old(lastIfaceBytes) && ifaceRates == old(ifaceRates)
      ensures lastSampleTime == old(lastSampleTime)
    {
      currentScreen := (currentScreen + 1) % |screens|;
    }
  }
}
