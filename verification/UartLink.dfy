/** Transmitter, line and receiver together, each end with its own clock. */
module UartLink {
  import opened UartLine
  import T = UartTransmit
  import R = UartReceive

  /** The line over time: each level of `wave` lasts for one clock period `p` of the transmitter. */
  ghost function Wire(wave: seq<bool>, now: real, p: real, x: real): bool {
    if wave == [] || x < now then true
    else if x < now + p then wave[0]
    else Wire(wave[1..], now + p, p, x)
  }

  /** The frames that the transmitter begins, with the times of their start bits. */
  ghost function Begun(r: T.Registers, divisor: nat, q: seq<seq<bool>>, willing: seq<bool>, now: real, p: real)
    : seq<Frame>
    requires T.Offered(r, divisor, q)
    decreases |willing|
  {
    if willing == [] then []
    else
      var enable := T.Enabled(q, willing[0]);
      var later := Begun(T.AtEdge(r, divisor, enable), divisor, T.Left(r, q), willing[1..], now + p, p);
      if r.state == T.Idle && enable then [Frame(now + p, q[0])] + later else later
  }

  /** The bit periods still to come after the current one. */
  function Coming(r: T.Registers): nat {
    match r.state
    case Idle => 0
    case Start => 9
    case Bits => if r.bitpos < 8 then 8 - r.bitpos else 0
    case Stop => 0
  }

  /** The time until the transmitter is idle again. */
  ghost function Busy(r: T.Registers, divisor: nat, p: real): real {
    if r.state == T.Idle then 0.0 else Periods(r.divcounter + 1, p) + Periods(Coming(r), Periods(divisor, p))
  }

  lemma ComingCountsDown(r: T.Registers, divisor: nat, enable: bool)
    requires T.Fits(r, divisor) && r.state != T.Idle
    ensures var r' := T.AtEdge(r, divisor, enable);
      if r.divcounter > 0 then r'.state == r.state && r'.divcounter == r.divcounter - 1 && Coming(r') == Coming(r)
      else if r.state == T.Stop then r'.state == T.Idle
      else r'.state != T.Idle && r'.divcounter == divisor - 1 && Coming(r) == Coming(r') + 1
  {}

  lemma BusyCountsDown(r: T.Registers, divisor: nat, enable: bool, p: real)
    requires T.Fits(r, divisor) && r.state != T.Idle
    ensures Busy(T.AtEdge(r, divisor, enable), divisor, p) == Busy(r, divisor, p) - p
  {
    ComingCountsDown(r, divisor, enable);
    assert Periods(1, p) == p;
  }

  lemma BusyFromStart(r: T.Registers, divisor: nat, p: real)
    requires T.Fits(r, divisor) && r.state == T.Idle
    ensures Busy(T.AtEdge(r, divisor, true), divisor, p) == 10.0 * Periods(divisor, p)
  {
    SomePeriods(Periods(divisor, p));
  }

  /** Every frame starts after `start`, and they keep the distance of a whole frame. */
  ghost predicate Spaced(fs: seq<Frame>, start: real, period: real) {
    && (forall i :: 0 <= i < |fs| ==> fs[i].start >= start && |fs[i].bits| == 8)
    && (forall i, j :: 0 <= i < j < |fs| ==> fs[i].start + 10.0 * period <= fs[j].start)
  }

  lemma {:induction false} BegunIsSpaced(r: T.Registers, divisor: nat, q: seq<seq<bool>>, willing: seq<bool>,
                                         now: real, p: real)
    requires T.Offered(r, divisor, q) && p > 0.0
    ensures Spaced(Begun(r, divisor, q, willing, now, p), now + Busy(r, divisor, p) + p, Periods(divisor, p))
    decreases |willing|
  {
    if willing != [] {
      var enable := T.Enabled(q, willing[0]);
      if r.state != T.Idle {
        BusyCountsDown(r, divisor, enable, p);
      } else if enable {
        BusyFromStart(r, divisor, p);
      }
      PeriodsGrow(0, divisor, p);
      var later := Begun(T.AtEdge(r, divisor, enable), divisor, T.Left(r, q), willing[1..], now + p, p);
      BegunIsSpaced(T.AtEdge(r, divisor, enable), divisor, T.Left(r, q), willing[1..], now + p, p);
      if r.state == T.Idle && enable {
        SpacedFrom(Frame(now + p, q[0]), later, Periods(divisor, p));
      }
    }
  }

  lemma SpacedFrom(f: Frame, later: seq<Frame>, period: real)
    requires Spaced(later, f.start + 10.0 * period, period) && |f.bits| == 8 && period >= 0.0
    ensures Spaced([f] + later, f.start, period)
  {
    var fs := [f] + later;
    forall i | 0 <= i < |fs| ensures fs[i].start >= f.start && |fs[i].bits| == 8 {
      assert i > 0 ==> fs[i] == later[i - 1];
    }
    forall i, j | 0 <= i < j < |fs| ensures fs[i].start + 10.0 * period <= fs[j].start {
      assert fs[j] == later[j - 1] && (i > 0 ==> fs[i] == later[i - 1]);
    }
  }

  /** The bytes that go out are the ones offered, in order. */
  lemma {:induction false} BegunIsOffered(r: T.Registers, divisor: nat, q: seq<seq<bool>>, willing: seq<bool>,
                                          now: real, p: real)
    requires T.Offered(r, divisor, q)
    ensures var fs, rest := Begun(r, divisor, q, willing, now, p), if r.state == T.Idle then q else q[1..];
      |fs| <= |rest| && forall i :: 0 <= i < |fs| ==> fs[i].bits == rest[i]
    decreases |willing|
  {
    if willing != [] {
      BegunIsOffered(T.AtEdge(r, divisor, T.Enabled(q, willing[0])), divisor, T.Left(r, q), willing[1..], now + p, p);
    }
  }

  /** The clock cycles until the transmitter is idle again. */
  function CyclesLeft(r: T.Registers, divisor: nat): nat {
    if r.state == T.Idle then 0 else r.divcounter + 1 + R.Span(Coming(r), divisor)
  }

  lemma CyclesCountDown(r: T.Registers, divisor: nat, enable: bool)
    requires T.Fits(r, divisor) && r.state != T.Idle
    ensures CyclesLeft(T.AtEdge(r, divisor, enable), divisor) == CyclesLeft(r, divisor) - 1
  {
    ComingCountsDown(r, divisor, enable);
  }

  lemma CyclesFromStart(r: T.Registers, divisor: nat)
    requires T.Fits(r, divisor) && r.state == T.Idle
    ensures CyclesLeft(T.AtEdge(r, divisor, true), divisor) == 10 * divisor
  {
    assert R.Span(1, divisor) == divisor;
    assert R.Span(3, divisor) == 3 * divisor;
    assert R.Span(5, divisor) == 5 * divisor;
    assert R.Span(7, divisor) == 7 * divisor;
    assert R.Span(9, divisor) == 9 * divisor;
  }

  /** A source that is always willing gets rid of a byte every ten bits and one idle cycle. */
  lemma {:induction false} EverythingBegins(r: T.Registers, divisor: nat, q: seq<seq<bool>>, willing: seq<bool>,
                                            now: real, p: real)
    requires T.Offered(r, divisor, q) && forall i :: 0 <= i < |willing| ==> willing[i]
    requires var rest := if r.state == T.Idle then q else q[1..];
      |willing| >= CyclesLeft(r, divisor) + R.Span(|rest|, 10 * divisor + 1)
    ensures |Begun(r, divisor, q, willing, now, p)| == |if r.state == T.Idle then q else q[1..]|
    decreases |willing|
  {
    var rest, round := if r.state == T.Idle then q else q[1..], 10 * divisor + 1;
    assert |rest| > 0 ==> R.Span(|rest|, round) == R.Span(|rest| - 1, round) + round;
    if willing != [] {
      var enable := T.Enabled(q, willing[0]);
      if r.state != T.Idle {
        CyclesCountDown(r, divisor, enable);
      } else if enable {
        CyclesFromStart(r, divisor);
      }
      EverythingBegins(T.AtEdge(r, divisor, enable), divisor, T.Left(r, q), willing[1..], now + p, p);
    }
  }

  /** The levels from the current one to the end of the frame. */
  function Ahead(r: T.Registers, data: seq<bool>): seq<bool> {
    match r.state
    case Idle => []
    case Start => [false] + data
    case Bits => if r.bitpos < |data| then data[r.bitpos..] else []
    case Stop => []
  }

  /** `levels`, where the first one only lasts for `first`. */
  ghost function Slot(levels: seq<bool>, first: real, period: real, y: real): bool {
    if levels == [] then true else if y < first then levels[0] else LevelOf(levels[1..], period, y - first)
  }

  ghost function Expected(r: T.Registers, divisor: nat, q: seq<seq<bool>>, later: seq<Frame>, now: real, p: real,
                          x: real)
    : bool
    requires T.Offered(r, divisor, q)
  {
    if r.state != T.Idle && (later == [] || x < later[0].start) then
      Slot(Ahead(r, q[0]), Periods(r.divcounter + 1, p), Periods(divisor, p), x - now)
    else Level(later, Periods(divisor, p), x)
  }

  lemma FirstCycle(r: T.Registers, divisor: nat, q: seq<seq<bool>>, later: seq<Frame>, now: real, p: real, x: real)
    requires T.Offered(r, divisor, q) && p > 0.0 && now <= x < now + p
    requires later != [] ==> later[0].start >= now + p
    ensures Expected(r, divisor, q, later, now, p, x) == T.LevelNow(r, q)
  {
    PeriodsGrow(0, r.divcounter, p);
  }

  lemma BusyCycle(r: T.Registers, divisor: nat, q: seq<seq<bool>>, later: seq<Frame>, enable: bool, now: real,
                  p: real, x: real)
    requires T.Offered(r, divisor, q) && p > 0.0 && now + p <= x && r.state != T.Idle
    ensures Expected(T.AtEdge(r, divisor, enable), divisor, T.Left(r, q), later, now + p, p, x)
      == Expected(r, divisor, q, later, now, p, x)
  {
    assert Periods(1, p) == p;
    var r', data := T.AtEdge(r, divisor, enable), q[0];
    if r.divcounter == 0 && r.state != T.Stop {
      assert Ahead(r', data) == Ahead(r, data)[1..];
    }
  }

  lemma IdleCycle(r: T.Registers, divisor: nat, q: seq<seq<bool>>, later: seq<Frame>, enable: bool, now: real,
                  p: real, x: real)
    requires T.Offered(r, divisor, q) && p > 0.0 && now + p <= x && r.state == T.Idle && (enable ==> q != [])
    ensures Expected(T.AtEdge(r, divisor, enable), divisor, T.Left(r, q), later, now + p, p, x)
      == Expected(r, divisor, q, if enable then [Frame(now + p, q[0])] + later else later, now, p, x)
  {
    if enable {
      var fs := [Frame(now + p, q[0])] + later;
      assert fs[1..] == later;
    }
  }

  /** What the transmitter puts on the wire is the line with the frames it begins. */
  lemma {:induction false} WireIsLine(r: T.Registers, divisor: nat, q: seq<seq<bool>>, willing: seq<bool>, now: real,
                                      p: real, x: real)
    requires T.Offered(r, divisor, q) && p > 0.0 && now <= x < now + Periods(|willing|, p)
    ensures Wire(T.Wave(r, divisor, q, willing), now, p, x)
      == Expected(r, divisor, q, Begun(r, divisor, q, willing, now, p), now, p, x)
    decreases |willing|
  {
    if x < now + p {
      BegunIsSpaced(r, divisor, q, willing, now, p);
      BusyNotNegative(r, divisor, p);
      FirstCycle(r, divisor, q, Begun(r, divisor, q, willing, now, p), now, p, x);
    } else {
      var enable := T.Enabled(q, willing[0]);
      var r', q' := T.AtEdge(r, divisor, enable), T.Left(r, q);
      var later := Begun(r', divisor, q', willing[1..], now + p, p);
      WireIsLine(r', divisor, q', willing[1..], now + p, p, x);
      if r.state == T.Idle {
        IdleCycle(r, divisor, q, later, enable, now, p, x);
      } else {
        BusyCycle(r, divisor, q, later, enable, now, p, x);
      }
    }
  }

  lemma BusyNotNegative(r: T.Registers, divisor: nat, p: real)
    requires p > 0.0
    ensures Busy(r, divisor, p) >= 0.0
  {
    PeriodsGrow(0, divisor, p);
    PeriodsGrow(0, r.divcounter + 1, p);
    PeriodsGrow(0, Coming(r), Periods(divisor, p));
  }

  lemma {:induction false} PeriodsIsProduct(k: nat, p: real)
    ensures Periods(k, p) == k as real * p
    decreases k
  {
    if k > 0 {
      PeriodsIsProduct(k - 1, p);
      assert k as real * p == (k - 1) as real * p + p;
    }
  }

  /** What the receiver reads at its first `n` clock edges. */
  ghost function Read(wave: seq<bool>, phase: real, p: real, n: nat): seq<bool> {
    seq(n, i => Wire(wave, phase, p, i as real))
  }

  lemma ReadIsSamples(sender: T.Registers, divisor: nat, q: seq<seq<bool>>, willing: seq<bool>, phase: real, p: real,
                      n: nat)
    requires T.Offered(sender, divisor, q) && sender.state == T.Idle && p > 0.0
    requires n as real <= phase + Periods(|willing|, p)
    ensures Read(T.Wave(sender, divisor, q, willing), phase, p, n)
      == Samples(Begun(sender, divisor, q, willing, phase, p), Periods(divisor, p), n)
  {
    var wave, fs := T.Wave(sender, divisor, q, willing), Begun(sender, divisor, q, willing, phase, p);
    var read, samples := Read(wave, phase, p, n), Samples(fs, Periods(divisor, p), n);
    BegunIsSpaced(sender, divisor, q, willing, phase, p);
    forall i | 0 <= i < n ensures read[i] == samples[i] {
      if phase <= i as real {
        WireIsLine(sender, divisor, q, willing, phase, p, i as real);
      }
    }
  }

  lemma ReceivesLine(divisor: nat, period: real, reset: R.Registers, fs: seq<Frame>, n: nat, read: seq<bool>)
    requires R.Ready(reset, divisor) && Tolerated(divisor, period) && Observed(fs, period, n)
    requires read == Samples(fs, period, n)
    ensures R.HeardOn(reset, divisor, read) == Bytes(fs)
  {
    ToleratedSuffices(divisor, period);
  }

  // ---------- A run that ends inside a frame ----------

  function Quiet(k: nat): seq<bool> { seq(k, _ => false) }

  lemma {:induction false} NothingBegins(r: T.Registers, divisor: nat, q: seq<seq<bool>>, k: nat, now: real, p: real)
    requires T.Offered(r, divisor, q)
    ensures Begun(r, divisor, q, Quiet(k), now, p) == []
    decreases k
  {
    if k > 0 {
      assert Quiet(k)[1..] == Quiet(k - 1);
      NothingBegins(T.AtEdge(r, divisor, false), divisor, T.Left(r, q), k - 1, now + p, p);
    }
  }

  /** If the source falls silent, the frames begun stay the same, and the wire only gets longer. */
  lemma {:induction false} SilenceAfter(r: T.Registers, divisor: nat, q: seq<seq<bool>>, willing: seq<bool>, k: nat,
                                        now: real, p: real)
    requires T.Offered(r, divisor, q)
    ensures Begun(r, divisor, q, willing + Quiet(k), now, p) == Begun(r, divisor, q, willing, now, p)
    ensures T.Wave(r, divisor, q, willing) <= T.Wave(r, divisor, q, willing + Quiet(k))
    decreases |willing|
  {
    if willing == [] {
      assert willing + Quiet(k) == Quiet(k);
      NothingBegins(r, divisor, q, k, now, p);
    } else {
      var enable := T.Enabled(q, willing[0]);
      assert (willing + Quiet(k))[1..] == willing[1..] + Quiet(k);
      SilenceAfter(T.AtEdge(r, divisor, enable), divisor, T.Left(r, q), willing[1..], k, now + p, p);
    }
  }

  lemma {:induction false} WireOfPrefix(wave: seq<bool>, longer: seq<bool>, now: real, p: real, x: real)
    requires wave <= longer && x < now + Periods(|wave|, p)
    ensures Wire(wave, now, p, x) == Wire(longer, now, p, x)
    decreases |wave|
  {
    if wave != [] {
      WireOfPrefix(wave[1..], longer[1..], now + p, p, x);
    }
  }

  lemma ReadOfPrefix(wave: seq<bool>, longer: seq<bool>, phase: real, p: real, n: nat, m: nat)
    requires wave <= longer && n <= m && n as real <= phase + Periods(|wave|, p)
    ensures Read(wave, phase, p, n) == Read(longer, phase, p, m)[..n]
  {
    var short, long := Read(wave, phase, p, n), Read(longer, phase, p, m);
    forall i | 0 <= i < n ensures short[i] == long[i] {
      WireOfPrefix(wave, longer, phase, p, i as real);
    }
  }

  /** Some number of samples is enough to see all these frames end. */
  lemma EnoughSamples(fs: seq<Frame>, period: real, n: nat) returns (m: nat)
    requires Legal(fs, period)
    ensures n <= m && Observed(fs, period, m)
  {
    m := n;
    if fs != [] {
      var end := fs[|fs| - 1].start + 10.0 * period;
      if end > n as real {
        m := end.Floor + 1;
      }
    }
  }

  lemma EnoughCycles(phase: real, cycles: nat, p: real, m: nat) returns (k: nat)
    requires p > 0.0
    ensures m as real <= phase + (cycles + k) as real * p
  {
    var missing := m as real - phase - cycles as real * p;
    k := if missing <= 0.0 then 0 else (missing / p).Floor + 1;
    assert (cycles + k) as real * p == cycles as real * p + k as real * p;
    if missing > 0.0 {
      Exceeds(missing, p, k);
    }
  }

  lemma Exceeds(missing: real, p: real, k: nat)
    requires p > 0.0 && missing > 0.0 && k == (missing / p).Floor + 1
    ensures k as real * p >= missing
  {
    var ratio := missing / p;
    var more := k as real - ratio;
    assert ratio * p == missing && more >= 0.0;
    NotNegative(more, p);
    assert k as real * p == ratio * p + more * p;
  }

  lemma NotNegative(a: real, b: real)
    requires a >= 0.0 && b >= 0.0
    ensures a * b >= 0.0
  {}

  /** A run in which every frame begun is over before the end. */
  lemma WholeFramesDelivered(sender: T.Registers, divisor: nat, q: seq<seq<bool>>, willing: seq<bool>, phase: real,
                             p: real, receiver: R.Registers, rdivisor: nat, n: nat, period: real)
    requires T.Offered(sender, divisor, q) && sender.state == T.Idle && p > 0.0 && phase >= 0.0
    requires R.Ready(receiver, rdivisor) && period == Periods(divisor, p) && Tolerated(rdivisor, period)
    requires n as real <= phase + Periods(|willing|, p)
    requires Observed(Begun(sender, divisor, q, willing, phase, p), period, n)
    ensures R.HeardOn(receiver, rdivisor, Read(T.Wave(sender, divisor, q, willing), phase, p, n))
      == Bytes(Begun(sender, divisor, q, willing, phase, p))
  {
    ReadIsSamples(sender, divisor, q, willing, phase, p, n);
    ReceivesLine(rdivisor, period, receiver, Begun(sender, divisor, q, willing, phase, p), n,
                 Read(T.Wave(sender, divisor, q, willing), phase, p, n));
  }

  lemma BegunIsLegal(sender: T.Registers, divisor: nat, q: seq<seq<bool>>, willing: seq<bool>, phase: real, p: real)
    requires T.Offered(sender, divisor, q) && sender.state == T.Idle && p > 0.0 && phase >= 0.0
    requires Periods(divisor, p) > 0.0
    ensures Legal(Begun(sender, divisor, q, willing, phase, p), Periods(divisor, p))
  {
    BegunIsSpaced(sender, divisor, q, willing, phase, p);
  }

  /** How much longer the run has to be for all its frames to be over. */
  lemma UntilOver(sender: T.Registers, divisor: nat, q: seq<seq<bool>>, willing: seq<bool>, phase: real, p: real,
                  n: nat)
    returns (k: nat, m: nat)
    requires T.Offered(sender, divisor, q) && sender.state == T.Idle && p > 0.0 && phase >= 0.0
    requires Periods(divisor, p) > 0.0
    ensures n <= m && m as real <= phase + Periods(|willing + Quiet(k)|, p)
    ensures Observed(Begun(sender, divisor, q, willing, phase, p), Periods(divisor, p), m)
  {
    BegunIsLegal(sender, divisor, q, willing, phase, p);
    m := EnoughSamples(Begun(sender, divisor, q, willing, phase, p), Periods(divisor, p), n);
    k := EnoughCycles(phase, |willing|, p, m);
    PeriodsIsProduct(|willing| + k, p);
  }

  /** What is heard early is the beginning of what is heard later. */
  lemma HeardEarly(receiver: R.Registers, divisor: nat, wave: seq<bool>, longer: seq<bool>, phase: real, p: real,
                   n: nat, m: nat)
    requires R.Fits(receiver, divisor) && wave <= longer && n <= m && n as real <= phase + Periods(|wave|, p)
    ensures R.HeardOn(receiver, divisor, Read(wave, phase, p, n))
      <= R.HeardOn(receiver, divisor, Read(longer, phase, p, m))
  {
    ReadOfPrefix(wave, longer, phase, p, n, m);
    R.HeardOnPrefix(receiver, divisor, Read(longer, phase, p, m), n);
  }

  /** At any time the bytes received are the first of those begun. */
  lemma FirstFramesDelivered(sender: T.Registers, divisor: nat, q: seq<seq<bool>>, willing: seq<bool>, phase: real,
                             p: real, receiver: R.Registers, rdivisor: nat, n: nat, period: real)
    requires T.Offered(sender, divisor, q) && sender.state == T.Idle && p > 0.0 && phase >= 0.0
    requires R.Ready(receiver, rdivisor) && period == Periods(divisor, p) && Tolerated(rdivisor, period)
    requires n as real <= phase + Periods(|willing|, p)
    ensures R.HeardOn(receiver, rdivisor, Read(T.Wave(sender, divisor, q, willing), phase, p, n))
      <= Bytes(Begun(sender, divisor, q, willing, phase, p))
  {
    PeriodOverOne(rdivisor, period);
    var k, m := UntilOver(sender, divisor, q, willing, phase, p, n);
    SilenceAfter(sender, divisor, q, willing, k, phase, p);
    WholeFramesDelivered(sender, divisor, q, willing + Quiet(k), phase, p, receiver, rdivisor, m, period);
    HeardEarly(receiver, rdivisor, T.Wave(sender, divisor, q, willing), T.Wave(sender, divisor, q, willing + Quiet(k)),
               phase, p, n, m);
  }

  /**
   * From end to end: if a bit of the transmitter is tolerated by the receiver, then at any time the
   * bytes received are the first of those offered, and all that have been begun are received once
   * the last frame is over. `p` is the clock period of the transmitter in clock periods of the
   * receiver, and `phase` when its first cycle begins.
   */
  lemma LinkDelivers(sender: T.Registers, divisor: nat, q: seq<seq<bool>>, willing: seq<bool>, phase: real, p: real,
                     receiver: R.Registers, rdivisor: nat, n: nat, period: real)
    requires T.Offered(sender, divisor, q) && sender.state == T.Idle && p > 0.0 && phase >= 0.0
    requires R.Ready(receiver, rdivisor) && period == divisor as real * p && Tolerated(rdivisor, period)
    requires n as real <= phase + |willing| as real * p
    ensures var fs := Begun(sender, divisor, q, willing, phase, p);
      var heard := R.HeardOn(receiver, rdivisor, Read(T.Wave(sender, divisor, q, willing), phase, p, n));
      && heard <= Bytes(fs) && (Observed(fs, period, n) ==> heard == Bytes(fs))
      && |fs| <= |q| && forall i :: 0 <= i < |fs| ==> Bytes(fs)[i] == R.Byte(q[i])
  {
    PeriodsIsProduct(divisor, p);
    PeriodsIsProduct(|willing|, p);
    BegunIsOffered(sender, divisor, q, willing, phase, p);
    FirstFramesDelivered(sender, divisor, q, willing, phase, p, receiver, rdivisor, n, period);
    if Observed(Begun(sender, divisor, q, willing, phase, p), period, n) {
      WholeFramesDelivered(sender, divisor, q, willing, phase, p, receiver, rdivisor, n, period);
    }
  }
}
