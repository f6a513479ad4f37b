/**
 * The serial line in real time. A frame is a start bit, eight bits and a stop bit of length
 * `period` each, where the unit of time is a clock cycle of the receiver.
 */
module UartLine {
  import opened UartReceive

  datatype Frame = Frame(start: real, bits: seq<bool>)

  /** Frames may follow each other without a gap, and start at any phase of the receiver's clock. */
  ghost predicate Legal(fs: seq<Frame>, period: real) {
    && period > 0.0
    && (forall i :: 0 <= i < |fs| ==> fs[i].start >= 0.0 && |fs[i].bits| == 8)
    && (forall i, j :: 0 <= i < j < |fs| ==> fs[i].start + 10.0 * period <= fs[j].start)
  }

  /** `levels` one after the other, and high from there on. */
  ghost function LevelOf(levels: seq<bool>, period: real, x: real): bool {
    if levels == [] then true else if x < period then levels[0] else LevelOf(levels[1..], period, x - period)
  }

  ghost function Level(fs: seq<Frame>, period: real, x: real): bool {
    if fs == [] || x < fs[0].start then true
    else if |fs| == 1 || x < fs[1].start then LevelOf([false] + fs[0].bits, period, x - fs[0].start)
    else Level(fs[1..], period, x)
  }

  /** What a receiver reads at its first `n` clock edges. */
  ghost function Samples(fs: seq<Frame>, period: real, n: nat): seq<bool> {
    seq(n, i => Level(fs, period, i as real))
  }

  lemma {:induction false} LevelIn(fs: seq<Frame>, period: real, i: nat, x: real)
    requires Legal(fs, period) && i < |fs| && fs[i].start <= x
    requires i + 1 < |fs| ==> x < fs[i + 1].start
    ensures Level(fs, period, x) == LevelOf([false] + fs[i].bits, period, x - fs[i].start)
    decreases i
  {
    if i > 0 {
      assert fs[0].start + 10.0 * period <= fs[i].start;
      assert i > 1 ==> fs[1].start + 10.0 * period <= fs[i].start;
      LevelIn(fs[1..], period, i - 1, x);
    }
  }

  ghost function Periods(j: nat, period: real): real
    decreases j, period
  {
    if j == 0 then 0.0 else Periods(j - 1, period) + period
  }

  lemma SomePeriods(period: real)
    ensures Periods(8, period) == 8.0 * period && Periods(9, period) == 9.0 * period
  {
    assert Periods(1, period) == period;
    assert Periods(3, period) == 3.0 * period;
    assert Periods(5, period) == 5.0 * period;
    assert Periods(7, period) == 7.0 * period;
  }

  lemma {:induction false} PeriodsGrow(j: nat, k: nat, period: real)
    requires j <= k
    ensures if period >= 0.0 then Periods(j, period) <= Periods(k, period) else Periods(k, period) <= Periods(j, period)
    decreases k
  {
    if j < k {
      PeriodsGrow(j, k - 1, period);
    }
  }

  lemma {:induction false} PeriodsOfDifference(j: nat, a: real, b: real)
    ensures Periods(j, a - b) == Periods(j, a) - Periods(j, b)
    decreases j
  {
    if j > 0 {
      PeriodsOfDifference(j - 1, a, b);
    }
  }

  /** Level number `j` lasts from `j` to `j + 1` periods after the start. */
  lemma {:induction false} LevelAt(levels: seq<bool>, period: real, x: real, j: nat)
    requires period > 0.0 && j <= |levels| && Periods(j, period) <= x
    requires j < |levels| ==> x < Periods(j, period) + period
    ensures LevelOf(levels, period, x) == (j == |levels| || levels[j])
    decreases j
  {
    if j > 0 {
      PeriodsGrow(0, j - 1, period);
      LevelAt(levels[1..], period, x - period, j - 1);
    }
  }

  // ---------- The tolerance ----------

  /** The bit periods for which the stop bit is sampled inside the stop bit, at every phase. */
  predicate Tolerated(divisor: nat, period: real) {
    && divisor >= 2
    && 9.0 * period <= SampleDelay(divisor, BYTE) as real
    && SampleDelay(divisor, BYTE) as real + 1.0 <= 10.0 * period
  }

  lemma {:induction false} SpanIsPeriods(k: nat, divisor: nat)
    ensures Span(k, divisor) as real == Periods(k, divisor as real)
    decreases k
  {
    if k > 0 {
      SpanIsPeriods(k - 1, divisor);
    }
  }

  /** What holds after no period and after eight holds in between. */
  lemma Between(a: real, b: real, k: nat)
    requires a >= 0.0 && a + 8.0 * b >= 0.0 && k <= 8
    ensures a + Periods(k, b) >= 0.0
  {
    SomePeriods(b);
    PeriodsGrow(0, k, b);
    PeriodsGrow(k, 8, b);
  }

  lemma DelaysBetween(d: real, h: real, period: real, k: nat)
    requires 9.0 * period <= 10.0 * d - h && 10.0 * d - h + 1.0 <= 10.0 * period
    requires h >= 1.0 && 2.0 * h <= d && k <= 8
    ensures period + Periods(k, period) <= 2.0 * d - h + Periods(k, d)
    ensures 2.0 * d - h + Periods(k, d) + 1.0 <= 2.0 * period + Periods(k, period) <= 10.0 * period
  {
    Between(2.0 * d - h - period, d - period, k);
    Between(2.0 * period - 2.0 * d + h - 1.0, period - d, k);
    PeriodsOfDifference(k, d, period);
    PeriodsOfDifference(k, period, d);
    SomePeriods(period);
    PeriodsGrow(k, 8, period);
  }

  lemma DelayOf(divisor: nat, k: nat)
    ensures SampleDelay(divisor, k) as real
      == 2.0 * divisor as real - (divisor / 2) as real + Periods(k, divisor as real)
  {
    SpanIsPeriods(k, divisor);
  }

  /** Then all the other bits are sampled inside themselves. */
  lemma AllBitsTolerated(divisor: nat, period: real, k: nat)
    requires Tolerated(divisor, period) && k <= 8
    ensures Periods(k + 1, period) <= SampleDelay(divisor, k) as real
    ensures SampleDelay(divisor, k) as real + 1.0 <= Periods(k + 1, period) + period <= 10.0 * period
  {
    var d, h := divisor as real, (divisor / 2) as real;
    DelayOf(divisor, BYTE);
    DelayOf(divisor, k);
    SomePeriods(d);
    DelaysBetween(d, h, period, k);
  }

  /** The first clock edge at or after the time `x`. */
  ghost function EdgeAfter(x: real): (n: nat)
    requires x >= 0.0
    ensures x <= n as real < x + 1.0
  {
    if x.Floor as real == x then x.Floor else x.Floor + 1
  }

  /** `edge` is the first clock edge that can see something that happens at `start`. */
  predicate Sees(edge: nat, start: real) { start <= edge as real < start + 1.0 }

  lemma SampleInBit(divisor: nat, period: real, k: nat, start: real, edge: nat)
    requires Tolerated(divisor, period) && k <= 8 && Sees(edge, start)
    ensures 0.0 <= Periods(k + 1, period) <= (edge + SampleDelay(divisor, k)) as real - start
      < Periods(k + 1, period) + period <= 10.0 * period
  {
    AllBitsTolerated(divisor, period, k);
    PeriodsGrow(0, k + 1, period);
  }

  /** Sample `k` of frame `i` finds bit `k`, and the ninth the stop bit. */
  lemma SampleIsBit(fs: seq<Frame>, period: real, divisor: nat, i: nat, k: nat, edge: nat)
    requires Legal(fs, period) && i < |fs| && Tolerated(divisor, period) && k <= 8 && Sees(edge, fs[i].start)
    ensures Level(fs, period, (edge + SampleDelay(divisor, k)) as real) == (k == 8 || fs[i].bits[k])
  {
    SampleInBit(divisor, period, k, fs[i].start, edge);
    BitLevel(fs, period, i, k, (edge + SampleDelay(divisor, k)) as real);
  }

  lemma BitLevel(fs: seq<Frame>, period: real, i: nat, k: nat, x: real)
    requires Legal(fs, period) && i < |fs| && k <= 8
    requires 0.0 <= Periods(k + 1, period) <= x - fs[i].start < Periods(k + 1, period) + period <= 10.0 * period
    ensures Level(fs, period, x) == (k == 8 || fs[i].bits[k])
  {
    assert i + 1 < |fs| ==> fs[i].start + 10.0 * period <= fs[i + 1].start;
    LevelIn(fs, period, i, x);
    LevelAt([false] + fs[i].bits, period, x - fs[i].start, k + 1);
  }

  predicate SampleIs(s: seq<bool>, first: nat, divisor: nat, k: nat, b: bool) {
    first + Span(k, divisor) < |s| && s[first + Span(k, divisor)] == b
  }

  lemma {:induction false} SampledIs(s: seq<bool>, first: nat, divisor: nat, bits: seq<bool>)
    requires first + Span(|bits|, divisor) < |s|
    requires forall k: nat :: k < |bits| ==> SampleIs(s, first, divisor, k, bits[k])
    ensures Sampled(s, first, divisor, |bits|) == bits
    decreases |bits|
  {
    if bits != [] {
      var last := |bits| - 1;
      forall k: nat | k < last ensures SampleIs(s, first, divisor, k, bits[..last][k]) {
        assert SampleIs(s, first, divisor, k, bits[k]);
      }
      SampledIs(s, first, divisor, bits[..last]);
      assert SampleIs(s, first, divisor, last, bits[last]);
      assert bits == bits[..last] + [bits[last]];
    }
  }

  lemma {:induction false} SpanGrows(j: nat, k: nat, divisor: nat)
    requires j <= k
    ensures Span(j, divisor) <= Span(k, divisor)
    decreases k
  {
    if j < k {
      SpanGrows(j, k - 1, divisor);
    }
  }

  lemma BitIsRead(fs: seq<Frame>, period: real, divisor: nat, n: nat, i: nat, edge: nat, k: nat)
    requires Legal(fs, period) && i < |fs| && Tolerated(divisor, period) && k < BYTE
    requires Sees(edge, fs[i].start) && edge + SampleDelay(divisor, BYTE) < n
    ensures SampleIs(Samples(fs, period, n), edge + FirstBit(divisor), divisor, k, fs[i].bits[k])
  {
    SpanGrows(k, BYTE, divisor);
    SampleIsBit(fs, period, divisor, i, k, edge);
  }

  lemma ReportIs(s: seq<bool>, edge: nat, divisor: nat, bits: seq<bool>)
    requires |bits| == BYTE && edge + SampleDelay(divisor, BYTE) < |s| && s[edge + SampleDelay(divisor, BYTE)]
    requires forall k: nat :: k < |bits| ==> SampleIs(s, edge + FirstBit(divisor), divisor, k, bits[k])
    ensures FrameReport(s, edge, divisor) == Byte(bits)
  {
    SampledIs(s, edge + FirstBit(divisor), divisor, bits);
  }

  lemma FrameIsRead(fs: seq<Frame>, period: real, divisor: nat, n: nat, i: nat, edge: nat)
    requires Legal(fs, period) && i < |fs| && Tolerated(divisor, period)
    requires Sees(edge, fs[i].start) && edge + SampleDelay(divisor, BYTE) < n
    ensures FrameReport(Samples(fs, period, n), edge, divisor) == Byte(fs[i].bits)
  {
    var s, first, bits := Samples(fs, period, n), edge + FirstBit(divisor), fs[i].bits;
    forall k: nat | k < |bits| ensures SampleIs(s, first, divisor, k, bits[k]) {
      BitIsRead(fs, period, divisor, n, i, edge, k);
    }
    SampleIsBit(fs, period, divisor, i, BYTE, edge);
    ReportIs(s, edge, divisor, bits);
  }

  /** The first edge after a frame's start reads low. */
  lemma StartIsLow(fs: seq<Frame>, period: real, n: nat, i: nat)
    requires Legal(fs, period) && i < |fs| && EdgeAfter(fs[i].start) < n
    requires EdgeAfter(fs[i].start) as real < fs[i].start + period
    ensures !Samples(fs, period, n)[EdgeAfter(fs[i].start)]
  {
    var x := EdgeAfter(fs[i].start) as real;
    LevelIn(fs, period, i, x);
    LevelAt([false] + fs[i].bits, period, x - fs[i].start, 0);
  }

  /** From the stop bit of frame `i - 1` the line is high until frame `i` starts. */
  lemma HighBetween(fs: seq<Frame>, period: real, i: nat, x: real)
    requires Legal(fs, period) && i <= |fs|
    requires i > 0 ==> fs[i - 1].start + 9.0 * period <= x
    requires i < |fs| ==> x < fs[i].start
    ensures Level(fs, period, x)
  {
    if i > 0 {
      LevelIn(fs, period, i - 1, x);
      SomePeriods(period);
      LevelAt([false] + fs[i - 1].bits, period, x - fs[i - 1].start, 9);
    }
  }

  function Bytes(fs: seq<Frame>): (hs: seq<Heard>)
    ensures |hs| == |fs|
  {
    seq(|fs|, i requires 0 <= i < |fs| => Byte(fs[i].bits))
  }

  /** `n` samples are enough to see the last stop bit end. */
  ghost predicate Observed(fs: seq<Frame>, period: real, n: nat) {
    Legal(fs, period) && forall i :: 0 <= i < |fs| ==> fs[i].start + 10.0 * period <= n as real
  }

  ghost function Edges(fs: seq<Frame>): (edges: seq<nat>)
    requires forall i :: 0 <= i < |fs| ==> fs[i].start >= 0.0
    ensures |edges| == |fs|
  {
    seq(|fs|, i requires 0 <= i < |fs| => EdgeAfter(fs[i].start))
  }

  lemma MarkIsHigh(fs: seq<Frame>, period: real, divisor: nat, n: nat, i: nat, to: nat)
    requires Observed(fs, period, n) && i <= |fs| && Tolerated(divisor, period)
    requires to == if i < |fs| then EdgeAfter(fs[i].start) else n
    ensures to <= n && High(Samples(fs, period, n), Mark(Edges(fs), divisor, i), to)
  {
    AllBitsTolerated(divisor, period, 8);
    if i < |fs| {
      AllBitsTolerated(divisor, period, 0);
    }
    var s := Samples(fs, period, n);
    forall j | Mark(Edges(fs), divisor, i) <= j < to ensures s[j] {
      HighBetween(fs, period, i, j as real);
    }
  }

  lemma FrameArrives(fs: seq<Frame>, period: real, divisor: nat, n: nat, i: nat)
    requires Observed(fs, period, n) && i < |fs| && Tolerated(divisor, period)
    ensures FrameInSamples(Samples(fs, period, n), Edges(fs), divisor, i, fs[i].bits)
  {
    MarkIsHigh(fs, period, divisor, n, i, EdgeAfter(fs[i].start));
    StopIsEarly(divisor, period, fs[i].start, n);
    FrameIsRead(fs, period, divisor, n, i, EdgeAfter(fs[i].start));
    PeriodOverOne(divisor, period);
    StartIsLow(fs, period, n, i);
  }

  lemma StopIsEarly(divisor: nat, period: real, start: real, n: nat)
    requires Tolerated(divisor, period) && 0.0 <= start && start + 10.0 * period <= n as real
    ensures EdgeAfter(start) + SampleDelay(divisor, BYTE) < n
  {
    SampleInBit(divisor, period, BYTE, start, EdgeAfter(start));
  }

  lemma PeriodOverOne(divisor: nat, period: real)
    requires Tolerated(divisor, period)
    ensures period >= 1.0
  {}

  lemma LineIsHeard(t: seq<Registers>, fs: seq<Frame>, period: real, divisor: nat, n: nat)
    requires Observed(fs, period, n) && Tolerated(divisor, period)
    requires IsRun(t, divisor, Samples(fs, period, n)) && Resting(t[0], divisor)
    ensures Reports(t, divisor, n) == Bytes(fs)
  {
    var s, edges, hs := Samples(fs, period, n), Edges(fs), Bytes(fs);
    forall j: nat | j < |edges| ensures FrameInSamples(s, edges, divisor, j, hs[j].bits) {
      FrameArrives(fs, period, divisor, n, j);
    }
    FramesAreHeard(t, s, edges, hs, divisor, |fs|);
    MarkIsHigh(fs, period, divisor, n, |fs|, n);
    Quiet(t, divisor, s, Mark(edges, divisor, |fs|), n);
  }

  /** The receiver reads every line of this bit period correctly, whatever the bytes, gaps and phases. */
  ghost predicate ReceivesAll(divisor: nat, period: real) {
    forall reset, fs, n :: Ready(reset, divisor) && Observed(fs, period, n)
      ==> HeardOn(reset, divisor, Samples(fs, period, n)) == Bytes(fs)
  }

  lemma ToleratedSuffices(divisor: nat, period: real)
    requires Tolerated(divisor, period)
    ensures ReceivesAll(divisor, period)
  {
    forall reset, fs, n | Ready(reset, divisor) && Observed(fs, period, n)
      ensures HeardOn(reset, divisor, Samples(fs, period, n)) == Bytes(fs)
    {
      var s := Samples(fs, period, n);
      TraceIsRun(reset, divisor, s);
      LineIsHeard(Trace(reset, divisor, s), fs, period, divisor, n);
    }
  }
}
