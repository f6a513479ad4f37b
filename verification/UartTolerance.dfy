/** Exactly how far the bit period of the line may be off the receiver's divisor. */
module UartTolerance {
  import opened UartReceive
  import opened UartLine

  const ZEROS: seq<bool> := [false, false, false, false, false, false, false, false]

  lemma {:induction false} LowLevels(levels: seq<bool>, period: real, x: real)
    requires forall i :: 0 <= i < |levels| ==> !levels[i]
    requires 0.0 <= x < Periods(|levels|, period)
    ensures !LevelOf(levels, period, x)
    decreases |levels|
  {
    if levels != [] && x >= period {
      LowLevels(levels[1..], period, x - period);
    }
  }

  /** A zero byte keeps the line low for nine periods. */
  lemma ZeroIsLow(fs: seq<Frame>, period: real, i: nat, x: real)
    requires Legal(fs, period) && i < |fs| && fs[i].bits == ZEROS
    requires fs[i].start <= x < fs[i].start + 9.0 * period
    ensures !Level(fs, period, x)
  {
    assert i + 1 < |fs| ==> fs[i].start + 10.0 * period <= fs[i + 1].start;
    LevelIn(fs, period, i, x);
    SomePeriods(period);
    LowLevels([false] + ZEROS, period, x - fs[i].start);
  }

  lemma FirstStays(t: seq<Registers>, divisor: nat, n: nat, first: Heard)
    requires n < |t| && Reports(t, divisor, n) == Reports(t, divisor, 0) + [first]
    ensures var heard := Reports(t, divisor, |t| - 1); heard != [] && heard[0] == first
  {
    ReportsGrow(t, divisor, n, |t| - 1);
  }

  lemma FirstByteWrong(divisor: nat, period: real, reset: Registers, fs: seq<Frame>, n: nat)
    requires Ready(reset, divisor) && Observed(fs, period, n) && fs != []
    requires var heard := HeardOn(reset, divisor, Samples(fs, period, n));
      heard != [] && heard[0] != Byte(fs[0].bits)
    ensures !ReceivesAll(divisor, period)
  {
    assert HeardOn(reset, divisor, Samples(fs, period, n))[0] != Bytes(fs)[0];
  }

  lemma HighBeforeFirst(fs: seq<Frame>, period: real, n: nat)
    requires Legal(fs, period) && fs != [] && EdgeAfter(fs[0].start) <= n
    ensures High(Samples(fs, period, n), 0, EdgeAfter(fs[0].start))
  {}

  /** The first thing heard is what the samples after the first falling edge say. */
  lemma FirstReport(divisor: nat, s: seq<bool>, edge: nat)
    requires divisor > 0 && High(s, 0, edge) && edge + SampleDelay(divisor, BYTE) < |s| && !s[edge]
    ensures var heard := HeardOn(Reset(0, ZEROS), divisor, s); heard != [] && heard[0] == FrameReport(s, edge, divisor)
  {
    var reset, stop := Reset(0, ZEROS), edge + SampleDelay(divisor, BYTE);
    TraceIsRun(reset, divisor, s);
    var t := Trace(reset, divisor, s);
    FrameHeard(t, divisor, s, 0, edge, stop);
    FirstStays(t, divisor, stop + 1, FrameReport(s, edge, divisor));
  }

  /** One line whose first frame is misread is enough. */
  lemma Misread(divisor: nat, fs: seq<Frame>, period: real, n: nat)
    requires divisor > 0 && Observed(fs, period, n) && fs != []
    requires EdgeAfter(fs[0].start) as real < fs[0].start + period
    requires EdgeAfter(fs[0].start) + SampleDelay(divisor, BYTE) < n
    requires FrameReport(Samples(fs, period, n), EdgeAfter(fs[0].start), divisor) != Byte(fs[0].bits)
    ensures !ReceivesAll(divisor, period)
  {
    HighBeforeFirst(fs, period, n);
    StartIsLow(fs, period, n, 0);
    FirstReport(divisor, Samples(fs, period, n), EdgeAfter(fs[0].start));
    FirstByteWrong(divisor, period, Reset(0, ZEROS), fs, n);
  }

  lemma {:induction false} SampledAt(s: seq<bool>, first: nat, divisor: nat, k: nat, i: nat)
    requires first + Span(k, divisor) < |s| && i < k
    ensures first + Span(i, divisor) < |s| && Sampled(s, first, divisor, k)[i] == s[first + Span(i, divisor)]
    decreases k
  {
    if i < k - 1 {
      SampledAt(s, first, divisor, k - 1, i);
    }
  }

  lemma StopMisread(divisor: nat, fs: seq<Frame>, period: real, n: nat)
    requires divisor > 0 && Observed(fs, period, n) && fs != []
    requires EdgeAfter(fs[0].start) as real < fs[0].start + period
    requires EdgeAfter(fs[0].start) + SampleDelay(divisor, BYTE) < n
    requires !Level(fs, period, (EdgeAfter(fs[0].start) + SampleDelay(divisor, BYTE)) as real)
    ensures !ReceivesAll(divisor, period)
  {
    StopDiffers(Samples(fs, period, n), EdgeAfter(fs[0].start), divisor, fs[0].bits);
    Misread(divisor, fs, period, n);
  }

  lemma StopDiffers(s: seq<bool>, edge: nat, divisor: nat, bits: seq<bool>)
    requires edge + SampleDelay(divisor, BYTE) < |s| && !s[edge + SampleDelay(divisor, BYTE)] && |bits| == BYTE
    ensures FrameReport(s, edge, divisor) != Byte(bits)
  {}

  lemma DelayFromFirst(edge: nat, divisor: nat, k: nat)
    ensures edge + SampleDelay(divisor, k) == edge + FirstBit(divisor) + Span(k, divisor)
  {}

  lemma BitDiffers(s: seq<bool>, edge: nat, divisor: nat, bits: seq<bool>, k: nat, at: nat, count: nat)
    requires count == BYTE == |bits| && k < count && edge + SampleDelay(divisor, count) < |s|
    requires at == edge + SampleDelay(divisor, k) < |s| && s[at] != bits[k]
    ensures FrameReport(s, edge, divisor) != Byte(bits)
  {
    DelayFromFirst(edge, divisor, k);
    DelayFromFirst(edge, divisor, count);
    SampledDiffers(s, edge + FirstBit(divisor), divisor, count, bits, k, at);
  }

  lemma SampledDiffers(s: seq<bool>, first: nat, divisor: nat, count: nat, bits: seq<bool>, k: nat, at: nat)
    requires first + Span(count, divisor) < |s| && k < count == |bits|
    requires at == first + Span(k, divisor) < |s| && s[at] != bits[k]
    ensures Sampled(s, first, divisor, count) != bits
  {
    SampledAt(s, first, divisor, count, k);
  }

  lemma BitMisread(divisor: nat, fs: seq<Frame>, period: real, n: nat, k: nat)
    requires divisor > 0 && Observed(fs, period, n) && fs != [] && k < BYTE
    requires EdgeAfter(fs[0].start) as real < fs[0].start + period
    requires EdgeAfter(fs[0].start) + SampleDelay(divisor, BYTE) < n
    requires Level(fs, period, (EdgeAfter(fs[0].start) + SampleDelay(divisor, k)) as real) != fs[0].bits[k]
    ensures !ReceivesAll(divisor, period)
  {
    var s := Samples(fs, period, n);
    SampledAt(s, EdgeAfter(fs[0].start) + FirstBit(divisor), divisor, BYTE, k);
    var edge := EdgeAfter(fs[0].start);
    BitDiffers(s, edge, divisor, fs[0].bits, k, edge + SampleDelay(divisor, k), BYTE);
    Misread(divisor, fs, period, n);
  }

  ghost function Enough(period: real, divisor: nat): (n: nat)
    requires period > 0.0
    ensures n > SampleDelay(divisor, BYTE) + 1 && n as real >= 20.0 * period + 1.0
  {
    (20.0 * period).Floor + SampleDelay(divisor, BYTE) + 2
  }

  /** Too slow a line: the ninth sample is still inside the zeros. */
  lemma SlowLineFails(divisor: nat, period: real)
    requires divisor > 0 && 9.0 * period > SampleDelay(divisor, BYTE) as real
    ensures !ReceivesAll(divisor, period)
  {
    var fs, n := [Frame(0.0, ZEROS)], Enough(period, divisor);
    ZeroIsLow(fs, period, 0, SampleDelay(divisor, BYTE) as real);
    StopMisread(divisor, fs, period, n);
  }

  /** Much too fast a line: bit 7 is read from the stop bit. */
  lemma VeryFastLineFails(divisor: nat, period: real)
    requires divisor > 0 && 0.0 < 9.0 * period <= SampleDelay(divisor, 7) as real
    ensures !ReceivesAll(divisor, period)
  {
    var fs, n := [Frame(0.0, ZEROS)], Enough(period, divisor);
    HighBetween(fs, period, 1, SampleDelay(divisor, 7) as real);
    BitMisread(divisor, fs, period, n, 7);
  }

  lemma DelayBounds(divisor: nat)
    requires divisor > 0
    ensures SampleDelay(divisor, BYTE) == SampleDelay(divisor, 7) + divisor && SampleDelay(divisor, BYTE) >= 10
    ensures 2 * SampleDelay(divisor, 7) >= 17 * divisor
  {
    assert Span(1, divisor) == divisor;
    assert Span(3, divisor) == 3 * divisor;
    assert Span(5, divisor) == 5 * divisor;
    assert Span(7, divisor) == 7 * divisor;
  }

  /** Too fast a line: the ninth sample may be in the start bit of the next byte. */
  lemma FastLineFails(divisor: nat, period: real)
    requires divisor > 0 && 9.0 * period > SampleDelay(divisor, 7) as real
    requires 10.0 * period < SampleDelay(divisor, BYTE) as real + 1.0
    ensures !ReceivesAll(divisor, period)
  {
    var delay := SampleDelay(divisor, BYTE) as real;
    var start := if 10.0 * period > delay then 1.0 + delay - 10.0 * period else 0.0;
    var fs := [Frame(start, ZEROS), Frame(start + 10.0 * period, ZEROS)];
    var n := Enough(period, divisor);
    DelayBounds(divisor);
    ZeroIsLow(fs, period, 1, (EdgeAfter(start) + SampleDelay(divisor, BYTE)) as real);
    StopMisread(divisor, fs, period, n);
  }

  lemma DelayIs(divisor: nat)
    ensures SampleDelay(divisor, BYTE) == 10 * divisor - divisor / 2
  {
    SpanIsPeriods(BYTE, divisor);
    SomePeriods(divisor as real);
  }

  /** With one clock cycle per bit, bit 1 may be taken for bit 0. */
  lemma DivisorOneFails(period: real)
    requires 9.0 * period <= SampleDelay(1, BYTE) as real && SampleDelay(1, BYTE) as real + 1.0 <= 10.0 * period
    ensures !ReceivesAll(1, period)
  {
    var bits := ZEROS[1 := true];
    var fs, n := [Frame(0.7, bits)], Enough(period, 1);
    DelayIs(1);
    assert EdgeAfter(0.7) == 1 && FirstBit(1) == 2;
    LevelIn(fs, period, 0, 3.0);
    assert Periods(1, period) == period;
    LevelAt([false] + bits, period, 2.3, 2);
    BitMisread(1, fs, period, n, 0);
  }

  /** The tolerance is exact: every line is read correctly if and only if the stop bit is always hit. */
  lemma ToleranceExact(divisor: nat, period: real)
    requires divisor > 0 && period > 0.0
    ensures ReceivesAll(divisor, period) <==> Tolerated(divisor, period)
  {
    if Tolerated(divisor, period) {
      ToleratedSuffices(divisor, period);
    } else if 9.0 * period > SampleDelay(divisor, BYTE) as real {
      SlowLineFails(divisor, period);
    } else if 10.0 * period >= SampleDelay(divisor, BYTE) as real + 1.0 {
      DivisorOneFails(period);
    } else if 9.0 * period <= SampleDelay(divisor, 7) as real {
      VeryFastLineFails(divisor, period);
    } else {
      FastLineFails(divisor, period);
    }
  }

  predicate WithinTwoPercent(divisor: nat, period: real) {
    0.98 * divisor as real <= period <= 1.02 * divisor as real
  }

  lemma TwoPercentTolerated(divisor: nat, period: real)
    requires divisor >= 4 && WithinTwoPercent(divisor, period)
    ensures Tolerated(divisor, period)
  {
    DelayIs(divisor);
    assert divisor >= 6 || divisor == 4 || divisor == 5;
    assert (divisor / 2) as real >= (divisor as real - 1.0) / 2.0;
  }

  lemma SmallDivisorNotTolerated(divisor: nat)
    requires 0 < divisor < 4
    ensures !Tolerated(divisor, 0.98 * divisor as real)
  {
    DelayIs(divisor);
  }

  /** The promised tolerance of 2% holds from four clock cycles per bit on, and not below. */
  lemma TwoPercentFromFour(divisor: nat)
    requires divisor > 0
    ensures (forall period :: WithinTwoPercent(divisor, period) ==> ReceivesAll(divisor, period)) <==> divisor >= 4
  {
    if divisor >= 4 {
      forall period | WithinTwoPercent(divisor, period) ensures ReceivesAll(divisor, period) {
        TwoPercentTolerated(divisor, period);
        ToleratedSuffices(divisor, period);
      }
    } else {
      var period := 0.98 * divisor as real;
      assert WithinTwoPercent(divisor, period);
      SmallDivisorNotTolerated(divisor);
      ToleranceExact(divisor, period);
    }
  }
}
