/**
 * The UART receiver: it looks for a falling edge, lets the start bit pass and samples every bit
 * when its divider is half way.
 */
module UartReceive {

  datatype State = Idle | Start | Bits | Stop

  /** `r0` and `r1` are the last two samples of the line, the newer one in `r0`. */
  datatype Registers = Registers(state: State, divcounter: nat, bitpos: nat, r0: bool, r1: bool, data: seq<bool>)

  datatype Heard = Byte(bits: seq<bool>) | FramingError

  predicate Fits(r: Registers, divisor: nat) {
    r.divcounter < divisor && r.bitpos < 8 && |r.data| == 8
  }

  /** At reset both samples are taken from the idle line; `bitpos` and `data` are not reset. */
  function Reset(bitpos: nat, data: seq<bool>): Registers {
    Registers(Idle, 0, bitpos, true, true, data)
  }

  function CountDown(divcounter: nat, divisor: nat): (d: nat)
    requires divcounter < divisor
    ensures d < divisor
  {
    if divcounter == 0 then divisor - 1 else divcounter - 1
  }

  predicate BitMid(r: Registers, divisor: nat) { r.divcounter == divisor / 2 }

  /** One clock edge, at which the line is sampled as `rx`. */
  function AtEdge(r: Registers, divisor: nat, rx: bool): (r': Registers)
    requires Fits(r, divisor)
    ensures Fits(r', divisor)
  {
    var counted := r.(divcounter := CountDown(r.divcounter, divisor), r0 := rx, r1 := r.r0);
    match r.state
    case Idle => if r.r1 && !r.r0 then counted.(state := Start, divcounter := divisor - 1) else counted
    case Start => if r.divcounter == 0 then counted.(state := Bits, bitpos := 0) else counted
    case Bits =>
      if BitMid(r, divisor) then
        counted.(data := r.data[r.bitpos := r.r0],
                 bitpos := if r.bitpos == 7 then 0 else r.bitpos + 1,
                 state := if r.bitpos == 7 then Stop else Bits)
      else counted
    case Stop => if BitMid(r, divisor) then counted.(state := Idle) else counted
  }

  /** What the receiver reports in the cycle in which its registers are `r`. */
  function Output(r: Registers, divisor: nat): seq<Heard> {
    if r.state == Stop && BitMid(r, divisor) then [if r.r0 then Byte(r.data) else FramingError] else []
  }

  /** The receiver, clocked by the source's sequential process. */
  class Receiver {
    const divisor: nat
    var state: State
    var divcounter: nat
    var bitpos: nat
    var r0: bool
    var r1: bool
    var data: seq<bool>

    ghost predicate Valid()
      reads this
    {
      Fits(Value(), divisor)
    }

    ghost function Value(): Registers
      reads this
    {
      Registers(state, divcounter, bitpos, r0, r1, data)
    }

    constructor (divisor: nat)
      requires divisor > 0
      ensures Valid() && this.divisor == divisor
      ensures Value() == Reset(0, data)
    {
      this.divisor := divisor;
      state, divcounter, bitpos, r0, r1 := Idle, 0, 0, true, true;
      data := [false, false, false, false, false, false, false, false];
    }

    /** In the middle of a bit it is stored. */
    method TakeBit()
      requires Valid()
      modifies `data, `state, `bitpos
      ensures data == old(data)[old(bitpos) := r0]
      ensures bitpos == if old(bitpos) == 7 then 0 else old(bitpos) + 1
      ensures state == if old(bitpos) == 7 then Stop else Bits
    {
      data := data[bitpos := r0];
      state := if bitpos == 7 then Stop else Bits;
      bitpos := (bitpos + 1) % 8;
    }

    /** The outputs belong to the cycle before the edge. */
    method Clock(rx: bool) returns (enable: bool, error: bool)
      requires Valid()
      modifies this
      ensures Valid()
      ensures Value() == AtEdge(old(Value()), divisor, rx)
      ensures Output(old(Value()), divisor)
        == if enable then [Byte(old(data))] else if error then [FramingError] else []
      ensures !(enable && error)
    {
      enable, error := false, false;
      var bitend, bitmid := divcounter == 0, divcounter == divisor / 2;
      var nextCounter := if bitend then divisor - 1 else divcounter - 1;
      match state {
        case Idle =>
          if r1 != r0 && !r0 {
            state, nextCounter := Start, divisor - 1;
          }
        case Start =>
          if bitend {
            state, bitpos := Bits, 0;
          }
        case Bits =>
          if bitmid {
            TakeBit();
          }
        case Stop =>
          if bitmid {
            enable, error := r0, !r0;
            state := Idle;
          }
      }
      divcounter, r1, r0 := nextCounter, r0, rx;
    }
  }

  // ---------- Runs over a sampled line ----------

  predicate Ready(r: Registers, divisor: nat) { Fits(r, divisor) && r == Reset(r.bitpos, r.data) }

  /** The registers before the first sample and after each of the samples `s`. */
  function Trace(reset: Registers, divisor: nat, s: seq<bool>): (t: seq<Registers>)
    requires Fits(reset, divisor)
    ensures |t| == |s| + 1 && t[0] == reset && forall i :: 0 <= i <= |s| ==> Fits(t[i], divisor)
  {
    if s == [] then [reset]
    else
      var t := Trace(reset, divisor, s[..|s| - 1]);
      t + [AtEdge(t[|s| - 1], divisor, s[|s| - 1])]
  }

  ghost predicate StepsAt(t: seq<Registers>, divisor: nat, s: seq<bool>, i: nat) {
    i < |s| && |t| == |s| + 1 && Fits(t[i], divisor) && t[i + 1] == AtEdge(t[i], divisor, s[i])
  }

  ghost predicate IsRun(t: seq<Registers>, divisor: nat, s: seq<bool>) {
    |t| == |s| + 1 && divisor > 0 && forall i: nat :: i < |s| ==> StepsAt(t, divisor, s, i)
  }

  lemma {:induction false} TraceIsRun(reset: Registers, divisor: nat, s: seq<bool>)
    requires Fits(reset, divisor)
    ensures IsRun(Trace(reset, divisor, s), divisor, s)
  {
    if s != [] {
      var s', t, t' := s[..|s| - 1], Trace(reset, divisor, s), Trace(reset, divisor, s[..|s| - 1]);
      TraceIsRun(reset, divisor, s');
      forall i: nat | i < |s| ensures StepsAt(t, divisor, s, i) {
        assert i < |s'| ==> StepsAt(t', divisor, s', i);
      }
    }
  }

  /** Everything reported in the cycles of the first `n` samples. */
  function Reports(t: seq<Registers>, divisor: nat, n: nat): seq<Heard>
    requires n < |t|
  {
    if n == 0 then [] else Reports(t, divisor, n - 1) + Output(t[n], divisor)
  }

  function HeardOn(reset: Registers, divisor: nat, s: seq<bool>): seq<Heard>
    requires Fits(reset, divisor)
  {
    Reports(Trace(reset, divisor, s), divisor, |s|)
  }

  lemma {:induction false} ReportsGrow(t: seq<Registers>, divisor: nat, n: nat, m: nat)
    requires n <= m < |t|
    ensures Reports(t, divisor, n) <= Reports(t, divisor, m)
    decreases m
  {
    if n < m {
      ReportsGrow(t, divisor, n, m - 1);
    }
  }

  lemma {:induction false} ReportsOfLonger(t: seq<Registers>, more: seq<Registers>, divisor: nat, n: nat)
    requires n < |t|
    ensures Reports(t + more, divisor, n) == Reports(t, divisor, n)
  {
    if n > 0 {
      ReportsOfLonger(t, more, divisor, n - 1);
    }
  }

  /** What has been heard stays heard. */
  lemma {:induction false} HeardOnPrefix(reset: Registers, divisor: nat, s: seq<bool>, n: nat)
    requires Fits(reset, divisor) && n <= |s|
    ensures HeardOn(reset, divisor, s[..n]) <= HeardOn(reset, divisor, s)
    decreases |s|
  {
    if n == |s| {
      assert s[..n] == s;
    } else {
      var init := s[..|s| - 1];
      HeardOnPrefix(reset, divisor, init, n);
      assert init[..n] == s[..n];
      var t := Trace(reset, divisor, init);
      ReportsOfLonger(t, [AtEdge(t[|init|], divisor, s[|init|])], divisor, |init|);
    }
  }

  /** From here the next sample finds the receiver idle, and the last one was high. */
  predicate Resting(r: Registers, divisor: nat) {
    r.r0 && (r.state == Idle || (r.state == Stop && BitMid(r, divisor)))
  }

  predicate High(s: seq<bool>, from: nat, to: nat) {
    from <= to <= |s| && forall i :: from <= i < to ==> s[i]
  }

  /** A high line keeps the receiver quiet. */
  lemma {:induction false} Quiet(t: seq<Registers>, divisor: nat, s: seq<bool>, j: nat, n: nat)
    requires IsRun(t, divisor, s) && High(s, j, n) && Resting(t[j], divisor)
    ensures Resting(t[n], divisor) && Reports(t, divisor, n) == Reports(t, divisor, j)
    decreases n
  {
    if j < n {
      Quiet(t, divisor, s, j, n - 1);
      assert StepsAt(t, divisor, s, n - 1);
    }
  }

  /** The start bit takes one round of the divider. */
  lemma {:induction false} StartPasses(t: seq<Registers>, divisor: nat, s: seq<bool>, a: nat, i: nat)
    requires IsRun(t, divisor, s) && a + i <= |s| && i < divisor
    requires t[a].state == Start && t[a].divcounter == divisor - 1
    ensures t[a + i].state == Start && t[a + i].divcounter == divisor - 1 - i
    ensures Reports(t, divisor, a + i) == Reports(t, divisor, a)
    decreases i
  {
    if i > 0 {
      StartPasses(t, divisor, s, a, i - 1);
      assert StepsAt(t, divisor, s, a + i - 1);
    }
  }

  /** The clock edges to go until the divider is half way. */
  function ToMid(divcounter: nat, divisor: nat): nat
    requires divcounter < divisor
  {
    if divcounter >= divisor / 2 then divcounter - divisor / 2 else divcounter + divisor - divisor / 2
  }

  lemma ToMidCounts(divcounter: nat, divisor: nat)
    requires divcounter < divisor
    ensures ToMid(CountDown(divcounter, divisor), divisor)
      == if ToMid(divcounter, divisor) == 0 then divisor - 1 else ToMid(divcounter, divisor) - 1
    ensures ToMid(divcounter, divisor) == 0 <==> divcounter == divisor / 2
  {}

  /** In the middle of a bit after `left` more clock edges. */
  predicate MidIn(r: Registers, divisor: nat, left: nat) {
    Fits(r, divisor) && ToMid(r.divcounter, divisor) == left
  }

  /** Between two samples nothing but the divider moves. */
  lemma {:induction false} WaitsForMid(t: seq<Registers>, divisor: nat, s: seq<bool>, a: nat, i: nat)
    requires IsRun(t, divisor, s) && a + i <= |s|
    requires t[a].state in {Bits, Stop} && MidIn(t[a], divisor, i)
    ensures MidIn(t[a + i], divisor, 0)
    ensures t[a + i].state == t[a].state && t[a + i].bitpos == t[a].bitpos && t[a + i].data == t[a].data
    ensures i > 0 ==> Reports(t, divisor, a + i) == Reports(t, divisor, a) + Output(t[a + i], divisor)
    decreases i
  {
    if i > 0 {
      assert StepsAt(t, divisor, s, a);
      ToMidCounts(t[a].divcounter, divisor);
      WaitsForMid(t, divisor, s, a + 1, i - 1);
    }
  }

  /** From the middle of one bit to the middle of the next. */
  lemma NextMid(t: seq<Registers>, divisor: nat, s: seq<bool>, a: nat)
    requires IsRun(t, divisor, s) && a + divisor <= |s|
    requires t[a].state == Bits && MidIn(t[a], divisor, 0)
    ensures MidIn(t[a + divisor], divisor, 0) && t[a + divisor].data == t[a].data[t[a].bitpos := t[a].r0]
    ensures if t[a].bitpos == 7 then t[a + divisor].state == Stop
            else t[a + divisor].state == Bits && t[a + divisor].bitpos == t[a].bitpos + 1
    ensures Reports(t, divisor, a + divisor) == Reports(t, divisor, a) + Output(t[a + divisor], divisor)
  {
    assert StepsAt(t, divisor, s, a);
    ToMidCounts(t[a].divcounter, divisor);
    WaitsForMid(t, divisor, s, a + 1, divisor - 1);
  }

  const BYTE: nat := 8

  /** The length of `k` rounds of the divider. */
  function Span(k: nat, divisor: nat): nat
    decreases k, divisor
  {
    if k == 0 then 0 else Span(k - 1, divisor) + divisor
  }

  /** The `k` samples of the line at `first` and every `divisor` samples after it. */
  function Sampled(s: seq<bool>, first: nat, divisor: nat, k: nat): (bits: seq<bool>)
    requires first + Span(k, divisor) < |s|
    ensures |bits| == k
    decreases k, divisor
  {
    if k == 0 then []
    else
      Sampled(s, first, divisor, k - 1) + [s[first + Span(k - 1, divisor)]]
  }

  /** Half way through the sampling: the bits before number `k` are stored. */
  predicate Sampling(r: Registers, divisor: nat, bits: seq<bool>) {
    && MidIn(r, divisor, 0) && |bits| <= 8 && r.data[..|bits|] == bits
    && (if |bits| < 8 then r.state == Bits && r.bitpos == |bits| else r.state == Stop)
  }

  lemma NextBitSampled(t: seq<Registers>, divisor: nat, s: seq<bool>, a: nat, bits: seq<bool>)
    requires IsRun(t, divisor, s) && a + divisor <= |s| && Sampling(t[a], divisor, bits) && |bits| < 8
    ensures Sampling(t[a + divisor], divisor, bits + [t[a].r0])
    ensures Reports(t, divisor, a + divisor) == Reports(t, divisor, a) + Output(t[a + divisor], divisor)
  {
    NextMid(t, divisor, s, a);
    assert t[a + divisor].data[..|bits| + 1] == t[a].data[..|bits|] + [t[a].r0];
  }

  lemma NewestSample(t: seq<Registers>, divisor: nat, s: seq<bool>, a: nat)
    requires IsRun(t, divisor, s) && 0 < a <= |s|
    ensures t[a].r0 == s[a - 1]
  {
    assert StepsAt(t, divisor, s, a - 1);
  }

  lemma {:induction false} BitsAreSampled(t: seq<Registers>, divisor: nat, s: seq<bool>, first: nat, k: nat, a: nat)
    requires IsRun(t, divisor, s) && k <= 8 && a == first + 1 + Span(k, divisor) <= |s|
    requires t[first + 1].state == Bits && t[first + 1].bitpos == 0 && MidIn(t[first + 1], divisor, 0)
    ensures Sampling(t[a], divisor, Sampled(s, first, divisor, k))
    ensures Reports(t, divisor, a) == Reports(t, divisor, first + 1) + if k < 8 then [] else Output(t[a], divisor)
    decreases k
  {
    if k == 0 {
      assert a == first + 1;
    } else {
      var a0 := first + 1 + Span(k - 1, divisor);
      BitsAreSampled(t, divisor, s, first, k - 1, a0);
      MoreBitsSampled(t, divisor, s, first, k, a0);
      assert a == a0 + divisor;
    }
  }

  lemma MoreBitsSampled(t: seq<Registers>, divisor: nat, s: seq<bool>, first: nat, k: nat, a: nat)
    requires IsRun(t, divisor, s) && 0 < k <= 8 && a == first + 1 + Span(k - 1, divisor) && a + divisor <= |s|
    requires Sampling(t[a], divisor, Sampled(s, first, divisor, k - 1))
    ensures first + Span(k, divisor) < |s| && Sampling(t[a + divisor], divisor, Sampled(s, first, divisor, k))
    ensures Reports(t, divisor, a + divisor)
      == Reports(t, divisor, a) + if k < 8 then [] else Output(t[a + divisor], divisor)
  {
    NewestSample(t, divisor, s, a);
    NextBitSampled(t, divisor, s, a, Sampled(s, first, divisor, k - 1));
  }

  /** The distance from the sample that first sees the start bit to the sample taken as bit 0. */
  function FirstBit(divisor: nat): nat { 2 * divisor - divisor / 2 }

  lemma EdgeStarts(t: seq<Registers>, divisor: nat, s: seq<bool>, n: nat)
    requires IsRun(t, divisor, s) && n + 2 <= |s| && Resting(t[n], divisor) && !s[n]
    ensures t[n + 2].state == Start && t[n + 2].divcounter == divisor - 1
    ensures Reports(t, divisor, n + 2) == Reports(t, divisor, n)
  {
    assert StepsAt(t, divisor, s, n);
    assert t[n + 1].state == Idle && t[n + 1].r1 && !t[n + 1].r0;
    assert StepsAt(t, divisor, s, n + 1);
  }

  lemma StartEnds(t: seq<Registers>, divisor: nat, s: seq<bool>, a: nat)
    requires IsRun(t, divisor, s) && a + divisor <= |s|
    requires t[a].state == Start && t[a].divcounter == divisor - 1
    ensures var r := t[a + divisor]; r.state == Bits && r.bitpos == 0 && MidIn(r, divisor, divisor - 1 - divisor / 2)
    ensures Reports(t, divisor, a + divisor) == Reports(t, divisor, a)
  {
    StartPasses(t, divisor, s, a, divisor - 1);
    assert StepsAt(t, divisor, s, a + divisor - 1);
  }

  lemma EdgeToFirstMid(t: seq<Registers>, divisor: nat, s: seq<bool>, n: nat, first: nat)
    requires IsRun(t, divisor, s) && first == n + FirstBit(divisor) < |s|
    requires Resting(t[n], divisor) && !s[n]
    ensures t[first + 1].state == Bits && t[first + 1].bitpos == 0 && MidIn(t[first + 1], divisor, 0)
    ensures Reports(t, divisor, first + 1) == Reports(t, divisor, n)
  {
    EdgeStarts(t, divisor, s, n);
    StartEnds(t, divisor, s, n + 2);
    WaitsForMid(t, divisor, s, n + 2 + divisor, divisor - 1 - divisor / 2);
  }

  /** Sample number `k` of a frame is taken this long, or up to a cycle longer, after its start. */
  function SampleDelay(divisor: nat, k: nat): nat { FirstBit(divisor) + Span(k, divisor) }

  /** What is made of the samples after a start bit first seen low at `edge`: the ninth decides. */
  function FrameReport(s: seq<bool>, edge: nat, divisor: nat): Heard
    requires edge + SampleDelay(divisor, BYTE) < |s|
  {
    if s[edge + SampleDelay(divisor, BYTE)]
    then Byte(Sampled(s, edge + FirstBit(divisor), divisor, BYTE)) else FramingError
  }

  /** One frame is sampled at equal distances from its start edge. */
  lemma FrameHeard(t: seq<Registers>, divisor: nat, s: seq<bool>, j: nat, n: nat, stop: nat)
    requires IsRun(t, divisor, s) && j <= n && stop == n + SampleDelay(divisor, BYTE) < |s|
    requires Resting(t[j], divisor) && High(s, j, n) && !s[n]
    ensures Reports(t, divisor, stop + 1) == Reports(t, divisor, j) + [FrameReport(s, n, divisor)]
    ensures s[stop] ==> Resting(t[stop + 1], divisor)
  {
    Quiet(t, divisor, s, j, n);
    AllSampled(t, divisor, s, n, n + FirstBit(divisor), BYTE, stop);
  }

  /** From the falling edge to the sample of the stop bit, `k` bits later. */
  lemma AllSampled(t: seq<Registers>, divisor: nat, s: seq<bool>, n: nat, first: nat, k: nat, stop: nat)
    requires IsRun(t, divisor, s) && first == n + FirstBit(divisor) && k == 8 && stop == first + Span(k, divisor) < |s|
    requires Resting(t[n], divisor) && !s[n]
    ensures Reports(t, divisor, stop + 1)
      == Reports(t, divisor, n) + [if s[stop] then Byte(Sampled(s, first, divisor, k)) else FramingError]
    ensures s[stop] ==> Resting(t[stop + 1], divisor)
  {
    EdgeToFirstMid(t, divisor, s, n, first);
    BitsAreSampled(t, divisor, s, first, k, stop + 1);
    StopReports(t, divisor, s, stop, Sampled(s, first, divisor, k));
  }

  lemma StopReports(t: seq<Registers>, divisor: nat, s: seq<bool>, stop: nat, bits: seq<bool>)
    requires IsRun(t, divisor, s) && stop < |s| && |bits| == 8 && Sampling(t[stop + 1], divisor, bits)
    ensures Output(t[stop + 1], divisor) == [if s[stop] then Byte(bits) else FramingError]
    ensures s[stop] ==> Resting(t[stop + 1], divisor)
  {
    NewestSample(t, divisor, s, stop + 1);
    assert t[stop + 1].data == t[stop + 1].data[..8];
  }

  // ---------- Frame after frame ----------

  /** Where the receiver is after `i` frames whose start bits were first seen at `edges`. */
  function Mark(edges: seq<nat>, divisor: nat, i: nat): nat
    requires i <= |edges|
  {
    if i == 0 then 0 else edges[i - 1] + SampleDelay(divisor, BYTE) + 1
  }

  /** The samples `s` hold frame `i`, to be reported as `bits`, and a high line before it. */
  ghost predicate FrameInSamples(s: seq<bool>, edges: seq<nat>, divisor: nat, i: nat, bits: seq<bool>) {
    && i < |edges| && edges[i] + SampleDelay(divisor, BYTE) < |s|
    && !s[edges[i]] && High(s, Mark(edges, divisor, i), edges[i])
    && FrameReport(s, edges[i], divisor) == Byte(bits)
  }

  ghost predicate HeardSoFar(t: seq<Registers>, edges: seq<nat>, hs: seq<Heard>, divisor: nat, i: nat) {
    && i <= |edges| && |hs| == |edges| && Mark(edges, divisor, i) < |t|
    && Resting(t[Mark(edges, divisor, i)], divisor)
    && Reports(t, divisor, Mark(edges, divisor, i)) == hs[..i]
  }

  lemma FrameIsHeard(t: seq<Registers>, s: seq<bool>, edges: seq<nat>, hs: seq<Heard>, divisor: nat, i: nat)
    requires IsRun(t, divisor, s) && HeardSoFar(t, edges, hs, divisor, i)
    requires i < |edges| && hs[i].Byte? && FrameInSamples(s, edges, divisor, i, hs[i].bits)
    ensures HeardSoFar(t, edges, hs, divisor, i + 1)
  {
    FrameHeard(t, divisor, s, Mark(edges, divisor, i), edges[i], edges[i] + SampleDelay(divisor, BYTE));
    assert hs[..i + 1] == hs[..i] + [hs[i]];
  }

  lemma {:induction false} FramesAreHeard(t: seq<Registers>, s: seq<bool>, edges: seq<nat>, hs: seq<Heard>,
                                          divisor: nat, i: nat)
    requires IsRun(t, divisor, s) && Resting(t[0], divisor) && i <= |edges| == |hs|
    requires forall j: nat :: j < |edges| ==> hs[j].Byte? && FrameInSamples(s, edges, divisor, j, hs[j].bits)
    ensures HeardSoFar(t, edges, hs, divisor, i)
    decreases i
  {
    if i > 0 {
      FramesAreHeard(t, s, edges, hs, divisor, i - 1);
      FrameIsHeard(t, s, edges, hs, divisor, i - 1);
    }
  }
}
