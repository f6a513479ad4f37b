/**
 * The JTAG output: it reads the two lengths at the head of a scan, sends words of the FIFO as
 * long as some are wanted and there, then zeros, then the two counts.
 */
module JtagOutput {
  import opened Bits

  type Word = seq<bool>

  datatype State =
    Idle | WriteLength | ReadLength | NoData | SendData | SendCountWrite | SendCountRead | ConfigDisc

  datatype Registers = Registers(state: State, wordCnt: nat, packetCount: nat, free: Word, bitCnt: nat,
                                 cnt: Word, writeLength: nat, readLength: nat, outReg: Word)

  /** What the state machine sees in a cycle: the scan, the FIFO to the host, and the input side. */
  datatype Pins = Pins(tdi: bool, shift: bool, update: bool, valid: bool, head: Word, written: Word, error: bool)

  predicate Fits(r: Registers, width: nat) {
    width >= 2 && |r.free| == |r.cnt| == |r.outReg| == width && r.bitCnt < width
  }

  predicate PinsFit(p: Pins, width: nat) { |p.head| == |p.written| == width }

  function Zero(width: nat): (w: Word)
    ensures |w| == width
  {
    seq(width, _ => false)
  }

  function AfterUpdate(width: nat): Registers {
    Registers(Idle, 0, 0, Zero(width), 0, Zero(width), 0, 0, Zero(width))
  }

  predicate AllOnes(w: Word) { forall i :: 0 <= i < |w| ==> w[i] }

  function Later(bitCnt: nat, width: nat): nat { if bitCnt == width - 1 then 0 else bitCnt + 1 }

  function IdleNext(r: Registers, width: nat, p: Pins): Registers
    requires Fits(r, width)
  {
    var cleared := r.(wordCnt := 0, packetCount := 0, cnt := Zero(width), free := Zero(width),
                      writeLength := 0, readLength := 0);
    if p.shift then
      cleared.(state := WriteLength, bitCnt := Later(r.bitCnt, width), cnt := Zero(width)[r.bitCnt := p.tdi])
    else cleared
  }

  function WriteLengthNext(r: Registers, width: nat, p: Pins): Registers
    requires Fits(r, width)
  {
    var cnt := r.cnt[r.bitCnt := p.tdi];
    var r' := r.(cnt := cnt, bitCnt := Later(r.bitCnt, width));
    if r.bitCnt < width - 1 then r'
    else if AllOnes(cnt) then r'.(state := ConfigDisc)
    else r'.(state := ReadLength, writeLength := ToNat(cnt))
  }

  function ReadLengthNext(r: Registers, width: nat, p: Pins): Registers
    requires Fits(r, width) && PinsFit(p, width)
  {
    var cnt := r.cnt[r.bitCnt := p.tdi];
    var r' := r.(cnt := cnt, bitCnt := Later(r.bitCnt, width));
    if r.bitCnt < width - 1 then r'
    else
      var wanted := ToNat(cnt);
      var larger := if r.writeLength > wanted then ToBits(r.writeLength, width) else cnt;
      r'.(outReg := p.head, readLength := wanted,
          cnt := larger,
          state := if wanted > 0 then (if p.valid then SendData else NoData)
                   else if r.writeLength > 0 then NoData else SendCountWrite)
  }

  function SendDataNext(r: Registers, width: nat, p: Pins): Registers
    requires Fits(r, width) && PinsFit(p, width)
  {
    if !p.shift then r
    else
      var r' := r.(bitCnt := Later(r.bitCnt, width));
      if r.bitCnt < width - 1 then r'
      else if r.wordCnt + 1 == ToNat(r.cnt) then r'.(state := SendCountWrite, packetCount := r.wordCnt + 1)
      else if r.wordCnt + 1 == r.readLength then r'.(state := NoData, packetCount := r.wordCnt + 1)
      else if p.valid then r'.(wordCnt := r.wordCnt + 1, outReg := p.head)
      else r'.(wordCnt := r.wordCnt + 1, state := NoData, packetCount := r.wordCnt + 1)
  }

  function NoDataNext(r: Registers, width: nat, p: Pins): Registers
    requires Fits(r, width)
  {
    if !p.shift then r
    else
      var r' := r.(bitCnt := Later(r.bitCnt, width));
      if r.bitCnt < width - 1 then r'
      else if r.wordCnt + 1 == ToNat(r.cnt) then r'.(state := SendCountWrite)
      else r'.(wordCnt := r.wordCnt + 1)
  }

  /** One clock edge. */
  function AtEdge(r: Registers, width: nat, p: Pins): (r': Registers)
    requires Fits(r, width) && PinsFit(p, width)
    ensures Fits(r', width)
  {
    if p.update then AfterUpdate(width)
    else
      match r.state
      case Idle => IdleNext(r, width, p)
      case WriteLength => WriteLengthNext(r, width, p)
      case ReadLength => ReadLengthNext(r, width, p)
      case SendData => SendDataNext(r, width, p)
      case NoData => NoDataNext(r, width, p)
      case SendCountWrite =>
        r.(bitCnt := Later(r.bitCnt, width), free := if !p.error && r.bitCnt == 0 then p.written else r.free,
           state := if r.bitCnt == width - 1 then SendCountRead else SendCountWrite)
      case SendCountRead =>
        r.(bitCnt := Later(r.bitCnt, width), cnt := r.cnt,
           state := if r.bitCnt == width - 1 then Idle else SendCountRead)
      case ConfigDisc => r.(bitCnt := 0)
  }

  /** The bit sent in the cycle. */
  function Tdo(r: Registers, width: nat, p: Pins): bool
    requires Fits(r, width) && PinsFit(p, width)
  {
    match r.state
    case Idle => p.head[0]
    case WriteLength => p.head[0]
    case ReadLength => p.head[0]
    case SendData => r.outReg[r.bitCnt]
    case NoData => false
    case SendCountWrite => if p.error then true else if r.bitCnt == 0 then p.written[0] else r.free[r.bitCnt]
    case SendCountRead => ToBits(r.packetCount, width)[r.bitCnt]
    case ConfigDisc => false
  }

  /** A word is taken from the FIFO in the cycle. */
  predicate Pop(r: Registers, width: nat, p: Pins)
    requires Fits(r, width) && PinsFit(p, width)
  {
    match r.state
    case ReadLength => r.bitCnt == width - 1 && p.valid && ToNat(r.cnt[r.bitCnt := p.tdi]) > 0
    case SendData =>
      && p.shift && p.valid && r.bitCnt == width - 1
      && r.wordCnt + 1 != ToNat(r.cnt) && r.wordCnt + 1 != r.readLength
    case _ => false
  }

  /** The output with its registers. */
  class Output {
    const width: nat
    var state: State
    var wordCnt: nat
    var packetCount: nat
    var free: Word
    var bitCnt: nat
    var cnt: Word
    var writeLength: nat
    var readLength: nat
    var outReg: Word

    ghost function Value(): Registers
      reads this
    {
      Registers(state, wordCnt, packetCount, free, bitCnt, cnt, writeLength, readLength, outReg)
    }

    constructor (width: nat)
      requires width >= 2
      ensures this.width == width && Value() == AfterUpdate(width)
    {
      this.width := width;
      state, wordCnt, packetCount, bitCnt, writeLength, readLength := Idle, 0, 0, 0, 0, 0;
      free, cnt, outReg := Zero(width), Zero(width), Zero(width);
    }

    method Restart()
      modifies this
      ensures Value() == AfterUpdate(width)
    {
      state, wordCnt, packetCount, bitCnt, writeLength, readLength := Idle, 0, 0, 0, 0, 0;
      free, cnt, outReg := Zero(width), Zero(width), Zero(width);
    }

    /** The bit counter goes on; the result says whether the word is complete. */
    method CountBit() returns (complete: bool)
      requires Fits(Value(), width)
      modifies `bitCnt
      ensures bitCnt == Later(old(bitCnt), width) && (complete <==> old(bitCnt) == width - 1)
    {
      complete := bitCnt == width - 1;
      bitCnt := if complete then 0 else bitCnt + 1;
    }

    method ClockLengths(p: Pins) returns (fifoReady: bool)
      requires Fits(Value(), width) && PinsFit(p, width) && state in {Idle, WriteLength, ReadLength}
      modifies this
      ensures Value() == AtEdge(old(Value()), width, p.(update := false))
      ensures fifoReady && p.valid <==> Pop(old(Value()), width, p)
    {
      fifoReady := false;
      if state == Idle {
        wordCnt, packetCount, writeLength, readLength := 0, 0, 0, 0;
        free, cnt := Zero(width), Zero(width);
        if p.shift {
          state := WriteLength;
          cnt := cnt[bitCnt := p.tdi];
          var _ := CountBit();
        }
      } else if state == WriteLength {
        cnt := cnt[bitCnt := p.tdi];
        var complete := CountBit();
        if complete {
          if AllOnes(cnt) {
            state := ConfigDisc;
          } else {
            state, writeLength := ReadLength, ToNat(cnt);
          }
        }
      } else {
        cnt := cnt[bitCnt := p.tdi];
        var complete := CountBit();
        if complete {
          outReg, readLength := p.head, ToNat(cnt);
          if readLength > 0 {
            state, fifoReady := if p.valid then SendData else NoData, p.valid;
          } else {
            state := if writeLength > 0 then NoData else SendCountWrite;
          }
          if writeLength > readLength {
            cnt := ToBits(writeLength, width);
          }
        }
      }
    }

    method ClockWords(p: Pins) returns (fifoReady: bool)
      requires Fits(Value(), width) && PinsFit(p, width) && state in {SendData, NoData} && p.shift
      modifies this
      ensures Value() == AtEdge(old(Value()), width, p.(update := false))
      ensures fifoReady && p.valid <==> Pop(old(Value()), width, p)
    {
      fifoReady := false;
      var complete := CountBit();
      if complete && state == SendData {
        if wordCnt + 1 == ToNat(cnt) {
          state, packetCount := SendCountWrite, wordCnt + 1;
        } else if wordCnt + 1 == readLength {
          state, packetCount := NoData, wordCnt + 1;
        } else {
          wordCnt := wordCnt + 1;
          if p.valid {
            outReg, fifoReady := p.head, true;
          } else {
            state, packetCount := NoData, wordCnt;
          }
        }
      } else if complete {
        if wordCnt + 1 == ToNat(cnt) {
          state := SendCountWrite;
        } else {
          wordCnt := wordCnt + 1;
        }
      }
    }

    method Clock(p: Pins) returns (tdo: bool, fifoReady: bool)
      requires Fits(Value(), width) && PinsFit(p, width)
      modifies this
      ensures Value() == AtEdge(old(Value()), width, p)
      ensures tdo == Tdo(old(Value()), width, p) && (fifoReady && p.valid <==> Pop(old(Value()), width, p))
    {
      fifoReady := false;
      match state {
        case Idle =>
          tdo := p.head[0];
          fifoReady := ClockLengths(p);
        case WriteLength =>
          tdo := p.head[0];
          fifoReady := ClockLengths(p);
        case ReadLength =>
          tdo := p.head[0];
          fifoReady := ClockLengths(p);
        case SendData =>
          tdo := outReg[bitCnt];
          if p.shift {
            fifoReady := ClockWords(p);
          }
        case NoData =>
          tdo := false;
          if p.shift {
            fifoReady := ClockWords(p);
          }
        case SendCountWrite =>
          tdo := if p.error then true else if bitCnt == 0 then p.written[0] else free[bitCnt];
          if !p.error && bitCnt == 0 {
            free := p.written;
          }
          var complete := CountBit();
          state := if complete then SendCountRead else SendCountWrite;
        case SendCountRead =>
          tdo := ToBits(packetCount, width)[bitCnt];
          var complete := CountBit();
          state := if complete then Idle else SendCountRead;
        case ConfigDisc =>
          tdo := false;
          bitCnt := 0;
      }
      if p.update {
        Restart();
      }
    }
  }

  // ---------- Whole scans ----------

  /** In the middle of an uninterrupted shift. */
  predicate Scanning(p: Pins, width: nat) { PinsFit(p, width) && p.shift && !p.update && !p.error }

  ghost predicate StepsAt(t: seq<Registers>, width: nat, ps: seq<Pins>, i: nat) {
    && i < |ps| && |t| == |ps| + 1 && Scanning(ps[i], width)
    && Fits(t[i], width) && t[i + 1] == AtEdge(t[i], width, ps[i])
  }

  ghost predicate IsScan(t: seq<Registers>, width: nat, ps: seq<Pins>) {
    && |t| == |ps| + 1 && width >= 2 && t[0] == AfterUpdate(width)
    && forall i: nat :: i < |ps| ==> StepsAt(t, width, ps, i)
  }

  predicate AllFit(ps: seq<Pins>, width: nat) { forall i :: 0 <= i < |ps| ==> PinsFit(ps[i], width) }

  function Edges(r: Registers, width: nat, ps: seq<Pins>): (r': Registers)
    requires Fits(r, width) && AllFit(ps, width)
    ensures Fits(r', width)
  {
    if ps == [] then r else AtEdge(Edges(r, width, ps[..|ps| - 1]), width, ps[|ps| - 1])
  }

  predicate Waiting(ps: seq<Pins>) { forall i :: 0 <= i < |ps| ==> !ps[i].update && !ps[i].shift }

  /** Whatever has gone before, after an update, and until the next scan, the output is ready for it. */
  lemma {:induction false} UpdateMakesReady(r: Registers, width: nat, update: Pins, waiting: seq<Pins>)
    requires width >= 2 && Fits(r, width) && PinsFit(update, width) && AllFit(waiting, width)
    requires update.update && Waiting(waiting)
    ensures Edges(AtEdge(r, width, update), width, waiting) == AfterUpdate(width)
    decreases |waiting|
  {
    if waiting != [] {
      UpdateMakesReady(r, width, update, waiting[..|waiting| - 1]);
    }
  }

  /** Words and zeros wait for the shift; what is read and the counts do not. */
  lemma WaitsForShift(r: Registers, width: nat, p: Pins)
    requires Fits(r, width) && PinsFit(p, width) && !p.shift && !p.update
    ensures r.state == SendData || r.state == NoData ==> AtEdge(r, width, p) == r && !Pop(r, width, p)
    ensures width >= 2 && r.state in {WriteLength, ReadLength, SendCountWrite, SendCountRead}
      ==> AtEdge(r, width, p).bitCnt == Later(r.bitCnt, width) != r.bitCnt
  {}

  function Trace(width: nat, ps: seq<Pins>): (t: seq<Registers>)
    requires width >= 2 && forall i :: 0 <= i < |ps| ==> PinsFit(ps[i], width)
    ensures |t| == |ps| + 1 && t[0] == AfterUpdate(width) && Fits(t[|ps|], width)
  {
    if ps == [] then [AfterUpdate(width)]
    else
      var t, n := Trace(width, ps[..|ps| - 1]), |ps| - 1;
      t + [AtEdge(t[n], width, ps[n])]
  }

  lemma {:induction false} TraceIsScan(width: nat, ps: seq<Pins>)
    requires width >= 2 && forall i :: 0 <= i < |ps| ==> PinsFit(ps[i], width) && Scanning(ps[i], width)
    ensures IsScan(Trace(width, ps), width, ps)
  {
    if ps != [] {
      var n, ps', t := |ps| - 1, ps[..|ps| - 1], Trace(width, ps);
      TraceIsScan(width, ps');
      forall i: nat | i < |ps| ensures StepsAt(t, width, ps, i) {
        assert i < n ==> StepsAt(Trace(width, ps'), width, ps', i);
      }
    }
  }

  /** The word shifted in from cycle `a` on, and the one shifted out. */
  function WordIn(ps: seq<Pins>, a: nat, width: nat): (w: Word)
    requires a + width <= |ps|
    ensures |w| == width
  {
    seq(width, j requires 0 <= j < width => ps[a + j].tdi)
  }

  ghost function WordOut(t: seq<Registers>, ps: seq<Pins>, a: nat, width: nat): (w: Word)
    requires IsScan(t, width, ps) && a + width <= |ps|
    ensures |w| == width
  {
    seq(width, j requires 0 <= j < width => (assert StepsAt(t, width, ps, a + j); Tdo(t[a + j], width, ps[a + j])))
  }

  ghost predicate PopsAt(t: seq<Registers>, width: nat, ps: seq<Pins>, i: nat)
    requires IsScan(t, width, ps) && i < |ps|
  {
    assert StepsAt(t, width, ps, i);
    Pop(t[i], width, ps[i])
  }

  // ---------- The head of a scan ----------

  lemma {:induction false} WriteBits(t: seq<Registers>, width: nat, ps: seq<Pins>, j: nat)
    requires IsScan(t, width, ps) && 1 <= j < width <= |ps|
    ensures Fits(t[j], width) && t[j].state == WriteLength && t[j].bitCnt == j
    ensures t[j].wordCnt == t[j].packetCount == 0 && t[j].cnt[..j] == WordIn(ps, 0, width)[..j]
    decreases j
  {
    assert StepsAt(t, width, ps, j - 1);
    if j > 1 {
      WriteBits(t, width, ps, j - 1);
    }
    assert t[j].cnt[..j] == t[j - 1].cnt[..j - 1] + [ps[j - 1].tdi];
  }

  lemma WriteHeader(t: seq<Registers>, width: nat, ps: seq<Pins>)
    requires IsScan(t, width, ps) && width <= |ps|
    ensures var w := WordIn(ps, 0, width);
      if AllOnes(w) then t[width].state == ConfigDisc
      else
        && t[width].state == ReadLength && t[width].bitCnt == 0 && t[width].writeLength == ToNat(w)
        && t[width].wordCnt == t[width].packetCount == 0
  {
    var n := width - 1;
    WriteBits(t, width, ps, n);
    assert StepsAt(t, width, ps, n);
    assert t[n].cnt[n := ps[n].tdi] == WordIn(ps, 0, width);
  }

  lemma {:induction false} ReadBits(t: seq<Registers>, width: nat, ps: seq<Pins>, a: nat, j: nat)
    requires IsScan(t, width, ps) && j < width && a + width <= |ps|
    requires t[a].state == ReadLength && t[a].bitCnt == 0
    ensures var r := t[a + j];
      && Fits(r, width) && r.state == ReadLength && r.bitCnt == j && r.writeLength == t[a].writeLength
      && r.wordCnt == t[a].wordCnt && r.packetCount == t[a].packetCount && r.cnt[..j] == WordIn(ps, a, width)[..j]
    decreases j
  {
    assert StepsAt(t, width, ps, a + j);
    if j > 0 {
      ReadBits(t, width, ps, a, j - 1);
      assert StepsAt(t, width, ps, a + j - 1);
      assert t[a + j].cnt[..j] == t[a + j - 1].cnt[..j - 1] + [ps[a + j - 1].tdi];
    }
  }

  // ---------- Word by word ----------

  /** What the output does with the next word; `k` is the word counter. */
  datatype Phase = Data(k: nat, word: Word) | Zeros(k: nat) | CountWrite | CountRead | Ended

  /** The FIFO in the last cycle of a word. */
  datatype Sample = Sample(valid: bool, head: Word)

  function First(wr: nat, rd: nat, s: Sample): Phase {
    if rd > 0 && s.valid then Data(0, s.head) else if rd > 0 || wr > 0 then Zeros(0) else CountWrite
  }

  function PhaseNext(p: Phase, total: nat, rd: nat, s: Sample): Phase {
    match p
    case Data(k, _) =>
      if k + 1 == total then CountWrite
      else if k + 1 == rd then Zeros(k)
      else if s.valid then Data(k + 1, s.head)
      else Zeros(k + 1)
    case Zeros(k) => if k + 1 == total then CountWrite else Zeros(k + 1)
    case CountWrite => CountRead
    case CountRead => Ended
    case Ended => Ended
  }

  /** The packet counter is set when the last word with data has gone out. */
  function PacketNext(p: Phase, total: nat, rd: nat, s: Sample, packet: nat): nat {
    if p.Data? && !PhaseNext(p, total, rd, s).Data? then p.k + 1 else packet
  }

  function PhaseWord(p: Phase, width: nat, packet: nat, written: Word): Word {
    match p
    case Data(_, word) => word
    case Zeros(_) => Zero(width)
    case CountWrite => written
    case CountRead => ToBits(packet, width)
    case Ended => Zero(width)
  }

  predicate Shows(r: Registers, width: nat, p: Phase, total: nat, rd: nat, packet: nat) {
    && Fits(r, width) && r.bitCnt == 0 && r.packetCount == packet
    && ToNat(r.cnt) == total && r.readLength == rd
    && (match p
        case Data(k, word) => r.state == SendData && r.wordCnt == k && r.outReg == word
        case Zeros(k) => r.state == NoData && r.wordCnt == k
        case CountWrite => r.state == SendCountWrite
        case CountRead => r.state == SendCountRead
        case Ended => r.state == Idle)
  }

  function SampleAt(ps: seq<Pins>, a: nat, width: nat): Sample
    requires 0 < a + width <= |ps|
  {
    Sample(ps[a + width - 1].valid, ps[a + width - 1].head)
  }

  function Max(a: nat, b: nat): nat { if a > b then a else b }

  lemma LargerLength(wr: nat, cnt: Word)
    requires wr < Pow2(|cnt|)
    ensures ToNat(if wr > ToNat(cnt) then ToBits(wr, |cnt|) else cnt) == Max(wr, ToNat(cnt))
  {
    ToNatInvertsToBits(wr, |cnt|);
  }

  lemma ReadHeader(t: seq<Registers>, width: nat, ps: seq<Pins>, a: nat)
    requires IsScan(t, width, ps) && a + width <= |ps|
    requires t[a].state == ReadLength && t[a].bitCnt == 0 && t[a].writeLength < Pow2(width)
    requires t[a].wordCnt == t[a].packetCount == 0
    ensures var wr, rd := t[a].writeLength, ToNat(WordIn(ps, a, width));
      && Shows(t[a + width], width, First(wr, rd, SampleAt(ps, a, width)), Max(wr, rd), rd, 0)
      && (PopsAt(t, width, ps, a + width - 1) <==> First(wr, rd, SampleAt(ps, a, width)).Data?)
  {
    var n := width - 1;
    ReadBits(t, width, ps, a, n);
    assert StepsAt(t, width, ps, a + n);
    assert t[a + n].cnt[n := ps[a + n].tdi] == WordIn(ps, a, width);
    ReadLengthEnds(t[a + n], width, ps[a + n], WordIn(ps, a, width));
  }

  lemma ReadLengthEnds(r: Registers, width: nat, p: Pins, w: Word)
    requires Fits(r, width) && Scanning(p, width) && r.state == ReadLength && r.bitCnt == width - 1
    requires r.cnt[width - 1 := p.tdi] == w && r.writeLength < Pow2(width) && r.wordCnt == r.packetCount == 0
    ensures var wr, rd, s := r.writeLength, ToNat(w), Sample(p.valid, p.head);
      && Shows(AtEdge(r, width, p), width, First(wr, rd, s), Max(wr, rd), rd, 0)
      && (Pop(r, width, p) <==> First(wr, rd, s).Data?)
  {
    LargerLength(r.writeLength, w);
  }

  /** Inside a word only the bit counter moves, and the count to send is taken over in the first cycle. */
  predicate InWord(r: Registers, r0: Registers, j: nat, written: Word) {
    if r0.state == SendCountWrite && j > 0 then r == r0.(bitCnt := j, free := written) else r == r0.(bitCnt := j)
  }

  lemma {:induction false} WordGoesOn(t: seq<Registers>, width: nat, ps: seq<Pins>, a: nat, j: nat)
    requires IsScan(t, width, ps) && j < width && a + width <= |ps|
    requires t[a].state in {SendData, NoData, SendCountWrite, SendCountRead} && t[a].bitCnt == 0
    ensures Fits(t[a + j], width) && InWord(t[a + j], t[a], j, ps[a].written)
    decreases j
  {
    assert StepsAt(t, width, ps, a + j);
    if j > 0 {
      WordGoesOn(t, width, ps, a, j - 1);
      assert StepsAt(t, width, ps, a + j - 1);
    }
  }

  lemma PhaseWordSent(t: seq<Registers>, width: nat, ps: seq<Pins>, a: nat, p: Phase, total: nat, rd: nat, packet: nat)
    requires IsScan(t, width, ps) && a + width <= |ps|
    requires Shows(t[a], width, p, total, rd, packet) && p != Ended
    ensures WordOut(t, ps, a, width) == PhaseWord(p, width, packet, ps[a].written)
  {
    assert StepsAt(t, width, ps, a);
    var w, expected := WordOut(t, ps, a, width), PhaseWord(p, width, packet, ps[a].written);
    assert |expected| == width;
    forall j: nat | j < width ensures w[j] == expected[j] {
      BitSent(t, width, ps, a, p, total, rd, packet, j);
    }
  }

  lemma BitSent(t: seq<Registers>, width: nat, ps: seq<Pins>, a: nat, p: Phase, total: nat, rd: nat, packet: nat,
                j: nat)
    requires IsScan(t, width, ps) && a + width <= |ps| && j < width
    requires Shows(t[a], width, p, total, rd, packet) && p != Ended
    ensures |PhaseWord(p, width, packet, ps[a].written)| == width
    ensures WordOut(t, ps, a, width)[j] == PhaseWord(p, width, packet, ps[a].written)[j]
  {
    assert StepsAt(t, width, ps, a) && StepsAt(t, width, ps, a + j);
    WordGoesOn(t, width, ps, a, j);
    var r := t[a + j];
    assert r.bitCnt == j && r.state == t[a].state && r.outReg == t[a].outReg && r.packetCount == packet;
    assert WordOut(t, ps, a, width)[j] == Tdo(r, width, ps[a + j]);
  }

  lemma PhaseAdvances(t: seq<Registers>, width: nat, ps: seq<Pins>, a: nat, p: Phase, total: nat, rd: nat, packet: nat)
    requires IsScan(t, width, ps) && a + width <= |ps|
    requires Shows(t[a], width, p, total, rd, packet) && p != Ended
    ensures var s := SampleAt(ps, a, width);
      && Shows(t[a + width], width, PhaseNext(p, total, rd, s), total, rd, PacketNext(p, total, rd, s, packet))
      && (PopsAt(t, width, ps, a + width - 1) <==> PhaseNext(p, total, rd, s).Data?)
  {
    WordGoesOn(t, width, ps, a, width - 1);
    assert StepsAt(t, width, ps, a + width - 1);
  }

  /** Words leave the FIFO only in the last cycle of a word. */
  lemma NoPopInside(t: seq<Registers>, width: nat, ps: seq<Pins>, a: nat, j: nat)
    requires IsScan(t, width, ps) && j < width - 1 && a + width <= |ps| && t[a].bitCnt == 0
    requires t[a].state in {ReadLength, SendData, NoData, SendCountWrite, SendCountRead}
    ensures !PopsAt(t, width, ps, a + j)
  {
    assert StepsAt(t, width, ps, a + j);
    if t[a].state == ReadLength {
      ReadBits(t, width, ps, a, j);
    } else {
      WordGoesOn(t, width, ps, a, j);
    }
  }

  // ---------- The response ----------

  /** Where word number `m` from cycle `a` on begins. */
  function Begins(a: nat, width: nat, m: nat): nat
    decreases m, width
  {
    if m == 0 then a else Begins(a + width, width, m - 1)
  }

  lemma {:induction false} BeginsLater(a: nat, width: nat, m: nat)
    ensures Begins(a, width, m + 1) == Begins(a, width, m) + width && Begins(a, width, m) >= a
    decreases m
  {
    if m > 0 {
      BeginsLater(a + width, width, m - 1);
    }
  }

  /** The `count` words sent from cycle `a` on. */
  ghost function WordsOut(t: seq<Registers>, ps: seq<Pins>, a: nat, width: nat, count: nat): seq<Word>
    requires IsScan(t, width, ps) && Begins(a, width, count) <= |ps|
    decreases count, width
  {
    if count == 0 then []
    else
      BeginsLater(a + width, width, 0);
      Reaches(a + width, width, count - 1);
      [WordOut(t, ps, a, width)] + WordsOut(t, ps, a + width, width, count - 1)
  }

  lemma {:induction false} Reaches(a: nat, width: nat, m: nat)
    ensures a <= Begins(a, width, m)
    decreases m
  {
    if m > 0 {
      Reaches(a + width, width, m - 1);
    }
  }

  /** The FIFO at the ends of the words, and the count to send as it stands at their beginnings. */
  datatype WordPins = WordPins(sample: Sample, written: Word)

  function WordPinsFrom(ps: seq<Pins>, a: nat, width: nat, count: nat): (ws: seq<WordPins>)
    requires width > 0 && Begins(a, width, count) <= |ps|
    ensures |ws| == count
    decreases count, width
  {
    if count == 0 then []
    else
      Reaches(a + width, width, count - 1);
      [WordPins(SampleAt(ps, a, width), ps[a].written)] + WordPinsFrom(ps, a + width, width, count - 1)
  }

  /** The same on words: what is sent, as long as the output is not back to idle. */
  function Response(p: Phase, width: nat, total: nat, rd: nat, packet: nat, ws: seq<WordPins>): seq<Word>
    decreases |ws|
  {
    if ws == [] || p == Ended then []
    else
      [PhaseWord(p, width, packet, ws[0].written)]
      + Response(PhaseNext(p, total, rd, ws[0].sample), width, total, rd,
                 PacketNext(p, total, rd, ws[0].sample, packet), ws[1..])
  }

  /** The bits that leave the chip are the bits of the response, word by word. */
  lemma {:induction false} BitsAreResponse(t: seq<Registers>, width: nat, ps: seq<Pins>, a: nat, p: Phase, total: nat,
                                           rd: nat, packet: nat, count: nat)
    requires IsScan(t, width, ps) && Begins(a, width, count) <= |ps|
    requires a < |t| && Shows(t[a], width, p, total, rd, packet)
    ensures Response(p, width, total, rd, packet, WordPinsFrom(ps, a, width, count)) <= WordsOut(t, ps, a, width, count)
    decreases count
  {
    if count > 0 && p != Ended {
      Reaches(a + width, width, count - 1);
      var ws, s := WordPinsFrom(ps, a, width, count), SampleAt(ps, a, width);
      assert ws[1..] == WordPinsFrom(ps, a + width, width, count - 1);
      PhaseWordSent(t, width, ps, a, p, total, rd, packet);
      PhaseAdvances(t, width, ps, a, p, total, rd, packet);
      BitsAreResponse(t, width, ps, a + width, PhaseNext(p, total, rd, s), total, rd,
                      PacketNext(p, total, rd, s, packet), count - 1);
    }
  }
}
