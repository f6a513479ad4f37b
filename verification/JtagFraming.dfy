/** When the response of a scan has its counts where the host looks for them. */
module JtagFraming {
  import opened Bits
  import opened JtagOutput
  import Sequences

  function Repeat(width: nat, n: nat): (ws: seq<Word>)
    ensures |ws| == n
  {
    seq(n, _ => Zero(width))
  }

  /** The words taken from the FIFO while the words `ws` go by. */
  function Taken(p: Phase, total: nat, rd: nat, ws: seq<WordPins>): seq<Word>
    decreases |ws|
  {
    if ws == [] || p == Ended then []
    else
      var next := PhaseNext(p, total, rd, ws[0].sample);
      (if next.Data? then [next.word] else []) + Taken(next, total, rd, ws[1..])
  }

  /** The data words of a response. */
  function Sent(p: Phase, total: nat, rd: nat, ws: seq<WordPins>): seq<Word> {
    (if p.Data? then [p.word] else []) + Taken(p, total, rd, ws)
  }

  lemma {:induction false} NothingTaken(p: Phase, total: nat, rd: nat, ws: seq<WordPins>)
    requires !p.Data?
    ensures Taken(p, total, rd, ws) == []
    decreases |ws|
  {
    if ws != [] {
      NothingTaken(PhaseNext(p, total, rd, ws[0].sample), total, rd, ws[1..]);
    }
  }

  lemma CountsSent(width: nat, total: nat, rd: nat, packet: nat, ws: seq<WordPins>)
    requires 1 <= |ws| <= 2
    ensures Response(CountWrite, width, total, rd, packet, ws)
      == [ws[0].written] + if |ws| == 2 then [ToBits(packet, width)] else []
  {
    if |ws| == 2 {
      assert ws[1..] == [ws[1]] && ws[1..][1..] == [];
      assert Response(CountRead, width, total, rd, packet, ws[1..]) == [ToBits(packet, width)] + [];
    } else {
      assert ws[1..] == [];
    }
  }

  /** Zeros up to the total, and then the counts, as far as the scan goes. */
  lemma {:induction false} ZerosSent(k: nat, width: nat, total: nat, rd: nat, packet: nat, ws: seq<WordPins>)
    requires k < total && total - k + 1 <= |ws| <= total - k + 2
    ensures Response(Zeros(k), width, total, rd, packet, ws)
      == Repeat(width, total - k) + [ws[total - k].written]
         + if |ws| == total - k + 2 then [ToBits(packet, width)] else []
    decreases total - k
  {
    var s := ws[0].sample;
    assert Repeat(width, total - k) == [Zero(width)] + Repeat(width, total - k - 1);
    if k + 1 == total {
      CountsSent(width, total, rd, packet, ws[1..]);
    } else {
      ZerosSent(k + 1, width, total, rd, packet, ws[1..]);
    }
  }

  /** The response from data word `k` on. */
  function Expected(width: nat, total: nat, rd: nat, k: nat, data: seq<Word>, ws: seq<WordPins>): seq<Word>
    requires k + |data| <= total && |ws| == total - k + 2 && rd <= total
  {
    var sent := k + |data|;
    if sent == rd < total then data + Repeat(width, total - rd + 1) + [ws[total - k + 1].written]
    else data + Repeat(width, total - sent) + [ws[total - k].written, ToBits(sent, width)]
  }

  lemma PrependWord(w: Word, width: nat, total: nat, rd: nat, k: nat, data: seq<Word>, ws: seq<WordPins>)
    requires k + 1 + |data| <= total && |ws| == total - k + 2 && rd <= total
    ensures Expected(width, total, rd, k, [w] + data, ws) == [w] + Expected(width, total, rd, k + 1, data, ws[1..])
  {}

  /** The last data word, and what follows it. */
  lemma LastDataSent(k: nat, w: Word, width: nat, total: nat, rd: nat, ws: seq<WordPins>)
    requires k < rd <= total && |ws| == total - k + 2
    requires !PhaseNext(Data(k, w), total, rd, ws[0].sample).Data?
    ensures Sent(Data(k, w), total, rd, ws) == [w]
    ensures Response(Data(k, w), width, total, rd, 0, ws) == Expected(width, total, rd, k, [w], ws)
  {
    var next, rest := PhaseNext(Data(k, w), total, rd, ws[0].sample), ws[1..];
    NothingTaken(next, total, rd, rest);
    if next == CountWrite {
      CountsAlone(width, total, rd, k + 1, rest);
    } else {
      ZerosSent(next.k, width, total, rd, k + 1, rest);
    }
  }

  lemma {:induction false} DataSent(k: nat, w: Word, width: nat, total: nat, rd: nat, ws: seq<WordPins>)
    requires k < rd <= total && |ws| == total - k + 2
    ensures var data := Sent(Data(k, w), total, rd, ws);
      && 1 <= |data| && k + |data| <= rd
      && Response(Data(k, w), width, total, rd, 0, ws) == Expected(width, total, rd, k, data, ws)
    decreases total - k
  {
    var s, rest := ws[0].sample, ws[1..];
    var next := PhaseNext(Data(k, w), total, rd, s);
    if next.Data? {
      DataSent(k + 1, s.head, width, total, rd, rest);
      PrependWord(w, width, total, rd, k, Sent(next, total, rd, rest), ws);
    } else {
      LastDataSent(k, w, width, total, rd, ws);
    }
  }

  /**
   * The counts come one word late exactly if the host writes more than it reads, reads at all, and
   * gets all that it wanted: then the word counter is not advanced when the data ends.
   */
  predicate Late(wr: nat, rd: nat, sent: nat) { 0 < rd < wr && sent == rd }

  /** What a scan of `Max(wr, rd) + 4` words is answered with, from its third word on. */
  function Answer(width: nat, wr: nat, rd: nat, data: seq<Word>, ws: seq<WordPins>): seq<Word>
    requires |ws| == Max(wr, rd) + 2 && |data| <= rd
  {
    var total := Max(wr, rd);
    if Late(wr, rd, |data|) then data + Repeat(width, total - rd + 1) + [ws[total + 1].written]
    else data + Repeat(width, total - |data|) + [ws[total].written, ToBits(|data|, width)]
  }

  lemma AnswerOfNothing(width: nat, wr: nat, rd: nat, ws: seq<WordPins>)
    requires |ws| == Max(wr, rd) + 2
    ensures var total := Max(wr, rd);
      Answer(width, wr, rd, [], ws) == Repeat(width, total) + [ws[total].written, ToBits(0, width)]
  {
    Sequences.NothingBefore(Repeat(width, Max(wr, rd)));
  }

  lemma AnswerWithoutData(wr: nat, rd: nat, first: Sample, width: nat, ws: seq<WordPins>)
    requires |ws| == Max(wr, rd) + 2 && !First(wr, rd, first).Data?
    ensures Sent(First(wr, rd, first), Max(wr, rd), rd, ws) == []
    ensures Response(First(wr, rd, first), width, Max(wr, rd), rd, 0, ws) == Answer(width, wr, rd, [], ws)
  {
    var total, p := Max(wr, rd), First(wr, rd, first);
    NothingTaken(p, total, rd, ws);
    AnswerOfNothing(width, wr, rd, ws);
    if p == CountWrite {
      CountsAlone(width, total, rd, 0, ws);
    } else {
      ZerosAndCounts(0, width, total, rd, 0, ws);
    }
  }

  lemma CountsAlone(width: nat, total: nat, rd: nat, packet: nat, ws: seq<WordPins>)
    requires |ws| == 2
    ensures Response(CountWrite, width, total, rd, packet, ws)
      == Repeat(width, 0) + [ws[0].written, ToBits(packet, width)]
  {
    CountsSent(width, total, rd, packet, ws);
    assert Repeat(width, 0) == [];
  }

  lemma ZerosAndCounts(k: nat, width: nat, total: nat, rd: nat, packet: nat, ws: seq<WordPins>)
    requires k < total && |ws| == total - k + 2
    ensures Response(Zeros(k), width, total, rd, packet, ws)
      == Repeat(width, total - k) + [ws[total - k].written, ToBits(packet, width)]
  {
    ZerosSent(k, width, total, rd, packet, ws);
  }

  lemma ResponseIs(wr: nat, rd: nat, first: Sample, width: nat, ws: seq<WordPins>)
    requires |ws| == Max(wr, rd) + 2
    ensures var total, p := Max(wr, rd), First(wr, rd, first);
      var data := Sent(p, total, rd, ws);
      |data| <= rd && Response(p, width, total, rd, 0, ws) == Answer(width, wr, rd, data, ws)
  {
    var p := First(wr, rd, first);
    if p.Data? {
      DataSent(0, p.word, width, Max(wr, rd), rd, ws);
    } else {
      AnswerWithoutData(wr, rd, first, width, ws);
    }
  }

  lemma AnswerLength(width: nat, wr: nat, rd: nat, data: seq<Word>, ws: seq<WordPins>)
    requires |ws| == Max(wr, rd) + 2 && |data| <= rd
    ensures |Answer(width, wr, rd, data, ws)| == |ws|
  {}

  predicate AllValid(ws: seq<WordPins>, n: nat) { forall i :: 0 <= i < n && i < |ws| ==> ws[i].sample.valid }

  lemma AllValidInTwo(ws: seq<WordPins>, n: nat)
    requires n > 0 && ws != []
    ensures AllValid(ws, n) <==> ws[0].sample.valid && AllValid(ws[1..], n - 1)
  {
    if ws[0].sample.valid && AllValid(ws[1..], n - 1) {
      forall i | 0 <= i < n && i < |ws| ensures ws[i].sample.valid {
        assert i > 0 ==> ws[1..][i - 1].sample.valid;
      }
    }
    if AllValid(ws, n) {
      assert forall i :: 0 <= i < n - 1 && i < |ws| - 1 ==> ws[1..][i] == ws[i + 1];
    }
  }

  /** All wanted words are sent exactly if the FIFO had one at every time it was asked. */
  lemma {:induction false} AllSentIfValid(k: nat, w: Word, total: nat, rd: nat, ws: seq<WordPins>)
    requires k < rd <= total && |ws| == total - k + 2
    ensures k + |Sent(Data(k, w), total, rd, ws)| == rd <==> AllValid(ws, rd - k - 1)
    decreases rd - k
  {
    var next := PhaseNext(Data(k, w), total, rd, ws[0].sample);
    if rd - k - 1 > 0 {
      AllValidInTwo(ws, rd - k - 1);
    }
    if next.Data? {
      AllSentIfValid(k + 1, ws[0].sample.head, total, rd, ws[1..]);
    } else {
      NothingTaken(next, total, rd, ws[1..]);
    }
  }

  /** In terms of the FIFO alone: it must have run dry before the last wanted word. */
  lemma LateIff(wr: nat, rd: nat, first: Sample, ws: seq<WordPins>)
    requires |ws| == Max(wr, rd) + 2
    ensures Late(wr, rd, |Sent(First(wr, rd, first), Max(wr, rd), rd, ws)|)
      <==> 0 < rd < wr && first.valid && AllValid(ws, rd - 1)
  {
    var total, p := Max(wr, rd), First(wr, rd, first);
    if p.Data? {
      AllSentIfValid(0, p.word, total, rd, ws);
    } else {
      NothingTaken(p, total, rd, ws);
    }
  }

  // ---------- Pops ----------

  /** The words taken from the FIFO in the cycles from `a` to `b`. */
  ghost function Pops(t: seq<Registers>, width: nat, ps: seq<Pins>, a: nat, b: nat): seq<Word>
    requires IsScan(t, width, ps) && a <= b <= |ps|
    decreases b - a
  {
    if a == b then [] else (if PopsAt(t, width, ps, a) then [ps[a].head] else []) + Pops(t, width, ps, a + 1, b)
  }

  lemma {:induction false} PopsSplit(t: seq<Registers>, width: nat, ps: seq<Pins>, a: nat, b: nat, c: nat)
    requires IsScan(t, width, ps) && a <= b <= c <= |ps|
    ensures Pops(t, width, ps, a, c) == Pops(t, width, ps, a, b) + Pops(t, width, ps, b, c)
    decreases b - a
  {
    if a < b {
      PopsSplit(t, width, ps, a + 1, b, c);
    }
  }

  lemma {:induction false} PopsInWord(t: seq<Registers>, width: nat, ps: seq<Pins>, a: nat, j: nat)
    requires IsScan(t, width, ps) && j < width && a + width <= |ps| && t[a].bitCnt == 0
    requires t[a].state in {ReadLength, SendData, NoData, SendCountWrite, SendCountRead}
    ensures Pops(t, width, ps, a + j, a + width)
      == if PopsAt(t, width, ps, a + width - 1) then [ps[a + width - 1].head] else []
    decreases width - j
  {
    if j < width - 1 {
      NoPopInside(t, width, ps, a, j);
      PopsInWord(t, width, ps, a, j + 1);
    } else {
      OnePop(t, width, ps, a + j);
    }
  }

  lemma OnePop(t: seq<Registers>, width: nat, ps: seq<Pins>, a: nat)
    requires IsScan(t, width, ps) && a < |ps|
    ensures Pops(t, width, ps, a, a + 1) == if PopsAt(t, width, ps, a) then [ps[a].head] else []
  {
    assert Pops(t, width, ps, a + 1, a + 1) == [];
  }

  function Gained(p: Phase): seq<Word> { if p.Data? then [p.word] else [] }

  lemma PopsOfWord(t: seq<Registers>, width: nat, ps: seq<Pins>, a: nat, p: Phase, total: nat, rd: nat, packet: nat)
    requires IsScan(t, width, ps) && a + width <= |ps|
    requires Shows(t[a], width, p, total, rd, packet) && p != Ended
    ensures Pops(t, width, ps, a, a + width) == Gained(PhaseNext(p, total, rd, SampleAt(ps, a, width)))
  {
    PhaseAdvances(t, width, ps, a, p, total, rd, packet);
    PopsInWord(t, width, ps, a, 0);
  }

  /** Every word taken from the FIFO is sent, and nothing else is. */
  lemma {:induction false} PopsAreTaken(t: seq<Registers>, width: nat, ps: seq<Pins>, a: nat, p: Phase, total: nat,
                                        rd: nat, packet: nat, count: nat)
    requires IsScan(t, width, ps) && a <= Begins(a, width, count) <= |ps|
    requires Shows(t[a], width, p, total, rd, packet)
    requires |Response(p, width, total, rd, packet, WordPinsFrom(ps, a, width, count))| == count
    ensures Pops(t, width, ps, a, Begins(a, width, count)) == Taken(p, total, rd, WordPinsFrom(ps, a, width, count))
    decreases count
  {
    if count > 0 {
      Reaches(a + width, width, count - 1);
      var s, end := SampleAt(ps, a, width), Begins(a, width, count);
      assert WordPinsFrom(ps, a, width, count)[1..] == WordPinsFrom(ps, a + width, width, count - 1);
      PhaseAdvances(t, width, ps, a, p, total, rd, packet);
      PopsOfWord(t, width, ps, a, p, total, rd, packet);
      PopsSplit(t, width, ps, a, a + width, end);
      PopsAreTaken(t, width, ps, a + width, PhaseNext(p, total, rd, s), total, rd,
                   PacketNext(p, total, rd, s, packet), count - 1);
    }
  }

  lemma {:induction false} NoPopInFirstWord(t: seq<Registers>, width: nat, ps: seq<Pins>, a: nat)
    requires IsScan(t, width, ps) && a <= width <= |ps|
    ensures Pops(t, width, ps, a, width) == []
    decreases width - a
  {
    if a < width {
      assert StepsAt(t, width, ps, a);
      if a > 0 {
        WriteBits(t, width, ps, a);
      }
      NoPopInFirstWord(t, width, ps, a + 1);
    }
  }

  // ---------- The whole scan ----------

  /** The FIFO has a word in the last cycle before word number `m` of the scan. */
  predicate ValidBefore(ps: seq<Pins>, width: nat, m: nat) {
    0 < Begins(0, width, m) <= |ps| && ps[Begins(0, width, m) - 1].valid
  }

  lemma {:induction false} SampleOf(ps: seq<Pins>, a: nat, width: nat, count: nat, i: nat)
    requires width > 0 && Begins(a, width, count) <= |ps| && i < count
    ensures 0 < Begins(a, width, i + 1) <= |ps|
    ensures WordPinsFrom(ps, a, width, count)[i].sample.valid == ps[Begins(a, width, i + 1) - 1].valid
    decreases i
  {
    Reaches(a + width, width, count - 1);
    if i > 0 {
      SampleOf(ps, a + width, width, count - 1, i - 1);
    }
  }

  /** The FIFO has a word every time it is asked for one of the `rd` words. */
  predicate AllValidBefore(ps: seq<Pins>, width: nat, rd: nat) {
    forall m: nat :: 2 <= m <= rd + 1 ==> ValidBefore(ps, width, m)
  }

  lemma FirstSample(ps: seq<Pins>, width: nat)
    requires width > 0 && 2 * width <= |ps|
    ensures ValidBefore(ps, width, 2) <==> SampleAt(ps, width, width).valid
  {
    assert Begins(0, width, 2) == Begins(width, width, 1) == 2 * width;
  }

  lemma SamplesToBefore(ps: seq<Pins>, width: nat, count: nat, rd: nat)
    requires width > 0 && Begins(2 * width, width, count) <= |ps| && 2 * width <= |ps| && 0 < rd <= count
    requires SampleAt(ps, width, width).valid && AllValid(WordPinsFrom(ps, 2 * width, width, count), rd - 1)
    ensures AllValidBefore(ps, width, rd)
  {
    forall m: nat | 2 <= m <= rd + 1 ensures ValidBefore(ps, width, m) {
      if m == 2 {
        FirstSample(ps, width);
      } else {
        ValidSample(ps, width, count, m - 3);
      }
    }
  }

  lemma BeforeToSamples(ps: seq<Pins>, width: nat, count: nat, rd: nat)
    requires width > 0 && Begins(2 * width, width, count) <= |ps| && 2 * width <= |ps| && 0 < rd <= count
    requires AllValidBefore(ps, width, rd)
    ensures SampleAt(ps, width, width).valid && AllValid(WordPinsFrom(ps, 2 * width, width, count), rd - 1)
  {
    FirstSample(ps, width);
    assert ValidBefore(ps, width, 2);
    var ws := WordPinsFrom(ps, 2 * width, width, count);
    forall i | 0 <= i < rd - 1 && i < |ws| ensures ws[i].sample.valid {
      assert ValidBefore(ps, width, i + 3);
      ValidSample(ps, width, count, i);
    }
  }

  lemma ValidSample(ps: seq<Pins>, width: nat, count: nat, i: nat)
    requires width > 0 && Begins(2 * width, width, count) <= |ps| && 2 * width <= |ps| && i < count
    ensures ValidBefore(ps, width, i + 3) <==> WordPinsFrom(ps, 2 * width, width, count)[i].sample.valid
  {
    SampleOf(ps, 2 * width, width, count, i);
    assert Begins(0, width, i + 3) == Begins(width, width, i + 2) == Begins(2 * width, width, i + 1);
  }

  /** Where the output is after the two lengths. */
  lemma AfterLengths(t: seq<Registers>, width: nat, ps: seq<Pins>, wr: nat, rd: nat)
    requires IsScan(t, width, ps) && 2 * width <= |ps| && !AllOnes(WordIn(ps, 0, width))
    requires wr == ToNat(WordIn(ps, 0, width)) && rd == ToNat(WordIn(ps, width, width))
    ensures Shows(t[2 * width], width, First(wr, rd, SampleAt(ps, width, width)), Max(wr, rd), rd, 0)
    ensures PopsAt(t, width, ps, 2 * width - 1) <==> First(wr, rd, SampleAt(ps, width, width)).Data?
    ensures t[width].state == ReadLength && t[width].bitCnt == 0
  {
    WriteHeader(t, width, ps);
    ToBitsInvertsToNat(WordIn(ps, 0, width));
    ReadHeader(t, width, ps, width);
  }

  lemma PopsInLengths(t: seq<Registers>, width: nat, ps: seq<Pins>, wr: nat, rd: nat)
    requires IsScan(t, width, ps) && 2 * width <= |ps| && t[width].state == ReadLength && t[width].bitCnt == 0
    requires PopsAt(t, width, ps, 2 * width - 1) <==> First(wr, rd, SampleAt(ps, width, width)).Data?
    ensures Pops(t, width, ps, 0, 2 * width) == Gained(First(wr, rd, SampleAt(ps, width, width)))
  {
    PopsInTwoWords(t, width, ps, 0, 2 * width);
  }

  /** Of the two words of lengths only the second one can end with a pop. */
  lemma PopsInTwoWords(t: seq<Registers>, width: nat, ps: seq<Pins>, a: nat, end: nat)
    requires IsScan(t, width, ps) && end == 2 * width <= |ps| && t[width].state == ReadLength && t[width].bitCnt == 0
    requires a == 0
    ensures Pops(t, width, ps, a, end) == if PopsAt(t, width, ps, end - 1) then [ps[end - 1].head] else []
  {
    NoPopInFirstWord(t, width, ps, a);
    PopsInWholeWord(t, width, ps, width, end);
    PopsSplit(t, width, ps, a, width, end);
    Sequences.NothingBefore(Pops(t, width, ps, width, end));
  }

  lemma PopsInWholeWord(t: seq<Registers>, width: nat, ps: seq<Pins>, a: nat, end: nat)
    requires IsScan(t, width, ps) && end == a + width <= |ps| && t[a].bitCnt == 0
    requires t[a].state in {ReadLength, SendData, NoData, SendCountWrite, SendCountRead}
    ensures Pops(t, width, ps, a, end) == if PopsAt(t, width, ps, end - 1) then [ps[end - 1].head] else []
  {
    PopsInWord(t, width, ps, a, 0);
  }

  /** What is sent after the lengths, in terms of the words taken from the FIFO. */
  ghost predicate AnswerIs(t: seq<Registers>, width: nat, ps: seq<Pins>, wr: nat, rd: nat, data: seq<Word>)
    requires IsScan(t, width, ps) && Begins(2 * width, width, Max(wr, rd) + 2) == |ps|
  {
    && |data| <= rd
    && WordsOut(t, ps, 2 * width, width, Max(wr, rd) + 2)
       == Answer(width, wr, rd, data, WordPinsFrom(ps, 2 * width, width, Max(wr, rd) + 2))
  }

  lemma {:induction false} WordsOutLength(t: seq<Registers>, ps: seq<Pins>, a: nat, width: nat, count: nat)
    requires IsScan(t, width, ps) && Begins(a, width, count) <= |ps|
    ensures |WordsOut(t, ps, a, width, count)| == count
    decreases count
  {
    if count > 0 {
      Reaches(a + width, width, count - 1);
      WordsOutLength(t, ps, a + width, width, count - 1);
    }
  }

  lemma AnswerFrom(t: seq<Registers>, width: nat, ps: seq<Pins>, wr: nat, rd: nat, first: Sample, ws: seq<WordPins>)
    requires IsScan(t, width, ps) && 2 * width <= Begins(2 * width, width, Max(wr, rd) + 2) == |ps|
    requires Shows(t[2 * width], width, First(wr, rd, first), Max(wr, rd), rd, 0)
    requires ws == WordPinsFrom(ps, 2 * width, width, Max(wr, rd) + 2)
    ensures AnswerIs(t, width, ps, wr, rd, Sent(First(wr, rd, first), Max(wr, rd), rd, ws))
    ensures Pops(t, width, ps, 2 * width, |ps|) == Taken(First(wr, rd, first), Max(wr, rd), rd, ws)
  {
    var total, p := Max(wr, rd), First(wr, rd, first);
    ResponseIs(wr, rd, first, width, ws);
    AnswerLength(width, wr, rd, Sent(p, total, rd, ws), ws);
    PopsAreTaken(t, width, ps, 2 * width, p, total, rd, 0, total + 2);
    AllWordsOut(t, width, ps, 2 * width, p, total, rd, total + 2);
  }

  lemma AllWordsOut(t: seq<Registers>, width: nat, ps: seq<Pins>, a: nat, p: Phase, total: nat, rd: nat, count: nat)
    requires IsScan(t, width, ps) && Begins(a, width, count) <= |ps| && a < |t| && Shows(t[a], width, p, total, rd, 0)
    requires |Response(p, width, total, rd, 0, WordPinsFrom(ps, a, width, count))| == count
    ensures WordsOut(t, ps, a, width, count) == Response(p, width, total, rd, 0, WordPinsFrom(ps, a, width, count))
  {
    BitsAreResponse(t, width, ps, a, p, total, rd, 0, count);
    WordsOutLength(t, ps, a, width, count);
  }

  /** When the counts are late, in terms of the cycles of the scan. */
  lemma LateInScan(ps: seq<Pins>, width: nat, wr: nat, rd: nat)
    requires width > 0 && Begins(2 * width, width, Max(wr, rd) + 2) == |ps| && 2 * width <= |ps|
    ensures var ws, first := WordPinsFrom(ps, 2 * width, width, Max(wr, rd) + 2), SampleAt(ps, width, width);
      Late(wr, rd, |Sent(First(wr, rd, first), Max(wr, rd), rd, ws)|) <==> 0 < rd < wr && AllValidBefore(ps, width, rd)
  {
    var total, first := Max(wr, rd), SampleAt(ps, width, width);
    var ws := WordPinsFrom(ps, 2 * width, width, total + 2);
    LateIff(wr, rd, first, ws);
    if rd > 0 {
      if AllValidBefore(ps, width, rd) {
        BeforeToSamples(ps, width, total + 2, rd);
      }
      if first.valid && AllValid(ws, rd - 1) {
        SamplesToBefore(ps, width, total + 2, rd);
      }
    }
  }

  lemma BeginsAfterLengths(width: nat, total: nat)
    ensures Begins(0, width, total + 4) == Begins(2 * width, width, total + 2)
  {
    assert Begins(0, width, total + 4) == Begins(width, width, total + 3);
  }

  lemma SentIsPopped(t: seq<Registers>, width: nat, ps: seq<Pins>, wr: nat, rd: nat)
    requires IsScan(t, width, ps) && Begins(2 * width, width, Max(wr, rd) + 2) == |ps|
    requires 2 * width <= |ps| && !AllOnes(WordIn(ps, 0, width))
    requires wr == ToNat(WordIn(ps, 0, width)) && rd == ToNat(WordIn(ps, width, width))
    ensures Pops(t, width, ps, 0, |ps|)
      == Sent(First(wr, rd, SampleAt(ps, width, width)), Max(wr, rd), rd,
              WordPinsFrom(ps, 2 * width, width, Max(wr, rd) + 2))
    ensures AnswerIs(t, width, ps, wr, rd, Pops(t, width, ps, 0, |ps|))
  {
    var total, first := Max(wr, rd), SampleAt(ps, width, width);
    AfterLengths(t, width, ps, wr, rd);
    PopsInLengths(t, width, ps, wr, rd);
    AnswerFrom(t, width, ps, wr, rd, first, WordPinsFrom(ps, 2 * width, width, total + 2));
    PopsSplit(t, width, ps, 0, 2 * width, |ps|);
  }

  /**
   * Bit for bit: a scan with the lengths `wr` and `rd` at its head answers with the words taken
   * from the FIFO, zeros, and the two counts in the last two words. The counts are late, by one
   * word, if and only if the host reads fewer words than it writes and the FIFO has them all.
   */
  lemma ScanAnswers(t: seq<Registers>, width: nat, ps: seq<Pins>, wr: nat, rd: nat)
    requires IsScan(t, width, ps) && Begins(0, width, Max(wr, rd) + 4) == |ps|
    requires 2 * width <= |ps| && !AllOnes(WordIn(ps, 0, width))
    requires wr == ToNat(WordIn(ps, 0, width)) && rd == ToNat(WordIn(ps, width, width))
    ensures Begins(2 * width, width, Max(wr, rd) + 2) == |ps|
    ensures AnswerIs(t, width, ps, wr, rd, Pops(t, width, ps, 0, |ps|))
    ensures Late(wr, rd, |Pops(t, width, ps, 0, |ps|)|)
      <==> 0 < rd < wr && AllValidBefore(ps, width, rd)
  {
    BeginsAfterLengths(width, Max(wr, rd));
    SentIsPopped(t, width, ps, wr, rd);
    LateInScan(ps, width, wr, rd);
  }

  /** The same of every scan, whatever state the scan before it has left behind. */
  lemma NextScanAnswers(r: Registers, width: nat, update: Pins, waiting: seq<Pins>,
                        t: seq<Registers>, ps: seq<Pins>, wr: nat, rd: nat)
    requires width >= 2 && Fits(r, width) && PinsFit(update, width) && AllFit(waiting, width)
    requires update.update && Waiting(waiting)
    requires |t| == |ps| + 1 && t[0] == Edges(AtEdge(r, width, update), width, waiting)
    requires forall i: nat :: i < |ps| ==> StepsAt(t, width, ps, i)
    requires Begins(0, width, Max(wr, rd) + 4) == |ps| && 2 * width <= |ps| && !AllOnes(WordIn(ps, 0, width))
    requires wr == ToNat(WordIn(ps, 0, width)) && rd == ToNat(WordIn(ps, width, width))
    ensures IsScan(t, width, ps) && Begins(2 * width, width, Max(wr, rd) + 2) == |ps|
    ensures AnswerIs(t, width, ps, wr, rd, Pops(t, width, ps, 0, |ps|))
    ensures Late(wr, rd, |Pops(t, width, ps, 0, |ps|)|)
      <==> 0 < rd < wr && AllValidBefore(ps, width, rd)
  {
    UpdateMakesReady(r, width, update, waiting);
    ScanAnswers(t, width, ps, wr, rd);
  }
}
