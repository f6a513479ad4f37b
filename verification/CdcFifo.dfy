/**
 * The clock-crossing FIFO: a write clock domain and a read clock domain that see each
 * other's Gray-coded pointer only through two flip-flops.
 */
module CdcFifo {
  import opened Bits
  import opened GrayCode
  import Modular

  /** Every register of the FIFO. The address width `a` (ADDRSIZE) is a parameter throughout. */
  datatype Registers<T> = Registers(
    wbin: nat, wrPtr: seq<bool>, wrFull: bool,
    wrq1RdPtr: seq<bool>, wrq2RdPtr: seq<bool>,
    rdBin: nat, rdPtr: seq<bool>, rdEmpty: bool,
    rdq1WrPtr: seq<bool>, rdq2WrPtr: seq<bool>,
    mem: seq<T>)

  /**
   * One instant at which at least one clock may rise. A sample is what the first
   * synchroniser flip-flop catches of the other domain's pointer at that instant.
   */
  datatype Instant<T> = Instant(
    wrClk: bool, wrEn: bool, wrData: T, rdPtrSample: seq<bool>,
    rdClk: bool, rdEn: bool, wrPtrSample: seq<bool>)

  predicate WellFormed<T>(r: Registers<T>, a: nat) {
    && a >= 2 && r.wbin < Pow2(a + 1) && r.rdBin < Pow2(a + 1)
    && |r.wrPtr| == |r.wrq1RdPtr| == |r.wrq2RdPtr| == a + 1
    && |r.rdPtr| == |r.rdq1WrPtr| == |r.rdq2WrPtr| == a + 1
    && |r.mem| == Pow2(a)
  }

  predicate Accepts<T>(r: Registers<T>, i: Instant<T>) { i.wrClk && i.wrEn && !r.wrFull }

  predicate Delivers<T>(r: Registers<T>, i: Instant<T>) { i.rdClk && i.rdEn && !r.rdEmpty }

  function WbinNext<T>(r: Registers<T>, a: nat, i: Instant<T>): (x: nat)
    requires r.wbin < Pow2(a + 1)
    ensures x < Pow2(a + 1)
  {
    if Accepts(r, i) then Succ(r.wbin, a + 1) else r.wbin
  }

  function RdBinNext<T>(r: Registers<T>, a: nat, i: Instant<T>): (x: nat)
    requires r.rdBin < Pow2(a + 1)
    ensures x < Pow2(a + 1)
  {
    if Delivers(r, i) then Succ(r.rdBin, a + 1) else r.rdBin
  }

  /** The registers after the instant; a domain whose clock does not rise keeps its own. */
  function Next<T>(r: Registers<T>, a: nat, i: Instant<T>): (r': Registers<T>)
    requires WellFormed(r, a) && |i.rdPtrSample| == |i.wrPtrSample| == a + 1
    ensures WellFormed(r', a)
  {
    var wgray := Gray(WbinNext(r, a, i), a + 1);
    var rdgray := Gray(RdBinNext(r, a, i), a + 1);
    Registers(
      if i.wrClk then WbinNext(r, a, i) else r.wbin,
      if i.wrClk then wgray else r.wrPtr,
      if i.wrClk then wgray == InvertTopTwo(r.wrq2RdPtr) else r.wrFull,
      if i.wrClk then i.rdPtrSample else r.wrq1RdPtr,
      if i.wrClk then r.wrq1RdPtr else r.wrq2RdPtr,
      if i.rdClk then RdBinNext(r, a, i) else r.rdBin,
      if i.rdClk then rdgray else r.rdPtr,
      if i.rdClk then rdgray == r.rdq2WrPtr else r.rdEmpty,
      if i.rdClk then i.wrPtrSample else r.rdq1WrPtr,
      if i.rdClk then r.rdq1WrPtr else r.rdq2WrPtr,
      if Accepts(r, i) then r.mem[r.wbin % Pow2(a) := i.wrData] else r.mem)
  }

  /** The combinational read port. */
  function RdData<T>(r: Registers<T>, a: nat): T
    requires |r.mem| == Pow2(a)
  {
    r.mem[r.rdBin % Pow2(a)]
  }

  /** Each sampled bit is the other pointer's bit before or after this very instant. */
  ghost predicate SamplesPossible<T>(r: Registers<T>, a: nat, i: Instant<T>)
    requires WellFormed(r, a)
  {
    && |i.rdPtrSample| == |i.wrPtrSample| == a + 1
    && IsMix(i.rdPtrSample, r.rdPtr, Next(r, a, i).rdPtr)
    && IsMix(i.wrPtrSample, r.wrPtr, Next(r, a, i).wrPtr)
  }

  /** Both resets asserted; the memory keeps whatever it held. */
  function Reset<T>(a: nat, mem: seq<T>): (r: Registers<T>) {
    var zero := Gray(0, a + 1);
    Registers(0, zero, false, zero, zero, 0, zero, true, zero, zero, mem)
  }

  /**
   * Unbounded bookkeeping: the words accepted and delivered so far, and how many written
   * (read) words each synchroniser stage and the empty (full) flag know of.
   */
  datatype History<T> = History(
    written: seq<T>, read: seq<T>, w1: nat, w2: nat, w3: nat, r1: nat, r2: nat, r3: nat)

  ghost function NextHistory<T>(h: History<T>, r: Registers<T>, a: nat, i: Instant<T>): History<T>
    requires WellFormed(r, a)
  {
    var written := if Accepts(r, i) then h.written + [i.wrData] else h.written;
    var read := if Delivers(r, i) then h.read + [RdData(r, a)] else h.read;
    History(
      written, read,
      if !i.rdClk then h.w1 else if i.wrPtrSample == r.wrPtr then |h.written| else |written|,
      if i.rdClk then h.w1 else h.w2,
      if i.rdClk then h.w2 else h.w3,
      if !i.wrClk then h.r1 else if i.rdPtrSample == r.rdPtr then |h.read| else |read|,
      if i.wrClk then h.r1 else h.r2,
      if i.wrClk then h.r2 else h.r3)
  }

  ghost function CountGray(count: nat, a: nat): seq<bool> {
    Gray(count % Pow2(a + 1), a + 1)
  }

  ghost predicate PointersTrackCounts<T>(r: Registers<T>, h: History<T>, a: nat) {
    && r.wbin == |h.written| % Pow2(a + 1) && r.wrPtr == CountGray(|h.written|, a)
    && r.rdBin == |h.read| % Pow2(a + 1) && r.rdPtr == CountGray(|h.read|, a)
  }

  /** What the writer knows of the words read is an older count, and never too old. */
  ghost predicate WriterKnows(q1: seq<bool>, q2: seq<bool>, full: bool, written: nat, read: nat,
                              r1: nat, r2: nat, r3: nat, a: nat) {
    && q1 == CountGray(r1, a) && q2 == CountGray(r2, a)
    && r3 <= r2 <= r1 <= read && written <= r3 + Pow2(a) && (full <==> written == r3 + Pow2(a))
  }

  /** What the reader knows of the words written is an older count, and never too old. */
  ghost predicate ReaderKnows(q1: seq<bool>, q2: seq<bool>, empty: bool, written: nat, read: nat,
                              w1: nat, w2: nat, w3: nat, a: nat) {
    && q1 == CountGray(w1, a) && q2 == CountGray(w2, a)
    && read <= w3 <= w2 <= w1 <= written && (empty <==> read == w3)
  }

  ghost predicate KnowledgeIsStale<T>(r: Registers<T>, h: History<T>, a: nat) {
    && ReaderKnows(r.rdq1WrPtr, r.rdq2WrPtr, r.rdEmpty, |h.written|, |h.read|, h.w1, h.w2, h.w3, a)
    && WriterKnows(r.wrq1RdPtr, r.wrq2RdPtr, r.wrFull, |h.written|, |h.read|, h.r1, h.r2, h.r3, a)
  }

  ghost predicate MemoryHoldsBacklog<T>(r: Registers<T>, h: History<T>, a: nat)
    requires WellFormed(r, a)
  {
    && |h.read| <= |h.written|
    && h.read == h.written[..|h.read|]
    && forall k :: |h.read| <= k < |h.written| ==> r.mem[k % Pow2(a)] == h.written[k]
  }

  ghost predicate Inv<T>(r: Registers<T>, h: History<T>, a: nat) {
    && WellFormed(r, a)
    && PointersTrackCounts(r, h, a)
    && KnowledgeIsStale(r, h, a)
    && MemoryHoldsBacklog(r, h, a)
  }

  // ---------- One instant ----------

  /** A synchroniser sees the pointer as it was before or after the instant, never a third value. */
  lemma SampleIsOldOrNew(m: seq<bool>, count: nat, count': nat, a: nat)
    requires count' == count || count' == count + 1
    requires IsMix(m, CountGray(count, a), CountGray(count', a))
    ensures m == CountGray(count, a) || m == CountGray(count', a)
  {
    if count' == count {
      assert m == CountGray(count, a);
    } else {
      Modular.Step(count, Pow2(a + 1));
      MixOfSuccessorsIsOneOfThem(m, count % Pow2(a + 1), a + 1);
    }
  }

  lemma FullFlagExact(w: nat, r: nat, a: nat)
    requires a >= 2 && r <= w <= r + Pow2(a)
    ensures CountGray(w, a) == InvertTopTwo(CountGray(r, a)) <==> w == r + Pow2(a)
  {
    FullTestExact(w % Pow2(a + 1), r % Pow2(a + 1), a + 1);
    Modular.Halve(r, Pow2(a));
    if w % Pow2(a + 1) == (r + Pow2(a)) % Pow2(a + 1) {
      Modular.CongruentNear(r + Pow2(a), w, Pow2(a + 1));
    }
  }

  lemma EmptyFlagExact(r: nat, w: nat, a: nat)
    requires r <= w <= r + Pow2(a)
    ensures CountGray(r, a) == CountGray(w, a) <==> r == w
  {
    EmptyTestExact(r % Pow2(a + 1), w % Pow2(a + 1), a + 1);
    if r % Pow2(a + 1) == w % Pow2(a + 1) {
      Modular.CongruentNear(w, r, Pow2(a + 1));
    }
  }

  lemma CountNext(count: nat, a: nat)
    ensures Succ(count % Pow2(a + 1), a + 1) == (count + 1) % Pow2(a + 1)
  {
    Modular.Step(count, Pow2(a + 1));
  }

  /** A pointer that moves with its count stays equal to it, in binary and in Gray code. */
  lemma PointerKept(bin: nat, count: nat, a: nat, advances: bool)
    requires bin == count % Pow2(a + 1)
    ensures var bin', count' := if advances then Succ(bin, a + 1) else bin, if advances then count + 1 else count;
      bin' == count' % Pow2(a + 1) && Gray(bin', a + 1) == CountGray(count', a)
  {
    CountNext(count, a);
  }

  lemma PointersKept<T>(r: Registers<T>, h: History<T>, a: nat, i: Instant<T>)
    requires WellFormed(r, a) && |i.rdPtrSample| == |i.wrPtrSample| == a + 1
    requires PointersTrackCounts(r, h, a)
    ensures PointersTrackCounts(Next(r, a, i), NextHistory(h, r, a, i), a)
  {
    PointerKept(r.wbin, |h.written|, a, Accepts(r, i));
    PointerKept(r.rdBin, |h.read|, a, Delivers(r, i));
    var r', h' := Next(r, a, i), NextHistory(h, r, a, i);
    assert |h'.written| == |h.written| + (if Accepts(r, i) then 1 else 0) && r'.wbin == WbinNext(r, a, i);
    assert |h'.read| == |h.read| + (if Delivers(r, i) then 1 else 0) && r'.rdBin == RdBinNext(r, a, i);
  }

  /** A write clock edge: the sample enters, the count before it moves on, and the flag is renewed. */
  lemma WriterLearns(q1: seq<bool>, q2: seq<bool>, full: bool, written: nat, read: nat, r1: nat, r2: nat, r3: nat,
                     a: nat, sample: seq<bool>, k: nat, written': nat, read': nat)
    requires a >= 2 && WriterKnows(q1, q2, full, written, read, r1, r2, r3, a)
    requires sample == CountGray(k, a) && read <= k <= read' && read' <= written'
    requires written' == written || (written' == written + 1 && !full)
    ensures WriterKnows(sample, q1, CountGray(written', a) == InvertTopTwo(q2), written', read', k, r1, r2, a)
  {
    if r2 <= written' {
      FullFlagExact(written', r2, a);
    }
  }

  /** A read clock edge. */
  lemma ReaderLearns(q1: seq<bool>, q2: seq<bool>, empty: bool, written: nat, read: nat, w1: nat, w2: nat, w3: nat,
                     a: nat, sample: seq<bool>, k: nat, written': nat, read': nat)
    requires ReaderKnows(q1, q2, empty, written, read, w1, w2, w3, a)
    requires sample == CountGray(k, a) && written <= k <= written' && w2 <= read' + Pow2(a)
    requires read' == read || (read' == read + 1 && !empty)
    ensures ReaderKnows(sample, q1, CountGray(read', a) == q2, written', read', k, w1, w2, a)
  {
    EmptyFlagExact(read', w2, a);
  }

  lemma WriterKnowledgeKept<T>(r: Registers<T>, h: History<T>, a: nat, i: Instant<T>)
    requires Inv(r, h, a) && SamplesPossible(r, a, i)
    ensures var r', h' := Next(r, a, i), NextHistory(h, r, a, i);
      WriterKnows(r'.wrq1RdPtr, r'.wrq2RdPtr, r'.wrFull, |h'.written|, |h'.read|, h'.r1, h'.r2, h'.r3, a)
  {
    var r', h' := Next(r, a, i), NextHistory(h, r, a, i);
    PointersKept(r, h, a, i);
    SampleIsOldOrNew(i.rdPtrSample, |h.read|, |h'.read|, a);
    if i.wrClk {
      WriterLearns(r.wrq1RdPtr, r.wrq2RdPtr, r.wrFull, |h.written|, |h.read|, h.r1, h.r2, h.r3, a,
                   i.rdPtrSample, h'.r1, |h'.written|, |h'.read|);
    }
  }

  lemma ReaderKnowledgeKept<T>(r: Registers<T>, h: History<T>, a: nat, i: Instant<T>)
    requires Inv(r, h, a) && SamplesPossible(r, a, i)
    ensures var r', h' := Next(r, a, i), NextHistory(h, r, a, i);
      ReaderKnows(r'.rdq1WrPtr, r'.rdq2WrPtr, r'.rdEmpty, |h'.written|, |h'.read|, h'.w1, h'.w2, h'.w3, a)
  {
    var r', h' := Next(r, a, i), NextHistory(h, r, a, i);
    PointersKept(r, h, a, i);
    SampleIsOldOrNew(i.wrPtrSample, |h.written|, |h'.written|, a);
    if i.rdClk {
      ReaderLearns(r.rdq1WrPtr, r.rdq2WrPtr, r.rdEmpty, |h.written|, |h.read|, h.w1, h.w2, h.w3, a,
                   i.wrPtrSample, h'.w1, |h'.written|, |h'.read|);
    }
  }

  lemma KnowledgeKept<T>(r: Registers<T>, h: History<T>, a: nat, i: Instant<T>)
    requires Inv(r, h, a) && SamplesPossible(r, a, i)
    ensures KnowledgeIsStale(Next(r, a, i), NextHistory(h, r, a, i), a)
  {
    WriterKnowledgeKept(r, h, a, i);
    ReaderKnowledgeKept(r, h, a, i);
  }

  /** The slot of a word in the backlog is not the slot of the next word. */
  lemma SlotIsFree(k: nat, written: nat, a: nat)
    requires k < written < k + Pow2(a)
    ensures k % Pow2(a) != written % Pow2(a)
  {
    if k % Pow2(a) == written % Pow2(a) {
      Modular.CongruentNear(written, k, Pow2(a));
    }
  }

  lemma WriteKeepsBacklog<T>(mem: seq<T>, written: seq<T>, read: nat, a: nat, w: T, bin: nat)
    requires |mem| == Pow2(a) && read <= |written| < read + Pow2(a) && bin % Pow2(a) == |written| % Pow2(a)
    requires forall k :: read <= k < |written| ==> mem[k % Pow2(a)] == written[k]
    ensures forall k :: read <= k <= |written| ==> mem[bin % Pow2(a) := w][k % Pow2(a)] == (written + [w])[k]
  {
    forall k | read <= k <= |written| ensures mem[bin % Pow2(a) := w][k % Pow2(a)] == (written + [w])[k] {
      if k < |written| {
        SlotIsFree(k, |written|, a);
      }
    }
  }

  /** The backlog in terms of the memory and the two streams alone. */
  ghost predicate Holds<T>(mem: seq<T>, written: seq<T>, read: seq<T>, a: nat) {
    && |mem| == Pow2(a) && |read| <= |written| && read == written[..|read|]
    && forall k :: |read| <= k < |written| ==> mem[k % Pow2(a)] == written[k]
  }

  lemma WriteHolds<T>(mem: seq<T>, written: seq<T>, read: seq<T>, a: nat, w: T, bin: nat)
    requires Holds(mem, written, read, a) && |written| < |read| + Pow2(a) && bin % Pow2(a) == |written| % Pow2(a)
    ensures Holds(mem[bin % Pow2(a) := w], written + [w], read, a)
  {
    WriteKeepsBacklog(mem, written, |read|, a, w, bin);
  }

  lemma ReadHolds<T>(mem: seq<T>, written: seq<T>, read: seq<T>, a: nat, bin: nat)
    requires Holds(mem, written, read, a) && |read| < |written| && bin % Pow2(a) == |read| % Pow2(a)
    ensures mem[bin % Pow2(a)] == written[|read|] && Holds(mem, written, read + [mem[bin % Pow2(a)]], a)
  {}

  /** A delivered word is the oldest one not yet delivered; no write reaches a slot still in use. */
  lemma BacklogKept<T>(r: Registers<T>, h: History<T>, a: nat, i: Instant<T>)
    requires Inv(r, h, a) && |i.rdPtrSample| == |i.wrPtrSample| == a + 1
    ensures MemoryHoldsBacklog(Next(r, a, i), NextHistory(h, r, a, i), a)
  {
    Modular.Halve(|h.written|, Pow2(a));
    Modular.Halve(|h.read|, Pow2(a));
    assert Holds(r.mem, h.written, h.read, a);
    var read := if Delivers(r, i) then h.read + [RdData(r, a)] else h.read;
    if Delivers(r, i) {
      ReadHolds(r.mem, h.written, h.read, a, r.rdBin);
    }
    assert Holds(r.mem, h.written, read, a);
    if Accepts(r, i) {
      WriteHolds(r.mem, h.written, read, a, i.wrData, r.wbin);
    }
  }

  lemma InvKept<T>(r: Registers<T>, h: History<T>, a: nat, i: Instant<T>)
    requires Inv(r, h, a) && SamplesPossible(r, a, i)
    ensures Inv(Next(r, a, i), NextHistory(h, r, a, i), a)
  {
    PointersKept(r, h, a, i);
    KnowledgeKept(r, h, a, i);
    BacklogKept(r, h, a, i);
  }

  /** Two clocks rising together are a read edge and a write edge that see the same samples. */
  lemma BothClocksSplit<T>(r: Registers<T>, a: nat, i: Instant<T>)
    requires WellFormed(r, a) && |i.rdPtrSample| == |i.wrPtrSample| == a + 1 && i.wrClk && i.rdClk
    ensures Next(r, a, i) == Next(Next(r, a, i.(wrClk := false)), a, i.(rdClk := false))
  {
    var r1 := Next(r, a, i.(wrClk := false));
    assert Accepts(r1, i.(rdClk := false)) == Accepts(r, i);
  }

  // ---------- Whole runs ----------

  ghost predicate RunPossible<T>(r: Registers<T>, a: nat, run: seq<Instant<T>>)
    requires WellFormed(r, a)
    decreases |run|, 0
  {
    run == [] || (
      var n := |run| - 1;
      RunPossible(r, a, run[..n]) && SamplesPossible(After(r, a, run[..n]), a, run[n]))
  }

  ghost function After<T>(r: Registers<T>, a: nat, run: seq<Instant<T>>): (r': Registers<T>)
    requires WellFormed(r, a) && RunPossible(r, a, run)
    ensures WellFormed(r', a)
    decreases |run|, 1
  {
    if run == [] then r
    else
      var n := |run| - 1;
      Next(After(r, a, run[..n]), a, run[n])
  }

  /** A word is written at a write edge with the full flag low, and at no other time. */
  function WrittenAt<T>(i: Instant<T>, wrFull: bool): seq<T> {
    if i.wrClk && i.wrEn && !wrFull then [i.wrData] else []
  }

  /** The word at the read port is read at a read edge with the empty flag low, and at no other time. */
  function ReadAt<T>(i: Instant<T>, rdEmpty: bool, rdData: T): seq<T> {
    if i.rdClk && i.rdEn && !rdEmpty then [rdData] else []
  }

  ghost function Written<T>(r: Registers<T>, a: nat, run: seq<Instant<T>>): seq<T>
    requires WellFormed(r, a) && RunPossible(r, a, run)
    decreases |run|
  {
    if run == [] then []
    else
      var n := |run| - 1;
      Written(r, a, run[..n]) + WrittenAt(run[n], After(r, a, run[..n]).wrFull)
  }

  ghost function Read<T>(r: Registers<T>, a: nat, run: seq<Instant<T>>): seq<T>
    requires WellFormed(r, a) && RunPossible(r, a, run)
    decreases |run|
  {
    if run == [] then []
    else
      var n := |run| - 1;
      var before := After(r, a, run[..n]);
      Read(r, a, run[..n]) + ReadAt(run[n], before.rdEmpty, RdData(before, a))
  }

  ghost function HistoryAfter<T>(r: Registers<T>, a: nat, run: seq<Instant<T>>): History<T>
    requires WellFormed(r, a) && RunPossible(r, a, run)
    decreases |run|
  {
    if run == [] then History([], [], 0, 0, 0, 0, 0, 0)
    else
      var n := |run| - 1;
      NextHistory(HistoryAfter(r, a, run[..n]), After(r, a, run[..n]), a, run[n])
  }

  /** The bookkeeping notes exactly these words. */
  lemma HistoryNotes<T>(h: History<T>, r: Registers<T>, a: nat, i: Instant<T>)
    requires WellFormed(r, a)
    ensures NextHistory(h, r, a, i).written == h.written + WrittenAt(i, r.wrFull)
    ensures NextHistory(h, r, a, i).read == h.read + ReadAt(i, r.rdEmpty, RdData(r, a))
  {}

  lemma {:induction false} InvOverRun<T>(a: nat, mem: seq<T>, run: seq<Instant<T>>)
    requires a >= 2 && |mem| == Pow2(a) && RunPossible(Reset(a, mem), a, run)
    ensures var r := Reset(a, mem);
      && Inv(After(r, a, run), HistoryAfter(r, a, run), a)
      && HistoryAfter(r, a, run).written == Written(r, a, run) && HistoryAfter(r, a, run).read == Read(r, a, run)
    decreases |run|
  {
    if run == [] {
      Modular.Small(0, Pow2(a + 1));
    } else {
      var n := |run| - 1;
      var r, h := After(Reset(a, mem), a, run[..n]), HistoryAfter(Reset(a, mem), a, run[..n]);
      InvOverRun(a, mem, run[..n]);
      InvKept(r, h, a, run[n]);
      HistoryNotes(h, r, a, run[n]);
    }
  }

  /**
   * From reset, for every interleaving of the two clocks and every per-bit choice at the
   * synchronisers: the words read are the words written in order, never more than
   * 2^ADDRSIZE are stored, and a flag that is not raised is right. Written and read are the words
   * of all edges at which the flag allowed it.
   */
  lemma FifoIsSafe<T>(a: nat, mem: seq<T>, run: seq<Instant<T>>)
    requires a >= 2 && |mem| == Pow2(a) && RunPossible(Reset(a, mem), a, run)
    ensures var r, written, read :=
        After(Reset(a, mem), a, run), Written(Reset(a, mem), a, run), Read(Reset(a, mem), a, run);
      && read <= written && |written| <= |read| + Pow2(a)
      && (!r.wrFull ==> |written| < |read| + Pow2(a))
      && (!r.rdEmpty ==> |read| < |written| && RdData(r, a) == written[|read|])
  {
    InvOverRun(a, mem, run);
    Modular.Halve(|Read(Reset(a, mem), a, run)|, Pow2(a));
  }

  /** An edge hands each synchroniser's knowledge one stage on. */
  lemma KnowledgeMovesOn<T>(r: Registers<T>, h: History<T>, a: nat, i: Instant<T>)
    requires Inv(r, h, a) && SamplesPossible(r, a, i)
    ensures var h' := NextHistory(h, r, a, i);
      && (i.wrClk && !i.rdEn ==> h'.r3 == h.r2 && h'.r2 == h.r1 && h'.r1 == |h.read| == |h'.read|)
      && (i.rdClk && !i.wrEn ==> h'.w3 == h.w2 && h'.w2 == h.w1 && h'.w1 == |h.written| == |h'.written|)
  {
    InvKept(r, h, a, i);
  }

  lemma OneMore<T>(a: nat, mem: seq<T>, run: seq<Instant<T>>, i: Instant<T>)
    requires a >= 2 && |mem| == Pow2(a) && RunPossible(Reset(a, mem), a, run + [i])
    ensures var r := Reset(a, mem);
      && RunPossible(r, a, run)
      && var h, h' := HistoryAfter(r, a, run), HistoryAfter(r, a, run + [i]);
         && (i.wrClk && !i.rdEn ==> h'.r3 == h.r2 && h'.r2 == h.r1 && h'.r1 == |h'.read|)
         && (i.rdClk && !i.wrEn ==> h'.w3 == h.w2 && h'.w2 == h.w1 && h'.w1 == |h'.written|)
         && (!i.rdEn ==> h'.read == h.read) && (!i.wrEn ==> h'.written == h.written)
  {
    var r := Reset(a, mem);
    assert (run + [i])[..|run|] == run && (run + [i])[|run|] == i;
    InvOverRun(a, mem, run);
    KnowledgeMovesOn(After(r, a, run), HistoryAfter(r, a, run), a, i);
  }

  lemma FlagsExact<T>(r: Registers<T>, h: History<T>, a: nat)
    requires Inv(r, h, a)
    ensures h.r3 == |h.read| ==> (r.wrFull <==> |h.written| == |h.read| + Pow2(a))
    ensures h.w3 == |h.written| ==> (r.rdEmpty <==> |h.written| == |h.read|)
  {}

  /**
   * No flag stays raised for nothing: after any run, once the other side rests, three edges of the
   * own clock make the full (empty) flag exact.
   */
  lemma FlagsSettle<T>(a: nat, mem: seq<T>, run: seq<Instant<T>>, x: Instant<T>, y: Instant<T>, z: Instant<T>)
    requires a >= 2 && |mem| == Pow2(a) && RunPossible(Reset(a, mem), a, run + [x] + [y] + [z])
    ensures var all := run + [x] + [y] + [z];
      var r, written, read :=
        After(Reset(a, mem), a, all), |Written(Reset(a, mem), a, all)|, |Read(Reset(a, mem), a, all)|;
      && (x.wrClk && y.wrClk && z.wrClk && !x.rdEn && !y.rdEn && !z.rdEn ==>
            (r.wrFull <==> written == read + Pow2(a)))
      && (x.rdClk && y.rdClk && z.rdClk && !x.wrEn && !y.wrEn && !z.wrEn ==>
            (r.rdEmpty <==> written == read))
  {
    var r, all := Reset(a, mem), run + [x] + [y] + [z];
    OneMore(a, mem, run + [x] + [y], z);
    OneMore(a, mem, run + [x], y);
    OneMore(a, mem, run, x);
    InvOverRun(a, mem, all);
    FlagsExact(After(r, a, all), HistoryAfter(r, a, all), a);
  }

  /** The FIFO with its registers updated in place, one clock instant at a time. */
  class Fifo<T> {
    const a: nat
    const mem: array<T>
    var wbin: nat
    var wrPtr: seq<bool>
    var wrFull: bool
    var wrq1RdPtr: seq<bool>
    var wrq2RdPtr: seq<bool>
    var rdBin: nat
    var rdPtr: seq<bool>
    var rdEmpty: bool
    var rdq1WrPtr: seq<bool>
    var rdq2WrPtr: seq<bool>

    ghost function Regs(): Registers<T>
      reads this, mem
    {
      Registers(wbin, wrPtr, wrFull, wrq1RdPtr, wrq2RdPtr, rdBin, rdPtr, rdEmpty, rdq1WrPtr, rdq2WrPtr, mem[..])
    }

    ghost predicate Valid()
      reads this, mem
    {
      WellFormed(Regs(), a)
    }

    constructor (a: nat, mem: array<T>)
      requires a >= 2 && mem.Length == Pow2(a)
      ensures Valid() && this.a == a && this.mem == mem
      ensures Regs() == Reset(a, mem[..])
    {
      this.a, this.mem := a, mem;
      var zero := Gray(0, a + 1);
      wbin, wrPtr, wrFull, wrq1RdPtr, wrq2RdPtr := 0, zero, false, zero, zero;
      rdBin, rdPtr, rdEmpty, rdq1WrPtr, rdq2WrPtr := 0, zero, true, zero, zero;
    }

    method WriteClock(wrEn: bool, wrData: T, rdPtrSample: seq<bool>, ghost wrPtrSample: seq<bool>)
      requires Valid() && |rdPtrSample| == |wrPtrSample| == a + 1
      modifies this, mem
      ensures Regs() == Next(old(Regs()), a, Instant(true, wrEn, wrData, rdPtrSample, false, false, wrPtrSample))
      ensures Valid()
    {
      var wbinnext := wbin;
      if wrEn && !wrFull {
        mem[wbin % Pow2(a)] := wrData;
        wbinnext := Succ(wbin, a + 1);
      }
      var wgraynext := Gray(wbinnext, a + 1);
      wrFull := wgraynext == InvertTopTwo(wrq2RdPtr);
      wbin, wrPtr := wbinnext, wgraynext;
      wrq2RdPtr, wrq1RdPtr := wrq1RdPtr, rdPtrSample;
    }

    method ReadClock(rdEn: bool, wrPtrSample: seq<bool>, ghost wrData: T, ghost rdPtrSample: seq<bool>)
      returns (rdData: T)
      requires Valid() && |wrPtrSample| == |rdPtrSample| == a + 1
      modifies this
      ensures rdData == RdData(old(Regs()), a)
      ensures Regs() == Next(old(Regs()), a, Instant(false, false, wrData, rdPtrSample, true, rdEn, wrPtrSample))
      ensures Valid()
    {
      rdData := mem[rdBin % Pow2(a)];
      if rdEn && !rdEmpty {
        rdBin := Succ(rdBin, a + 1);
      }
      rdPtr := Gray(rdBin, a + 1);
      rdEmpty := rdPtr == rdq2WrPtr;
      rdq2WrPtr, rdq1WrPtr := rdq1WrPtr, wrPtrSample;
    }
  }
}
