/** Input and output of the JTAG interface together, shifting the same scan. */
module JtagChip {
  import opened Bits
  import I = JtagInput
  import opened JtagOutput
  import F = JtagFraming

  /** Both sides see the same bits, and the output sends the input's count of accepted words. */
  ghost predicate SameScan(width: nat, ti: seq<I.Registers>, pi: seq<I.Pins>, to: seq<Registers>, po: seq<Pins>) {
    && I.IsScan(ti, width, pi) && IsScan(to, width, po) && |pi| == |po|
    && (forall i :: 0 <= i < |pi| ==> pi[i].tdi == po[i].tdi)
    && (forall i :: 0 <= i < |pi| ==> CountShown(width, ti, po, i))
  }

  predicate CountShown(width: nat, ti: seq<I.Registers>, po: seq<Pins>, i: nat) {
    i < |ti| && i < |po| && po[i].written == ToBits(ti[i].accepted, width)
  }

  /** The bits shifted in are the words of the request. */
  ghost predicate Shifts(po: seq<Pins>, width: nat, request: seq<Word>) {
    && Begins(0, width, |request|) == |po|
    && forall m: nat :: m < |request| ==> WordShifted(po, width, request, m)
  }

  predicate WordShifted(po: seq<Pins>, width: nat, request: seq<Word>, m: nat) {
    && m < |request| && Begins(0, width, m) + width <= |po|
    && WordIn(po, Begins(0, width, m), width) == request[m]
  }

  /** A request: the two lengths, the words to write, and zeros. */
  predicate IsRequest(request: seq<Word>, width: nat, wr: nat, rd: nat, data: seq<Word>) {
    && |request| == Max(wr, rd) + 4 && |data| == wr
    && |request[0]| == |request[1]| == width
    && ToNat(request[0]) == wr && ToNat(request[1]) == rd && !AllOnes(request[0])
    && request[2..2 + wr] == data
  }

  lemma {:induction false} BeginsAdd(a: nat, width: nat, m: nat, n: nat)
    ensures Begins(a, width, m + n) == Begins(Begins(a, width, m), width, n)
    decreases m
  {
    if m > 0 {
      BeginsAdd(a + width, width, m - 1, n);
    }
  }

  lemma {:induction false} BeginsGrows(a: nat, width: nat, m: nat, n: nat)
    requires m <= n
    ensures Begins(a, width, m) <= Begins(a, width, n)
    decreases m
  {
    if m == 0 {
      Reaches(a, width, n);
    } else {
      BeginsGrows(a + width, width, m - 1, n - 1);
    }
  }

  /** The accepted words are the first ones. */
  lemma {:induction false} AcceptedArePrefix(pi: seq<I.Pins>, a: nat, width: nat, data: seq<Word>)
    requires width > 0 && Begins(a, width, |data|) <= |pi|
    requires forall m: nat :: m < |data| ==> WordOf(pi, a, width, data, m)
    ensures I.Accepted(pi, a, width, |data|) <= data
    decreases |data|
  {
    if data != [] {
      var next, rest := a + width, data[1..];
      Reaches(next, width, |rest|);
      assert WordOf(pi, a, width, data, 0);
      forall m: nat | m < |rest| ensures WordOf(pi, next, width, rest, m) {
        assert WordOf(pi, a, width, data, m + 1);
      }
      AcceptedArePrefix(pi, next, width, rest);
      assert data == [data[0]] + data[1..];
    }
  }

  predicate WordOf(pi: seq<I.Pins>, a: nat, width: nat, data: seq<Word>, m: nat) {
    && m < |data| && Begins(a, width, m) + width <= |pi|
    && I.WordIn(pi, Begins(a, width, m), width) == data[m]
  }

  lemma SameWordIn(pi: seq<I.Pins>, po: seq<Pins>, a: nat, width: nat)
    requires |pi| == |po| && a + width <= |pi| && forall i :: 0 <= i < |pi| ==> pi[i].tdi == po[i].tdi
    ensures I.WordIn(pi, a, width) == WordIn(po, a, width)
  {}

  /** What the input makes of a request. */
  lemma InputAccepts(width: nat, ti: seq<I.Registers>, pi: seq<I.Pins>, to: seq<Registers>, po: seq<Pins>,
                     request: seq<Word>, wr: nat, rd: nat, data: seq<Word>, at: nat)
    requires SameScan(width, ti, pi, to, po) && Shifts(po, width, request) && IsRequest(request, width, wr, rd, data)
    requires Begins(2 * width, width, Max(wr, rd)) <= at < |pi|
    ensures var taken := I.Pushes(ti, width, pi, 0, |pi|);
      taken <= data && po[at].written == ToBits(|taken|, width)
  {
    var a := 2 * width;
    assert Begins(0, width, 2) == Begins(width, width, 1) == a;
    BeginsAdd(0, width, 2, wr);
    BeginsGrows(0, width, 2 + wr, |request|);
    BeginsGrows(a, width, wr, Max(wr, rd));
    Reaches(a, width, wr);
    assert WordShifted(po, width, request, 0);
    SameWordIn(pi, po, 0, width);
    I.ScanAccepts(ti, width, pi, wr, at);
    forall m: nat | m < wr ensures WordOf(pi, a, width, data, m) {
      assert WordShifted(po, width, request, m + 2);
      BeginsAdd(0, width, 2, m);
      SameWordIn(pi, po, Begins(a, width, m), width);
      assert data[m] == request[2..2 + wr][m];
    }
    AcceptedArePrefix(pi, a, width, data);
    assert CountShown(width, ti, po, at);
  }

  lemma {:induction false} WrittenAt(po: seq<Pins>, a: nat, width: nat, count: nat, i: nat)
    requires width > 0 && Begins(a, width, count) <= |po| && i < count
    ensures Begins(a, width, i) < |po|
    ensures WordPinsFrom(po, a, width, count)[i].written == po[Begins(a, width, i)].written
    decreases i
  {
    Reaches(a + width, width, count - 1);
    if i > 0 {
      WrittenAt(po, a + width, width, count - 1, i - 1);
    }
  }

  /**
   * The answer of the chip to a request. `taken` are the words it has taken from the request and
   * `data` those it gives, both whatever the FIFOs allowed.
   */
  function Reply(width: nat, wr: nat, rd: nat, taken: nat, data: seq<Word>): seq<Word>
    requires |data| <= rd
  {
    var total := Max(wr, rd);
    if F.Late(wr, rd, |data|) then data + F.Repeat(width, total - rd + 1) + [ToBits(taken, width)]
    else data + F.Repeat(width, total - |data|) + [ToBits(taken, width), ToBits(|data|, width)]
  }

  /** The first two words shifted are the lengths. */
  lemma LengthsShifted(po: seq<Pins>, width: nat, request: seq<Word>, i: nat, j: nat)
    requires width > 0 && Shifts(po, width, request) && |request| >= 2 && i == 0 && j == 1
    ensures 2 * width <= |po| && WordIn(po, 0, width) == request[0] && WordIn(po, width, width) == request[1]
  {
    assert WordShifted(po, width, request, i) && WordShifted(po, width, request, j);
    assert Begins(0, width, i) == 0 && Begins(0, width, j) == Begins(width, width, i) == width;
  }

  lemma OutputReplies(width: nat, ti: seq<I.Registers>, pi: seq<I.Pins>, to: seq<Registers>, po: seq<Pins>,
                      request: seq<Word>, wr: nat, rd: nat, data: seq<Word>, taken: nat)
    requires SameScan(width, ti, pi, to, po) && Shifts(po, width, request) && IsRequest(request, width, wr, rd, data)
    requires forall at :: Begins(2 * width, width, Max(wr, rd)) <= at < |po| ==> po[at].written == ToBits(taken, width)
    ensures Begins(2 * width, width, Max(wr, rd) + 2) == |po|
    ensures |F.Pops(to, width, po, 0, |po|)| <= rd
    ensures WordsOut(to, po, 2 * width, width, Max(wr, rd) + 2)
      == Reply(width, wr, rd, taken, F.Pops(to, width, po, 0, |po|))
  {
    var total, a := Max(wr, rd), 2 * width;
    LengthsShifted(po, width, request, 0, 1);
    F.ScanAnswers(to, width, po, wr, rd);
    var ws := WordPinsFrom(po, a, width, total + 2);
    CountsInPlace(po, a, width, total, taken);
    AnswerIsReply(width, wr, rd, taken, F.Pops(to, width, po, 0, |po|), ws);
  }

  lemma CountsInPlace(po: seq<Pins>, a: nat, width: nat, total: nat, taken: nat)
    requires width > 0 && Begins(a, width, total + 2) == |po|
    requires forall at :: Begins(a, width, total) <= at < |po| ==> po[at].written == ToBits(taken, width)
    ensures var ws := WordPinsFrom(po, a, width, total + 2);
      ws[total].written == ws[total + 1].written == ToBits(taken, width)
  {
    WrittenAt(po, a, width, total + 2, total);
    WrittenAt(po, a, width, total + 2, total + 1);
    BeginsGrows(a, width, total, total + 1);
  }

  lemma AnswerIsReply(width: nat, wr: nat, rd: nat, taken: nat, data: seq<Word>, ws: seq<WordPins>)
    requires |ws| == Max(wr, rd) + 2 && |data| <= rd
    requires ws[Max(wr, rd)].written == ws[Max(wr, rd) + 1].written == ToBits(taken, width)
    ensures F.Answer(width, wr, rd, data, ws) == Reply(width, wr, rd, taken, data)
  {}

  /**
   * The whole chip: it takes a prefix of the words written, and its reply says how many, unless the
   * counts are late.
   */
  lemma ChipReplies(width: nat, ti: seq<I.Registers>, pi: seq<I.Pins>, to: seq<Registers>, po: seq<Pins>,
                    request: seq<Word>, wr: nat, rd: nat, data: seq<Word>)
    requires SameScan(width, ti, pi, to, po) && Shifts(po, width, request) && IsRequest(request, width, wr, rd, data)
    ensures Begins(2 * width, width, Max(wr, rd) + 2) == |po|
    ensures I.Pushes(ti, width, pi, 0, |pi|) <= data && |F.Pops(to, width, po, 0, |po|)| <= rd
    ensures WordsOut(to, po, 2 * width, width, Max(wr, rd) + 2)
      == Reply(width, wr, rd, |I.Pushes(ti, width, pi, 0, |pi|)|, F.Pops(to, width, po, 0, |po|))
  {
    var total, taken := Max(wr, rd), I.Pushes(ti, width, pi, 0, |pi|);
    BeginsAdd(0, width, 2, total);
    assert Begins(0, width, 2) == Begins(width, width, 1) == 2 * width;
    BeginsLater(0, width, total + 2);
    BeginsLater(0, width, total + 3);
    InputAccepts(width, ti, pi, to, po, request, wr, rd, data, Begins(2 * width, width, total));
    forall at | Begins(2 * width, width, total) <= at < |po| ensures po[at].written == ToBits(|taken|, width) {
      InputAccepts(width, ti, pi, to, po, request, wr, rd, data, at);
    }
    OutputReplies(width, ti, pi, to, po, request, wr, rd, data, |taken|);
  }
}
