/** From the bits on the wire to the host's buffers: a scan of the chip is a round of the transfer. */
module JtagLink {
  import opened Bits
  import opened Bytes
  import opened JtagWords
  import opened JtagRounds
  import H = JtagHost
  import C = JtagChip
  import F = JtagFraming
  import I = JtagInput
  import O = JtagOutput

  lemma {:induction false} PopsAreWords(t: seq<O.Registers>, bits: nat, ps: seq<O.Pins>, a: nat, b: nat)
    requires O.IsScan(t, bits, ps) && a <= b <= |ps|
    ensures forall i :: 0 <= i < |F.Pops(t, bits, ps, a, b)| ==> |F.Pops(t, bits, ps, a, b)[i]| == bits
    decreases b - a
  {
    if a < b {
      assert O.StepsAt(t, bits, ps, a);
      PopsAreWords(t, bits, ps, a + 1, b);
    }
  }

  /** A prefix of the words is a prefix of the bytes. */
  lemma {:induction false} FlatOfPrefix(bs: seq<Byte>, width: nat, ws: seq<Word>)
    requires width > 0 && ws <= Words(bs, width)
    ensures AllOf(ws, width) && Flat(ws, width) <= bs
    decreases |ws|
  {
    if ws != [] {
      var first, rest := bs[..width], bs[width..];
      assert ws[1..] <= Words(rest, width);
      FlatOfPrefix(rest, width, ws[1..]);
      FromToWord(first);
      assert forall i :: 0 < i < |ws| ==> ws[i] == ws[1..][i - 1];
      assert bs == first + rest;
    }
  }

  /** What the host sends, in words. */
  function Request(s: State, l: Link): seq<Word>
    requires Valid(s, l) && s.phase.Requested?
  {
    Words(H.RequestBytes(l.width, s.phase.wr, s.phase.rd, s.phase.data), l.width)
  }

  /** The bytes `reply` are the bits shifted out after the two lengths. */
  ghost predicate ComesBack(width: nat, total: nat, to: seq<O.Registers>, po: seq<O.Pins>, reply: seq<Byte>)
    requires O.IsScan(to, 8 * width, po)
  {
    var bits := 8 * width;
    && O.Begins(2 * bits, bits, total + 2) == |po|
    && AllOf(O.WordsOut(to, po, 2 * bits, bits, total + 2), width)
    && reply == Flat(O.WordsOut(to, po, 2 * bits, bits, total + 2), width)
  }

  /** A scan with lengths and data in bytes. */
  lemma ScanReplies(width: nat, wr: nat, rd: nat, data: seq<Byte>, ti: seq<I.Registers>, pi: seq<I.Pins>,
                    to: seq<O.Registers>, po: seq<O.Pins>)
    requires 1 <= width <= 4 && wr + 1 < Pow2(8 * width) && rd < Pow2(8 * width) && |data| == ToBytes(width, wr)
    requires C.SameScan(8 * width, ti, pi, to, po)
    requires C.Shifts(po, 8 * width, Words(H.RequestBytes(width, wr, rd, data), width))
    ensures var taken, words := I.Pushes(ti, 8 * width, pi, 0, |pi|), F.Pops(to, 8 * width, po, 0, |po|);
      && AllOf(taken, width) && |taken| <= wr && Flat(taken, width) <= data
      && AllOf(words, width) && |words| <= rd
      && ComesBack(width, H.Max(wr, rd), to, po, Flat(ReplyWords(width, wr, rd, |taken|, words), width))
  {
    var bits := 8 * width;
    H.RequestIsUnderstood(width, wr, rd, data);
    C.ChipReplies(bits, ti, pi, to, po, Words(H.RequestBytes(width, wr, rd, data), width), wr, rd, Words(data, width));
    PopsAreWords(to, bits, po, 0, |po|);
    FlatOfPrefix(data, width, I.Pushes(ti, bits, pi, 0, |pi|));
  }

  /**
   * Whatever the FIFOs do during the scan, the words that the logic takes are the first bytes of
   * the write buffer, and the bits that come back are the response of a round with the words it
   * gave.
   */
  lemma ScanIsTransfer(s: State, l: Link, head: seq<Byte>, ti: seq<I.Registers>, pi: seq<I.Pins>,
                       to: seq<O.Registers>, po: seq<O.Pins>)
    requires Valid(s, l) && s.phase.Requested? && |head| == 2 * l.width
    requires C.SameScan(8 * l.width, ti, pi, to, po) && C.Shifts(po, 8 * l.width, Request(s, l))
    ensures var taken, words := I.Pushes(ti, 8 * l.width, pi, 0, |pi|), F.Pops(to, 8 * l.width, po, 0, |po|);
      && AllOf(taken, l.width) && Possible(s, l, Scan(head, |taken|, words)) && Flat(taken, l.width) <= s.writeBuf
      && ComesBack(l.width, H.Max(s.phase.wr, s.phase.rd), to, po,
                   AfterScan(s, l, head, |taken|, words).phase.response[2 * l.width..])
  {
    ScanReplies(l.width, s.phase.wr, s.phase.rd, s.phase.data, ti, pi, to, po);
  }
}
