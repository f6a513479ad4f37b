/**
 * The JTAG input: it reads the number of words that follow, skips the length meant for the output,
 * and passes words on until they do not fit; everything after that is dropped.
 */
module JtagInput {
  import opened Bits
  import O = JtagOutput
  import Sequences

  type Word = seq<bool>

  datatype State = Idle | PacketLength | IgnoreReadLength | ReadPacket | DropPacket

  datatype Registers = Registers(state: State, bitCnt: nat, cnt: Word, data: Word, accepted: nat, jtagReset: bool)

  /** `ready` says that the FIFO behind can take a word. */
  datatype Pins = Pins(tdi: bool, shift: bool, update: bool, capture: bool, ready: bool)

  predicate Fits(r: Registers, width: nat) {
    width >= 2 && |r.cnt| == |r.data| == width && r.bitCnt < width
  }

  function AfterUpdate(width: nat): Registers { Registers(DropPacket, 0, O.Zero(width), O.Zero(width), 0, false) }

  /** The word is complete with this bit. */
  predicate LastBit(r: Registers, width: nat) { r.bitCnt == width - 1 }

  function IdleNext(r: Registers, width: nat, p: Pins): Registers
    requires Fits(r, width)
  {
    if p.shift then
      Registers(PacketLength, O.Later(r.bitCnt, width), O.Zero(width)[r.bitCnt := p.tdi], O.Zero(width), 0, false)
    else Registers(Idle, 0, O.Zero(width), O.Zero(width), 0, false)
  }

  function LengthNext(r: Registers, width: nat, p: Pins): Registers
    requires Fits(r, width)
  {
    var cnt := r.cnt[r.bitCnt := p.tdi];
    var r' := r.(cnt := cnt, bitCnt := O.Later(r.bitCnt, width));
    if !LastBit(r, width) then r'
    else if O.AllOnes(cnt) then r'.(state := DropPacket, jtagReset := true)
    else r'.(state := if ToNat(cnt) > 0 then IgnoreReadLength else DropPacket, jtagReset := false)
  }

  function PacketNext(r: Registers, width: nat, p: Pins): Registers
    requires Fits(r, width)
  {
    var r' := r.(data := r.data[r.bitCnt := p.tdi], bitCnt := O.Later(r.bitCnt, width));
    if !LastBit(r, width) then r'
    else if !p.ready then r'.(state := DropPacket)
    else
      var left := if ToNat(r.cnt) > 0 then ToNat(r.cnt) - 1 else Pow2(width) - 1;
      r'.(accepted := r.accepted + 1, cnt := ToBits(left, width), state := if left == 0 then DropPacket else ReadPacket)
  }

  /** One clock edge. */
  function AtEdge(r: Registers, width: nat, p: Pins): (r': Registers)
    requires Fits(r, width)
    ensures Fits(r', width)
  {
    if p.update then AfterUpdate(width)
    else
      match r.state
      case Idle => IdleNext(r, width, p)
      case PacketLength => LengthNext(r, width, p)
      case IgnoreReadLength =>
        r.(bitCnt := O.Later(r.bitCnt, width), state := if LastBit(r, width) then ReadPacket else IgnoreReadLength)
      case ReadPacket => PacketNext(r, width, p)
      case DropPacket => r.(bitCnt := 0, jtagReset := false, state := if p.capture then Idle else DropPacket)
  }

  /** A word is passed on in the cycle; it is `Flit`. */
  predicate Push(r: Registers, width: nat, p: Pins) { r.state == ReadPacket && LastBit(r, width) && p.ready }

  function Flit(r: Registers, p: Pins): Word
    requires r.bitCnt < |r.data|
  {
    r.data[r.bitCnt := p.tdi]
  }

  /** The input with its registers. */
  class Input {
    const width: nat
    var state: State
    var bitCnt: nat
    var cnt: Word
    var data: Word
    var accepted: nat
    var jtagReset: bool

    ghost function Value(): Registers
      reads this
    {
      Registers(state, bitCnt, cnt, data, accepted, jtagReset)
    }

    constructor (width: nat)
      requires width >= 2
      ensures this.width == width && Value() == AfterUpdate(width)
    {
      this.width := width;
      state, bitCnt, accepted, jtagReset := DropPacket, 0, 0, false;
      cnt, data := O.Zero(width), O.Zero(width);
    }

    method Clear(s: State)
      modifies this
      ensures Value() == Registers(s, 0, O.Zero(width), O.Zero(width), 0, false)
    {
      state, bitCnt, accepted, jtagReset := s, 0, 0, false;
      cnt, data := O.Zero(width), O.Zero(width);
    }

    method ReadLengthBit(p: Pins)
      requires Fits(Value(), width) && state == PacketLength
      modifies this
      ensures Value() == LengthNext(old(Value()), width, p)
    {
      cnt := cnt[bitCnt := p.tdi];
      if bitCnt < width - 1 {
        bitCnt := bitCnt + 1;
      } else {
        bitCnt := 0;
        if O.AllOnes(cnt) {
          state, jtagReset := DropPacket, true;
        } else {
          state, jtagReset := if ToNat(cnt) > 0 then IgnoreReadLength else DropPacket, false;
        }
      }
    }

    method ReadDataBit(p: Pins) returns (inValid: bool)
      requires Fits(Value(), width) && state == ReadPacket
      modifies this
      ensures Value() == PacketNext(old(Value()), width, p) && (inValid <==> Push(old(Value()), width, p))
    {
      inValid := false;
      data := data[bitCnt := p.tdi];
      if bitCnt < width - 1 {
        bitCnt := bitCnt + 1;
      } else {
        bitCnt := 0;
        if p.ready {
          inValid, accepted := true, accepted + 1;
          var left := if ToNat(cnt) > 0 then ToNat(cnt) - 1 else Pow2(width) - 1;
          cnt := ToBits(left, width);
          state := if left == 0 then DropPacket else ReadPacket;
        } else {
          state := DropPacket;
        }
      }
    }

    method Clock(p: Pins) returns (inValid: bool, inFlit: Word)
      requires Fits(Value(), width)
      modifies this
      ensures Value() == AtEdge(old(Value()), width, p)
      ensures (inValid <==> Push(old(Value()), width, p)) && (inValid ==> inFlit == Flit(old(Value()), p))
    {
      inValid, inFlit := false, O.Zero(width);
      match state {
        case Idle =>
          var at := bitCnt;
          Clear(Idle);
          if p.shift {
            state, cnt := PacketLength, cnt[at := p.tdi];
            bitCnt := O.Later(at, width);
          }
        case PacketLength =>
          ReadLengthBit(p);
        case IgnoreReadLength =>
          state := if bitCnt == width - 1 then ReadPacket else IgnoreReadLength;
          bitCnt := O.Later(bitCnt, width);
        case ReadPacket =>
          inFlit := data[bitCnt := p.tdi];
          inValid := ReadDataBit(p);
        case DropPacket =>
          bitCnt, jtagReset := 0, false;
          state := if p.update || p.capture then Idle else DropPacket;
      }
      if p.update {
        Clear(DropPacket);
      }
    }
  }

  // ---------- Whole scans ----------

  predicate Scanning(p: Pins) { p.shift && !p.update && !p.capture }

  /** After the capture that precedes a scan. */
  function Ready(width: nat): Registers { Registers(Idle, 0, O.Zero(width), O.Zero(width), 0, false) }

  function Edges(r: Registers, width: nat, ps: seq<Pins>): (r': Registers)
    requires Fits(r, width)
    ensures Fits(r', width)
  {
    if ps == [] then r else AtEdge(Edges(r, width, ps[..|ps| - 1]), width, ps[|ps| - 1])
  }

  predicate Quiet(ps: seq<Pins>) { forall i :: 0 <= i < |ps| ==> !ps[i].update && !ps[i].capture }

  predicate Waiting(ps: seq<Pins>) { forall i :: 0 <= i < |ps| ==> !ps[i].update && !ps[i].shift }

  lemma {:induction false} QuietKeeps(width: nat, ps: seq<Pins>)
    requires width >= 2 && Quiet(ps)
    ensures Edges(AfterUpdate(width), width, ps) == AfterUpdate(width)
    decreases |ps|
  {
    if ps != [] {
      QuietKeeps(width, ps[..|ps| - 1]);
    }
  }

  lemma {:induction false} WaitingKeeps(width: nat, ps: seq<Pins>)
    requires width >= 2 && Waiting(ps)
    ensures Edges(Ready(width), width, ps) == Ready(width)
    decreases |ps|
  {
    if ps != [] {
      WaitingKeeps(width, ps[..|ps| - 1]);
    }
  }

  /** The pins between two scans: an update, later a capture, and time around them. */
  predicate IsPause(update: Pins, quiet: seq<Pins>, capture: Pins, waiting: seq<Pins>) {
    update.update && Quiet(quiet) && capture.capture && !capture.update && Waiting(waiting)
  }

  function AfterPause(r: Registers, width: nat, update: Pins, quiet: seq<Pins>, capture: Pins, waiting: seq<Pins>)
    : Registers
    requires Fits(r, width)
  {
    Edges(AtEdge(Edges(AtEdge(r, width, update), width, quiet), width, capture), width, waiting)
  }

  /** Whatever has gone before, after the pause the input is ready. */
  lemma PauseMakesReady(r: Registers, width: nat, update: Pins, quiet: seq<Pins>, capture: Pins, waiting: seq<Pins>)
    requires Fits(r, width) && IsPause(update, quiet, capture, waiting)
    ensures AfterPause(r, width, update, quiet, capture, waiting) == Ready(width)
  {
    QuietKeeps(width, quiet);
    WaitingKeeps(width, waiting);
  }

  ghost predicate StepsAt(t: seq<Registers>, width: nat, ps: seq<Pins>, i: nat) {
    && i < |ps| && |t| == |ps| + 1 && Scanning(ps[i])
    && Fits(t[i], width) && t[i + 1] == AtEdge(t[i], width, ps[i])
  }

  ghost predicate IsScan(t: seq<Registers>, width: nat, ps: seq<Pins>) {
    && |t| == |ps| + 1 && width >= 2 && t[0] == Ready(width)
    && forall i: nat :: i < |ps| ==> StepsAt(t, width, ps, i)
  }

  function WordIn(ps: seq<Pins>, a: nat, width: nat): (w: Word)
    requires a + width <= |ps|
    ensures |w| == width
  {
    seq(width, j requires 0 <= j < width => ps[a + j].tdi)
  }

  /** The words passed on in the cycles from `a` to `b`. */
  ghost function Pushes(t: seq<Registers>, width: nat, ps: seq<Pins>, a: nat, b: nat): seq<Word>
    requires IsScan(t, width, ps) && a <= b <= |ps|
    decreases b - a
  {
    if a == b then []
    else
      assert StepsAt(t, width, ps, a);
      (if Push(t[a], width, ps[a]) then [Flit(t[a], ps[a])] else []) + Pushes(t, width, ps, a + 1, b)
  }

  lemma {:induction false} PushesSplit(t: seq<Registers>, width: nat, ps: seq<Pins>, a: nat, b: nat, c: nat)
    requires IsScan(t, width, ps) && a <= b <= c <= |ps|
    ensures Pushes(t, width, ps, a, c) == Pushes(t, width, ps, a, b) + Pushes(t, width, ps, b, c)
    decreases b - a
  {
    if a < b {
      PushesSplit(t, width, ps, a + 1, b, c);
    }
  }

  lemma {:induction false} NoPushes(t: seq<Registers>, width: nat, ps: seq<Pins>, a: nat, b: nat)
    requires IsScan(t, width, ps) && a <= b <= |ps|
    requires forall i :: a <= i < b ==> t[i].state != ReadPacket
    ensures Pushes(t, width, ps, a, b) == []
    decreases b - a
  {
    if a < b {
      NoPushes(t, width, ps, a + 1, b);
    }
  }

  lemma {:induction false} LengthBits(t: seq<Registers>, width: nat, ps: seq<Pins>, j: nat)
    requires IsScan(t, width, ps) && 1 <= j < width <= |ps|
    ensures Fits(t[j], width) && t[j].state == PacketLength && t[j].bitCnt == j && t[j].accepted == 0
    ensures t[j].cnt[..j] == WordIn(ps, 0, width)[..j]
    decreases j
  {
    assert StepsAt(t, width, ps, j - 1);
    if j > 1 {
      LengthBits(t, width, ps, j - 1);
    }
    assert t[j].cnt[..j] == t[j - 1].cnt[..j - 1] + [ps[j - 1].tdi];
  }

  lemma LengthRead(t: seq<Registers>, width: nat, ps: seq<Pins>)
    requires IsScan(t, width, ps) && width <= |ps|
    ensures var w, r := WordIn(ps, 0, width), t[width];
      && Fits(r, width) && r.bitCnt == 0 && r.accepted == 0
      && (if O.AllOnes(w) then r.state == DropPacket && r.jtagReset
          else r.state == (if ToNat(w) > 0 then IgnoreReadLength else DropPacket) && ToNat(r.cnt) == ToNat(w)
               && !r.jtagReset)
    ensures Pushes(t, width, ps, 0, width) == []
  {
    var n := width - 1;
    LengthBits(t, width, ps, n);
    assert StepsAt(t, width, ps, n);
    assert t[n].cnt[n := ps[n].tdi] == WordIn(ps, 0, width);
    forall i | 0 <= i < width ensures t[i].state != ReadPacket {
      if i > 0 {
        LengthBits(t, width, ps, i);
      }
    }
    NoPushes(t, width, ps, 0, width);
  }

  lemma {:induction false} IgnoreBits(t: seq<Registers>, width: nat, ps: seq<Pins>, a: nat, j: nat)
    requires IsScan(t, width, ps) && j < width && a + width <= |ps|
    requires t[a].state == IgnoreReadLength && t[a].bitCnt == 0
    ensures Fits(t[a + j], width) && t[a + j] == t[a].(bitCnt := j)
    decreases j
  {
    assert StepsAt(t, width, ps, a + j);
    if j > 0 {
      IgnoreBits(t, width, ps, a, j - 1);
      assert StepsAt(t, width, ps, a + j - 1);
    }
  }

  lemma LengthIgnored(t: seq<Registers>, width: nat, ps: seq<Pins>, a: nat)
    requires IsScan(t, width, ps) && a + width <= |ps|
    requires t[a].state == IgnoreReadLength && t[a].bitCnt == 0
    ensures t[a + width] == t[a].(state := ReadPacket) && Pushes(t, width, ps, a, a + width) == []
  {
    IgnoreBits(t, width, ps, a, width - 1);
    assert StepsAt(t, width, ps, a + width - 1);
    forall i | a <= i < a + width ensures t[i].state != ReadPacket {
      IgnoreBits(t, width, ps, a, i - a);
    }
    NoPushes(t, width, ps, a, a + width);
  }

  lemma {:induction false} DropStays(t: seq<Registers>, width: nat, ps: seq<Pins>, a: nat, b: nat)
    requires IsScan(t, width, ps) && a <= b <= |ps| && t[a].state == DropPacket
    ensures t[b].state == DropPacket && t[b].accepted == t[a].accepted && Pushes(t, width, ps, a, b) == []
    decreases b - a
  {
    if a < b {
      assert StepsAt(t, width, ps, a);
      DropStays(t, width, ps, a + 1, b);
    }
  }

  /** The first `j` bits of the data word `word` have been read since `from`. */
  predicate HasRead(r: Registers, from: Registers, width: nat, word: Word, j: nat) {
    && Fits(r, width) && |word| == width && j < width && r.state == ReadPacket && r.bitCnt == j
    && r.cnt == from.cnt && r.accepted == from.accepted && r.data[..j] == word[..j]
  }

  /** A bit of a data word that is not its last. */
  lemma OneDataBit(r: Registers, from: Registers, width: nat, p: Pins, word: Word, j: nat)
    requires HasRead(r, from, width, word, j) && j + 1 < width && p.tdi == word[j] && Scanning(p)
    ensures HasRead(AtEdge(r, width, p), from, width, word, j + 1) && !Push(r, width, p)
  {
    assert r.data[j := p.tdi][..j + 1] == r.data[..j] + [p.tdi];
    assert word[..j + 1] == word[..j] + [word[j]];
  }

  lemma {:induction false} DataBits(t: seq<Registers>, width: nat, ps: seq<Pins>, a: nat, j: nat)
    requires IsScan(t, width, ps) && j < width && a + width <= |ps|
    requires t[a].state == ReadPacket && t[a].bitCnt == 0
    ensures HasRead(t[a + j], t[a], width, WordIn(ps, a, width), j)
    ensures Pushes(t, width, ps, a, a + j) == []
    decreases j
  {
    assert StepsAt(t, width, ps, a + j);
    if j > 0 {
      var i := a + j - 1;
      DataBits(t, width, ps, a, j - 1);
      assert StepsAt(t, width, ps, i);
      OneDataBit(t[i], t[a], width, ps[i], WordIn(ps, a, width), j - 1);
      NoPush(t, width, ps, a, i);
    }
  }

  lemma NoPush(t: seq<Registers>, width: nat, ps: seq<Pins>, a: nat, i: nat)
    requires IsScan(t, width, ps) && a <= i < |ps| && Pushes(t, width, ps, a, i) == []
    requires StepsAt(t, width, ps, i) && !Push(t[i], width, ps[i])
    ensures Pushes(t, width, ps, a, i + 1) == []
  {
    PushesSplit(t, width, ps, a, i, i + 1);
    OnePush(t, width, ps, i);
  }

  lemma LastDataBit(r: Registers, width: nat, p: Pins, word: Word)
    requires Fits(r, width) && r.state == ReadPacket && r.bitCnt == width - 1 && ToNat(r.cnt) > 0
    requires |word| == width && r.data[..width - 1] == word[..width - 1] && p.tdi == word[width - 1] && Scanning(p)
    ensures var r' := AtEdge(r, width, p);
      && r'.bitCnt == 0 && |r'.cnt| == width && r'.accepted == r.accepted + (if p.ready then 1 else 0)
      && (if p.ready && ToNat(r.cnt) > 1 then r'.state == ReadPacket && ToNat(r'.cnt) == ToNat(r.cnt) - 1
          else r'.state == DropPacket)
    ensures Flit(r, p) == word && (Push(r, width, p) <==> p.ready)
  {
    assert r.data[width - 1 := p.tdi] == word;
    ToBitsInvertsToNat(r.cnt);
    ToNatInvertsToBits(ToNat(r.cnt) - 1, width);
  }

  lemma OnePush(t: seq<Registers>, width: nat, ps: seq<Pins>, a: nat)
    requires IsScan(t, width, ps) && a < |ps| && StepsAt(t, width, ps, a)
    ensures Pushes(t, width, ps, a, a + 1) == if Push(t[a], width, ps[a]) then [Flit(t[a], ps[a])] else []
  {
    assert Pushes(t, width, ps, a + 1, a + 1) == [];
  }

  /** A data word is passed on as a whole if there is room in its last cycle, or else the rest is dropped. */
  lemma DataWord(t: seq<Registers>, width: nat, ps: seq<Pins>, a: nat)
    requires IsScan(t, width, ps) && a + width <= |ps|
    requires t[a].state == ReadPacket && t[a].bitCnt == 0 && ToNat(t[a].cnt) > 0 && |t[a].cnt| == width
    ensures var r, ready := t[a + width], ps[a + width - 1].ready;
      && r.bitCnt == 0 && |r.cnt| == width && r.accepted == t[a].accepted + (if ready then 1 else 0)
      && (if ready && ToNat(t[a].cnt) > 1 then r.state == ReadPacket && ToNat(r.cnt) == ToNat(t[a].cnt) - 1
          else r.state == DropPacket)
      && Pushes(t, width, ps, a, a + width) == if ready then [WordIn(ps, a, width)] else []
  {
    var n := a + width - 1;
    DataBits(t, width, ps, a, width - 1);
    assert StepsAt(t, width, ps, n);
    LastDataBit(t[n], width, ps[n], WordIn(ps, a, width));
    OnePush(t, width, ps, n);
    PushesSplit(t, width, ps, a, n, a + width);
  }

  /** The longest prefix of the `left` words from `a` on for which there was room every time. */
  function Accepted(ps: seq<Pins>, a: nat, width: nat, left: nat): (ws: seq<Word>)
    requires width > 0 && O.Begins(a, width, left) <= |ps|
    ensures |ws| <= left
    decreases left, width
  {
    if left == 0 then []
    else
      O.Reaches(a + width, width, left - 1);
      if ps[a + width - 1].ready then [WordIn(ps, a, width)] + Accepted(ps, a + width, width, left - 1) else []
  }

  /** The first data word, and what is left to do after it. */
  lemma FirstDataWord(t: seq<Registers>, width: nat, ps: seq<Pins>, a: nat, left: nat)
    requires IsScan(t, width, ps) && left > 0 && a <= O.Begins(a, width, left) <= |ps|
    requires t[a].state == ReadPacket && t[a].bitCnt == 0 && ToNat(t[a].cnt) == left && |t[a].cnt| == width
    ensures a + width <= O.Begins(a, width, left) == O.Begins(a + width, width, left - 1)
    ensures var r, ready, end := t[a + width], ps[a + width - 1].ready, O.Begins(a, width, left);
      && r.bitCnt == 0 && |r.cnt| == width && r.accepted == t[a].accepted + (if ready then 1 else 0)
      && (if ready && left > 1 then r.state == ReadPacket && ToNat(r.cnt) == left - 1 else r.state == DropPacket)
      && Pushes(t, width, ps, a, end)
         == (if ready then [WordIn(ps, a, width)] else []) + Pushes(t, width, ps, a + width, end)
  {
    O.Reaches(a + width, width, left - 1);
    DataWord(t, width, ps, a);
    PushesSplit(t, width, ps, a, a + width, O.Begins(a, width, left));
  }

  lemma {:induction false} DataReceived(t: seq<Registers>, width: nat, ps: seq<Pins>, a: nat, left: nat, end: nat,
                                        ws: seq<Word>)
    requires IsScan(t, width, ps) && left > 0 && a <= end <= |ps| && end == O.Begins(a, width, left)
    requires ws == Accepted(ps, a, width, left)
    requires t[a].state == ReadPacket && t[a].bitCnt == 0 && ToNat(t[a].cnt) == left && |t[a].cnt| == width
    ensures t[end].state == DropPacket && t[end].accepted == t[a].accepted + |ws|
    ensures Pushes(t, width, ps, a, end) == ws
    decreases left
  {
    FirstDataWord(t, width, ps, a, left);
    AcceptedNext(ps, a, width, left);
    if ps[a + width - 1].ready && left > 1 {
      DataReceived(t, width, ps, a + width, left - 1, end, Accepted(ps, a + width, width, left - 1));
    } else {
      DropStays(t, width, ps, a + width, end);
      Sequences.NothingBehind(ws);
    }
  }

  lemma AcceptedNext(ps: seq<Pins>, a: nat, width: nat, left: nat)
    requires width > 0 && left > 0 && O.Begins(a, width, left) <= |ps| && a + width <= |ps|
    ensures O.Begins(a + width, width, left - 1) == O.Begins(a, width, left)
    ensures Accepted(ps, a, width, left)
      == if !ps[a + width - 1].ready then []
         else if left == 1 then [WordIn(ps, a, width)]
         else [WordIn(ps, a, width)] + Accepted(ps, a + width, width, left - 1)
  {}

  /** The data words and everything behind them. */
  lemma DataAndRest(t: seq<Registers>, width: nat, ps: seq<Pins>, a: nat, left: nat, at: nat)
    requires IsScan(t, width, ps) && left > 0 && a <= O.Begins(a, width, left) <= at <= |ps|
    requires t[a].state == ReadPacket && t[a].bitCnt == 0 && ToNat(t[a].cnt) == left && |t[a].cnt| == width
    ensures Pushes(t, width, ps, a, |ps|) == Accepted(ps, a, width, left)
    ensures t[at].accepted == t[a].accepted + |Accepted(ps, a, width, left)|
  {
    var end := O.Begins(a, width, left);
    DataReceived(t, width, ps, a, left, end, Accepted(ps, a, width, left));
    PushesSplit(t, width, ps, a, end, |ps|);
    DropStays(t, width, ps, end, at);
    DropStays(t, width, ps, end, |ps|);
  }

  /**
   * A scan with `wr` at its head passes on a prefix of the `wr` words behind the lengths, ended
   * only by a full FIFO, and from the end of those words on the count is the length of that prefix.
   */
  lemma ScanAccepts(t: seq<Registers>, width: nat, ps: seq<Pins>, wr: nat, at: nat)
    requires IsScan(t, width, ps) && 2 * width <= O.Begins(2 * width, width, wr) <= at <= |ps|
    requires !O.AllOnes(WordIn(ps, 0, width)) && wr == ToNat(WordIn(ps, 0, width))
    ensures Pushes(t, width, ps, 0, |ps|) == Accepted(ps, 2 * width, width, wr)
    ensures t[at].accepted == |Accepted(ps, 2 * width, width, wr)|
  {
    LengthRead(t, width, ps);
    PushesSplit(t, width, ps, 0, width, |ps|);
    if wr == 0 {
      DropStays(t, width, ps, width, at);
      DropStays(t, width, ps, width, |ps|);
    } else {
      LengthIgnored(t, width, ps, width);
      PushesSplit(t, width, ps, width, 2 * width, |ps|);
      DataAndRest(t, width, ps, 2 * width, wr, at);
    }
  }

  lemma {:induction false} NoResetBefore(t: seq<Registers>, width: nat, ps: seq<Pins>, i: nat)
    requires IsScan(t, width, ps) && i < width && i <= |ps|
    ensures !t[i].jtagReset && t[i].state == (if i == 0 then Idle else PacketLength) && t[i].bitCnt == i
    decreases i
  {
    if i > 0 {
      assert StepsAt(t, width, ps, i - 1);
      NoResetBefore(t, width, ps, i - 1);
    }
  }

  lemma {:induction false} NoResetBehind(t: seq<Registers>, width: nat, ps: seq<Pins>, i: nat)
    requires IsScan(t, width, ps) && width < i <= |ps|
    ensures t[i].state in {IgnoreReadLength, ReadPacket, DropPacket} && !t[i].jtagReset
    decreases i
  {
    assert StepsAt(t, width, ps, i - 1);
    if i - 1 > width {
      NoResetBehind(t, width, ps, i - 1);
    } else {
      LengthRead(t, width, ps);
    }
  }

  /** The reset signal is raised for one cycle behind a header of all ones, and at no other time. */
  lemma ResetIffAllOnes(t: seq<Registers>, width: nat, ps: seq<Pins>, i: nat)
    requires IsScan(t, width, ps) && i <= |ps|
    ensures t[i].jtagReset <==> i == width && O.AllOnes(WordIn(ps, 0, width))
  {
    if i < width {
      NoResetBefore(t, width, ps, i);
    } else if i == width {
      LengthRead(t, width, ps);
    } else {
      NoResetBehind(t, width, ps, i);
    }
  }

  /** The same of every scan, whatever state the scan before it has left behind. */
  lemma NextScanAccepts(r: Registers, width: nat, update: Pins, quiet: seq<Pins>, capture: Pins, waiting: seq<Pins>,
                        t: seq<Registers>, ps: seq<Pins>, wr: nat, at: nat)
    requires Fits(r, width) && IsPause(update, quiet, capture, waiting)
    requires |t| == |ps| + 1 && t[0] == AfterPause(r, width, update, quiet, capture, waiting)
    requires forall i: nat :: i < |ps| ==> StepsAt(t, width, ps, i)
    requires 2 * width <= O.Begins(2 * width, width, wr) <= at <= |ps|
    requires !O.AllOnes(WordIn(ps, 0, width)) && wr == ToNat(WordIn(ps, 0, width))
    ensures IsScan(t, width, ps) && Pushes(t, width, ps, 0, |ps|) == Accepted(ps, 2 * width, width, wr)
    ensures t[at].accepted == |Accepted(ps, 2 * width, width, wr)|
  {
    PauseMakesReady(r, width, update, quiet, capture, waiting);
    ScanAccepts(t, width, ps, wr, at);
  }
}
