/**
 * The host's side of the JTAG transfer: it sends as much as it likes, keeps what was not
 * acknowledged, and adapts the length of its transfers.
 */
module JtagHost {
  import opened Bits
  import opened Bytes
  import opened JtagWords
  import opened Levels
  import C = JtagChip
  import O = JtagOutput

  const MAX_PAYLOAD_WORDS: nat := 15000

  function Min(a: nat, b: nat): nat { if a < b then a else b }

  function Max(a: nat, b: nat): nat { O.Max(a, b) }

  // ---------- How much to transfer ----------

  /** Words to write and to read, limited by what the buffers hold and can take. */
  function PayloadLen(wanted: nat, availWr: nat, availRd: nat): (nat, nat) {
    var payload := Min(wanted, Max(availWr, availRd));
    (Min(availWr, payload), Min(availRd, payload))
  }

  /** `n` words are no more than wanted and fit these bytes, and one more would not. */
  predicate IsLargest(n: nat, wanted: nat, bytes: nat, width: nat) {
    n <= wanted && ToBytes(width, n) <= bytes && (n == wanted || ToBytes(width, n + 1) > bytes)
  }

  /** The lengths for this many bytes to write and to read. */
  function PlanLengths(wanted: nat, stored: nat, free: nat, width: nat): (r: (nat, nat))
    requires width > 0
    ensures IsLargest(r.0, wanted, stored, width) && IsLargest(r.1, wanted, free, width)
  {
    PayloadIsLargest(wanted, stored, free, width);
    PayloadLen(wanted, stored / width, free / width)
  }

  /** Both lengths are as large as they can be; neither direction takes anything from the other. */
  lemma PayloadIsLargest(wanted: nat, stored: nat, free: nat, width: nat)
    requires width > 0
    ensures var r := PayloadLen(wanted, stored / width, free / width);
      IsLargest(r.0, wanted, stored, width) && IsLargest(r.1, wanted, free, width)
  {
    LargestLength(wanted, stored, width);
    LargestLength(wanted, free, width);
  }

  lemma LargestLength(wanted: nat, bytes: nat, width: nat)
    requires width > 0
    ensures IsLargest(Min(wanted, bytes / width), wanted, bytes, width)
  {
    var n := Min(wanted, bytes / width);
    WordsInBytes(bytes, width, n);
    if n < wanted {
      ToBytesIs(width, n + 1);
      assert bytes < width * (bytes / width) + width == width * (n + 1);
    }
  }

  /** The largest transfer that keeps the header from being all ones. */
  function Limit(width: nat): nat
    requires width > 0
  {
    Min(MAX_PAYLOAD_WORDS, Pow2(8 * width) - 2)
  }

  /** A number, cut to the range of transfer lengths. */
  function Cut(n: nat, least: nat, width: nat): nat
    requires width > 0
  {
    Min(Max(least, Min(n, Limit(width))), MAX_PAYLOAD_WORDS)
  }

  /** Nearly everything went through in one direction. */
  predicate WentThrough(acked: nat, read: nat, wr: nat, rd: nat) { 10 * acked > 9 * wr || 10 * read >= 9 * rd }

  /** At most half went through in both. */
  predicate Failed(acked: nat, read: nat, wr: nat, rd: nat) {
    !WentThrough(acked, read, wr, rd) && 2 * acked <= wr && 2 * read <= rd
  }

  function Scaled(wanted: nat, acked: nat, read: nat, wr: nat, rd: nat): nat {
    var w := wanted as real;
    if acked as real > 0.9 * wr as real || read as real >= 0.9 * rd as real then (w * 1.5).Floor
    else if acked as real <= 0.5 * wr as real && read as real <= 0.5 * rd as real then (w * 0.3).Floor
    else wanted
  }

  lemma FloorOfRatio(w: nat, p: nat, q: nat)
    requires q > 0
    ensures (w as real * (p as real / q as real)).Floor == w * p / q
  {
    var x := w * p;
    assert w as real * (p as real / q as real) == x as real / q as real;
    assert x == q * (x / q) + x % q;
    assert x as real / q as real == (x / q) as real + (x % q) as real / q as real;
    assert 0.0 <= (x % q) as real / q as real < 1.0;
  }

  /** The factors in whole numbers. */
  lemma ScaledIs(wanted: nat, acked: nat, read: nat, wr: nat, rd: nat)
    ensures Scaled(wanted, acked, read, wr, rd)
      == if WentThrough(acked, read, wr, rd) then wanted * 3 / 2
         else if Failed(acked, read, wr, rd) then wanted * 3 / 10 else wanted
  {
    FloorOfRatio(wanted, 3, 2);
    FloorOfRatio(wanted, 3, 10);
  }

  /** The next transfer length, from how much of the last one went through. */
  function NextWanted(wanted: nat, least: nat, width: nat, acked: nat, read: nat, wr: nat, rd: nat): (n: nat)
    requires 1 <= width <= 3
    ensures 1 <= least <= Limit(width) ==> least <= n <= Limit(width)
    ensures WentThrough(acked, read, wr, rd) ==> n == Cut(wanted * 3 / 2, least, width)
    ensures Failed(acked, read, wr, rd) ==> n == Cut(wanted * 3 / 10, least, width)
    ensures !WentThrough(acked, read, wr, rd) && !Failed(acked, read, wr, rd) ==> n == Cut(wanted, least, width)
  {
    ScaledIs(wanted, acked, read, wr, rd);
    var scaled := Scaled(wanted, acked, read, wr, rd);
    Min(Max(least, Min(scaled, Pow2(8 * width) - 2)), MAX_PAYLOAD_WORDS)
  }

  // ---------- The length over many transfers ----------

  /** What came of a transfer of `wr` and `rd` words. */
  datatype Feedback = Feedback(acked: nat, read: nat, wr: nat, rd: nat)

  function WantedAfter(wanted: nat, least: nat, width: nat, os: seq<Feedback>): nat
    requires 1 <= width <= 3
    decreases |os|
  {
    if os == [] then wanted
    else
      var o := os[0];
      WantedAfter(NextWanted(wanted, least, width, o.acked, o.read, o.wr, o.rd), least, width, os[1..])
  }

  predicate AllThrough(os: seq<Feedback>) {
    forall i :: 0 <= i < |os| ==> WentThrough(os[i].acked, os[i].read, os[i].wr, os[i].rd)
  }

  predicate AllFailed(os: seq<Feedback>) {
    forall i :: 0 <= i < |os| ==> Failed(os[i].acked, os[i].read, os[i].wr, os[i].rd)
  }

  /** From two words on, half as much again is more, until the limit is reached. */
  lemma {:induction false} GrowsToLimit(wanted: nat, least: nat, width: nat, os: seq<Feedback>)
    requires 1 <= width <= 3 && 1 <= least <= Limit(width) && 2 <= wanted <= Limit(width) && AllThrough(os)
    ensures Min(wanted + |os|, Limit(width)) <= WantedAfter(wanted, least, width, os) <= Limit(width)
    decreases |os|
  {
    if os != [] {
      var o := os[0];
      GrowsToLimit(NextWanted(wanted, least, width, o.acked, o.read, o.wr, o.rd), least, width, os[1..]);
    }
  }

  lemma {:induction false} StaysAtOne(width: nat, os: seq<Feedback>)
    requires 1 <= width <= 3 && AllThrough(os)
    ensures WantedAfter(1, 1, width, os) == 1
    decreases |os|
  {
    if os != [] {
      PowersOfTwo();
      StaysAtOne(width, os[1..]);
    }
  }

  lemma {:induction false} FallsToLeast(wanted: nat, least: nat, width: nat, os: seq<Feedback>)
    requires 1 <= width <= 3 && 1 <= least <= Limit(width) && wanted <= Limit(width) && AllFailed(os) && os != []
    ensures var n := WantedAfter(wanted, least, width, os); n == least || (n > least && n + |os| <= wanted)
    decreases |os|
  {
    var o := os[0];
    var next := NextWanted(wanted, least, width, o.acked, o.read, o.wr, o.rd);
    if |os| > 1 {
      FallsToLeast(next, least, width, os[1..]);
    }
  }

  lemma ThroughToLimit(wanted: nat, least: nat, width: nat, os: seq<Feedback>)
    requires 1 <= width <= 3 && 1 <= least <= Limit(width) && 1 <= wanted <= Limit(width) && |os| > Limit(width)
    requires AllThrough(os)
    ensures WantedAfter(wanted, least, width, os) == Limit(width) <==> wanted >= 2 || least >= 2
  {
    PowersOfTwo();
    if wanted == least == 1 {
      StaysAtOne(width, os);
    } else {
      var o := os[0];
      GrowsToLimit(NextWanted(wanted, least, width, o.acked, o.read, o.wr, o.rd), least, width, os[1..]);
    }
  }

  /**
   * Transfers that keep failing bring the length down to the least one, and transfers that keep going
   * through bring it up to the limit, but for one case: a length of one word, with no larger one
   * demanded, stays at one, because half as much again is cut off.
   */
  lemma LengthAdapts(wanted: nat, least: nat, width: nat, os: seq<Feedback>)
    requires 1 <= width <= 3 && 1 <= least <= Limit(width) && 1 <= wanted <= Limit(width) && |os| > Limit(width)
    ensures AllThrough(os) ==> (WantedAfter(wanted, least, width, os) == Limit(width) <==> wanted >= 2 || least >= 2)
    ensures AllFailed(os) ==> WantedAfter(wanted, least, width, os) == least
  {
    if AllFailed(os) {
      FallsToLeast(wanted, least, width, os);
    }
    if AllThrough(os) {
      ThroughToLimit(wanted, least, width, os);
    }
  }

  /** Within the limits no header is all ones, and no more is asked for than the host can store. */
  lemma TransferIsPossible(wanted: nat, width: nat, stored: nat, free: nat)
    requires 1 <= width <= 3 && wanted <= Limit(width)
    ensures var r := PlanLengths(wanted, stored, free, width);
      && r.0 <= wanted && r.1 <= wanted && ToBytes(width, r.0) <= stored && ToBytes(width, r.1) <= free
      && r.0 + 1 < Pow2(8 * width) && r.1 + 1 < Pow2(8 * width)
      && !O.AllOnes(ToWord(CopyToWord(r.0, width))) && !O.AllOnes(ToWord(CopyToWord(r.1, width)))
  {
    var r := PlanLengths(wanted, stored, free, width);
    PowersOfTwo();
    HeaderIsNotAllOnes(r.0, width);
    HeaderIsNotAllOnes(r.1, width);
  }

  lemma Times(a: nat, b: nat, c: nat)
    requires b <= c
    ensures a * b <= a * c
  {}

  lemma WordsInBytes(bytes: nat, width: nat, n: nat)
    requires width > 0 && n <= bytes / width
    ensures ToBytes(width, n) <= bytes
  {
    var q := bytes / width;
    ToBytesIs(width, n);
    Times(width, n, q);
    assert bytes == width * q + bytes % width;
  }

  lemma {:induction false} AllOnesIsLargest(w: Word)
    requires O.AllOnes(w)
    ensures ToNat(w) == Pow2(|w|) - 1
  {
    if w != [] {
      AllOnesIsLargest(w[1..]);
    }
  }

  lemma HeaderIsNotAllOnes(value: nat, width: nat)
    requires 1 <= width <= 4 && value + 1 < Pow2(8 * width)
    ensures !O.AllOnes(ToWord(CopyToWord(value, width)))
  {
    HeaderUnderstood(value, width);
    if O.AllOnes(ToWord(CopyToWord(value, width))) {
      AllOnesIsLargest(ToWord(CopyToWord(value, width)));
    }
  }

  // ---------- The request ----------

  function RequestBytes(width: nat, wr: nat, rd: nat, data: seq<Byte>): seq<Byte>
    requires width > 0
  {
    CopyToWord(wr, width) + CopyToWord(rd, width) + data + Zeros(ToBytes(width, Max(wr, rd) - wr + 2))
  }

  lemma {:induction false} WordsOfZeros(width: nat, n: nat)
    requires width > 0
    ensures |Words(Zeros(ToBytes(width, n)), width)| == n
    decreases n
  {
    if n > 0 {
      assert Zeros(ToBytes(width, n))[width..] == Zeros(ToBytes(width, n - 1));
      WordsOfZeros(width, n - 1);
    }
  }

  lemma OneWord(bs: seq<Byte>, width: nat, rest: seq<Byte>)
    requires |bs| == width > 0
    ensures Words(bs + rest, width) == [ToWord(bs)] + Words(rest, width)
  {
    assert (bs + rest)[..width] == bs && (bs + rest)[width..] == rest;
  }

  /** A number at the head of a request, as the logic reads it. */
  lemma HeaderWord(value: nat, width: nat) returns (w: Word)
    requires 1 <= width <= 4 && value < Pow2(8 * width)
    ensures w == ToWord(CopyToWord(value, width)) && |w| == 8 * width && ToNat(w) == value
    ensures value + 1 < Pow2(8 * width) ==> !O.AllOnes(w)
  {
    w := ToWord(CopyToWord(value, width));
    HeaderUnderstood(value, width);
    if value + 1 < Pow2(8 * width) {
      HeaderIsNotAllOnes(value, width);
    }
  }

  lemma WordsOfParts(h0: seq<Byte>, h1: seq<Byte>, data: seq<Byte>, tail: seq<Byte>, width: nat, n: nat)
    requires |h0| == |h1| == width > 0 && |data| == ToBytes(width, n)
    ensures Words(h0 + h1 + data + tail, width)
      == [ToWord(h0), ToWord(h1)] + Words(data, width) + Words(tail, width)
  {
    assert h0 + h1 + data + tail == h0 + (h1 + (data + tail));
    OneWord(h0, width, h1 + (data + tail));
    OneWord(h1, width, data + tail);
    WordsOfAppend(data, tail, width, n);
  }

  lemma FormsRequest(request: seq<Word>, a: Word, b: Word, data: seq<Word>, zeros: seq<Word>, width: nat, wr: nat,
                     rd: nat)
    requires request == [a, b] + data + zeros && |data| == wr && |zeros| == Max(wr, rd) - wr + 2
    requires |a| == |b| == width && ToNat(a) == wr && ToNat(b) == rd && !O.AllOnes(a)
    ensures C.IsRequest(request, width, wr, rd, data)
  {
    assert request[2..2 + wr] == data;
  }

  lemma PartsFormRequest(h0: seq<Byte>, h1: seq<Byte>, a: Word, b: Word, data: seq<Byte>, width: nat, wr: nat, rd: nat)
    requires |h0| == |h1| == width > 0 && |data| == ToBytes(width, wr) && a == ToWord(h0) && b == ToWord(h1)
    requires ToNat(a) == wr && ToNat(b) == rd && !O.AllOnes(a)
    ensures C.IsRequest(Words(h0 + h1 + data + Zeros(ToBytes(width, Max(wr, rd) - wr + 2)), width), 8 * width, wr, rd,
                        Words(data, width))
  {
    var tail := Zeros(ToBytes(width, Max(wr, rd) - wr + 2));
    WordsOfParts(h0, h1, data, tail, width, wr);
    FlatOfWords(data, width, wr);
    WordsOfZeros(width, Max(wr, rd) - wr + 2);
    FormsRequest(Words(h0 + h1 + data + tail, width), a, b, Words(data, width), Words(tail, width), 8 * width, wr, rd);
  }

  /** The bytes of a request are the words that the logic understands as this request. */
  lemma RequestIsUnderstood(width: nat, wr: nat, rd: nat, data: seq<Byte>)
    requires 1 <= width <= 4 && |data| == ToBytes(width, wr)
    requires wr + 1 < Pow2(8 * width) && rd < Pow2(8 * width)
    ensures C.IsRequest(Words(RequestBytes(width, wr, rd, data), width), 8 * width, wr, rd, Words(data, width))
  {
    var a := HeaderWord(wr, width);
    var b := HeaderWord(rd, width);
    PartsFormRequest(CopyToWord(wr, width), CopyToWord(rd, width), a, b, data, width, wr, rd);
  }

  // ---------- The response ----------

  datatype Counts = Counts(acked: nat, read: nat)

  function CountsOf(response: seq<Byte>, width: nat): Counts
    requires 0 < 2 * width <= |response|
  {
    var n := |response|;
    Counts(CopyFromWord(response[n - 2 * width..n - width]), CopyFromWord(response[n - width..]))
  }

  /** Discards what was acknowledged; the buffer refuses to discard more than the level it sees. */
  function Discarded(buffer: seq<Byte>, level: nat, n: nat): seq<Byte>
    requires level <= |buffer|
  {
    if n <= level then buffer[n..] else buffer
  }

  /** Stores what was read; the buffer refuses to take more than it has room for. */
  function Stored(buffer: seq<Byte>, capacity: nat, bs: seq<Byte>): seq<Byte> {
    if |buffer| + |bs| <= capacity then buffer + bs else buffer
  }

  /** The lengths for a level and the room to read, as the code arrives at them. */
  method LargestLengths(wanted: nat, level: nat, free: nat, width: nat) returns (wr: nat, rd: nat)
    requires width > 0
    ensures IsLargest(wr, wanted, level, width) && IsLargest(rd, wanted, free, width)
  {
    var availWr, availRd := level / width, free / width;
    var payload := Min(wanted, Max(availWr, availRd));
    wr, rd := Min(availWr, payload), Min(availRd, payload);
    PayloadIsLargest(wanted, level, free, width);
  }

  /** What became of a request: built, too large for the buffer it goes to, or its data refused. */
  datatype Outcome = Built | TooSmall | Refused

  /**
   * The host and its buffers. The user writes into `writeBuf` at any time; what he writes between
   * the two reads of a fill level is the parameter `meanwhile` of the methods that ask for it.
   */
  class Host {
    const width: nat
    const capacity: nat
    const room: nat
    var writeBuf: seq<Byte>
    var readBuf: seq<Byte>

    constructor (width: nat, capacity: nat, room: nat)
      requires width > 0
      ensures this.width == width && this.capacity == capacity && this.room == room && writeBuf == readBuf == []
    {
      this.width, this.capacity, this.room := width, capacity, room;
      writeBuf, readBuf := [], [];
    }

    method FillLevel(meanwhile: seq<Byte>) returns (level: nat)
      requires |writeBuf| + |meanwhile| <= room
      modifies `writeBuf
      ensures writeBuf == old(writeBuf) + meanwhile
      ensures level == LevelSeen(old(|writeBuf|) == room, |writeBuf|, room)
    {
      if |writeBuf| == room {
        assert writeBuf + meanwhile == writeBuf;
        return room;
      }
      writeBuf := writeBuf + meanwhile;
      level := if |writeBuf| == room then 0 else |writeBuf|;
    }

    /** The largest transfer wanted for which the level seen has the words and the read buffer the room. */
    method CalcPayloadLen(wanted: nat, meanwhile: seq<Byte>) returns (wr: nat, rd: nat)
      requires width > 0 && |readBuf| <= capacity && |writeBuf| + |meanwhile| <= room
      modifies `writeBuf
      ensures writeBuf == old(writeBuf) + meanwhile
      ensures IsLargest(wr, wanted, LevelSeen(old(|writeBuf|) == room, |writeBuf|, room), width)
      ensures IsLargest(rd, wanted, capacity - |readBuf|, width)
      ensures ToBytes(width, wr) <= |writeBuf|
    {
      var level := FillLevel(meanwhile);
      wr, rd := LargestLengths(wanted, level, capacity - |readBuf|, width);
    }

    /** The oldest bytes, unless the level seen says that there are not so many. */
    method Peek(size: nat, meanwhile: seq<Byte>) returns (refused: bool, data: seq<Byte>)
      requires size <= |writeBuf| && |writeBuf| + |meanwhile| <= room
      modifies `writeBuf
      ensures writeBuf == if size == 0 then old(writeBuf) else old(writeBuf) + meanwhile
      ensures refused <==> size > 0 && LevelSeen(old(|writeBuf|) == room, |writeBuf|, room) < size
      ensures !refused ==> data == writeBuf[..size] == old(writeBuf)[..size]
    {
      if size == 0 {
        return false, [];
      }
      var level := FillLevel(meanwhile);
      refused, data := level < size, writeBuf[..size];
    }

    /** Builds the request in `req`, unless that is too small or the data cannot be had. */
    method BuildRequest(wr: nat, rd: nat, req: array<Byte>, meanwhile: seq<Byte>)
      returns (length: nat, outcome: Outcome)
      requires 0 < width && ToBytes(width, wr) <= |writeBuf| && |writeBuf| + |meanwhile| <= room
      modifies req, `writeBuf
      ensures length == ToBytes(width, Max(wr, rd) + 4) && (outcome == TooSmall <==> length > req.Length)
      ensures outcome == TooSmall ==> req[..] == old(req[..]) && writeBuf == old(writeBuf)
      ensures outcome != TooSmall ==> writeBuf == if wr == 0 then old(writeBuf) else old(writeBuf) + meanwhile
      ensures outcome == Refused <==>
        (length <= req.Length && wr > 0
         && LevelSeen(old(|writeBuf|) == room, |writeBuf|, room) < ToBytes(width, wr))
      ensures outcome == Built ==>
        req[..length] == RequestBytes(width, wr, rd, old(writeBuf)[..ToBytes(width, wr)])
    {
      var total := Max(wr, rd);
      length := ToBytes(width, total + 4);
      if length > req.Length {
        return length, TooSmall;
      }
      LengthOfRequest(width, wr, total);
      var refused, data := Peek(ToBytes(width, wr), meanwhile);
      if refused {
        return length, Refused;
      }
      outcome := Built;
      FillRequest(req, CopyToWord(wr, width), CopyToWord(rd, width), data, ToBytes(width, total - wr + 2));
    }

    /** The request is built as often as it takes for the buffer to be large enough. */
    method Prepare(wr: nat, rd: nat, size: nat, meanwhile: seq<Byte>)
      returns (req: array<Byte>, length: nat, refused: bool)
      requires width > 0 && ToBytes(width, wr) <= |writeBuf| && |writeBuf| + |meanwhile| <= room && size > 0
      modifies `writeBuf
      ensures writeBuf == if wr == 0 then old(writeBuf) else old(writeBuf) + meanwhile
      ensures refused <==> wr > 0 && LevelSeen(old(|writeBuf|) == room, |writeBuf|, room) < ToBytes(width, wr)
      ensures length <= req.Length
      ensures !refused ==> req[..length] == RequestBytes(width, wr, rd, old(writeBuf)[..ToBytes(width, wr)])
    {
      req := new Byte[size](_ => 0);
      var outcome;
      length, outcome := BuildRequest(wr, rd, req, meanwhile);
      while outcome == TooSmall
        invariant req.Length > 0 && fresh(req) && (outcome == TooSmall <==> length > req.Length)
        invariant outcome == TooSmall ==> writeBuf == old(writeBuf)
        invariant outcome != TooSmall ==> writeBuf == if wr == 0 then old(writeBuf) else old(writeBuf) + meanwhile
        invariant outcome == Refused <==>
          (length <= req.Length && wr > 0
           && LevelSeen(old(|writeBuf|) == room, |writeBuf|, room) < ToBytes(width, wr))
        invariant outcome == Built ==>
          req[..length] == RequestBytes(width, wr, rd, old(writeBuf)[..ToBytes(width, wr)])
        invariant length == ToBytes(width, Max(wr, rd) + 4)
        decreases length - req.Length
      {
        req := new Byte[Grown(req.Length)](_ => 0);
        length, outcome := BuildRequest(wr, rd, req, meanwhile);
      }
      refused := outcome == Refused;
    }

    /** The bytes read lie behind the two lengths; there must be as many as the response claims. */
    method ParseResponse(response: seq<Byte>, meanwhile: seq<Byte>) returns (acked: nat, read: nat)
      requires 0 < 2 * width <= |response| && |writeBuf| + |meanwhile| <= room
      requires 2 * width + ToBytes(width, CountsOf(response, width).read) <= |response|
      modifies this
      ensures acked == CountsOf(response, width).acked && read == CountsOf(response, width).read
      ensures var all := old(writeBuf) + meanwhile;
        writeBuf == Discarded(all, LevelSeen(old(|writeBuf|) == room, |all|, room), ToBytes(width, acked))
      ensures readBuf == Stored(old(readBuf), capacity, response[2 * width..][..ToBytes(width, read)])
    {
      var n := |response|;
      acked := CopyFromWord(response[n - 2 * width..n - width]);
      read := CopyFromWord(response[n - width..]);
      var discard, store := ToBytes(width, acked), ToBytes(width, read);
      var level := FillLevel(meanwhile);
      if discard <= level {
        writeBuf := writeBuf[discard..];
      }
      if |readBuf| + store <= capacity {
        readBuf := readBuf + response[2 * width..][..store];
      }
    }
  }

  method Put(dest: array<Byte>, at: nat, bs: seq<Byte>)
    requires at + |bs| <= dest.Length
    modifies dest
    ensures dest[..] == old(dest[..at]) + bs + old(dest[at + |bs|..])
  {
    forall i | at <= i < at + |bs| {
      dest[i] := bs[i - at];
    }
  }

  /** Clears the front of the buffer and copies the parts of a request into it. */
  method FillRequest(req: array<Byte>, h0: seq<Byte>, h1: seq<Byte>, data: seq<Byte>, rest: nat)
    requires |h0| + |h1| + |data| + rest <= req.Length
    modifies req
    ensures req[..|h0| + |h1| + |data| + rest] == h0 + h1 + data + Zeros(rest)
  {
    forall i | 0 <= i < |h0| + |h1| + |data| + rest {
      req[i] := 0;
    }
    ghost var s0 := req[..];
    Put(req, 0, h0);
    ghost var s1 := req[..];
    Put(req, |h0|, h1);
    ghost var s2 := req[..];
    Put(req, |h0| + |h1|, data);
    Assembled(s0, s1, s2, req[..], h0, h1, data, rest);
  }

  /** Zeros with three pieces copied over their beginning. */
  lemma Assembled(s0: seq<Byte>, s1: seq<Byte>, s2: seq<Byte>, s3: seq<Byte>,
                  a: seq<Byte>, b: seq<Byte>, c: seq<Byte>, rest: nat)
    requires var n := |a| + |b| + |c|;
      && |s0| >= n + rest && s0[..n + rest] == Zeros(n + rest)
      && s1 == a + s0[|a|..] && s2 == s1[..|a|] + b + s1[|a| + |b|..] && s3 == s2[..|a| + |b|] + c + s2[n..]
    ensures s3[..|a| + |b| + |c| + rest] == a + b + c + Zeros(rest)
  {
    var n := |a| + |b| + |c|;
    assert s2[..|a| + |b|] == a + b;
    assert s3[n..] == s0[n..];
    forall i | n <= i < n + rest ensures s3[i] == 0 {
      assert s0[i] == s0[..n + rest][i];
    }
  }

  lemma LengthOfRequest(width: nat, wr: nat, total: nat)
    requires wr <= total
    ensures ToBytes(width, total + 4) == 2 * width + ToBytes(width, wr) + ToBytes(width, total - wr + 2)
  {
    ToBytesOfSum(width, wr, total - wr + 2);
  }
}
