/** Round after round of the JTAG transfer: what the user writes, what the logic takes, and back. */
module JtagRounds {
  import opened Bits
  import opened Bytes
  import opened Sequences
  import opened JtagWords
  import opened JtagHost
  import opened Levels
  import C = JtagChip
  import F = JtagFraming
  import O = JtagOutput

  // ---------- A response, as the host reads it ----------

  function ReplyWords(width: nat, wr: nat, rd: nat, taken: nat, data: seq<Word>): (ws: seq<Word>)
    requires |data| <= rd && AllOf(data, width)
    ensures AllOf(ws, width)
  {
    C.Reply(8 * width, wr, rd, taken, data)
  }

  /** Everything shifted out: two words of no meaning, and the reply. */
  function Response(width: nat, head: seq<Byte>, wr: nat, rd: nat, taken: nat, data: seq<Word>): seq<Byte>
    requires |head| == 2 * width && |data| <= rd && AllOf(data, width)
  {
    head + Flat(ReplyWords(width, wr, rd, taken, data), width)
  }

  lemma FlatOfOne(w: Word, width: nat)
    requires |w| == 8 * width
    ensures Flat([w], width) == FromWord(w)
  {
    assert FromWord(w) + [] == FromWord(w);
  }

  lemma LastTwo(r: seq<Byte>, front: seq<Byte>, a: seq<Byte>, b: seq<Byte>, width: nat)
    requires r == front + (a + b) && |a| == |b| == width > 0
    ensures CountsOf(r, width) == Counts(CopyFromWord(a), CopyFromWord(b))
  {
    assert r[|r| - 2 * width..|r| - width] == a && r[|r| - width..] == b;
  }

  /** A response that ends in these two words. */
  lemma CountsAtEnd(head: seq<Byte>, body: seq<Word>, a: Word, b: Word, width: nat)
    requires 1 <= width && |head| == 2 * width && AllOf(body, width) && |a| == |b| == 8 * width
    ensures AllOf(body + [a, b], width)
    ensures CountsOf(head + Flat(body + [a, b], width), width)
      == Counts(CopyFromWord(FromWord(a)), CopyFromWord(FromWord(b)))
  {
    FlatOfTwo(a, b, width);
    FlatOfAppend(body, [a, b], width);
    var x, y := FromWord(a), FromWord(b);
    Associate(head, Flat(body, width), x + y);
    LastTwo(head + Flat(body + [a, b], width), head + Flat(body, width), x, y, width);
  }

  lemma FlatOfTwo(a: Word, b: Word, width: nat)
    requires |a| == |b| == 8 * width
    ensures Flat([a, b], width) == FromWord(a) + FromWord(b)
  {
    assert [a] + [b] == [a, b];
    FlatOfAppend([a], [b], width);
    FlatOfOne(a, width);
    FlatOfOne(b, width);
  }

  lemma ZeroIsZero(width: nat)
    requires 1 <= width <= 4
    ensures CopyFromWord(FromWord(O.Zero(8 * width))) == 0
  {
    ZeroBits(8 * width);
    CountsAreRead(0, width);
  }

  lemma {:induction false} ZeroBits(n: nat)
    ensures ToBits(0, n) == O.Zero(n)
    decreases n
  {
    if n > 0 {
      ZeroBits(n - 1);
    }
  }

  lemma LateCountsSeen(width: nat, head: seq<Byte>, wr: nat, rd: nat, taken: nat, data: seq<Word>)
    requires 1 <= width <= 4 && |head| == 2 * width && |data| <= rd && AllOf(data, width)
    requires taken < Pow2(8 * width) && F.Late(wr, rd, |data|)
    ensures CountsOf(Response(width, head, wr, rd, taken, data), width) == Counts(0, taken)
  {
    var total, w := Max(wr, rd), 8 * width;
    var body := data + F.Repeat(w, total - rd);
    assert F.Repeat(w, total - rd + 1) == F.Repeat(w, total - rd) + [O.Zero(w)];
    assert C.Reply(w, wr, rd, taken, data) == body + [O.Zero(w), ToBits(taken, w)];
    CountsAtEnd(head, body, O.Zero(w), ToBits(taken, w), width);
    CountsAreRead(taken, width);
    ZeroIsZero(width);
  }

  lemma TimelyCountsSeen(width: nat, head: seq<Byte>, wr: nat, rd: nat, taken: nat, data: seq<Word>)
    requires 1 <= width <= 4 && |head| == 2 * width && |data| <= rd && AllOf(data, width)
    requires taken < Pow2(8 * width) && rd < Pow2(8 * width) && !F.Late(wr, rd, |data|)
    ensures CountsOf(Response(width, head, wr, rd, taken, data), width) == Counts(taken, |data|)
  {
    var w := 8 * width;
    var body, a, b := data + F.Repeat(w, Max(wr, rd) - |data|), ToBits(taken, w), ToBits(|data|, w);
    CountsAtEnd(head, body, a, b, width);
    assert ReplyWords(width, wr, rd, taken, data) == body + [a, b];
    CountsAreRead(taken, width);
    CountsAreRead(|data|, width);
  }

  /** The host reads the counts that were sent, but if they are late it sees them one place too late. */
  lemma CountsSeen(width: nat, head: seq<Byte>, wr: nat, rd: nat, taken: nat, data: seq<Word>)
    requires 1 <= width <= 4 && |head| == 2 * width && |data| <= rd && AllOf(data, width)
    requires taken < Pow2(8 * width) && rd < Pow2(8 * width)
    ensures CountsOf(Response(width, head, wr, rd, taken, data), width)
      == if F.Late(wr, rd, |data|) then Counts(0, taken) else Counts(taken, |data|)
  {
    if F.Late(wr, rd, |data|) {
      LateCountsSeen(width, head, wr, rd, taken, data);
    } else {
      TimelyCountsSeen(width, head, wr, rd, taken, data);
    }
  }

  lemma ReplyBegins(width: nat, wr: nat, rd: nat, taken: nat, data: seq<Word>) returns (rest: seq<Word>)
    requires |data| <= rd && AllOf(data, width)
    ensures ReplyWords(width, wr, rd, taken, data) == data + rest && AllOf(rest, width)
    ensures |data| + |rest| == Max(wr, rd) + 2
  {
    var reply := ReplyWords(width, wr, rd, taken, data);
    rest := reply[|data|..];
    assert reply[..|data|] == data;
  }

  lemma Middle(head: seq<Byte>, a: seq<Byte>, b: seq<Byte>)
    ensures var r := head + (a + b); r[|head|..][..|a|] == a
  {
    assert (head + (a + b))[|head|..] == a + b;
  }

  /** The bytes behind the head begin with the data. */
  lemma DataSeen(width: nat, head: seq<Byte>, wr: nat, rd: nat, taken: nat, data: seq<Word>)
    requires 1 <= width && |head| == 2 * width && |data| <= rd && AllOf(data, width)
    ensures var r := Response(width, head, wr, rd, taken, data);
      && |r| >= 2 * width + ToBytes(width, Max(wr, rd)) && 2 * width + ToBytes(width, |data|) <= |r|
      && r[2 * width..][..ToBytes(width, |data|)] == Flat(data, width)
  {
    var rest := ReplyBegins(width, wr, rd, taken, data);
    var a, b, m := Flat(data, width), Flat(rest, width), Max(wr, rd);
    FlatOfAppend(data, rest, width);
    LengthOfParts(width, |data|, |rest|, m);
    Middle(head, a, b);
    assert Response(width, head, wr, rd, taken, data) == head + (a + b);
  }

  lemma LengthOfParts(width: nat, i: nat, j: nat, m: nat)
    requires i + j == m + 2
    ensures ToBytes(width, i) + ToBytes(width, j) >= ToBytes(width, m)
  {
    ToBytesOfSum(width, i, j);
    ToBytesGrows(width, m, i + j);
  }

  lemma {:induction false} ToBytesGrows(width: nat, m: nat, n: nat)
    requires m <= n
    ensures ToBytes(width, m) <= ToBytes(width, n)
    decreases n
  {
    if m < n {
      ToBytesGrows(width, m, n - 1);
    }
  }

  /** No count the host sees makes it read beyond the response. */
  lemma ReadIsInside(width: nat, head: seq<Byte>, wr: nat, rd: nat, taken: nat, data: seq<Word>)
    requires 1 <= width <= 4 && |head| == 2 * width && |data| <= rd && AllOf(data, width)
    requires taken <= wr < Pow2(8 * width) && rd < Pow2(8 * width)
    ensures var r := Response(width, head, wr, rd, taken, data);
      0 < 2 * width <= |r| && 2 * width + ToBytes(width, CountsOf(r, width).read) <= |r|
  {
    CountsSeen(width, head, wr, rd, taken, data);
    DataSeen(width, head, wr, rd, taken, data);
    ToBytesGrows(width, taken, Max(wr, rd));
    ToBytesGrows(width, |data|, Max(wr, rd));
  }

  // ---------- The thread and the user ----------

  /** Where the thread is in its round. */
  datatype Phase =
    | Resting
    | Planned(wr: nat, rd: nat)
    | Requested(wr: nat, rd: nat, data: seq<Byte>)
    | Answered(wr: nat, rd: nat, response: seq<Byte>)
    | Acknowledged(wr: nat, rd: nat, response: seq<Byte>)
    | Ended

  /** What the first of the two reads of a fill level has shown. */
  datatype Sight = Unasked | Full | NotFull

  /** `pushed` and `popped` are the bytes the logic has taken and given. */
  datatype State = State(written: seq<Byte>, writeBuf: seq<Byte>, pushed: seq<Byte>,
                         popped: seq<Byte>, readBuf: seq<Byte>, read: seq<Byte>,
                         wanted: nat, phase: Phase, sight: Sight)

  /** `width` is the word width in bytes, `least` the target's buffer size; the others size the host's buffers. */
  datatype Link = Link(width: nat, capacity: nat, room: nat, least: nat)

  /**
   * Steps of the user and of the thread. The thread asks for a fill level in two steps: `TestFull`, and
   * the step that uses the level. A read of the user that is refused changes nothing and is no step.
   */
  datatype Action =
    | UserWrites(bs: seq<Byte>)
    | UserReads(n: nat)
    | TestFull
    | Plan
    | Request
    | Scan(head: seq<Byte>, taken: nat, words: seq<Word>)
    | Discard
    | Store

  predicate ValidLink(l: Link) { 1 <= l.width <= 3 && 1 <= l.least <= Limit(l.width) && l.room >= 1 }

  /** The lengths fit the buffers, and no header is all ones. */
  predicate LengthsFit(s: State, l: Link, wr: nat, rd: nat) {
    && ToBytes(l.width, wr) <= |s.writeBuf| && ToBytes(l.width, rd) <= l.capacity - |s.readBuf|
    && wr + 1 < Pow2(8 * l.width) && rd + 1 < Pow2(8 * l.width)
  }

  predicate Readable(response: seq<Byte>, width: nat) {
    0 < 2 * width <= |response| && 2 * width + ToBytes(width, CountsOf(response, width).read) <= |response|
  }

  predicate PhaseFits(s: State, l: Link) {
    match s.phase
    case Resting => true
    case Planned(wr, rd) => LengthsFit(s, l, wr, rd)
    case Requested(wr, rd, data) =>
      LengthsFit(s, l, wr, rd) && |data| == ToBytes(l.width, wr) && data == s.writeBuf[..ToBytes(l.width, wr)]
    case Answered(_, _, response) => Readable(response, l.width)
    case Acknowledged(_, _, response) => Readable(response, l.width)
    case Ended => true
  }

  predicate Valid(s: State, l: Link) {
    && ValidLink(l) && |s.readBuf| <= l.capacity && |s.writeBuf| <= l.room
    && l.least <= s.wanted <= Limit(l.width)
    && (s.sight == Full ==> |s.writeBuf| == l.room)
    && PhaseFits(s, l)
  }

  /** The level on which the thread's next decision rests. */
  function Level(s: State, l: Link): (level: nat)
    requires |s.writeBuf| <= l.room && (s.sight == Full ==> |s.writeBuf| == l.room)
    ensures level <= |s.writeBuf|
  {
    LevelSeen(s.sight == Full, |s.writeBuf|, l.room)
  }

  /** What the FIFOs on the other side allow: any prefix of the words offered, and any words up to those wanted. */
  predicate CanTransfer(l: Link, wr: nat, rd: nat, head: seq<Byte>, taken: nat, words: seq<Word>) {
    |head| == 2 * l.width && taken <= wr && |words| <= rd && AllOf(words, l.width)
  }

  predicate Possible(s: State, l: Link, a: Action) {
    match a
    case UserWrites(bs) => |s.writeBuf| + |bs| <= l.room
    case UserReads(n) => n <= |s.readBuf|
    case TestFull => s.sight == Unasked && (s.phase.Resting? || s.phase.Planned? || s.phase.Answered?)
    case Plan => s.sight != Unasked && s.phase.Resting?
    case Request => s.sight != Unasked && s.phase.Planned?
    case Scan(head, taken, words) =>
      s.phase.Requested? && CanTransfer(l, s.phase.wr, s.phase.rd, head, taken, words)
    case Discard => s.sight != Unasked && s.phase.Answered?
    case Store => s.phase.Acknowledged?
  }

  function ResponseIn(l: Link, wr: nat, rd: nat, head: seq<Byte>, taken: nat, words: seq<Word>): (r: seq<Byte>)
    requires ValidLink(l) && CanTransfer(l, wr, rd, head, taken, words)
    requires wr + 1 < Pow2(8 * l.width) && rd + 1 < Pow2(8 * l.width)
    ensures Readable(r, l.width)
  {
    ReadIsInside(l.width, head, wr, rd, taken, words);
    Response(l.width, head, wr, rd, taken, words)
  }

  /** The room for what is read is exact whenever the thread, which is the one that fills it, looks. */
  function AfterPlan(s: State, l: Link): State
    requires Valid(s, l)
  {
    var r := PlanLengths(s.wanted, Level(s, l), l.capacity - |s.readBuf|, l.width);
    s.(phase := Planned(r.0, r.1), sight := Unasked)
  }

  /** A refused peek ends the thread. */
  function AfterRequest(s: State, l: Link): State
    requires Valid(s, l) && s.phase.Planned?
  {
    var size := ToBytes(l.width, s.phase.wr);
    s.(phase := if Level(s, l) < size then Ended else Requested(s.phase.wr, s.phase.rd, s.writeBuf[..size]),
       sight := Unasked)
  }

  function AfterScan(s: State, l: Link, head: seq<Byte>, taken: nat, words: seq<Word>): State
    requires Valid(s, l) && Possible(s, l, Scan(head, taken, words))
  {
    var wr, rd := s.phase.wr, s.phase.rd;
    ToBytesGrows(l.width, taken, wr);
    s.(pushed := s.pushed + s.phase.data[..ToBytes(l.width, taken)], popped := s.popped + Flat(words, l.width),
       phase := Answered(wr, rd, ResponseIn(l, wr, rd, head, taken, words)))
  }

  /** A refused discard goes unnoticed. */
  function AfterDiscard(s: State, l: Link): State
    requires Valid(s, l) && s.phase.Answered?
  {
    var acked := CountsOf(s.phase.response, l.width).acked;
    s.(writeBuf := Discarded(s.writeBuf, Level(s, l), ToBytes(l.width, acked)),
       phase := Acknowledged(s.phase.wr, s.phase.rd, s.phase.response), sight := Unasked)
  }

  /** The bytes read, as the host finds them in the response. */
  function Arrived(response: seq<Byte>, width: nat): seq<Byte>
    requires Readable(response, width)
  {
    response[2 * width..][..ToBytes(width, CountsOf(response, width).read)]
  }

  function AfterStore(s: State, l: Link): State
    requires Valid(s, l) && s.phase.Acknowledged?
  {
    var response := s.phase.response;
    var c := CountsOf(response, l.width);
    s.(readBuf := Stored(s.readBuf, l.capacity, Arrived(response, l.width)),
       wanted := NextWanted(s.wanted, l.least, l.width, c.acked, c.read, s.phase.wr, s.phase.rd), phase := Resting)
  }

  function After(s: State, l: Link, a: Action): State
    requires Valid(s, l) && Possible(s, l, a)
  {
    match a
    case UserWrites(bs) => s.(written := s.written + bs, writeBuf := s.writeBuf + bs)
    case UserReads(n) => s.(read := s.read + s.readBuf[..n], readBuf := s.readBuf[n..])
    case TestFull => s.(sight := if |s.writeBuf| == l.room then Full else NotFull)
    case Plan => AfterPlan(s, l)
    case Request => AfterRequest(s, l)
    case Scan(head, taken, words) => AfterScan(s, l, head, taken, words)
    case Discard => AfterDiscard(s, l)
    case Store => AfterStore(s, l)
  }

  lemma PlanKeepsValid(s: State, l: Link)
    requires Valid(s, l)
    ensures Valid(AfterPlan(s, l), l)
  {
    TransferIsPossible(s.wanted, l.width, Level(s, l), l.capacity - |s.readBuf|);
  }

  lemma UserKeepsValid(s: State, l: Link, a: Action)
    requires Valid(s, l) && Possible(s, l, a) && (a.UserWrites? || a.UserReads?)
    ensures Valid(After(s, l, a), l)
  {
    if a.UserWrites? && s.phase.Requested? {
      assert (s.writeBuf + a.bs)[..|s.phase.data|] == s.writeBuf[..|s.phase.data|];
    }
  }

  /** Every step, whatever its counts and refusals, leaves the thread with lengths it can use. */
  lemma ValidKept(s: State, l: Link, a: Action)
    requires Valid(s, l) && Possible(s, l, a)
    ensures Valid(After(s, l, a), l)
  {
    match a
    case UserWrites(_) => UserKeepsValid(s, l, a);
    case UserReads(_) => UserKeepsValid(s, l, a);
    case Plan => PlanKeepsValid(s, l);
    case _ =>
  }

  // ---------- Nothing lost, repeated or out of order ----------

  /** The bytes the user wrote that the logic has not taken, if the counts are those that were sent. */
  function Untaken(s: State, l: Link): seq<Byte>
    requires Valid(s, l)
  {
    if s.phase.Answered? then
      var n := ToBytes(l.width, CountsOf(s.phase.response, l.width).acked);
      if n <= |s.writeBuf| then s.writeBuf[n..] else []
    else s.writeBuf
  }

  /** The bytes the logic gave that the user has not read. */
  function Waiting(s: State, l: Link): seq<Byte>
    requires Valid(s, l)
  {
    if s.phase.Answered? || s.phase.Acknowledged? then s.readBuf + Arrived(s.phase.response, l.width) else s.readBuf
  }

  predicate Conserved(s: State, l: Link)
    requires Valid(s, l)
  {
    s.pushed + Untaken(s, l) == s.written && s.read + Waiting(s, l) == s.popped
  }

  /** The counts ask for no more than there is, and than there is room for. */
  predicate CountsFit(s: State, l: Link)
    requires Valid(s, l)
  {
    match s.phase
    case Answered(_, _, response) =>
      && ToBytes(l.width, CountsOf(response, l.width).acked) <= |s.writeBuf|
      && |s.readBuf| + |Arrived(response, l.width)| <= l.capacity
    case Acknowledged(_, _, response) => |s.readBuf| + |Arrived(response, l.width)| <= l.capacity
    case _ => true
  }

  predicate Inv(s: State, l: Link) { Valid(s, l) && Conserved(s, l) && CountsFit(s, l) }

  /** The counts of the response are in place. */
  predicate Framed(s: State, a: Action)
    requires a.Scan? ==> s.phase.Requested?
  {
    a.Scan? ==> !F.Late(s.phase.wr, s.phase.rd, |a.words|)
  }

  predicate DiscardRefused(s: State, l: Link)
    requires Valid(s, l) && s.phase.Answered?
  {
    Level(s, l) < ToBytes(l.width, CountsOf(s.phase.response, l.width).acked)
  }

  /** Counts in place, and what was acknowledged discarded. */
  predicate Sound(s: State, l: Link, a: Action)
    requires Valid(s, l) && Possible(s, l, a)
  {
    Framed(s, a) && (a.Discard? ==> !DiscardRefused(s, l))
  }

  lemma UserWritesKeepsInv(s: State, l: Link, bs: seq<Byte>)
    requires Inv(s, l) && Possible(s, l, UserWrites(bs)) && Valid(After(s, l, UserWrites(bs)), l)
    ensures Inv(After(s, l, UserWrites(bs)), l)
  {
    if s.phase.Answered? {
      var n := ToBytes(l.width, CountsOf(s.phase.response, l.width).acked);
      assert (s.writeBuf + bs)[n..] == s.writeBuf[n..] + bs;
    }
    Associate(s.pushed, Untaken(s, l), bs);
  }

  lemma UserReadsKeepsInv(s: State, l: Link, n: nat)
    requires Inv(s, l) && Possible(s, l, UserReads(n)) && Valid(After(s, l, UserReads(n)), l)
    ensures Inv(After(s, l, UserReads(n)), l)
  {
    var arrived := if s.phase.Answered? || s.phase.Acknowledged? then Arrived(s.phase.response, l.width) else [];
    ReadOn(s.read, s.readBuf, arrived, n);
  }

  lemma UserKeepsInv(s: State, l: Link, a: Action)
    requires Inv(s, l) && Possible(s, l, a) && (a.UserWrites? || a.UserReads?)
    ensures Inv(After(s, l, a), l)
  {
    ValidKept(s, l, a);
    match a
    case UserWrites(bs) => UserWritesKeepsInv(s, l, bs);
    case UserReads(n) => UserReadsKeepsInv(s, l, n);
  }

  lemma ReadOn(read: seq<Byte>, buffer: seq<Byte>, arrived: seq<Byte>, n: nat)
    requires n <= |buffer|
    ensures read + buffer[..n] + (buffer[n..] + arrived) == read + (buffer + arrived)
    ensures read + buffer[..n] + buffer[n..] == read + buffer
  {}

  /** The response of a framed scan counts what was taken and given. */
  lemma ScanAnswersCounts(s: State, l: Link, head: seq<Byte>, taken: nat, words: seq<Word>)
    requires Valid(s, l) && Possible(s, l, Scan(head, taken, words)) && Framed(s, Scan(head, taken, words))
    ensures var response := AfterScan(s, l, head, taken, words).phase.response;
      CountsOf(response, l.width) == Counts(taken, |words|) && Arrived(response, l.width) == Flat(words, l.width)
    ensures ToBytes(l.width, taken) <= |s.phase.data| && |Flat(words, l.width)| <= ToBytes(l.width, s.phase.rd)
  {
    CountsSeen(l.width, head, s.phase.wr, s.phase.rd, taken, words);
    DataSeen(l.width, head, s.phase.wr, s.phase.rd, taken, words);
    ToBytesGrows(l.width, taken, s.phase.wr);
    ToBytesGrows(l.width, |words|, s.phase.rd);
  }

  lemma TakenIsPrefix(pushed: seq<Byte>, buffer: seq<Byte>, size: nat, n: nat)
    requires n <= size <= |buffer|
    ensures pushed + buffer[..size][..n] + buffer[n..] == pushed + buffer
  {
    assert buffer[..size][..n] == buffer[..n];
    Split(pushed, buffer, n);
  }

  lemma ScanKeepsInv(s: State, l: Link, head: seq<Byte>, taken: nat, words: seq<Word>)
    requires Inv(s, l) && Possible(s, l, Scan(head, taken, words)) && Framed(s, Scan(head, taken, words))
    ensures Inv(AfterScan(s, l, head, taken, words), l)
  {
    ValidKept(s, l, Scan(head, taken, words));
    ScanAnswersCounts(s, l, head, taken, words);
    TakenIsPrefix(s.pushed, s.writeBuf, |s.phase.data|, ToBytes(l.width, taken));
    Associate(s.read, s.readBuf, Flat(words, l.width));
  }

  /** A sound step loses and repeats nothing, in either direction. */
  lemma InvKept(s: State, l: Link, a: Action)
    requires Inv(s, l) && Possible(s, l, a) && Sound(s, l, a)
    ensures Inv(After(s, l, a), l)
  {
    match a
    case UserWrites(_) => UserKeepsInv(s, l, a);
    case UserReads(_) => UserKeepsInv(s, l, a);
    case Scan(head, taken, words) => ScanKeepsInv(s, l, head, taken, words);
    case _ => ValidKept(s, l, a);
  }

  // ---------- When a round conserves ----------

  /** The user's bytes before the discard asks for its level, and between the two reads of it. */
  datatype Meddling = Meddling(before: seq<Byte>, between: seq<Byte>)

  /** The user fills the buffer exactly between the two reads. */
  predicate FillsBetween(s: State, l: Link, u: Meddling) {
    |s.writeBuf| + |u.before| < l.room && |s.writeBuf| + |u.before| + |u.between| == l.room
  }

  predicate CanMeddle(s: State, l: Link, u: Meddling) { |s.writeBuf| + |u.before| + |u.between| <= l.room }

  /** The scan of a request, and the user's writes up to the discard. */
  function BeforeDiscard(s: State, l: Link, head: seq<Byte>, taken: nat, words: seq<Word>, u: Meddling): (t: State)
    requires Valid(s, l) && Possible(s, l, Scan(head, taken, words)) && CanMeddle(s, l, u) && s.sight == Unasked
    ensures Valid(t, l) && Possible(t, l, Discard)
  {
    ValidKept(s, l, Scan(head, taken, words));
    var a := After(s, l, Scan(head, taken, words));
    ValidKept(a, l, UserWrites(u.before));
    var b := After(a, l, UserWrites(u.before));
    ValidKept(b, l, TestFull);
    var c := After(b, l, TestFull);
    ValidKept(c, l, UserWrites(u.between));
    After(c, l, UserWrites(u.between))
  }

  /** The rest of a round: the discard, and the words stored. */
  function AfterRound(s: State, l: Link, head: seq<Byte>, taken: nat, words: seq<Word>, u: Meddling): (t: State)
    requires Valid(s, l) && Possible(s, l, Scan(head, taken, words)) && CanMeddle(s, l, u) && s.sight == Unasked
    ensures Valid(t, l) && t.phase == Resting
  {
    var d := BeforeDiscard(s, l, head, taken, words, u);
    ValidKept(d, l, Discard);
    ValidKept(After(d, l, Discard), l, Store);
    After(After(d, l, Discard), l, Store)
  }

  /** With late counts, the host keeps all that it sent, and takes the one count it sees for the other. */
  lemma LateRound(s: State, l: Link, head: seq<Byte>, taken: nat, words: seq<Word>, u: Meddling)
    requires Inv(s, l) && Possible(s, l, Scan(head, taken, words)) && CanMeddle(s, l, u) && s.sight == Unasked
    requires F.Late(s.phase.wr, s.phase.rd, |words|)
    ensures !Conserved(AfterRound(s, l, head, taken, words, u), l)
  {
    CountsSeen(l.width, head, s.phase.wr, s.phase.rd, taken, words);
    ToBytesGrows(l.width, taken, s.phase.wr);
    ToBytesGrows(l.width, 1, |words|);
    var t := AfterRound(s, l, head, taken, words, u);
    var all := s.writeBuf + u.before + u.between;
    assert all[0..] == all && |t.writeBuf| == |all|;
    assert |t.pushed| == |s.pushed| + ToBytes(l.width, taken);
    assert |t.popped| == |s.popped| + ToBytes(l.width, |words|);
    if taken > 0 {
      ToBytesGrows(l.width, 1, taken);
    }
  }

  lemma FilledUntilDiscard(s: State, l: Link, head: seq<Byte>, taken: nat, words: seq<Word>, u: Meddling)
    requires Valid(s, l) && Possible(s, l, Scan(head, taken, words)) && CanMeddle(s, l, u) && s.sight == Unasked
    requires FillsBetween(s, l, u)
    ensures var d, a := BeforeDiscard(s, l, head, taken, words, u), AfterScan(s, l, head, taken, words);
      && d.phase == a.phase && d.pushed == a.pushed && Level(d, l) == 0
      && |d.writeBuf| - |d.written| == |s.writeBuf| - |s.written|
  {}

  lemma RefusedDiscardKeeps(d: State, l: Link)
    requires Valid(d, l) && d.phase.Answered? && d.sight != Unasked && Valid(After(d, l, Discard), l)
    requires Level(d, l) < ToBytes(l.width, CountsOf(d.phase.response, l.width).acked)
    ensures var t := After(After(d, l, Discard), l, Store);
      t.phase.Resting? && t.writeBuf == d.writeBuf && t.pushed == d.pushed && t.written == d.written
  {}

  /** With a refused discard, what has been taken is still in the buffer. */
  lemma RefusedRound(s: State, l: Link, head: seq<Byte>, taken: nat, words: seq<Word>, u: Meddling)
    requires Inv(s, l) && Possible(s, l, Scan(head, taken, words)) && CanMeddle(s, l, u) && s.sight == Unasked
    requires Framed(s, Scan(head, taken, words)) && FillsBetween(s, l, u) && taken > 0
    ensures !Conserved(AfterRound(s, l, head, taken, words, u), l)
  {
    ScanAnswersCounts(s, l, head, taken, words);
    ToBytesGrows(l.width, 1, taken);
    FilledUntilDiscard(s, l, head, taken, words, u);
    var d, t := BeforeDiscard(s, l, head, taken, words, u), AfterRound(s, l, head, taken, words, u);
    ValidKept(d, l, Discard);
    RefusedDiscardKeeps(d, l);
    assert |t.pushed| == |s.pushed| + ToBytes(l.width, taken);
    assert |s.pushed| + |s.writeBuf| == |s.written|;
    assert |t.pushed + t.writeBuf| > |t.written|;
  }

  lemma UntilDiscard(s: State, l: Link, head: seq<Byte>, taken: nat, words: seq<Word>, u: Meddling)
    requires Inv(s, l) && Possible(s, l, Scan(head, taken, words)) && CanMeddle(s, l, u) && s.sight == Unasked
    requires Framed(s, Scan(head, taken, words))
    ensures Inv(BeforeDiscard(s, l, head, taken, words, u), l)
  {
    var a := After(s, l, Scan(head, taken, words));
    InvKept(s, l, Scan(head, taken, words));
    var b := After(a, l, UserWrites(u.before));
    InvKept(a, l, UserWrites(u.before));
    InvKept(b, l, TestFull);
    InvKept(After(b, l, TestFull), l, UserWrites(u.between));
  }

  lemma SoundRound(s: State, l: Link, head: seq<Byte>, taken: nat, words: seq<Word>, u: Meddling)
    requires Inv(s, l) && Possible(s, l, Scan(head, taken, words)) && CanMeddle(s, l, u) && s.sight == Unasked
    requires Framed(s, Scan(head, taken, words)) && (FillsBetween(s, l, u) ==> taken == 0)
    ensures Inv(AfterRound(s, l, head, taken, words, u), l)
  {
    ScanAnswersCounts(s, l, head, taken, words);
    UntilDiscard(s, l, head, taken, words, u);
    var d := BeforeDiscard(s, l, head, taken, words, u);
    assert |d.writeBuf| == |s.writeBuf| + |u.before| + |u.between|;
    InvKept(d, l, Discard);
    InvKept(After(d, l, Discard), l, Store);
  }

  /**
   * A round conserves both streams if and only if its counts are in place, and the user does not
   * fill the buffer between the two reads of the discard although words have been acknowledged.
   */
  lemma RoundConservesIff(s: State, l: Link, head: seq<Byte>, taken: nat, words: seq<Word>, u: Meddling)
    requires Inv(s, l) && Possible(s, l, Scan(head, taken, words)) && CanMeddle(s, l, u) && s.sight == Unasked
    ensures Conserved(AfterRound(s, l, head, taken, words, u), l)
      <==> !F.Late(s.phase.wr, s.phase.rd, |words|) && !(taken > 0 && FillsBetween(s, l, u))
  {
    if F.Late(s.phase.wr, s.phase.rd, |words|) {
      LateRound(s, l, head, taken, words, u);
    } else if taken > 0 && FillsBetween(s, l, u) {
      RefusedRound(s, l, head, taken, words, u);
    } else {
      SoundRound(s, l, head, taken, words, u);
    }
  }

  // ---------- Whole runs ----------

  predicate RunPossible(s: State, l: Link, run: seq<Action>)
    requires Valid(s, l)
    decreases |run|
  {
    run == [] || (
      && Possible(s, l, run[0])
      && (ValidKept(s, l, run[0]); RunPossible(After(s, l, run[0]), l, run[1..])))
  }

  function RunFrom(s: State, l: Link, run: seq<Action>): (s': State)
    requires Valid(s, l) && RunPossible(s, l, run)
    ensures Valid(s', l)
    decreases |run|
  {
    if run == [] then s
    else
      ValidKept(s, l, run[0]);
      RunFrom(After(s, l, run[0]), l, run[1..])
  }

  /** Every step of the run has counts in place and its discards granted. */
  predicate RunSound(s: State, l: Link, run: seq<Action>)
    requires Valid(s, l) && RunPossible(s, l, run)
    decreases |run|
  {
    run == [] || (
      && Sound(s, l, run[0])
      && (ValidKept(s, l, run[0]); RunSound(After(s, l, run[0]), l, run[1..])))
  }

  lemma {:induction false} RunsConserve(s: State, l: Link, run: seq<Action>)
    requires Inv(s, l) && RunPossible(s, l, run) && RunSound(s, l, run)
    ensures Inv(RunFrom(s, l, run), l)
    decreases |run|
  {
    if run != [] {
      InvKept(s, l, run[0]);
      RunsConserve(After(s, l, run[0]), l, run[1..]);
    }
  }

  function Start(l: Link): State { State([], [], [], [], [], [], l.least, Resting, Unasked) }

  // ---------- What the user and the target see ----------

  function WrittenIn(a: Action): seq<Byte> { if a.UserWrites? then a.bs else [] }

  function GivenIn(a: Action, width: nat): seq<Byte> {
    if a.Scan? && AllOf(a.words, width) then Flat(a.words, width) else []
  }

  /** The words the target takes are the first of those in the request. */
  function TakenIn(s: State, l: Link, a: Action): seq<Byte> {
    if a.Scan? && s.phase.Requested? && ToBytes(l.width, a.taken) <= |s.phase.data| then
      s.phase.data[..ToBytes(l.width, a.taken)]
    else []
  }

  function ReadIn(s: State, a: Action): seq<Byte> {
    if a.UserReads? && a.n <= |s.readBuf| then s.readBuf[..a.n] else []
  }

  /** All bytes that the user writes in a run. */
  function WrittenBy(run: seq<Action>): seq<Byte> {
    if run == [] then [] else WrittenIn(run[0]) + WrittenBy(run[1..])
  }

  /** All bytes that the target gives. */
  function GivenBy(run: seq<Action>, width: nat): seq<Byte>
    decreases |run|
  {
    if run == [] then [] else GivenIn(run[0], width) + GivenBy(run[1..], width)
  }

  /** All bytes that the target takes. */
  function TakenBy(s: State, l: Link, run: seq<Action>): seq<Byte>
    requires Valid(s, l) && RunPossible(s, l, run)
    decreases |run|
  {
    if run == [] then []
    else
      ValidKept(s, l, run[0]);
      TakenIn(s, l, run[0]) + TakenBy(After(s, l, run[0]), l, run[1..])
  }

  /** All bytes that the user is given. */
  function ReadBy(s: State, l: Link, run: seq<Action>): seq<Byte>
    requires Valid(s, l) && RunPossible(s, l, run)
    decreases |run|
  {
    if run == [] then []
    else
      ValidKept(s, l, run[0]);
      ReadIn(s, run[0]) + ReadBy(After(s, l, run[0]), l, run[1..])
  }

  /** The bookkeeping notes exactly these. */
  lemma StepIsNoted(s: State, l: Link, a: Action)
    requires Valid(s, l) && Possible(s, l, a)
    ensures var t := After(s, l, a);
      && t.written == s.written + WrittenIn(a) && t.popped == s.popped + GivenIn(a, l.width)
      && t.pushed == s.pushed + TakenIn(s, l, a) && t.read == s.read + ReadIn(s, a)
  {
    if a.Scan? {
      ToBytesGrows(l.width, a.taken, s.phase.wr);
    }
  }

  lemma {:induction false} RunIsNoted(s: State, l: Link, run: seq<Action>)
    requires Valid(s, l) && RunPossible(s, l, run)
    ensures RunFrom(s, l, run).written == s.written + WrittenBy(run)
    ensures RunFrom(s, l, run).popped == s.popped + GivenBy(run, l.width)
    ensures RunFrom(s, l, run).pushed == s.pushed + TakenBy(s, l, run)
    ensures RunFrom(s, l, run).read == s.read + ReadBy(s, l, run)
    decreases |run|
  {
    if run == [] {
      NothingNoted(s);
    } else {
      var a, rest := run[0], run[1..];
      ValidKept(s, l, a);
      var t := After(s, l, a);
      StepIsNoted(s, l, a);
      RunIsNoted(t, l, rest);
      Associate(s.written, WrittenIn(a), WrittenBy(rest));
      Associate(s.popped, GivenIn(a, l.width), GivenBy(rest, l.width));
      Associate(s.pushed, TakenIn(s, l, a), TakenBy(t, l, rest));
      Associate(s.read, ReadIn(s, a), ReadBy(t, l, rest));
    }
  }

  lemma NothingNoted(s: State)
    ensures s.written + [] == s.written && s.popped + [] == s.popped
    ensures s.pushed + [] == s.pushed && s.read + [] == s.read
  {}

  lemma RunFromStartIsNoted(l: Link, run: seq<Action>)
    requires ValidLink(l) && RunPossible(Start(l), l, run)
    ensures var s := RunFrom(Start(l), l, run);
      && s.written == WrittenBy(run) && s.popped == GivenBy(run, l.width)
      && s.pushed == TakenBy(Start(l), l, run) && s.read == ReadBy(Start(l), l, run)
  {
    RunIsNoted(Start(l), l, run);
    NothingBefore(WrittenBy(run));
    NothingBefore(GivenBy(run, l.width));
    NothingBefore(TakenBy(Start(l), l, run));
    NothingBefore(ReadBy(Start(l), l, run));
  }

  /**
   * Over every interleaving of the user with the thread's steps, down to the single reads of a fill
   * level: as long as counts are in place and discards are not refused, what the user wrote has been
   * taken by the target or is still to be sent, what the target gave has been read by the user or can
   * be read, in order, and the transfer length stays within its bounds.
   */
  lemma TransferIsReliable(l: Link, run: seq<Action>)
    requires ValidLink(l) && RunPossible(Start(l), l, run) && RunSound(Start(l), l, run)
    ensures var s, taken, read := RunFrom(Start(l), l, run), TakenBy(Start(l), l, run), ReadBy(Start(l), l, run);
      && taken + Untaken(s, l) == WrittenBy(run) && read + Waiting(s, l) == GivenBy(run, l.width)
      && (s.phase.Resting? ==> taken + s.writeBuf == WrittenBy(run) && read + s.readBuf == GivenBy(run, l.width))
      && l.least <= s.wanted <= Limit(l.width)
  {
    RunsConserve(Start(l), l, run);
    RunFromStartIsNoted(l, run);
  }

  // ---------- An undisturbed round ----------

  /** With nobody writing in between, the thread asks for the largest lengths and sends the first words stored. */
  lemma UndisturbedRequest(s: State, l: Link) returns (t: State)
    requires Inv(s, l) && s.phase.Resting? && s.sight == Unasked
    ensures RunPossible(s, l, [TestFull, Plan, TestFull, Request])
    ensures t == RunFrom(s, l, [TestFull, Plan, TestFull, Request]) && Inv(t, l) && t.sight == Unasked
    ensures t.phase.Requested? && t.writeBuf == s.writeBuf && t.readBuf == s.readBuf
    ensures IsLargest(t.phase.wr, s.wanted, |s.writeBuf|, l.width)
    ensures IsLargest(t.phase.rd, s.wanted, l.capacity - |s.readBuf|, l.width)
    ensures t.phase.data == s.writeBuf[..ToBytes(l.width, t.phase.wr)]
  {
    var all := [TestFull, Plan, TestFull, Request];
    assert all[1..] == [Plan, TestFull, Request] && all[1..][1..] == [TestFull, Request];
    assert all[1..][1..][1..] == [Request] && all[1..][1..][1..][1..] == [];
    var s1 := NextSound(s, l, TestFull);
    var s2 := NextSound(s1, l, Plan);
    var s3 := NextSound(s2, l, TestFull);
    t := NextSound(s3, l, Request);
    assert RunPossible(s3, l, [Request]) && RunFrom(s3, l, [Request]) == t;
    assert RunPossible(s2, l, [TestFull, Request]) && RunFrom(s2, l, [TestFull, Request]) == t;
    assert RunPossible(s1, l, [Plan, TestFull, Request]) && RunFrom(s1, l, [Plan, TestFull, Request]) == t;
  }

  lemma NextSound(s: State, l: Link, a: Action) returns (t: State)
    requires Inv(s, l) && Possible(s, l, a) && Sound(s, l, a)
    ensures t == After(s, l, a) && Inv(t, l)
  {
    InvKept(s, l, a);
    t := After(s, l, a);
  }

  lemma QuietUntilDiscard(s: State, l: Link, head: seq<Byte>, taken: nat, words: seq<Word>)
    requires Valid(s, l) && s.sight == Unasked && Possible(s, l, Scan(head, taken, words))
    ensures var d := BeforeDiscard(s, l, head, taken, words, Meddling([], []));
      && d.phase == AfterScan(s, l, head, taken, words).phase && d.writeBuf == s.writeBuf && d.readBuf == s.readBuf
      && Level(d, l) == |s.writeBuf|
  {
    assert s.writeBuf + [] == s.writeBuf && s.writeBuf + [] + [] == s.writeBuf;
  }

  lemma DiscardAndStore(d: State, l: Link)
    requires Inv(d, l) && d.phase.Answered? && d.sight != Unasked && Level(d, l) == |d.writeBuf|
    requires Valid(After(d, l, Discard), l)
    ensures var t := After(After(d, l, Discard), l, Store);
      && t.phase.Resting?
      && t.writeBuf == d.writeBuf[ToBytes(l.width, CountsOf(d.phase.response, l.width).acked)..]
      && t.readBuf == d.readBuf + Arrived(d.phase.response, l.width)
  {}

  /** Then the words that the target takes leave the buffer, and those that it gives are stored, and no others. */
  lemma UndisturbedRoundMoves(s: State, l: Link, head: seq<Byte>, taken: nat, words: seq<Word>)
    requires Inv(s, l) && s.sight == Unasked && Possible(s, l, Scan(head, taken, words))
    requires Framed(s, Scan(head, taken, words))
    ensures var t := AfterRound(s, l, head, taken, words, Meddling([], []));
      && t.phase.Resting? && ToBytes(l.width, taken) <= |s.writeBuf|
      && t.writeBuf == s.writeBuf[ToBytes(l.width, taken)..] && t.readBuf == s.readBuf + Flat(words, l.width)
  {
    ScanAnswersCounts(s, l, head, taken, words);
    UntilDiscard(s, l, head, taken, words, Meddling([], []));
    QuietUntilDiscard(s, l, head, taken, words);
    var d := BeforeDiscard(s, l, head, taken, words, Meddling([], []));
    ValidKept(d, l, Discard);
    DiscardAndStore(d, l);
  }

  // ---------- A user who leaves room ----------

  /** In every step the counts are in place, and the user leaves at least one byte of room. */
  predicate RunRoomy(s: State, l: Link, run: seq<Action>)
    requires Valid(s, l) && RunPossible(s, l, run)
    decreases |run|
  {
    |s.writeBuf| < l.room && (run == [] || (
      && Framed(s, run[0])
      && (ValidKept(s, l, run[0]); RunRoomy(After(s, l, run[0]), l, run[1..]))))
  }

  /** With room to spare no level is misread, so nothing is refused and the thread goes on. */
  lemma {:induction false} RoomyIsSound(s: State, l: Link, run: seq<Action>)
    requires Inv(s, l) && s.phase != Ended && RunPossible(s, l, run) && RunRoomy(s, l, run)
    ensures RunSound(s, l, run) && RunFrom(s, l, run).phase != Ended
    decreases |run|
  {
    if run != [] {
      assert s.sight != Full;
      InvKept(s, l, run[0]);
      RoomyIsSound(After(s, l, run[0]), l, run[1..]);
    }
  }

  /** A user who never fills the buffer to the last byte only has to fear late counts. */
  lemma RoomyUserIsSafe(l: Link, run: seq<Action>)
    requires ValidLink(l) && RunPossible(Start(l), l, run) && RunRoomy(Start(l), l, run)
    ensures var s, taken, read := RunFrom(Start(l), l, run), TakenBy(Start(l), l, run), ReadBy(Start(l), l, run);
      && taken + Untaken(s, l) == WrittenBy(run) && read + Waiting(s, l) == GivenBy(run, l.width)
      && s.phase != Ended
  {
    RoomyIsSound(Start(l), l, run);
    TransferIsReliable(l, run);
  }

  // ---------- What can go wrong does ----------

  /** Some run from the start ends in this state. */
  ghost predicate Reachable(s: State, l: Link) {
    ValidLink(l) && exists run :: RunPossible(Start(l), l, run) && RunFrom(Start(l), l, run) == s
  }

  lemma {:induction false} RunExtends(s: State, l: Link, run: seq<Action>, a: Action)
    requires Valid(s, l) && RunPossible(s, l, run) && Possible(RunFrom(s, l, run), l, a)
    ensures RunPossible(s, l, run + [a]) && RunFrom(s, l, run + [a]) == After(RunFrom(s, l, run), l, a)
    decreases |run|
  {
    if run == [] {
      ValidKept(s, l, a);
      assert [a][1..] == [] && [] + [a] == [a];
    } else {
      ValidKept(s, l, run[0]);
      RunExtends(After(s, l, run[0]), l, run[1..], a);
      assert (run + [a])[1..] == run[1..] + [a];
    }
  }

  lemma ReachNext(s: State, l: Link, a: Action) returns (s': State)
    requires Reachable(s, l) && Valid(s, l) && Possible(s, l, a)
    ensures s' == After(s, l, a) && Reachable(s', l) && Valid(s', l)
  {
    var run :| RunPossible(Start(l), l, run) && RunFrom(Start(l), l, run) == s;
    RunExtends(Start(l), l, run, a);
    ValidKept(s, l, a);
    s' := After(s, l, a);
  }

  lemma FirstWrite(l: Link, bs: seq<Byte>) returns (s: State)
    requires ValidLink(l) && |bs| < l.room
    ensures Reachable(s, l) && Valid(s, l) && s == Start(l).(written := bs, writeBuf := bs)
  {
    s := Start(l);
    assert RunPossible(s, l, []) && RunFrom(s, l, []) == s;
    s := ReachNext(s, l, UserWrites(bs));
    assert [] + bs == bs;
  }

  /** The user writes these bytes at the start, and the thread decides on its lengths. */
  lemma FirstPlan(l: Link, bs: seq<Byte>) returns (s: State)
    requires ValidLink(l) && |bs| < l.room
    ensures Reachable(s, l) && Valid(s, l) && s.writeBuf == bs && s.sight == NotFull && s.phase.Planned?
    ensures (s.phase.wr, s.phase.rd) == PlanLengths(l.least, |bs|, l.capacity, l.width)
    ensures s.pushed == s.popped == s.readBuf == s.read == [] && s.written == bs
  {
    s := FirstWrite(l, bs);
    s := ReachNext(s, l, TestFull);
    s := ReachNext(s, l, Plan);
    s := ReachNext(s, l, TestFull);
  }

  /** Two bytes to write and room to read one: a target that takes and gives one each makes the counts late. */
  lemma LateRoundExists() returns (s: State, l: Link, head: seq<Byte>, words: seq<Word>, u: Meddling)
    ensures Reachable(s, l) && Inv(s, l) && Possible(s, l, Scan(head, 1, words)) && s.sight == Unasked
    ensures u == Meddling([], []) && CanMeddle(s, l, u)
    ensures !Conserved(AfterRound(s, l, head, 1, words, u), l)
  {
    l, head, words, u := Link(1, 1, 4, 2), [0, 0], [O.Zero(8)], Meddling([], []);
    PowersOfTwo();
    s := FirstPlan(l, [7, 8]);
    s := ReachNext(s, l, Request);
    assert s.phase.wr == 2 && s.phase.rd == 1;
    RoundConservesIff(s, l, head, 1, words, u);
  }

  /** A byte that fills the buffer between the two reads of the discard makes the last one go out twice. */
  lemma RefusedRoundExists() returns (s: State, l: Link, head: seq<Byte>, u: Meddling)
    ensures Reachable(s, l) && Inv(s, l) && Possible(s, l, Scan(head, 1, [])) && s.sight == Unasked
    ensures Framed(s, Scan(head, 1, [])) && CanMeddle(s, l, u)
    ensures !Conserved(AfterRound(s, l, head, 1, [], u), l)
  {
    l, head, u := Link(1, 1, 2, 1), [0, 0], Meddling([], [8]);
    PowersOfTwo();
    s := FirstPlan(l, [7]);
    s := ReachNext(s, l, Request);
    assert s.phase.wr == 1 && s.phase.rd == 1 && FillsBetween(s, l, u);
    RoundConservesIff(s, l, head, 1, [], u);
  }

  /** In the same way a refused peek ends the thread, although there is a byte to send. */
  lemma RefusedRequestExists() returns (s: State, l: Link)
    ensures Reachable(s, l) && s.phase == Ended && s.pushed == [] && |s.writeBuf| == l.room
  {
    l := Link(1, 1, 2, 1);
    PowersOfTwo();
    s := FirstPlan(l, [7]);
    s := ReachNext(s, l, UserWrites([8]));
    s := ReachNext(s, l, Request);
  }
}
