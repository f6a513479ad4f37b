/** The host's side of the UART: the thread that parses what arrives and writes what may be sent. */
module UartHost {
  import opened Bytes
  import opened Levels
  import opened Sequences
  import opened UartCodec

  const BUFFER_SIZE: nat := 32768
  const TMP_BUFFER_SIZE: nat := 256
  const MAX_TRANCHE: nat := 0x3fff

  function Min(a: nat, b: nat): nat { if a < b then a else b }

  function Words(ms: seq<Report>): (ws: seq<Byte>)
    ensures |ws| <= |ms|
  {
    if ms == [] then []
    else
      var last := ms[|ms| - 1];
      Words(ms[..|ms| - 1]) + if last.Word? then [last.b] else []
  }

  function Debts(ms: seq<Report>): nat {
    if ms == [] then 0
    else
      var last := ms[|ms| - 1];
      Debts(ms[..|ms| - 1]) + if last.Tranche? then last.credit else 0
  }

  lemma OneMore(ms: seq<Report>, m: Report)
    ensures Words(ms + [m]) == Words(ms) + if m.Word? then [m.b] else []
    ensures Debts(ms + [m]) == Debts(ms) + if m.Tranche? then m.credit else 0
  {
    assert (ms + [m])[..|ms|] == ms;
  }

  lemma {:induction false} TotalsOfAppend(a: seq<Report>, b: seq<Report>)
    ensures Words(a + b) == Words(a) + Words(b) && Debts(a + b) == Debts(a) + Debts(b)
    decreases |b|
  {
    if b == [] {
      assert a + b == a;
    } else {
      assert (a + b)[..|a + b| - 1] == a + b[..|b| - 1];
      TotalsOfAppend(a, b[..|b| - 1]);
    }
  }

  // ---------- Looking ahead to the end of a message ----------

  /** The bytes that finish the message of which the reader is in the middle. */
  function LookAhead(s: Reader, rest: seq<Byte>): (ahead: seq<Byte>)
    ensures ahead <= rest && |ahead| <= 2
  {
    match s
    case Plain => []
    case Marked => if rest == [] then [] else if rest[0] == MARK || |rest| == 1 then rest[..1] else rest[..2]
    case HasFirst(_) => if rest == [] then [] else rest[..1]
  }

  /** The rest of the stream holds the end of the message; otherwise the host waits forever. */
  predicate CanFinish(s: Reader, rest: seq<Byte>) {
    match s
    case Plain => true
    case Marked => |rest| >= 1 && (rest[0] == MARK || |rest| >= 2)
    case HasFirst(_) => |rest| >= 1
  }

  /** All the bytes used by a call that starts with `chunk`. */
  function Used(chunk: seq<Byte>, rest: seq<Byte>): seq<Byte> {
    chunk + LookAhead(Read(Plain, chunk).0, rest)
  }

  lemma ReadTwo(s: Reader, b: Byte, c: Byte)
    ensures var s1 := ReaderStep(s, b);
      && Read(s, [b, c]).0 == ReaderStep(s1.0, c).0 && Read(s, [b, c]).1 == s1.1 + ReaderStep(s1.0, c).1
  {
    assert [b, c] == [b] + [c];
    ReadNext(s, b, [c]);
    ReadLast(ReaderStep(s, b).0, c);
  }

  lemma ReadLast(s: Reader, b: Byte)
    ensures Read(s, [b]).0 == ReaderStep(s, b).0 && Read(s, [b]).1 == ReaderStep(s, b).1
  {
    assert [b] + [] == [b];
    ReadNext(s, b, []);
  }

  lemma UsedAndRest(chunk: seq<Byte>, rest: seq<Byte>)
    ensures var used := Used(chunk, rest);
      |chunk| <= |used| <= |chunk| + |rest| && used + rest[|used| - |chunk|..] == chunk + rest
  {}

  /** With the bytes looked at ahead, the message is complete. */
  lemma LookAheadFinishes(chunk: seq<Byte>, rest: seq<Byte>)
    requires CanFinish(Read(Plain, chunk).0, rest)
    ensures Read(Plain, Used(chunk, rest)).0 == Plain
  {
    var s := Read(Plain, chunk).0;
    var ahead := LookAhead(s, rest);
    ReadOfAppend(Plain, chunk, ahead);
    if |ahead| == 1 {
      ReadLast(s, ahead[0]);
      assert ahead == [ahead[0]];
    } else if |ahead| == 2 {
      ReadTwo(s, ahead[0], ahead[1]);
      assert ahead == [ahead[0], ahead[1]];
    }
  }

  // ---------- One message more ----------

  lemma WordRead(done: seq<Byte>, b: Byte)
    requires Read(Plain, done).0 == Plain && b != MARK
    ensures Read(Plain, done + [b]).0 == Plain && Read(Plain, done + [b]).1 == Read(Plain, done).1 + [Word(b)]
  {
    ReadOfAppend(Plain, done, [b]);
    ReadLast(Plain, b);
  }

  lemma MarkRead(done: seq<Byte>)
    requires Read(Plain, done).0 == Plain
    ensures Read(Plain, done + [MARK]).0 == Marked
    ensures Read(Plain, done + [MARK, MARK]).0 == Plain
    ensures Read(Plain, done + [MARK, MARK]).1 == Read(Plain, done).1 + [Word(MARK)]
  {
    ReadOfAppend(Plain, done, [MARK]);
    ReadLast(Plain, MARK);
    ReadOfAppend(Plain, done, [MARK, MARK]);
    ReadTwo(Plain, MARK, MARK);
  }

  lemma TrancheRead(done: seq<Byte>, first: Byte, second: Byte)
    requires Read(Plain, done).0 == Plain && first != MARK
    ensures Read(Plain, done + [MARK, first]).0 == HasFirst(first)
    ensures Read(Plain, done + [MARK, first, second]).0 == Plain
    ensures Read(Plain, done + [MARK, first, second]).1 == Read(Plain, done).1 + [Tranche(DebtOf(first, second))]
  {
    ReadOfAppend(Plain, done, [MARK, first]);
    ReadTwo(Plain, MARK, first);
    assert done + [MARK, first, second] == done + [MARK, first] + [second];
    ReadOfAppend(Plain, done + [MARK, first], [second]);
    ReadLast(HasFirst(first), second);
  }

  lemma WordsGrow(used: seq<Byte>, n: nat)
    requires n <= |used|
    ensures |Words(Read(Plain, used[..n]).1)| <= |Words(Read(Plain, used).1)|
  {
    assert used[..n] + used[n..] == used;
    ReadOfAppend(Plain, used[..n], used[n..]);
    TotalsOfAppend(Read(Plain, used[..n]).1, Read(Read(Plain, used[..n]).0, used[n..]).1);
  }

  /** After `i` bytes of the chunk: `done` has been read as the messages `ms`. */
  ghost predicate Progress(chunk: seq<Byte>, rest: seq<Byte>, i: nat, done: seq<Byte>, ms: seq<Report>) {
    && i <= |chunk| && |Words(ms)| <= i
    && Read(Plain, done).0 == Plain && Read(Plain, done).1 == ms
    && done == if i < |chunk| then chunk[..i] else Used(chunk, rest)
  }

  ghost predicate Fits(chunk: seq<Byte>, rest: seq<Byte>, ms: seq<Report>) {
    |Words(ms)| <= |Words(Read(Plain, Used(chunk, rest)).1)|
  }

  lemma UsedBegins(chunk: seq<Byte>, rest: seq<Byte>, n: nat)
    requires n <= |chunk|
    ensures |Used(chunk, rest)| >= n && Used(chunk, rest)[..n] == chunk[..n]
    ensures n == |chunk| && Read(Plain, chunk).0 == Plain ==> Used(chunk, rest) == chunk[..n]
  {
    assert chunk[..|chunk|] == chunk;
  }

  lemma FitsInside(chunk: seq<Byte>, rest: seq<Byte>, n: nat, done: seq<Byte>)
    requires n <= |chunk| && done == chunk[..n]
    ensures Fits(chunk, rest, Read(Plain, done).1)
  {
    UsedBegins(chunk, rest, n);
    WordsGrow(Used(chunk, rest), n);
  }

  lemma ProgressInside(chunk: seq<Byte>, rest: seq<Byte>, n: nat, done: seq<Byte>, ms: seq<Report>, m: Report)
    requires n <= |chunk| && done == chunk[..n] && |Words(ms)| < n
    requires Read(Plain, done).0 == Plain && Read(Plain, done).1 == ms + [m]
    ensures Progress(chunk, rest, n, done, ms + [m]) && Fits(chunk, rest, ms + [m])
  {
    OneMore(ms, m);
    FitsInside(chunk, rest, n, done);
    if n == |chunk| {
      assert done == chunk;
      UsedBegins(chunk, rest, n);
    }
  }

  lemma WordProgress(chunk: seq<Byte>, rest: seq<Byte>, i: nat, done: seq<Byte>, ms: seq<Report>)
    requires Progress(chunk, rest, i, done, ms) && i < |chunk| && chunk[i] != MARK
    ensures Progress(chunk, rest, i + 1, done + [chunk[i]], ms + [Word(chunk[i])])
    ensures Fits(chunk, rest, ms + [Word(chunk[i])])
  {
    WordRead(done, chunk[i]);
    ProgressInside(chunk, rest, i + 1, done + [chunk[i]], ms, Word(chunk[i]));
  }

  lemma MarkProgress(chunk: seq<Byte>, rest: seq<Byte>, i: nat, done: seq<Byte>, ms: seq<Report>)
    requires Progress(chunk, rest, i, done, ms) && i + 1 < |chunk| && chunk[i] == chunk[i + 1] == MARK
    ensures Progress(chunk, rest, i + 2, done + [MARK, MARK], ms + [Word(MARK)])
    ensures Fits(chunk, rest, ms + [Word(MARK)])
  {
    MarkRead(done);
    ProgressInside(chunk, rest, i + 2, done + [MARK, MARK], ms, Word(MARK));
  }

  lemma TrancheProgress(chunk: seq<Byte>, rest: seq<Byte>, i: nat, done: seq<Byte>, ms: seq<Report>)
    requires Progress(chunk, rest, i, done, ms) && i + 2 < |chunk| && chunk[i] == MARK != chunk[i + 1]
    ensures Progress(chunk, rest, i + 3, done + [MARK, chunk[i + 1], chunk[i + 2]],
                     ms + [Tranche(DebtOf(chunk[i + 1], chunk[i + 2]))])
  {
    TrancheRead(done, chunk[i + 1], chunk[i + 2]);
    ProgressInside(chunk, rest, i + 3, done + [MARK, chunk[i + 1], chunk[i + 2]], ms,
                   Tranche(DebtOf(chunk[i + 1], chunk[i + 2])));
  }

  /** The chunk ends after the first byte of a tranche. */
  lemma CutTrancheProgress(chunk: seq<Byte>, rest: seq<Byte>, i: nat, done: seq<Byte>, ms: seq<Report>)
    requires Progress(chunk, rest, i, done, ms) && i + 2 == |chunk| && chunk[i] == MARK != chunk[i + 1]
    requires CanFinish(Read(Plain, chunk).0, rest)
    ensures rest != [] && Used(chunk, rest) == chunk + rest[..1]
    ensures Progress(chunk, rest, i + 2, Used(chunk, rest), ms + [Tranche(DebtOf(chunk[i + 1], rest[0]))])
  {
    assert chunk == done + [MARK, chunk[i + 1]];
    UsedInTranche(chunk, rest, done, chunk[i + 1]);
    TrancheRead(done, chunk[i + 1], rest[0]);
    OneMore(ms, Tranche(DebtOf(chunk[i + 1], rest[0])));
  }

  lemma UsedInTranche(chunk: seq<Byte>, rest: seq<Byte>, done: seq<Byte>, first: Byte)
    requires Read(Plain, done).0 == Plain && chunk == done + [MARK, first] && first != MARK
    requires CanFinish(Read(Plain, chunk).0, rest)
    ensures rest != [] && Used(chunk, rest) == chunk + rest[..1] == done + [MARK, first, rest[0]]
  {
    TrancheRead(done, first, 0);
    assert [MARK, first] + rest[..1] == [MARK, first, rest[0]];
    Associate(done, [MARK, first], rest[..1]);
  }

  lemma UsedWhenMarked(chunk: seq<Byte>, rest: seq<Byte>, done: seq<Byte>)
    requires Read(Plain, done).0 == Plain && chunk == done + [MARK] && CanFinish(Read(Plain, chunk).0, rest)
    ensures rest != [] && (rest[0] == MARK || |rest| >= 2)
    ensures Used(chunk, rest) == done + if rest[0] == MARK then [MARK, MARK] else [MARK, rest[0], rest[1]]
  {
    MarkRead(done);
  }

  /** The report completed by the bytes looked at ahead. */
  function AfterCutMark(rest: seq<Byte>): Report
    requires rest != [] && (rest[0] == MARK || |rest| >= 2)
  {
    if rest[0] == MARK then Word(MARK) else Tranche(DebtOf(rest[0], rest[1]))
  }

  /** The chunk ends with a marker. */
  lemma CutMarkProgress(chunk: seq<Byte>, rest: seq<Byte>, i: nat, done: seq<Byte>, ms: seq<Report>)
    requires Progress(chunk, rest, i, done, ms) && i + 1 == |chunk| && chunk[i] == MARK
    requires CanFinish(Read(Plain, chunk).0, rest)
    ensures rest != [] && (rest[0] == MARK || |rest| >= 2)
    ensures |Used(chunk, rest)| == |chunk| + if rest[0] == MARK then 1 else 2
    ensures Progress(chunk, rest, i + 1, Used(chunk, rest), ms + [AfterCutMark(rest)])
    ensures Fits(chunk, rest, ms + [AfterCutMark(rest)])
  {
    assert chunk == done + [MARK];
    UsedWhenMarked(chunk, rest, done);
    OneMore(ms, AfterCutMark(rest));
    if rest[0] == MARK {
      MarkRead(done);
    } else {
      TrancheRead(done, rest[0], rest[1]);
    }
  }

  /** The message that starts with a marker before the last byte of the chunk: how far it goes, and what it says. */
  function AfterMark(chunk: seq<Byte>, rest: seq<Byte>, i: nat): (nat, Report)
    requires i + 1 < |chunk| && (i + 2 == |chunk| && chunk[i + 1] != MARK ==> rest != [])
  {
    if chunk[i + 1] == MARK then (i + 2, Word(MARK))
    else if i + 2 < |chunk| then (i + 3, Tranche(DebtOf(chunk[i + 1], chunk[i + 2])))
    else (i + 2, Tranche(DebtOf(chunk[i + 1], rest[0])))
  }

  lemma AfterMarkProgress(chunk: seq<Byte>, rest: seq<Byte>, i: nat, done: seq<Byte>, ms: seq<Report>)
    returns (done': seq<Byte>)
    requires Progress(chunk, rest, i, done, ms) && i + 1 < |chunk| && chunk[i] == MARK
    requires CanFinish(Read(Plain, chunk).0, rest)
    ensures i + 2 == |chunk| && chunk[i + 1] != MARK ==> rest != []
    ensures Progress(chunk, rest, AfterMark(chunk, rest, i).0, done', ms + [AfterMark(chunk, rest, i).1])
    ensures chunk[i + 1] == MARK ==> Fits(chunk, rest, ms + [Word(MARK)])
    ensures AfterMark(chunk, rest, i).0 == |chunk|
      ==> |done'| == |chunk| + if chunk[i + 1] != MARK && i + 2 == |chunk| then 1 else 0
  {
    if chunk[i + 1] == MARK {
      MarkProgress(chunk, rest, i, done, ms);
      done' := done + [MARK, MARK];
    } else if i + 2 < |chunk| {
      TrancheProgress(chunk, rest, i, done, ms);
      done' := done + [MARK, chunk[i + 1], chunk[i + 2]];
    } else {
      CutTrancheProgress(chunk, rest, i, done, ms);
      done' := Used(chunk, rest);
    }
  }

  // ---------- The host ----------

  predicate Waits(chunk: seq<Byte>, rest: seq<Byte>, i: nat, used: nat, arriving: seq<Byte>) {
    if i < |chunk| then arriving == rest
    else |chunk| <= used <= |chunk| + |rest| && arriving == rest[used - |chunk|..]
  }

  lemma WaitsAfterMark(chunk: seq<Byte>, rest: seq<Byte>, i: nat, used: nat, arriving: seq<Byte>)
    requires i + 1 < |chunk| && (i + 2 == |chunk| && chunk[i + 1] != MARK ==> rest != [])
    requires arriving == if chunk[i + 1] != MARK && i + 2 == |chunk| then rest[1..] else rest
    requires AfterMark(chunk, rest, i).0 == |chunk|
      ==> used == |chunk| + if chunk[i + 1] != MARK && i + 2 == |chunk| then 1 else 0
    ensures Waits(chunk, rest, AfterMark(chunk, rest, i).0, used, arriving)
  {
    assert rest[0..] == rest;
  }

  lemma CreditIsLeft(chunk: seq<Byte>, rest: seq<Byte>, ms: seq<Report>, b: Byte, credit: nat)
    requires Fits(chunk, rest, ms + [Word(b)])
    requires |Words(Read(Plain, Used(chunk, rest)).1)| <= credit + |Words(ms)|
    ensures credit > 0
  {
    OneMore(ms, Word(b));
  }

  function TrashBefore(arriving: seq<Byte>): nat { if arriving != [] && arriving[0] != MARK then 1 else 0 }

  class Host {
    /** What will still arrive, and what has been written. */
    var arriving: seq<Byte>
    var written: seq<Byte>
    /** The two circular buffers, as the queues they are; the user fills one and empties the other. */
    var input: seq<Byte>
    var output: seq<Byte>
    /** What the host may send, and what the logic may send. */
    var debt: nat
    var credit: nat

    /**
     * The reset: the first credit is sent, and the logic's first tranche is read. A trash byte
     * before it is ignored; that a credit message follows is an assertion of the source.
     */
    constructor (arriving: seq<Byte>)
      requires var i := TrashBefore(arriving); |arriving| >= i + 3 && arriving[i] == MARK
      ensures input == output == [] && credit == MAX_TRANCHE && written == HostEncode(Credit(MAX_TRANCHE))
      ensures var i := TrashBefore(arriving);
        this.arriving == arriving[i + 3..] && debt == DebtOf(arriving[i + 1], arriving[i + 2])
    {
      this.arriving, written, input, output := arriving, [], [], [];
      credit, debt := MAX_TRANCHE, 0;
      new;
      SendCredit(MAX_TRANCHE);
      var message := new Byte[3](_ => 0);
      ReadBlocking(message, 0, 3);
      if message[0] != MARK {
        message[0] := message[1];
        message[1] := message[2];
        ReadBlocking(message, 2, 1);
      }
      UpdateDebt(message[1], message[2]);
    }

    method ReadBlocking(buffer: array<Byte>, at: nat, size: nat)
      requires at + size <= buffer.Length && size <= |arriving|
      modifies `arriving, buffer
      ensures arriving == old(arriving)[size..]
      ensures buffer[..] == old(buffer[..at]) + old(arriving)[..size] + old(buffer[at + size..])
    {
      forall i | at <= i < at + size {
        buffer[i] := arriving[i - at];
      }
      arriving := arriving[size..];
    }

    method UpdateDebt(first: Byte, second: Byte)
      modifies `debt
      ensures debt == old(debt) + DebtOf(first, second)
    {
      debt := debt + ((first / 2) % 128) * 256 + second;
    }

    /** The assertions of the source are the preconditions. */
    method PutWord(b: Byte)
      requires credit > 0 && |input| < BUFFER_SIZE
      modifies `input, `credit
      ensures input == old(input) + [b] && credit == old(credit) - 1
    {
      input := input + [b];
      credit := credit - 1;
    }

    /** The chunk ended before a tranche's second byte. */
    method FinishTranche(buffer: array<Byte>, first: Byte)
      requires arriving != [] && buffer.Length > 0
      modifies `arriving, `debt, buffer
      ensures arriving == old(arriving)[1..] && debt == old(debt) + DebtOf(first, old(arriving)[0])
    {
      ReadBlocking(buffer, 0, 1);
      UpdateDebt(first, buffer[0]);
    }

    /** The effect of one message. */
    twostate predicate Took(m: Report)
      reads this
    {
      && input == old(input) + (if m.Word? then [m.b] else [])
      && credit == old(credit) - (if m.Word? then 1 else 0)
      && debt == old(debt) + if m.Tranche? then m.credit else 0
    }

    /** What follows a marker that is not the last byte of the chunk. */
    method ParseMarked(buffer: array<Byte>, size: nat, i: nat) returns (next: nat, ghost m: Report)
      requires i + 1 < size <= buffer.Length && buffer[i] == MARK
      requires buffer[i + 1] == MARK ==> credit > 0 && |input| < BUFFER_SIZE
      requires i + 2 == size && buffer[i + 1] != MARK ==> arriving != []
      modifies `arriving, `debt, `credit, `input, buffer
      ensures Took(m)
      ensures var chunk := old(buffer[..size]);
        && (next, m) == AfterMark(chunk, old(arriving), i)
        && (next < size ==> buffer[..size] == chunk)
        && arriving == if chunk[i + 1] != MARK && i + 2 == size then old(arriving)[1..] else old(arriving)
    {
      next := i;
      if buffer[i + 1] == MARK {
        PutWord(buffer[i]);
        m := Word(MARK);
      } else {
        if i + 2 < size {
          m := Tranche(DebtOf(buffer[i + 1], buffer[i + 2]));
          UpdateDebt(buffer[i + 1], buffer[i + 2]);
          next := next + 1;
        } else {
          m := Tranche(DebtOf(buffer[i + 1], arriving[0]));
          FinishTranche(buffer, buffer[i + 1]);
        }
      }
      next := next + 2;
    }

    /** What follows a marker that is the last byte of the chunk. */
    method ParseCutMark(buffer: array<Byte>) returns (ghost m: Report)
      requires arriving != [] && buffer.Length > 1
      requires if arriving[0] == MARK then credit > 0 && |input| < BUFFER_SIZE else |arriving| > 1
      modifies `arriving, `debt, `credit, `input, buffer
      ensures Took(m)
      ensures m == AfterCutMark(old(arriving))
      ensures arriving == old(arriving)[if old(arriving)[0] == MARK then 1 else 2..]
    {
      ReadBlocking(buffer, 0, 1);
      if buffer[0] == MARK {
        m := Word(MARK);
        PutWord(buffer[0]);
      } else {
        ReadBlocking(buffer, 1, 1);
        m := Tranche(DebtOf(buffer[0], buffer[1]));
        UpdateDebt(buffer[0], buffer[1]);
      }
    }

    /** Everything but the last message of a chunk lies in the chunk. */
    ghost predicate Waiting(chunk: seq<Byte>, rest: seq<Byte>, i: nat, used: nat)
      reads this
    {
      Waits(chunk, rest, i, used, arriving)
    }

    /** Parses a message whose marker is not the last byte of the chunk. */
    method ParseMarkedInside(buffer: array<Byte>, size: nat, i: nat, ghost rest: seq<Byte>, ghost done: seq<Byte>,
                             ghost ms: seq<Report>)
      returns (next: nat, ghost done': seq<Byte>, ghost m: Report)
      requires 2 <= buffer.Length && i + 1 < size <= buffer.Length && arriving == rest && buffer[i] == MARK
      requires CanFinish(Read(Plain, buffer[..size]).0, rest) && Progress(buffer[..size], rest, i, done, ms)
      requires |input| < BUFFER_SIZE
      requires |Words(Read(Plain, Used(buffer[..size], rest)).1)| <= credit + |Words(ms)|
      modifies `arriving, `input, `debt, `credit, buffer
      ensures i < next && Took(m)
      ensures var chunk := old(buffer[..size]);
        && Progress(chunk, rest, next, done', ms + [m]) && Waiting(chunk, rest, next, |done'|)
        && (next < size ==> buffer[..size] == chunk)
    {
      ghost var chunk := buffer[..size];
      assert chunk[i] == MARK && buffer[i + 1] == chunk[i + 1];
      done' := AfterMarkProgress(chunk, rest, i, done, ms);
      if chunk[i + 1] == MARK {
        CreditIsLeft(chunk, rest, ms, MARK, credit);
      }
      next, m := ParseMarked(buffer, size, i);
      WaitsAfterMark(chunk, rest, i, |done'|, arriving);
    }

    /** Parses a message whose marker is the last byte of the chunk. */
    method ParseMarkedLast(buffer: array<Byte>, size: nat, i: nat, ghost rest: seq<Byte>, ghost done: seq<Byte>,
                           ghost ms: seq<Report>)
      returns (next: nat, ghost done': seq<Byte>, ghost m: Report)
      requires 2 <= buffer.Length && i + 1 == size <= buffer.Length && arriving == rest && buffer[i] == MARK
      requires CanFinish(Read(Plain, buffer[..size]).0, rest) && Progress(buffer[..size], rest, i, done, ms)
      requires |input| < BUFFER_SIZE
      requires |Words(Read(Plain, Used(buffer[..size], rest)).1)| <= credit + |Words(ms)|
      modifies `arriving, `input, `debt, `credit, buffer
      ensures i < next && Took(m)
      ensures var chunk := old(buffer[..size]);
        && Progress(chunk, rest, next, done', ms + [m]) && Waiting(chunk, rest, next, |done'|)
        && (next < size ==> buffer[..size] == chunk)
    {
      ghost var chunk := buffer[..size];
      assert chunk[i] == MARK;
      OneMore(ms, Word(MARK));
      CutMarkProgress(chunk, rest, i, done, ms);
      done' := Used(chunk, rest);
      m := ParseCutMark(buffer);
      next := i + 1;
    }

    /** Parses the message that starts at `i`. */
    method ParseOne(buffer: array<Byte>, size: nat, i: nat, ghost rest: seq<Byte>, ghost done: seq<Byte>,
                    ghost ms: seq<Report>)
      returns (next: nat, ghost done': seq<Byte>, ghost m: Report)
      requires 2 <= buffer.Length && i < size <= buffer.Length && arriving == rest
      requires CanFinish(Read(Plain, buffer[..size]).0, rest) && Progress(buffer[..size], rest, i, done, ms)
      requires |input| < BUFFER_SIZE
      requires |Words(Read(Plain, Used(buffer[..size], rest)).1)| <= credit + |Words(ms)|
      modifies `arriving, `input, `debt, `credit, buffer
      ensures i < next && Took(m)
      ensures var chunk := old(buffer[..size]);
        && Progress(chunk, rest, next, done', ms + [m]) && Waiting(chunk, rest, next, |done'|)
        && (next < size ==> buffer[..size] == chunk)
    {
      ghost var chunk := buffer[..size];
      assert buffer[i] == chunk[i];
      if buffer[i] == MARK && i + 1 < size {
        next, done', m := ParseMarkedInside(buffer, size, i, rest, done, ms);
      } else if buffer[i] == MARK {
        next, done', m := ParseMarkedLast(buffer, size, i, rest, done, ms);
      } else {
        WordProgress(chunk, rest, i, done, ms);
        OneMore(ms, Word(chunk[i]));
        done', m := done + [chunk[i]], Word(chunk[i]);
        PutWord(buffer[i]);
        next := i + 1;
      }
    }

    /**
     * Parses the chunk in the buffer's first `size` bytes. A message cut off by the end of the
     * chunk is completed from the wire, into the front of the same buffer.
     */
    method ParseBuffer(buffer: array<Byte>, size: nat)
      requires 2 <= buffer.Length && size <= buffer.Length
      requires CanFinish(Read(Plain, buffer[..size]).0, arriving)
      requires |input| + size <= BUFFER_SIZE
      requires |Words(Read(Plain, Used(buffer[..size], arriving)).1)| <= credit
      modifies `arriving, `input, `debt, `credit, buffer
      ensures var used := Used(old(buffer[..size]), old(arriving));
        var ms := Read(Plain, used).1;
        && Read(Plain, used).0 == Plain && |Words(ms)| <= size
        && used + arriving == old(buffer[..size]) + old(arriving)
        && input == old(input) + Words(ms)
        && debt == old(debt) + Debts(ms)
        && credit == old(credit) - |Words(ms)|
    {
      ghost var chunk, rest := buffer[..size], arriving;
      ghost var done, ms := [], [];
      var i := 0;
      if size == 0 {
        assert chunk == [];
      }
      while i < size
        invariant Progress(chunk, rest, i, done, ms) && Waiting(chunk, rest, i, |done|)
        invariant input == old(input) + Words(ms) && credit == old(credit) - |Words(ms)|
        invariant debt == old(debt) + Debts(ms)
        invariant i < size ==> buffer[..size] == chunk
      {
        ghost var m;
        i, done, m := ParseOne(buffer, size, i, rest, done, ms);
        OneMore(ms, m);
        Associate(old(input), Words(ms), if m.Word? then [m.b] else []);
        ms := ms + [m];
      }
      UsedAndRest(chunk, rest);
    }

    // ---------- Writing ----------

    method WriteBlocking(b: Byte)
      modifies `written
      ensures written == old(written) + [b]
    {
      written := written + [b];
    }

    method SendCredit(tranche: nat)
      requires tranche < 0x4000
      modifies `written
      ensures written == old(written) + HostEncode(Credit(tranche))
    {
      WriteBlocking(MARK);
      WriteBlocking(1 + 2 * (tranche / 256));
      WriteBlocking(tranche % 256);
    }

    /** The level of the output buffer, where the user writes `meanwhile` between its two reads. */
    method FillLevel(meanwhile: seq<Byte>) returns (level: nat)
      requires |output| + |meanwhile| <= BUFFER_SIZE
      modifies `output
      ensures output == old(output) + meanwhile
      ensures level == LevelSeen(old(|output|) == BUFFER_SIZE, |output|, BUFFER_SIZE)
    {
      if |output| == BUFFER_SIZE {
        assert output + meanwhile == output;
        return BUFFER_SIZE;
      }
      output := output + meanwhile;
      level := if |output| == BUFFER_SIZE then 0 else |output|;
    }

    /** Writes the words, markers twice. */
    method WriteAll(buffer: seq<Byte>)
      modifies `written
      ensures written == old(written) + HostEncodeAll(DataCommands(buffer))
    {
      assert DataCommands(buffer[..0]) == [] && HostEncodeAll([]) == [];
      for i := 0 to |buffer|
        invariant written == old(written) + HostEncodeAll(DataCommands(buffer[..i]))
      {
        DataCommandsOfNext(buffer, i);
        WriteBlocking(buffer[i]);
        if buffer[i] == MARK {
          WriteBlocking(buffer[i]);
        }
      }
      assert buffer[..|buffer|] == buffer;
    }

    /** Takes `size` words out of the output buffer, unless the level seen says that there are not so many. */
    method ReadOutput(size: nat, meanwhile: seq<Byte>) returns (refused: bool, buffer: seq<Byte>)
      requires 0 < size <= |output| && |output| + |meanwhile| <= BUFFER_SIZE
      modifies `output
      ensures refused <==> FillsUp(old(|output|), old(|output|) + |meanwhile|)
      ensures refused ==> output == old(output) + meanwhile
      ensures !refused ==> buffer + output == old(output) + meanwhile && |buffer| == size
    {
      var level := FillLevel(meanwhile);
      refused, buffer := level < size, output[..size];
      if !refused {
        output := output[size..];
      }
    }

    /**
     * Sends as many words as there are, as the logic can take, and as fit the temporary buffer. The
     * user writes `first` while the thread reads the level, `between` until `ReadOutput` starts, and
     * `second` while that reads the level again. If `first` fills the buffer the round sends nothing;
     * if `second` does, an assertion fails; and `between` may well fill it.
     */
    method WriteWords(first: seq<Byte>, between: seq<Byte>, second: seq<Byte>) returns (aborted: bool)
      requires |output| + |first| + |between| + |second| <= BUFFER_SIZE
      modifies `written, `output, `debt
      ensures var ready, all := old(output) + first, old(output) + first + between + second;
        var n := if FillsUp(old(|output|), |ready|) then 0 else Min(Min(old(debt), TMP_BUFFER_SIZE), |ready|);
        var sent := if aborted then 0 else n;
        && (aborted <==> n > 0 && FillsUp(|ready| + |between|, |all|))
        && output == all[sent..] && debt == old(debt) - sent
        && written == old(written) + HostEncodeAll(DataCommands(all[..sent]))
    {
      ghost var all := output + first + between + second;
      aborted := false;
      assert all[0..] == all && DataCommands(all[..0]) == [] && HostEncodeAll([]) == [];
      if debt == 0 {
        output := output + first + between + second;
        return;
      }
      var size := Min(debt, TMP_BUFFER_SIZE);
      var avail := FillLevel(first);
      output := output + between;
      if avail == 0 {
        output := output + second;
        return;
      }
      size := Min(avail, size);
      var buffer;
      aborted, buffer := ReadOutput(size, second);
      if !aborted {
        assert all[..size] == buffer && all[size..] == output;
        WriteAll(buffer);
        debt := debt - size;
      }
    }

    method TopUp()
      requires credit <= BUFFER_SIZE
      modifies `written, `credit
      ensures credit == if old(credit) < BUFFER_SIZE - MAX_TRANCHE then old(credit) + MAX_TRANCHE else old(credit)
      ensures written == old(written) + HostEncodeAll(TopUps(old(credit)))
    {
      if credit < BUFFER_SIZE - MAX_TRANCHE {
        credit := credit + MAX_TRANCHE;
        SendCredit(MAX_TRANCHE);
        assert HostEncodeAll([Credit(MAX_TRANCHE)]) == HostEncode(Credit(MAX_TRANCHE)) + [];
      }
    }

    /** Reads a chunk of `arrived` bytes, if any, and parses it. */
    method ReadChunk(arrived: nat)
      requires TMP_BUFFER_SIZE <= credit && |input| <= BUFFER_SIZE
      requires arrived <= Min(BUFFER_SIZE - |input|, TMP_BUFFER_SIZE) && arrived <= |arriving|
      requires CanFinish(Read(Plain, arriving[..arrived]).0, arriving[arrived..])
      modifies `arriving, `input, `debt, `credit
      ensures var used := Used(old(arriving)[..arrived], old(arriving)[arrived..]);
        var ms := Read(Plain, used).1;
        && Read(Plain, used).0 == Plain && used + arriving == old(arriving) && |Words(ms)| <= arrived
        && input == old(input) + Words(ms) && debt == old(debt) + Debts(ms) && credit == old(credit) - |Words(ms)|
    {
      if arrived > 0 {
        var buffer := new Byte[TMP_BUFFER_SIZE](_ => 0);
        ghost var stream := arriving;
        forall i | 0 <= i < arrived {
          buffer[i] := arriving[i];
        }
        arriving := arriving[arrived..];
        assert buffer[..arrived] == stream[..arrived];
        WordsFitChunk(stream[..arrived], arriving);
        ParseBuffer(buffer, arrived);
        assert stream[..arrived] + stream[arrived..] == stream;
      } else {
        assert arriving[..0] == [] && Used([], arriving[0..]) == [];
      }
    }

    /** A byte has been read although the input buffer is full: only a credit message is expected. */
    method ReadCreditOnly() returns (aborted: bool)
      requires arriving != [] && (arriving[0] == MARK ==> |arriving| >= 3)
      modifies `arriving, `debt
      ensures aborted <==> old(arriving)[0] != MARK
      ensures !aborted
        ==> arriving == old(arriving)[3..] && debt == old(debt) + DebtOf(old(arriving)[1], old(arriving)[2])
      ensures aborted ==> arriving == old(arriving)[1..] && debt == old(debt)
    {
      var buffer := new Byte[TMP_BUFFER_SIZE](_ => 0);
      ReadBlocking(buffer, 0, 1);
      aborted := buffer[0] != MARK;
      if !aborted {
        ReadBlocking(buffer, 0, 2);
        UpdateDebt(buffer[0], buffer[1]);
      }
    }

    /** A round in which a byte has arrived although the input buffer is full. */
    method FullRound(first: seq<Byte>, between: seq<Byte>, second: seq<Byte>)
      returns (aborted: bool, ghost sent: seq<Command>)
      requires MAX_TRANCHE <= credit < BUFFER_SIZE && |input| == BUFFER_SIZE
      requires arriving != [] && (arriving[0] == MARK ==> |arriving| >= 3)
      requires |output| + |first| + |between| + |second| <= BUFFER_SIZE
      modifies this
      ensures input == old(input) && (!aborted ==> MAX_TRANCHE <= credit < BUFFER_SIZE)
      ensures var more := if old(arriving)[0] == MARK then DebtOf(old(arriving)[1], old(arriving)[2]) else 0;
        && (aborted <==> old(arriving)[0] != MARK || Aborts(old(debt) + more, old(output), first, between, second))
        && arriving == old(arriving)[if old(arriving)[0] == MARK then 3 else 1..]
        && debt + |DataOf(sent)| == old(debt) + more && credit == old(credit) + Credits(sent)
        && IsRoundOf(sent, aborted, old(credit))
      ensures written == old(written) + HostEncodeAll(sent)
      ensures old(arriving)[0] == MARK ==> DataOf(sent) + output == old(output) + first + between + second
    {
      aborted := ReadCreditOnly();
      sent := [];
      if !aborted {
        aborted, sent := SendRound(first, between, second);
      }
    }

    /**
     * A round of the thread, in which `arrived` bytes can be read at once. The credit is never
     * exhausted in between, and what is written is a run of whole commands: words, and the credit
     * that is due. It is aborted if and only if the user fills the output buffer while the level is
     * read the second time.
     */
    method Round(arrived: nat, first: seq<Byte>, between: seq<Byte>, second: seq<Byte>)
      returns (aborted: bool, ghost sent: seq<Command>)
      requires MAX_TRANCHE <= credit < BUFFER_SIZE && |input| <= BUFFER_SIZE
      requires arrived <= Min(BUFFER_SIZE - |input|, TMP_BUFFER_SIZE) && arrived <= |arriving|
      requires CanFinish(Read(Plain, arriving[..arrived]).0, arriving[arrived..])
      requires |output| + |first| + |between| + |second| <= BUFFER_SIZE
      modifies this
      ensures |input| <= BUFFER_SIZE && (!aborted ==> MAX_TRANCHE <= credit < BUFFER_SIZE)
      ensures var used := Used(old(arriving)[..arrived], old(arriving)[arrived..]);
        var ms := Read(Plain, used).1;
        && Read(Plain, used).0 == Plain && used + arriving == old(arriving)
        && |Words(ms)| <= arrived && input == old(input) + Words(ms)
        && credit == old(credit) - |Words(ms)| + Credits(sent)
        && debt + |DataOf(sent)| == old(debt) + Debts(ms)
        && (aborted <==> Aborts(old(debt) + Debts(ms), old(output), first, between, second))
        && IsRoundOf(sent, aborted, old(credit) - |Words(ms)|)
      ensures written == old(written) + HostEncodeAll(sent)
      ensures DataOf(sent) + output == old(output) + first + between + second
      ensures |old(output)| + |first| + |between| + |second| < BUFFER_SIZE ==> !aborted
    {
      ReadChunk(arrived);
      aborted, sent := SendRound(first, between, second);
    }

    /** The writing half of a round. */
    method SendRound(first: seq<Byte>, between: seq<Byte>, second: seq<Byte>)
      returns (aborted: bool, ghost sent: seq<Command>)
      requires MAX_TRANCHE - TMP_BUFFER_SIZE <= credit < BUFFER_SIZE
      requires |output| + |first| + |between| + |second| <= BUFFER_SIZE
      modifies `written, `output, `debt, `credit
      ensures (!aborted ==> MAX_TRANCHE <= credit < BUFFER_SIZE) && credit == old(credit) + Credits(sent)
      ensures IsRoundOf(sent, aborted, old(credit)) && written == old(written) + HostEncodeAll(sent)
      ensures DataOf(sent) + output == old(output) + first + between + second && debt + |DataOf(sent)| == old(debt)
      ensures aborted <==> Aborts(old(debt), old(output), first, between, second)
    {
      ghost var all, before, owed := output + first + between + second, credit, debt;
      aborted := WriteWords(first, between, second);
      ghost var n := owed - debt;
      assert all[..n] + all[n..] == all;
      if aborted {
        sent := [];
        return;
      }
      TopUp();
      sent := DataCommands(all[..n]) + TopUps(before);
      SentOfRound(all[..n], TopUps(before));
      Associate(old(written), HostEncodeAll(DataCommands(all[..n])), HostEncodeAll(TopUps(before)));
    }
  }

  /**
   * What is done with the first message when the input buffer is full is right exactly if it is a
   * credit message: a word fails the assertion, unless it is the marker, which is taken for credit.
   */
  lemma CreditOnlyIff(stream: seq<Byte>)
    requires |stream| >= 3 && Read(Plain, stream).0 == Plain
    ensures Read(Plain, stream).1 != []
    ensures Read(Plain, stream).1[0].Tranche?
      <==> stream[0] == MARK && Read(Plain, stream[..3]).1 == [Tranche(DebtOf(stream[1], stream[2]))]
    ensures Read(Plain, stream).1[0] == Word(MARK) <==> stream[0] == stream[1] == MARK
    ensures Read(Plain, stream).1[0].Word? && Read(Plain, stream).1[0] != Word(MARK) <==> stream[0] != MARK
  {
    var b, c, d, rest := stream[0], stream[1], stream[2], stream[3..];
    assert stream == stream[..3] + rest && stream[..3] == [b] + [c, d];
    ReadOfAppend(Plain, stream[..3], rest);
    ReadNext(Plain, b, [c, d]);
    ReadTwo(ReaderStep(Plain, b).0, c, d);
  }

  /**
   * Any host that may send has its round aborted by a user who writes a few words, and goes on to
   * fill the buffer while they are about to be read.
   */
  method FillingUserAborts(h: Host, first: seq<Byte>, second: seq<Byte>) returns (aborted: bool)
    requires MAX_TRANCHE <= h.credit < BUFFER_SIZE && |h.input| <= BUFFER_SIZE && h.output == [] && h.debt > 0
    requires |first| + |second| == BUFFER_SIZE && 0 < |first| < BUFFER_SIZE
    modifies h
    ensures aborted && h.output == first + second && h.written == old(h.written) && h.debt == old(h.debt)
  {
    NothingUsed(h.arriving);
    ghost var sent;
    aborted, sent := h.Round(0, first, [], second);
    assert [] + first + [] + second == first + second;
    assert HostEncodeAll([]) == [];
  }

  /** Such a host right after the reset, where the logic can take a word. */
  method AbortExists() returns (h: Host, aborted: bool)
    ensures fresh(h) && aborted && |h.output| == BUFFER_SIZE && h.written == HostEncode(Credit(MAX_TRANCHE))
  {
    h := new Host([MARK, 1, 1]);
    var second := seq(BUFFER_SIZE - 1, _ => 0);
    aborted := FillingUserAborts(h, [0], second);
  }

  lemma NothingUsed(stream: seq<Byte>)
    ensures stream[..0] == [] && Used(stream[..0], stream[0..]) == [] && Read(Plain, []).0 == Plain
    ensures Debts(Read(Plain, []).1) == 0
  {}

  /** A buffer that was not full is full now. */
  predicate FillsUp(before: nat, after: nat) { before < BUFFER_SIZE == after }

  /** There is something to send, the thread has seen it, and it sees an empty buffer when it looks again. */
  predicate Aborts(debt: nat, output: seq<Byte>, first: seq<Byte>, between: seq<Byte>, second: seq<Byte>) {
    var ready := |output| + |first|;
    debt > 0 && ready > 0 && !FillsUp(|output|, ready) && FillsUp(ready + |between|, ready + |between| + |second|)
  }

  /** What is sent in a round: up to 256 words, and then the credit that is due; nothing if it is aborted. */
  predicate IsRoundOf(sent: seq<Command>, aborted: bool, credit: int) {
    && (forall m :: m in sent ==> ValidCommand(m)) && |DataOf(sent)| <= TMP_BUFFER_SIZE
    && if aborted then sent == [] else sent == DataCommands(DataOf(sent)) + TopUps(credit)
  }

  /** The credit given in a round. */
  function TopUps(credit: int): seq<Command> {
    if credit < BUFFER_SIZE - MAX_TRANCHE then [Credit(MAX_TRANCHE)] else []
  }

  function DataCommands(ws: seq<Byte>): (ms: seq<Command>)
    ensures |ms| == |ws| && forall m :: m in ms ==> m.Data?
  {
    seq(|ws|, i requires 0 <= i < |ws| => Data(ws[i]))
  }

  function DataOf(ms: seq<Command>): seq<Byte> {
    if ms == [] then [] else (if ms[0].Data? then [ms[0].b] else []) + DataOf(ms[1..])
  }

  function Credits(ms: seq<Command>): nat {
    if ms == [] then 0 else (if ms[0].Credit? then ms[0].tranche else 0) + Credits(ms[1..])
  }

  lemma {:induction false} HostEncodeAllOfAppend(a: seq<Command>, b: seq<Command>)
    requires forall m :: m in a + b ==> ValidCommand(m)
    ensures (forall m :: m in a ==> ValidCommand(m)) && forall m :: m in b ==> ValidCommand(m)
    ensures HostEncodeAll(a + b) == HostEncodeAll(a) + HostEncodeAll(b)
    decreases |a|
  {
    assert forall m :: m in a ==> m in a + b;
    assert forall m :: m in b ==> m in a + b;
    if a == [] {
      assert a + b == b;
    } else {
      assert (a + b)[0] == a[0] && (a + b)[1..] == a[1..] + b;
      HostEncodeAllOfAppend(a[1..], b);
      Associate(HostEncode(a[0]), HostEncodeAll(a[1..]), HostEncodeAll(b));
    }
  }

  lemma DataCommandsOfNext(ws: seq<Byte>, i: nat)
    requires i < |ws|
    ensures HostEncodeAll(DataCommands(ws[..i + 1])) == HostEncodeAll(DataCommands(ws[..i])) + HostEncode(Data(ws[i]))
  {
    assert DataCommands(ws[..i + 1]) == DataCommands(ws[..i]) + [Data(ws[i])];
    HostEncodeAllOfAppend(DataCommands(ws[..i]), [Data(ws[i])]);
    assert HostEncodeAll([Data(ws[i])]) == HostEncode(Data(ws[i])) + [];
  }

  lemma {:induction false} DataOfRun(ws: seq<Byte>, rest: seq<Command>)
    ensures DataOf(DataCommands(ws) + rest) == ws + DataOf(rest)
    ensures Credits(DataCommands(ws) + rest) == Credits(rest)
    decreases |ws|
  {
    if ws == [] {
      assert DataCommands(ws) + rest == rest;
    } else {
      assert (DataCommands(ws) + rest)[1..] == DataCommands(ws[1..]) + rest;
      DataOfRun(ws[1..], rest);
      assert ws == [ws[0]] + ws[1..];
    }
  }

  lemma SentOfRound(ws: seq<Byte>, topUp: seq<Command>)
    requires topUp == [] || topUp == [Credit(MAX_TRANCHE)]
    ensures var sent := DataCommands(ws) + topUp;
      && (forall m :: m in sent ==> ValidCommand(m))
      && HostEncodeAll(sent) == HostEncodeAll(DataCommands(ws)) + HostEncodeAll(topUp)
      && DataOf(sent) == ws && Credits(sent) == if topUp == [] then 0 else MAX_TRANCHE
  {
    HostEncodeAllOfAppend(DataCommands(ws), topUp);
    DataOfRun(ws, topUp);
  }

  /** A call never yields more words than its chunk has bytes, so there is room for all of them. */
  lemma WordsFitChunk(chunk: seq<Byte>, rest: seq<Byte>)
    ensures |Words(Read(Plain, Used(chunk, rest)).1)| <= |chunk|
  {
    var s := Read(Plain, chunk);
    var ahead := LookAhead(s.0, rest);
    WordsFit(chunk);
    AheadFits(s.0, rest);
    ReadOfAppend(Plain, chunk, ahead);
    TotalsOfAppend(s.1, Read(s.0, ahead).1);
  }

  /** The bytes looked at ahead hold at most the word that has begun. */
  lemma AheadFits(s: Reader, rest: seq<Byte>)
    ensures |Words(Read(s, LookAhead(s, rest)).1)| <= if s == Plain then 0 else 1
  {
    var ahead := LookAhead(s, rest);
    if |ahead| == 1 {
      assert ahead == [ahead[0]];
      ReadLast(s, ahead[0]);
      OneMore([], Word(ahead[0]));
    } else if |ahead| == 2 {
      assert ahead == [ahead[0], ahead[1]];
      ReadTwo(s, ahead[0], ahead[1]);
    }
  }

  /** A message that has begun has not yielded a word yet. */
  lemma {:induction false} WordsFit(bs: seq<Byte>)
    ensures |Words(Read(Plain, bs).1)| <= |bs|
    ensures Read(Plain, bs).0 == Plain || |Words(Read(Plain, bs).1)| < |bs|
  {
    if bs != [] {
      var init, last := bs[..|bs| - 1], bs[|bs| - 1];
      WordsFit(init);
      assert bs == init + [last];
      ReadOfAppend(Plain, init, [last]);
      ReadLast(Read(Plain, init).0, last);
      TotalsOfAppend(Read(Plain, init).1, ReaderStep(Read(Plain, init).0, last).1);
      OneMore([], Word(last));
    }
  }

  // ---------- Any way to cut the stream ----------

  /** The stream can be parsed in chunks of these sizes, each call ending with a whole message. */
  predicate Parses(sizes: seq<nat>, stream: seq<Byte>)
    decreases |sizes|
  {
    sizes == [] || (
      && sizes[0] <= |stream| && CanFinish(Read(Plain, stream[..sizes[0]]).0, stream[sizes[0]..])
      && Parses(sizes[1..], stream[|Used(stream[..sizes[0]], stream[sizes[0]..])|..]))
  }

  /** The number of bytes these calls use up, the ones looked at ahead included. */
  function Consumed(sizes: seq<nat>, stream: seq<Byte>): (n: nat)
    requires Parses(sizes, stream)
    ensures n <= |stream|
    decreases |sizes|
  {
    if sizes == [] then 0
    else
      var used := |Used(stream[..sizes[0]], stream[sizes[0]..])|;
      used + Consumed(sizes[1..], stream[used..])
  }

  /** All the messages of these calls. */
  function Parsed(sizes: seq<nat>, stream: seq<Byte>): seq<Report>
    requires Parses(sizes, stream)
    decreases |sizes|
  {
    if sizes == [] then []
    else
      var used := Used(stream[..sizes[0]], stream[sizes[0]..]);
      Read(Plain, used).1 + Parsed(sizes[1..], stream[|used|..])
  }

  lemma FirstPart(stream: seq<Byte>, n: nat, m: nat)
    requires n + m <= |stream|
    ensures stream[..n + m] == stream[..n] + stream[n..][..m]
  {}

  lemma UsedIsPrefix(stream: seq<Byte>, n: nat)
    requires n <= |stream|
    ensures var used := Used(stream[..n], stream[n..]); |used| <= |stream| && used == stream[..|used|]
  {
    assert stream[..n] + stream[n..] == stream;
    UsedAndRest(stream[..n], stream[n..]);
  }

  /** These bytes are these whole messages. */
  predicate ReadsAs(bs: seq<Byte>, ms: seq<Report>) { Read(Plain, bs).0 == Plain && Read(Plain, bs).1 == ms }

  lemma ReadsTogether(all: seq<Byte>, a: seq<Byte>, b: seq<Byte>, ms: seq<Report>, ns: seq<Report>)
    requires all == a + b && ReadsAs(a, ms) && ReadsAs(b, ns)
    ensures ReadsAs(all, ms + ns)
  {
    ReadOfAppend(Plain, a, b);
  }

  /** The messages are those of the bytes used, read in one go: the cuts make no difference. */
  lemma {:induction false} CutsDoNotMatter(sizes: seq<nat>, stream: seq<Byte>)
    requires Parses(sizes, stream)
    ensures ReadsAs(stream[..Consumed(sizes, stream)], Parsed(sizes, stream))
    decreases |sizes|
  {
    if sizes == [] {
      assert stream[..0] == [];
    } else {
      var chunk, rest := stream[..sizes[0]], stream[sizes[0]..];
      var used := Used(chunk, rest);
      var later := stream[|used|..];
      LookAheadFinishes(chunk, rest);
      UsedIsPrefix(stream, sizes[0]);
      CutsDoNotMatter(sizes[1..], later);
      var n := Consumed(sizes[1..], later);
      FirstPart(stream, |used|, n);
      ReadsTogether(stream[..|used| + n], used, later[..n], Read(Plain, used).1, Parsed(sizes[1..], later));
    }
  }

  lemma PrefixOfTotals(ms: seq<Report>, more: seq<Report>)
    ensures Words(ms) <= Words(ms + more) && Debts(ms) <= Debts(ms + more)
  {
    TotalsOfAppend(ms, more);
  }

  lemma PrefixesAgree(stream: seq<Byte>, m: nat, n: nat, ms: seq<Report>, ns: seq<Report>)
    requires m <= n <= |stream| && ReadsAs(stream[..m], ms) && ReadsAs(stream[..n], ns)
    ensures Words(ms) <= Words(ns) && Debts(ms) <= Debts(ns) && (m == n ==> ms == ns)
  {
    FirstPart(stream, m, n - m);
    var more := stream[m..][..n - m];
    ReadOfAppend(Plain, stream[..m], more);
    PrefixOfTotals(ms, Read(Plain, more).1);
  }

  /** Two ways to cut the same stream agree, as far as both go. */
  lemma {:induction false} AnyTwoCutsAgree(a: seq<nat>, b: seq<nat>, stream: seq<Byte>)
    requires Parses(a, stream) && Parses(b, stream) && Consumed(a, stream) <= Consumed(b, stream)
    ensures Words(Parsed(a, stream)) <= Words(Parsed(b, stream)) && Debts(Parsed(a, stream)) <= Debts(Parsed(b, stream))
    ensures Consumed(a, stream) == Consumed(b, stream) ==> Parsed(a, stream) == Parsed(b, stream)
  {
    CutsDoNotMatter(a, stream);
    CutsDoNotMatter(b, stream);
    PrefixesAgree(stream, Consumed(a, stream), Consumed(b, stream), Parsed(a, stream), Parsed(b, stream));
  }
}
