/**
 * The circular buffer used by one writer and one reader thread at the same time. Every read
 * of the other side's pointer, every copied byte and every pointer update is a step of its
 * own; memory is sequentially consistent.
 */
module CbufThreads {
  import opened Bytes
  import opened CircularBuffer
  import opened Levels
  import Sequences

  /** Where the writer is inside a call that wants to store `job`. */
  datatype Writer =
    | WIdle
    | WTestFull(job: seq<Byte>)
    | WReadLevel(job: seq<Byte>)
    | WCopy(job: seq<Byte>, done: nat)

  /** Where the reader is inside a call that wants `n` bytes. */
  datatype Reader =
    | RIdle
    | RTestFull(n: nat)
    | RReadLevel(n: nat)
    | RCopy(n: nat, got: seq<Byte>)

  /** The shared buffer, both threads, and all bytes ever published and consumed. */
  datatype State = State(
    size: nat, data: seq<Byte>, wrPtr: nat, rdPtr: nat,
    writer: Writer, reader: Reader,
    written: seq<Byte>, read: seq<Byte>)

  datatype Step =
    | WriterCall(job: seq<Byte>)
    | WriterTestFull
    | WriterReadLevel
    | WriterCopyByte
    | WriterPublish(k: nat)    // k below |job| is a commit of fewer bytes than reserved
    | ReaderCall(n: nat)
    | ReaderTestFull
    | ReaderReadLevel
    | ReaderCopyByte
    | ReaderPublish(k: nat)    // k below n discards fewer bytes than were looked at

  predicate WellFormed(s: State) {
    |s.data| == s.size && s.wrPtr < 2 * s.size && s.rdPtr < 2 * s.size
  }

  predicate Enabled(s: State, step: Step) {
    match step
    case WriterCall(_) => s.writer.WIdle?
    case WriterTestFull => s.writer.WTestFull?
    case WriterReadLevel => s.writer.WReadLevel?
    case WriterCopyByte => s.writer.WCopy? && s.writer.done < |s.writer.job| <= s.size
    case WriterPublish(k) => s.writer.WCopy? && s.writer.done == |s.writer.job| <= s.size && k <= |s.writer.job|
    case ReaderCall(n) => s.reader.RIdle?
    case ReaderTestFull => s.reader.RTestFull?
    case ReaderReadLevel => s.reader.RReadLevel?
    case ReaderCopyByte => s.reader.RCopy? && |s.reader.got| < s.reader.n <= s.size
    case ReaderPublish(k) => s.reader.RCopy? && |s.reader.got| == s.reader.n <= s.size && k <= s.reader.n
  }

  /** The size check of a write against a computed fill level. */
  function WriterDecides(s: State, job: seq<Byte>, level: int): State {
    if |job| > s.size - level then s.(writer := WIdle) else s.(writer := WCopy(job, 0))
  }

  function ReaderDecides(s: State, n: nat, level: int): State {
    if level < n then s.(reader := RIdle) else s.(reader := RCopy(n, []))
  }

  function Next(s: State, step: Step): (s': State)
    requires WellFormed(s) && Enabled(s, step)
    ensures WellFormed(s') && s'.size == s.size
  {
    match step
    case WriterCall(job) => s.(writer := WTestFull(job))
    case WriterTestFull =>
      if IsFull(s.wrPtr, s.rdPtr, s.size) then WriterDecides(s, s.writer.job, s.size)
      else s.(writer := WReadLevel(s.writer.job))
    case WriterReadLevel => WriterDecides(s, s.writer.job, PositionDistance(s.wrPtr, s.rdPtr, s.size))
    case WriterCopyByte =>
      var job, done := s.writer.job, s.writer.done;
      s.(data := s.data[Wrap(Index(s.wrPtr, s.size), done, s.size) := job[done]], writer := WCopy(job, done + 1))
    case WriterPublish(k) =>
      s.(wrPtr := PtrAdd(s.wrPtr, k, s.size), written := s.written + s.writer.job[..k], writer := WIdle)
    case ReaderCall(n) => s.(reader := if n == 0 then RIdle else RTestFull(n))
    case ReaderTestFull =>
      if IsFull(s.wrPtr, s.rdPtr, s.size) then ReaderDecides(s, s.reader.n, s.size)
      else s.(reader := RReadLevel(s.reader.n))
    case ReaderReadLevel => ReaderDecides(s, s.reader.n, PositionDistance(s.wrPtr, s.rdPtr, s.size))
    case ReaderCopyByte =>
      var n, got := s.reader.n, s.reader.got;
      s.(reader := RCopy(n, got + [s.data[Wrap(Index(s.rdPtr, s.size), |got|, s.size)]]))
    case ReaderPublish(k) =>
      s.(rdPtr := PtrAdd(s.rdPtr, k, s.size), read := s.read + s.reader.got[..k], reader := RIdle)
  }

  // ---------- The invariant ----------

  /** The pointers stand for the unbounded counts, and the used slots hold the unread bytes. */
  ghost predicate BufferInv(s: State) {
    && WellFormed(s)
    && |s.read| <= |s.written| <= |s.read| + s.size
    && Stored(s.wrPtr, s.rdPtr, s.size) == |s.written| - |s.read|
    && s.read == s.written[..|s.read|]
    && Slots(s.data, Index(s.rdPtr, s.size), |s.written| - |s.read|) == s.written[|s.read|..]
  }

  /** Between its two reads the writer knows that there is a free slot; while copying, that the job fits. */
  ghost predicate WriterInv(s: State)
    requires BufferInv(s)
  {
    match s.writer
    case WIdle => true
    case WTestFull(_) => true
    case WReadLevel(_) => |s.written| < |s.read| + s.size
    case WCopy(job, done) =>
      && done <= |job| && |s.written| + |job| <= |s.read| + s.size
      && Slots(s.data, Index(s.wrPtr, s.size), done) == job[..done]
  }

  ghost predicate ReaderInv(s: State)
    requires BufferInv(s)
  {
    match s.reader
    case RIdle => true
    case RTestFull(n) => n >= 1
    case RReadLevel(n) => n >= 1
    case RCopy(n, got) =>
      && |got| <= n && |s.read| + n <= |s.written|
      && got == s.written[|s.read|..|s.read| + |got|]
  }

  ghost predicate Inv(s: State) { BufferInv(s) && WriterInv(s) && ReaderInv(s) }

  /** A byte written behind `done` others. */
  lemma SlotWritten(d: seq<Byte>, start: nat, done: nat, b: Byte)
    requires start < |d| && done < |d|
    ensures Slots(d[Wrap(start, done, |d|) := b], start, done + 1) == Slots(d, start, done) + [b]
  {}

  /** A byte written behind the stored ones. */
  lemma SlotsUntouched(d: seq<Byte>, start: nat, n: nat, i: nat, b: Byte)
    requires start < |d| && n <= i < |d|
    ensures Slots(d[Wrap(start, i, |d|) := b], start, n) == Slots(d, start, n)
  {}

  lemma WriterCopyKeepsInv(s: State)
    requires Inv(s) && Enabled(s, WriterCopyByte)
    ensures Inv(Next(s, WriterCopyByte))
  {
    var s' := Next(s, WriterCopyByte);
    var job, done := s.writer.job, s.writer.done;
    var n := |s.written| - |s.read|;
    assert Index(s.wrPtr, s.size) == Wrap(Index(s.rdPtr, s.size), n, s.size);
    assert Wrap(Index(s.wrPtr, s.size), done, s.size) == Wrap(Index(s.rdPtr, s.size), n + done, s.size);
    SlotsUntouched(s.data, Index(s.rdPtr, s.size), n, n + done, job[done]);
    SlotWritten(s.data, Index(s.wrPtr, s.size), done, job[done]);
  }

  lemma SlotsJoin(d: seq<Byte>, start: nat, n: nat, k: nat)
    requires start < |d| && n + k <= |d|
    ensures Slots(d, start, n + k) == Slots(d, start, n) + Slots(d, Wrap(start, n, |d|), k)
  {}

  lemma WriterPublishKeepsInv(s: State, k: nat)
    requires Inv(s) && Enabled(s, WriterPublish(k))
    ensures Inv(Next(s, WriterPublish(k)))
  {
    var s' := Next(s, WriterPublish(k));
    var n := |s.written| - |s.read|;
    assert Index(s.wrPtr, s.size) == Wrap(Index(s.rdPtr, s.size), n, s.size);
    SlotsPrefix(s.data, Index(s.wrPtr, s.size), k, |s.writer.job|);
    SlotsJoin(s.data, Index(s.rdPtr, s.size), n, k);
    assert s'.written[|s.read|..] == s.written[|s.read|..] + s.writer.job[..k];
  }

  lemma ReaderCopyKeepsInv(s: State)
    requires Inv(s) && Enabled(s, ReaderCopyByte)
    ensures Inv(Next(s, ReaderCopyByte))
  {
    var i := |s.reader.got|;
    assert Slots(s.data, Index(s.rdPtr, s.size), |s.written| - |s.read|)[i] == s.written[|s.read| + i];
  }

  lemma ReaderPublishKeepsInv(s: State, k: nat)
    requires Inv(s) && Enabled(s, ReaderPublish(k))
    ensures Inv(Next(s, ReaderPublish(k)))
  {
    var s' := Next(s, ReaderPublish(k));
    var n := |s.written| - |s.read|;
    SlotsTail(s.data, Index(s.rdPtr, s.size), n, k);
    assert s.written[..|s.read| + k] == s.written[..|s.read|] + s.reader.got[..k];
    assert Index(s'.rdPtr, s.size) == Wrap(Index(s.rdPtr, s.size), k, s.size);
  }

  /** Calls and level reads only change where a thread is, and what it knows. */
  lemma WriterTestKeepsInv(s: State, step: Step)
    requires Inv(s) && Enabled(s, step) && (step.WriterCall? || step.WriterTestFull? || step.WriterReadLevel?)
    ensures Inv(Next(s, step))
  {}

  lemma ReaderTestKeepsInv(s: State, step: Step)
    requires Inv(s) && Enabled(s, step) && (step.ReaderCall? || step.ReaderTestFull? || step.ReaderReadLevel?)
    ensures Inv(Next(s, step))
  {}

  lemma InvKept(s: State, step: Step)
    requires Inv(s) && Enabled(s, step)
    ensures Inv(Next(s, step))
  {
    match step
    case WriterCopyByte => WriterCopyKeepsInv(s);
    case WriterPublish(k) => WriterPublishKeepsInv(s, k);
    case ReaderCopyByte => ReaderCopyKeepsInv(s);
    case ReaderPublish(k) => ReaderPublishKeepsInv(s, k);
    case _ =>
      if step.WriterCall? || step.WriterTestFull? || step.WriterReadLevel? {
        WriterTestKeepsInv(s, step);
      } else {
        ReaderTestKeepsInv(s, step);
      }
  }

  // ---------- Whole runs ----------

  function Empty(data: seq<Byte>): State {
    State(|data|, data, 0, 0, WIdle, RIdle, [], [])
  }

  predicate RunEnabled(s: State, run: seq<Step>)
    requires WellFormed(s)
    decreases |run|
  {
    run == [] || (Enabled(s, run[0]) && RunEnabled(Next(s, run[0]), run[1..]))
  }

  function Run(s: State, run: seq<Step>): (s': State)
    requires WellFormed(s) && RunEnabled(s, run)
    ensures WellFormed(s') && s'.size == s.size
    decreases |run|
  {
    if run == [] then s else Run(Next(s, run[0]), run[1..])
  }

  lemma {:induction false} InvKeptOverRun(s: State, run: seq<Step>)
    requires Inv(s) && RunEnabled(s, run)
    ensures Inv(Run(s, run))
    decreases |run|
  {
    if run != [] {
      InvKept(s, run[0]);
      InvKeptOverRun(Next(s, run[0]), run[1..]);
    }
  }

  // ---------- What the callers see ----------

  function First(bs: seq<Byte>, k: nat): seq<Byte> { if k <= |bs| then bs[..k] else bs }

  /** What the latest call asks for, after the step. */
  function JobAfter(job: seq<Byte>, step: Step): seq<Byte> { if step.WriterCall? then step.job else job }

  function AskedAfter(n: nat, step: Step): nat { if step.ReaderCall? then step.n else n }

  /** The bytes that are published in the step. */
  function PublishedIn(job: seq<Byte>, step: Step): seq<Byte> { if step.WriterPublish? then First(job, step.k) else [] }

  /** The bytes that are handed to the reader's caller in the step. */
  function ConsumedIn(s: State, step: Step): seq<Byte> {
    if step.ReaderPublish? && s.reader.RCopy? then First(s.reader.got, step.k) else []
  }

  /** The bytes the writer has stored, by its calls alone: of the latest job, as many as it publishes. */
  function Published(job: seq<Byte>, run: seq<Step>): seq<Byte>
    decreases |run|
  {
    if run == [] then [] else PublishedIn(job, run[0]) + Published(JobAfter(job, run[0]), run[1..])
  }

  /** The bytes that have been handed to the reader's callers. */
  function Consumed(s: State, run: seq<Step>): seq<Byte>
    requires WellFormed(s) && RunEnabled(s, run)
    decreases |run|
  {
    if run == [] then [] else ConsumedIn(s, run[0]) + Consumed(Next(s, run[0]), run[1..])
  }

  function LastJob(job: seq<Byte>, run: seq<Step>): seq<Byte>
    decreases |run|
  {
    if run == [] then job else LastJob(JobAfter(job, run[0]), run[1..])
  }

  function LastAsked(n: nat, run: seq<Step>): nat
    decreases |run|
  {
    if run == [] then n else LastAsked(AskedAfter(n, run[0]), run[1..])
  }

  /** The job and the number of bytes that a thread works on are those of the latest call. */
  predicate Serves(s: State, job: seq<Byte>, n: nat) {
    && (!s.writer.WIdle? ==> s.writer.job == job) && (!s.reader.RIdle? ==> s.reader.n == n)
  }

  /** The bookkeeping notes exactly the bytes published and consumed. */
  lemma StepIsNoted(s: State, step: Step, job: seq<Byte>, n: nat)
    requires WellFormed(s) && Enabled(s, step) && Serves(s, job, n)
    ensures Serves(Next(s, step), JobAfter(job, step), AskedAfter(n, step))
    ensures Next(s, step).written == s.written + PublishedIn(job, step)
    ensures Next(s, step).read == s.read + ConsumedIn(s, step)
  {}

  /** A step changes what is stored by the bytes published or consumed in it, and by nothing else. */
  lemma StoredChanges(s: State, step: Step)
    requires Inv(s) && Enabled(s, step)
    ensures var s' := Next(s, step);
      Stored(s'.wrPtr, s'.rdPtr, s.size) == Stored(s.wrPtr, s.rdPtr, s.size)
        + (if step.WriterPublish? then step.k else 0) - if step.ReaderPublish? then step.k else 0
  {
    InvKept(s, step);
  }

  lemma {:induction false} NotesOverRun(s: State, run: seq<Step>, job: seq<Byte>, n: nat)
    requires WellFormed(s) && RunEnabled(s, run) && Serves(s, job, n)
    ensures Run(s, run).written == s.written + Published(job, run)
    ensures Run(s, run).read == s.read + Consumed(s, run)
    ensures Serves(Run(s, run), LastJob(job, run), LastAsked(n, run))
    decreases |run|
  {
    if run == [] {
      assert s.written + [] == s.written && s.read + [] == s.read;
    } else {
      var step, rest := run[0], run[1..];
      var s' := Next(s, step);
      StepIsNoted(s, step, job, n);
      NotesOverRun(s', rest, JobAfter(job, step), AskedAfter(n, step));
      Sequences.Associate(s.written, PublishedIn(job, step), Published(JobAfter(job, step), rest));
      Sequences.Associate(s.read, ConsumedIn(s, step), Consumed(s', rest));
    }
  }

  /**
   * However the threads interleave, the bytes that the reader's callers are given are the first of
   * those that the writer's callers have stored, and what is stored is the rest.
   */
  lemma ReadIsPrefixOfWritten(data: seq<Byte>, run: seq<Step>)
    requires |data| >= 1 && RunEnabled(Empty(data), run)
    ensures var s, published, consumed := Run(Empty(data), run), Published([], run), Consumed(Empty(data), run);
      && consumed <= published && |published| <= |consumed| + |data| == |consumed| + |s.data|
      && Stored(s.wrPtr, s.rdPtr, s.size) == |published| - |consumed| && s.rdPtr < 2 * s.size
      && Slots(s.data, Index(s.rdPtr, s.size), Stored(s.wrPtr, s.rdPtr, s.size)) == published[|consumed|..]
  {
    InvKeptOverRun(Empty(data), run);
    NotesOverRun(Empty(data), run, [], 0);
    var s := Run(Empty(data), run);
    assert s.written == Published([], run) && s.read == Consumed(Empty(data), run);
  }

  /** Each thread works on its latest call, and on nothing else. */
  lemma LatestCallIsServed(data: seq<Byte>, run: seq<Step>)
    requires |data| >= 1 && RunEnabled(Empty(data), run)
    ensures var s := Run(Empty(data), run);
      && (!s.writer.WIdle? ==> s.writer.job == LastJob([], run))
      && (!s.reader.RIdle? ==> s.reader.n == LastAsked(0, run))
  {
    InvKeptOverRun(Empty(data), run);
    NotesOverRun(Empty(data), run, [], 0);
  }

  /** The next step of a thread inside a call; `k` is what it publishes in the end. */
  function WriterStep(w: Writer, k: nat): Step
    requires !w.WIdle?
  {
    match w
    case WTestFull(_) => WriterTestFull
    case WReadLevel(_) => WriterReadLevel
    case WCopy(job, done) => if done < |job| then WriterCopyByte else WriterPublish(k)
  }

  function ReaderStep(r: Reader, k: nat): Step
    requires !r.RIdle?
  {
    match r
    case RTestFull(_) => ReaderTestFull
    case RReadLevel(_) => ReaderReadLevel
    case RCopy(n, got) => if |got| < n then ReaderCopyByte else ReaderPublish(k)
  }

  /** How many steps a call takes at most until it returns. */
  function WriterLeft(w: Writer): nat {
    match w
    case WIdle => 0
    case WTestFull(job) => |job| + 3
    case WReadLevel(job) => |job| + 2
    case WCopy(job, done) => if done <= |job| then |job| - done + 1 else 1
  }

  function ReaderLeft(r: Reader): nat {
    match r
    case RIdle => 0
    case RTestFull(n) => n + 3
    case RReadLevel(n) => n + 2
    case RCopy(n, got) => if |got| <= n then n - |got| + 1 else 1
  }

  /** No thread ever waits for the other: it can always go on, and its call returns after finitely many steps. */
  lemma ThreadsGoOn(s: State, k: nat)
    requires Inv(s)
    ensures !s.writer.WIdle? && k <= |s.writer.job| ==>
      var step := WriterStep(s.writer, k);
      Enabled(s, step) && WriterLeft(Next(s, step).writer) < WriterLeft(s.writer) && Next(s, step).reader == s.reader
    ensures !s.reader.RIdle? && k <= s.reader.n ==>
      var step := ReaderStep(s.reader, k);
      Enabled(s, step) && ReaderLeft(Next(s, step).reader) < ReaderLeft(s.reader) && Next(s, step).writer == s.writer
    ensures s.writer.WIdle? ==> forall job :: Enabled(s, WriterCall(job))
    ensures s.reader.RIdle? ==> forall n: nat :: Enabled(s, ReaderCall(n))
  {}

  /**
   * Neither side is ever promised too much by its two unlocked reads. The writer's free
   * space is exact when it counts; the reader's fill level is, unless the buffer has filled
   * up between its two reads: then it sees zero.
   */
  lemma TwoReadLevel(data: seq<Byte>, run: seq<Step>)
    requires |data| >= 1 && RunEnabled(Empty(data), run)
    ensures var s := Run(Empty(data), run);
      var fill, level := |s.written| - |s.read|, PositionDistance(s.wrPtr, s.rdPtr, s.size);
      && (s.writer.WReadLevel? ==> level == fill)
      && (s.reader.RReadLevel? ==> level == if fill == s.size then 0 else fill)
  {
    InvKeptOverRun(Empty(data), run);
  }

  /**
   * A write is refused exactly when the free space is too small. A read is refused exactly
   * when too little is stored or the buffer filled up between the two level reads.
   */
  lemma RefusalsExact(data: seq<Byte>, run: seq<Step>)
    requires |data| >= 1 && RunEnabled(Empty(data), run)
    ensures var s := Run(Empty(data), run);
      var fill := |s.written| - |s.read|;
      && (s.writer.WTestFull? ==>
            (Next(s, WriterTestFull).writer.WIdle? <==> fill == s.size && |s.writer.job| > 0))
      && (s.writer.WReadLevel? ==>
            (Next(s, WriterReadLevel).writer.WIdle? <==> |s.writer.job| > s.size - fill))
      && (s.reader.RTestFull? ==>
            (Next(s, ReaderTestFull).reader.RIdle? <==> fill == s.size && s.reader.n > fill))
      && (s.reader.RReadLevel? ==>
            (Next(s, ReaderReadLevel).reader.RIdle? <==> s.reader.n > fill || fill == s.size))
  {
    InvKeptOverRun(Empty(data), run);
  }

  /**
   * The level that decides over a read, a peek or a discard is the one seen with a writer who may
   * fill the buffer between the two reads.
   */
  lemma ReaderDecidesByLevelSeen(data: seq<Byte>, run: seq<Step>)
    requires |data| >= 1 && RunEnabled(Empty(data), run)
    ensures var s := Run(Empty(data), run);
      var fill := |s.written| - |s.read|;
      && 0 <= fill <= s.size
      && (s.reader.RTestFull? && fill == s.size ==>
            (Next(s, ReaderTestFull).reader.RIdle? <==> LevelSeen(true, fill, s.size) < s.reader.n))
      && (s.reader.RTestFull? && fill < s.size ==> Next(s, ReaderTestFull).reader == RReadLevel(s.reader.n))
      && (s.reader.RReadLevel? ==>
            (Next(s, ReaderReadLevel).reader.RIdle? <==> LevelSeen(false, fill, s.size) < s.reader.n))
  {
    InvKeptOverRun(Empty(data), run);
  }

  lemma Before(s: State, step: Step, rest: seq<Step>) returns (run: seq<Step>)
    requires WellFormed(s) && Enabled(s, step) && RunEnabled(Next(s, step), rest)
    ensures RunEnabled(s, run) && Run(s, run) == Run(Next(s, step), rest)
  {
    run := [step] + rest;
    assert run[1..] == rest;
  }

  /** A run after which the reader's second read sees level 0 although a byte is stored. */
  lemma SpuriousEmptyIsReachable(b: Byte) returns (run: seq<Step>)
    ensures RunEnabled(Empty([0]), run)
    ensures var s := Run(Empty([0]), run);
      && s.reader.RReadLevel? && |s.written| - |s.read| == 1
      && PositionDistance(s.wrPtr, s.rdPtr, s.size) == 0
  {
    var s0 := Empty([0]);
    var s1 := s0.(reader := RTestFull(1));
    var s2 := s0.(reader := RReadLevel(1));
    var s3 := s2.(writer := WTestFull([b]));
    var s4 := s2.(writer := WReadLevel([b]));
    var s5 := s2.(writer := WCopy([b], 0));
    var s6 := s2.(writer := WCopy([b], 1), data := [b]);
    run := [];
    run := Before(s6, WriterPublish(1), run);
    assert s5.data[0 := b] == [b];
    run := Before(s5, WriterCopyByte, run);
    run := Before(s4, WriterReadLevel, run);
    run := Before(s3, WriterTestFull, run);
    run := Before(s2, WriterCall([b]), run);
    run := Before(s1, ReaderTestFull, run);
    run := Before(s0, ReaderCall(1), run);
    assert Next(s6, WriterPublish(1)) == State(1, [b], 1, 0, WIdle, RReadLevel(1), [b], []);
  }
}
