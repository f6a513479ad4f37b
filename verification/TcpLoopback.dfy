/**
 * Two TCP backends back to back: a design writes words at one end, the network carries the bytes over
 * as it likes, and another design reads words at the other end.
 */
module TcpLoopback {
  import opened Bytes
  import opened GlipTcp
  import opened Sequences

  /** The sending and the receiving end. */
  datatype Loop = Loop(a: End, b: End)

  /** What happens next at one end, at the other, or between them. */
  datatype Event = Write(w: nat) | SenderCycle | Deliver(k: nat) | ReceiverCycle | Read

  const IDLE := End([], [], false, 0, 0, false, 0, 0)

  function Start(): Loop { Loop(IDLE, IDLE) }

  predicate Shape(l: Loop, n: nat) {
    && n <= 4 && Fits(l.a, n) && Fits(l.b, n) && |l.b.dataIn| <= CAPACITY
    && l.a.dataIn == [] && l.a.readPartial == 0 && !l.b.writeValid
  }

  /** How many of `k` bytes the network thread can move. */
  function Movable(l: Loop, k: nat): (m: nat)
    requires |l.b.dataIn| <= CAPACITY
    ensures m <= |l.a.dataOut| && m <= CAPACITY - |l.b.dataIn|
    ensures m <= k && (m == k || m == |l.a.dataOut| || m == CAPACITY - |l.b.dataIn|)
  {
    var room := CAPACITY - |l.b.dataIn|;
    if k <= |l.a.dataOut| && k <= room then k else if |l.a.dataOut| <= room then |l.a.dataOut| else room
  }

  /** A design writes only if it is told that it may, and reads only if it is told that there is a word. */
  function Next(l: Loop, n: nat, e: Event): (l': Loop)
    requires Shape(l, n)
    ensures Shape(l', n)
  {
    match e
    case Write(w) => if l.a.writeValid then l else l.(a := AfterWrite(l.a, w))
    case SenderCycle => l.(a := AfterCycle(l.a, n))
    case Deliver(k) =>
      var m := Movable(l, k);
      Loop(l.a.(dataOut := l.a.dataOut[m..]), l.b.(dataIn := l.b.dataIn + l.a.dataOut[..m]))
    case ReceiverCycle => l.(b := AfterCycle(l.b, n))
    case Read => if l.b.readValid then l.(b := AfterAck(l.b)) else l
  }

  function Run(l: Loop, n: nat, events: seq<Event>): (l': Loop)
    requires Shape(l, n)
    ensures Shape(l', n)
    decreases |events|
  {
    if events == [] then l else Run(Next(l, n, events[0]), n, events[1..])
  }

  /** The word that is written in the event, if the design may write. */
  function Written(l: Loop, e: Event): seq<nat> { if e.Write? && !l.a.writeValid then [e.w] else [] }

  /** The word that is read in the event, if there is one: the low bytes of the value. */
  function ReadIn(l: Loop, n: nat, e: Event): seq<nat> {
    if e.Read? && l.b.readValid then [l.b.readValue % Weight(n)] else []
  }

  /** All words written in a run: exactly those of the attempts that found the item free. */
  function WordsWritten(l: Loop, n: nat, events: seq<Event>): seq<nat>
    requires Shape(l, n)
    decreases |events|
  {
    if events == [] then [] else Written(l, events[0]) + WordsWritten(Next(l, n, events[0]), n, events[1..])
  }

  /** All words read in a run. */
  function WordsRead(l: Loop, n: nat, events: seq<Event>): seq<nat>
    requires Shape(l, n)
    decreases |events|
  {
    if events == [] then [] else ReadIn(l, n, events[0]) + WordsRead(Next(l, n, events[0]), n, events[1..])
  }

  // ---------- The bytes on their way ----------

  predicate AllBelow(ws: seq<nat>, limit: nat) { forall i :: 0 <= i < |ws| ==> ws[i] < limit }

  /** All bytes put into the sender's queue: those of the words read, of the next one, and in the queues. */
  function Put(l: Loop, n: nat, read: seq<nat>, current: seq<Byte>): seq<Byte> {
    ExpandAll(n, read) + current + l.b.dataIn + l.a.dataOut
  }

  /** `current` are the bytes gathered so far for the word after those read. */
  ghost predicate Inv(l: Loop, n: nat, written: seq<nat>, read: seq<nat>, current: seq<Byte>) {
    && Shape(l, n) && |current| == l.b.readPartial
    && WriteHolds(n, l.a.writeValid, l.a.writePartial, l.a.writeValue, written, Put(l, n, read, current))
    && ReadHolds(n, l.b.readValue, current, read, ExpandAll(n, read) + current)
    && AllBelow(written, Weight(n)) && AllBelow(read, Weight(n))
  }

  lemma InvAtStart(n: nat)
    requires 1 <= n <= 4
    ensures Inv(Start(), n, [], [], [])
  {}

  lemma {:induction false} FetchedHolds(e: End, n: nat, current: seq<Byte>, read: seq<nat>)
    returns (current': seq<Byte>)
    requires e.readPartial == |current| <= n <= 4
    requires ReadHolds(n, e.readValue, current, read, ExpandAll(n, read) + current)
    ensures var e' := Fetched(e, n);
      && |current'| == e'.readPartial && current' + e'.dataIn == current + e.dataIn
      && ReadHolds(n, e'.readValue, current', read, ExpandAll(n, read) + current')
    decreases |e.dataIn|
  {
    current' := current;
    if e.readPartial < n && e.dataIn != [] {
      var b := e.dataIn[0];
      ByteTaken(n, e.readValue, current, read, ExpandAll(n, read) + current, b);
      Associate(ExpandAll(n, read), current, [b]);
      current' := FetchedHolds(TakeOne(e, n), n, current + [b], read);
      FirstMoves(current, e.dataIn);
    }
  }

  lemma {:induction false} EmittedHolds(e: End, n: nat, words: seq<nat>, before: seq<Byte>)
    requires e.writeValid && e.writePartial < n && |e.dataOut| <= CAPACITY
    requires WriteHolds(n, true, e.writePartial, e.writeValue, words, before + e.dataOut)
    ensures var e' := Emitted(e, n);
      WriteHolds(n, e'.writeValid, e'.writePartial, e'.writeValue, words, before + e'.dataOut)
    decreases n - e.writePartial
  {
    if |e.dataOut| < CAPACITY {
      var next := PutOne(e, n);
      ExpandAt(n, e.writeValue, e.writePartial);
      var b := Expand(n, e.writeValue)[e.writePartial];
      BytePut(n, e.writePartial, e.writeValue, words, before + e.dataOut);
      Associate(before, e.dataOut, [b]);
      if next.writePartial < n {
        EmittedHolds(next, n, words, before);
      } else {
        WordPut(n, e.writeValue, words, before + next.dataOut);
      }
    }
  }

  lemma SenderKeepsInv(l: Loop, n: nat, written: seq<nat>, read: seq<nat>, current: seq<Byte>)
    requires Inv(l, n, written, read, current)
    ensures Inv(Next(l, n, SenderCycle), n, written, read, current)
  {
    assert Fetched(l.a, n) == l.a;
    if l.a.writeValid {
      EmittedHolds(l.a, n, written, ExpandAll(n, read) + current + l.b.dataIn);
    }
  }

  lemma DeliverKeepsInv(l: Loop, n: nat, k: nat, written: seq<nat>, read: seq<nat>, current: seq<Byte>)
    requires Inv(l, n, written, read, current)
    ensures Inv(Next(l, n, Deliver(k)), n, written, read, current)
  {
    MoveOn(ExpandAll(n, read) + current, l.b.dataIn, l.a.dataOut, Movable(l, k));
  }

  lemma MoveOn(before: seq<Byte>, dataIn: seq<Byte>, dataOut: seq<Byte>, m: nat)
    requires m <= |dataOut|
    ensures before + (dataIn + dataOut[..m]) + dataOut[m..] == before + dataIn + dataOut
  {}

  lemma ReceiverKeepsInv(l: Loop, n: nat, written: seq<nat>, read: seq<nat>, current: seq<Byte>)
    returns (current': seq<Byte>)
    requires Inv(l, n, written, read, current)
    ensures Inv(Next(l, n, ReceiverCycle), n, written, read, current')
  {
    current' := current;
    if !l.b.readValid {
      current' := FetchedHolds(l.b, n, current, read);
      var e' := Fetched(l.b, n);
      Associate(ExpandAll(n, read), current, l.b.dataIn);
      Associate(ExpandAll(n, read), current', e'.dataIn);
    }
  }

  lemma ReadKeepsInv(l: Loop, n: nat, written: seq<nat>, read: seq<nat>, current: seq<Byte>)
    requires Inv(l, n, written, read, current) && l.b.readValid
    ensures Inv(Next(l, n, Read), n, written, read + [BigEndian(current)], [])
    ensures l.b.readValue % Weight(n) == BigEndian(current)
  {
    GatheredWord(n, current);
    WordTaken(n, l.b.readValue, current, read, ExpandAll(n, read) + current);
    WordIsIn(n, read, current);
  }

  lemma WriteKeepsInv(l: Loop, n: nat, w: nat, written: seq<nat>, read: seq<nat>, current: seq<Byte>)
    requires Inv(l, n, written, read, current) && !l.a.writeValid && w < Weight(n)
    ensures Inv(Next(l, n, Write(w)), n, written + [w], read, current)
  {
    WordStarted(n, l.a.writePartial, l.a.writeValue, written, Put(l, n, read, current), w);
  }

  /** An event loses, repeats and reorders nothing. */
  lemma InvKept(l: Loop, n: nat, e: Event, written: seq<nat>, read: seq<nat>, current: seq<Byte>)
    returns (current': seq<Byte>)
    requires Inv(l, n, written, read, current) && (e.Write? ==> e.w < Weight(n))
    ensures Inv(Next(l, n, e), n, written + Written(l, e), read + ReadIn(l, n, e), current')
  {
    current' := current;
    assert written + [] == written && read + [] == read;
    match e {
      case Write(w) =>
        if !l.a.writeValid {
          WriteKeepsInv(l, n, w, written, read, current);
        }
      case SenderCycle => SenderKeepsInv(l, n, written, read, current);
      case Deliver(k) => DeliverKeepsInv(l, n, k, written, read, current);
      case ReceiverCycle => current' := ReceiverKeepsInv(l, n, written, read, current);
      case Read =>
        if l.b.readValid {
          ReadKeepsInv(l, n, written, read, current);
          current' := [];
        }
    }
  }

  /** The words that are tried are words of `n` bytes. */
  predicate AllFit(events: seq<Event>, n: nat) {
    forall i :: 0 <= i < |events| && events[i].Write? ==> events[i].w < Weight(n)
  }

  lemma {:induction false} InvOverRun(l: Loop, n: nat, events: seq<Event>, written: seq<nat>, read: seq<nat>,
                                      current: seq<Byte>)
    returns (current': seq<Byte>)
    requires Inv(l, n, written, read, current) && AllFit(events, n)
    ensures Inv(Run(l, n, events), n, written + WordsWritten(l, n, events), read + WordsRead(l, n, events), current')
    decreases |events|
  {
    if events == [] {
      assert written + [] == written && read + [] == read;
      current' := current;
    } else {
      var e, rest := events[0], events[1..];
      current' := InvKept(l, n, e, written, read, current);
      current' := InvOverRun(Next(l, n, e), n, rest, written + Written(l, e), read + ReadIn(l, n, e), current');
      Associate(written, Written(l, e), WordsWritten(Next(l, n, e), n, rest));
      Associate(read, ReadIn(l, n, e), WordsRead(Next(l, n, e), n, rest));
    }
  }

  // ---------- First written, first read ----------

  /** Nothing is left anywhere. */
  predicate Drained(l: Loop) { !l.a.writeValid && l.a.dataOut == [] && l.b.dataIn == [] && !l.b.readValid }

  lemma PutIsOfWords(l: Loop, n: nat, written: seq<nat>, read: seq<nat>, current: seq<Byte>)
    requires Inv(l, n, written, read, current)
    ensures Put(l, n, read, current) <= ExpandAll(n, written)
    ensures !l.a.writeValid ==> Put(l, n, read, current) == ExpandAll(n, written)
  {
    if l.a.writeValid {
      var last := Expand(n, l.a.writeValue);
      assert last[..l.a.writePartial] <= last;
    }
  }

  lemma ReadIsFirst(l: Loop, n: nat, written: seq<nat>, read: seq<nat>, current: seq<Byte>)
    requires Inv(l, n, written, read, current)
    ensures read <= written
  {
    PutIsOfWords(l, n, written, read, current);
    var put := Put(l, n, read, current);
    assert ExpandAll(n, read) <= put;
    FirstBytesFirstWords(n, written, read, put);
  }

  lemma DrainedIsRead(l: Loop, n: nat, written: seq<nat>, read: seq<nat>, current: seq<Byte>)
    requires Inv(l, n, written, read, current) && Drained(l)
    ensures read == written
  {
    PutIsOfWords(l, n, written, read, current);
    ReadIsFirst(l, n, written, read, current);
    assert ExpandAll(n, read) + current == ExpandAll(n, written);
    ExpandAllLength(n, read);
    ExpandAllLength(n, written);
    NoWordMissing(n, |read|, |written|, |current|);
    assert written[..|read|] == written;
  }

  lemma NoWordMissing(n: nat, a: nat, b: nat, rest: nat)
    requires a <= b && n * a + rest == n * b && rest < n
    ensures a == b
  {
    assert n * (a + 1) == n * a + n;
    if a < b {
      AtLeast(n, a + 1, b);
    }
  }

  /**
   * In every run, however the cycles of the two ends and the deliveries between them are mixed, and
   * however full the queues are: the words read are the first of those written, and they are all of
   * them once nothing is left on the way.
   */
  lemma ReadsWhatIsWritten(n: nat, events: seq<Event>)
    requires 1 <= n <= 4 && AllFit(events, n)
    ensures WordsRead(Start(), n, events) <= WordsWritten(Start(), n, events)
    ensures Drained(Run(Start(), n, events)) ==> WordsRead(Start(), n, events) == WordsWritten(Start(), n, events)
  {
    InvAtStart(n);
    var current := InvOverRun(Start(), n, events, [], [], []);
    var l, written, read := Run(Start(), n, events), WordsWritten(Start(), n, events), WordsRead(Start(), n, events);
    assert [] + written == written && [] + read == read;
    ReadIsFirst(l, n, written, read, current);
    if Drained(l) {
      DrainedIsRead(l, n, written, read, current);
    }
  }

  // ---------- Everything is read in the end ----------

  /** The work left, with a byte counting the more the further it has to go. */
  function Work(l: Loop, n: nat): nat
    requires Shape(l, n)
  {
    4 * (if l.a.writeValid then n - l.a.writePartial else 0) + 3 * |l.a.dataOut| + 2 * |l.b.dataIn|
    + if l.b.readValid then 1 else 0
  }

  /** Unless a word is written, an event does some of the work or changes nothing at all. */
  lemma EventWorks(l: Loop, n: nat, e: Event)
    requires Shape(l, n) && !e.Write?
    ensures Next(l, n, e) == l || Work(Next(l, n, e), n) < Work(l, n)
  {
    match e
    case SenderCycle => assert Fetched(l.a, n) == l.a;
    case Deliver(k) =>
      if Movable(l, k) == 0 {
        assert l.a.dataOut[0..] == l.a.dataOut && l.b.dataIn + l.a.dataOut[..0] == l.b.dataIn;
      }
    case _ =>
  }

  lemma ReaderActs(l: Loop, n: nat)
    requires Shape(l, n)
    ensures l.b.readValid ==> Next(l, n, Read) != l
    ensures !l.b.readValid && l.b.dataIn != [] ==> Next(l, n, ReceiverCycle) != l
  {
    if !l.b.readValid && l.b.dataIn != [] {
      FetchTakes(l.b, n);
    }
  }

  lemma FetchTakes(e: End, n: nat)
    requires e.readPartial < n <= 4 && e.dataIn != []
    ensures |Fetched(e, n).dataIn| < |e.dataIn|
    decreases |e.dataIn|
  {
    var e' := TakeOne(e, n);
    if e'.readPartial < n && e'.dataIn != [] {
      FetchTakes(e', n);
    }
  }

  lemma DeliveryActs(l: Loop, n: nat, k: nat)
    requires Shape(l, n) && k > 0
    ensures l.b.dataIn == [] && l.a.dataOut != [] ==> Next(l, n, Deliver(k)) != l
  {
    if l.b.dataIn == [] && l.a.dataOut != [] {
      assert |Next(l, n, Deliver(k)).a.dataOut| < |l.a.dataOut|;
    }
  }

  lemma SenderActs(l: Loop, n: nat)
    requires Shape(l, n)
    ensures l.a.dataOut == [] && l.a.writeValid ==> Next(l, n, SenderCycle) != l
  {
    assert Fetched(l.a, n) == l.a;
    if l.a.dataOut == [] && l.a.writeValid {
      EmitPuts(l.a, n);
    }
  }

  lemma EmitPuts(e: End, n: nat)
    requires e.writePartial < n && |e.dataOut| < CAPACITY
    ensures |Emitted(e, n).dataOut| > |e.dataOut|
    decreases n - e.writePartial
  {
    var e' := PutOne(e, n);
    if e'.writePartial < n && |e'.dataOut| < CAPACITY {
      EmitPuts(e', n);
    }
  }

  /** If none of these can do anything, nothing is left. */
  lemma StuckIsDrained(l: Loop, n: nat, k: nat)
    requires Shape(l, n) && k > 0
    requires Next(l, n, SenderCycle) == l && Next(l, n, Deliver(k)) == l
    requires Next(l, n, ReceiverCycle) == l && Next(l, n, Read) == l
    ensures Drained(l)
  {
    ReaderActs(l, n);
    DeliveryActs(l, n, k);
    SenderActs(l, n);
  }

  /** Both ends have a cycle, something may be delivered, the reader looks, and no word is written. */
  ghost predicate IsTurn(t: seq<Event>) {
    && SenderCycle in t && ReceiverCycle in t && Read in t && (exists k: nat :: k > 0 && Deliver(k) in t)
    && forall e :: e in t ==> !e.Write?
  }

  predicate NoWrites(t: seq<Event>) { forall i :: 0 <= i < |t| ==> !t[i].Write? }

  lemma {:induction false} RunWorks(l: Loop, n: nat, t: seq<Event>)
    requires Shape(l, n) && NoWrites(t)
    ensures Work(Run(l, n, t), n) <= Work(l, n)
    ensures Work(Run(l, n, t), n) == Work(l, n)
      ==> Run(l, n, t) == l && forall i :: 0 <= i < |t| ==> Next(l, n, t[i]) == l
    decreases |t|
  {
    if t != [] {
      var rest := t[1..];
      EventWorks(l, n, t[0]);
      RunWorks(Next(l, n, t[0]), n, rest);
      if Work(Run(l, n, t), n) == Work(l, n) {
        forall i | 0 <= i < |t| ensures Next(l, n, t[i]) == l {
          assert i > 0 ==> t[i] == rest[i - 1];
        }
      }
    }
  }

  lemma TurnWorks(l: Loop, n: nat, t: seq<Event>)
    requires Shape(l, n) && IsTurn(t)
    ensures Drained(l) || Work(Run(l, n, t), n) < Work(l, n)
  {
    RunWorks(l, n, t);
    if Work(Run(l, n, t), n) == Work(l, n) {
      var k: nat :| k > 0 && Deliver(k) in t;
      StuckIsDrained(l, n, k);
    }
  }

  lemma DrainedStays(l: Loop, n: nat, t: seq<Event>)
    requires Shape(l, n) && NoWrites(t) && Drained(l)
    ensures Drained(Run(l, n, t))
  {
    RunWorks(l, n, t);
  }

  function Flat(turns: seq<seq<Event>>): seq<Event> {
    if turns == [] then [] else turns[0] + Flat(turns[1..])
  }

  lemma {:induction false} RunOfAppend(l: Loop, n: nat, a: seq<Event>, b: seq<Event>)
    requires Shape(l, n)
    ensures Run(l, n, a + b) == Run(Run(l, n, a), n, b)
    ensures WordsWritten(l, n, a + b) == WordsWritten(l, n, a) + WordsWritten(Run(l, n, a), n, b)
    decreases |a|
  {
    if a == [] {
      assert a + b == b;
    } else {
      assert (a + b)[0] == a[0] && (a + b)[1..] == a[1..] + b;
      RunOfAppend(Next(l, n, a[0]), n, a[1..], b);
      Associate(Written(l, a[0]), WordsWritten(Next(l, n, a[0]), n, a[1..]),
                WordsWritten(Run(l, n, a), n, b));
    }
  }

  lemma {:induction false} TurnsDrain(l: Loop, n: nat, turns: seq<seq<Event>>)
    requires Shape(l, n) && forall i :: 0 <= i < |turns| ==> IsTurn(turns[i])
    ensures NoWrites(Flat(turns))
    ensures Drained(Run(l, n, Flat(turns))) || Work(Run(l, n, Flat(turns)), n) + |turns| <= Work(l, n)
    decreases |turns|
  {
    if turns != [] {
      var first, rest := turns[0], turns[1..];
      RunOfAppend(l, n, first, Flat(rest));
      TurnsDrain(Run(l, n, first), n, rest);
      TurnWorks(l, n, first);
      if Drained(l) {
        DrainedStays(l, n, first);
        DrainedStays(Run(l, n, first), n, Flat(rest));
      }
    }
  }

  lemma {:induction false} NothingWritten(l: Loop, n: nat, t: seq<Event>)
    requires Shape(l, n) && NoWrites(t)
    ensures WordsWritten(l, n, t) == []
    decreases |t|
  {
    if t != [] {
      NothingWritten(Next(l, n, t[0]), n, t[1..]);
    }
  }

  /**
   * After any run whatsoever: once each end has had enough turns, in any order and with any deliveries
   * in between, all words written have been read.
   */
  lemma EverythingIsRead(n: nat, events: seq<Event>, turns: seq<seq<Event>>)
    requires 1 <= n <= 4 && AllFit(events, n)
    requires forall i :: 0 <= i < |turns| ==> IsTurn(turns[i])
    requires |turns| > Work(Run(Start(), n, events), n)
    ensures WordsRead(Start(), n, events + Flat(turns)) == WordsWritten(Start(), n, events)
  {
    var l, more := Run(Start(), n, events), Flat(turns);
    TurnsDrain(l, n, turns);
    RunOfAppend(Start(), n, events, more);
    NothingWritten(l, n, more);
    ReadsWhatIsWritten(n, events + more);
  }

  // ---------- The sign of a word of four bytes ----------

  const SIGNED_WORD: nat := 0x8000_0000

  lemma OnlyWord(l: Loop, n: nat, w: nat, current: seq<Byte>)
    requires Inv(l, n, [w], [], current) && !l.a.writeValid && l.a.dataOut == l.b.dataIn == []
    ensures current == Expand(n, w)
  {
    PutIsOfWords(l, n, [w], [], current);
    assert [w][..0] == [] && [w][0] == w;
    assert Put(l, n, [], current) == current;
  }

  lemma ArrivedWord(n: nat, w: nat, events: seq<Event>) returns (current: seq<Byte>)
    requires 1 <= n <= 4 && AllFit(events, n)
    requires WordsWritten(Start(), n, events) == [w] && WordsRead(Start(), n, events) == []
    requires var l := Run(Start(), n, events); l.b.readValid && !l.a.writeValid && l.a.dataOut == l.b.dataIn == []
    ensures current == Expand(n, w) && Run(Start(), n, events).b.readValue == Gathered(n, current)
  {
    InvAtStart(n);
    current := InvOverRun(Start(), n, events, [], [], []);
    assert [] + [w] == [w];
    OnlyWord(Run(Start(), n, events), n, w, current);
  }

  lemma OneWordRun(n: nat, w: nat, events: seq<Event>)
    requires 1 <= n <= 4 && events == [Write(w), SenderCycle, Deliver(n), ReceiverCycle]
    ensures WordsWritten(Start(), n, events) == [w] && WordsRead(Start(), n, events) == []
    ensures var l := Run(Start(), n, events); l.b.readValid && !l.a.writeValid && l.a.dataOut == l.b.dataIn == []
  {
    var l0, e1, e2, e3 := Start(), events[1..], events[1..][1..], events[1..][1..][1..];
    var l1 := Next(l0, n, events[0]);
    var l2 := Next(l1, n, e1[0]);
    var l3 := Next(l2, n, e2[0]);
    var l4 := Next(l3, n, e3[0]);
    assert e3[1..] == [];
    assert Fetched(l1.a, n) == l1.a && |l2.a.dataOut| == n && !l2.a.writeValid;
    assert Movable(l2, n) == n;
    assert |l3.b.dataIn| == n && l4.b.readPartial == n;
    assert Run(l0, n, events) == Run(l1, n, e1) == Run(l2, n, e2) == Run(l3, n, e3) == Run(l4, n, []) == l4;
    assert WordsWritten(l4, n, []) == [] && WordsWritten(l3, n, e3) == [] && WordsWritten(l2, n, e2) == [];
    assert WordsWritten(l1, n, e1) == [] && WordsWritten(l0, n, events) == [w] + [];
    assert WordsRead(l4, n, []) == [] && WordsRead(l3, n, e3) == [] && WordsRead(l2, n, e2) == [];
    assert WordsRead(l1, n, e1) == [];
  }

  lemma SignedIsOther(n: nat, w: nat, events: seq<Event>)
    requires n == 4 && Weight(3) * 0x80 <= w < Weight(n) && AllFit(events, n)
    requires events == [Write(w), SenderCycle, Deliver(n), ReceiverCycle]
    ensures Run(Start(), n, events).b.readValue != w
  {
    OneWordRun(n, w, events);
    var current := ArrivedWord(n, w, events);
    SignedTop(n, w, current[0]);
    GatheredWord(n, current);
    BigEndianInvertsExpand(n, w);
  }

  lemma SignedTop(n: nat, w: nat, top: Byte)
    requires n == 4 && Weight(3) * 0x80 <= w < Weight(n) && top == Expand(n, w)[0]
    ensures top >= 0x80
  {
    Weights();
    ExpandAt(n, w, 0);
  }

  /** Every word of four bytes whose top bit is set arrives whole, and is read as another number than was written. */
  lemma SignedWordsExist(w: nat) returns (events: seq<Event>)
    requires SIGNED_WORD <= w < 2 * SIGNED_WORD
    ensures AllFit(events, 4) && WordsWritten(Start(), 4, events) == [w]
    ensures Run(Start(), 4, events).b.readValid && Run(Start(), 4, events).b.readValue != w
  {
    Weights();
    events := [Write(w), SenderCycle, Deliver(4), ReceiverCycle];
    OneWordRun(4, w, events);
    SignedIsOther(4, w, events);
  }
}
