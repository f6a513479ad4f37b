/**
 * The host interface module: packets of the debug interconnect become length-prefixed runs of
 * 16-bit words for the host, and such runs become packets again.
 */
module HostInterface {
  import opened DiiBuffer
  import opened Sequences

  const BUF_SIZE: nat := 8

  /** Host words are big endian. */
  function SwapBytes(w: nat): (s: nat)
    requires w < 0x1_0000
    ensures s < 0x1_0000
  {
    (w % 256) * 256 + w / 256
  }

  lemma SwapTwice(w: nat)
    requires w < 0x1_0000
    ensures SwapBytes(SwapBytes(w)) == w
  {
    var hi, lo := w / 256, w % 256;
    assert (lo * 256 + hi) / 256 == lo && (lo * 256 + hi) % 256 == hi;
  }

  /** The bytes change places. */
  lemma BytesChangePlaces(w: nat)
    requires w < 0x1_0000
    ensures SwapBytes(w) % 256 == w / 256 && SwapBytes(w) / 256 == w % 256
  {}

  // ---------- Egress: packets to words ----------

  datatype Egress = Egress(buf: Registers, active: bool)

  /** What has happened at both sides; `done` and `part` split the flits that have left the buffer. */
  datatype Log = Log(received: seq<Flit>, sent: seq<nat>, done: seq<Flit>, part: seq<Flit>)

  predicate EgressShape(e: Egress) { |e.buf.data| == |e.buf.lastBuf| == BUF_SIZE > e.buf.rp }

  /** The word offered to the host, before its bytes are swapped. The size has three bits. */
  function OfferedWord(e: Egress): nat
    requires EgressShape(e)
  {
    if e.active then OutFlit(e.buf).data else PacketSize(e.buf) % BUF_SIZE
  }

  predicate DiiReady(e: Egress, hostReady: bool) { e.active && hostReady }

  predicate WordSent(e: Egress, hostReady: bool) { OutValid(e.buf, true) && hostReady }

  function EgressNext(e: Egress, input: Input, hostReady: bool): (e': Egress)
    requires EgressShape(e)
  {
    Egress(AfterClock(e.buf, true, input, DiiReady(e, hostReady)),
           if !e.active then WordSent(e, hostReady) else !(DiiReady(e, hostReady) && OutFlit(e.buf).last))
  }

  ghost function LogNext(l: Log, e: Egress, input: Input, hostReady: bool): Log
    requires EgressShape(e)
  {
    var received := if input.Valid? && InReady(e.buf) then l.received + [input.flit] else l.received;
    if !WordSent(e, hostReady) then l.(received := received)
    else if !e.active then l.(received := received, sent := l.sent + [OfferedWord(e)])
    else if OutFlit(e.buf).last then
      Log(received, l.sent + [OfferedWord(e)], l.done + l.part + [OutFlit(e.buf)], [])
    else Log(received, l.sent + [OfferedWord(e)], l.done, l.part + [OutFlit(e.buf)])
  }

  function Datas(q: seq<Flit>): (ws: seq<nat>)
    ensures |ws| == |q|
  {
    seq(|q|, i requires 0 <= i < |q| => q[i].data)
  }

  /**
   * The complete packets in `q` as length-prefixed word runs, where `part` has already come of
   * the first one.
   */
  function FramesFrom(part: seq<Flit>, q: seq<Flit>): seq<nat>
    decreases |q|
  {
    if q == [] then []
    else if q[0].last then [|part| + 1] + Datas(part + [q[0]]) + FramesFrom([], q[1..])
    else FramesFrom(part + [q[0]], q[1..])
  }

  function Frames(q: seq<Flit>): seq<nat> { FramesFrom([], q) }

  /** Whole packets only. */
  predicate Whole(q: seq<Flit>) { q == [] || q[|q| - 1].last }

  predicate NoLast(q: seq<Flit>) { forall i :: 0 <= i < |q| ==> !q[i].last }

  /** No packet of more than `max` flits, where `k` have already come of the first one. */
  predicate Short(k: nat, q: seq<Flit>, max: nat)
    decreases |q|
  {
    q == [] || (k < max && Short(if q[0].last then 0 else k + 1, q[1..], max))
  }

  lemma {:induction false} FramesOfAppend(part: seq<Flit>, a: seq<Flit>, b: seq<Flit>)
    requires a != [] && Whole(a)
    ensures FramesFrom(part, a + b) == FramesFrom(part, a) + Frames(b)
    decreases |a|
  {
    var part' := if a[0].last then [] else part + [a[0]];
    assert (a + b)[0] == a[0] && (a + b)[1..] == a[1..] + b;
    if |a| == 1 {
      assert a[1..] + b == b;
    } else {
      FramesOfAppend(part', a[1..], b);
    }
  }

  lemma {:induction false} FramesOfPart(part: seq<Flit>, p: seq<Flit>, q: seq<Flit>)
    requires NoLast(p)
    ensures FramesFrom(part, p + q) == FramesFrom(part + p, q)
    decreases |p|
  {
    if p == [] {
      assert p + q == q && part + p == part;
    } else {
      assert (p + q)[0] == p[0] && (p + q)[1..] == p[1..] + q;
      FramesOfPart(part + [p[0]], p[1..], q);
      assert part + [p[0]] + p[1..] == part + p;
    }
  }

  lemma {:induction false} FrameStart(part: seq<Flit>, q: seq<Flit>)
    requires HasLast(q)
    ensures [|part| + FirstLength(q)] + Datas(part) <= FramesFrom(part, q)
    decreases |q|
  {
    if q[0].last {
      assert Datas(part) == Datas(part + [q[0]])[..|part|];
    } else {
      HasLastTail(q);
      FrameStart(part + [q[0]], q[1..]);
      FirstLengthUnique(q, 1 + FirstLength(q[1..]));
      assert Datas(part) == Datas(part + [q[0]])[..|part|];
    }
  }

  lemma HasLastTail(q: seq<Flit>)
    requires HasLast(q) && !q[0].last
    ensures HasLast(q[1..])
  {
    var i :| 0 <= i < |q| && q[i].last;
    assert q[1..][i - 1].last;
  }

  lemma FirstLengthOfAppend(a: seq<Flit>, b: seq<Flit>)
    requires HasLast(a)
    ensures HasLast(a + b) && FirstLength(a + b) == FirstLength(a)
  {
    FirstLengthUnique(a + b, FirstLength(a));
  }

  lemma {:induction false} ShortAfter(k: nat, a: seq<Flit>, b: seq<Flit>, max: nat)
    requires Short(k, a + b, max)
    ensures Short(k, a, max)
    ensures a != [] && Whole(a) ==> Short(0, b, max)
    ensures NoLast(a) ==> Short(k + |a|, b, max)
    decreases |a|
  {
    if a == [] {
      assert a + b == b;
    } else {
      assert (a + b)[0] == a[0] && (a + b)[1..] == a[1..] + b;
      ShortAfter(if a[0].last then 0 else k + 1, a[1..], b, max);
      if |a| == 1 {
        assert a[1..] + b == b;
      }
    }
  }

  lemma {:induction false} ShortBoundsFirst(k: nat, q: seq<Flit>, max: nat)
    requires Short(k, q, max) && HasLast(q)
    ensures k + FirstLength(q) <= max
    decreases |q|
  {
    if !q[0].last {
      HasLastTail(q);
      ShortBoundsFirst(k + 1, q[1..], max);
      FirstLengthUnique(q, 1 + FirstLength(q[1..]));
    }
  }

  /** `q` are the flits still in the buffer. */
  ghost predicate LogInv(active: bool, q: seq<Flit>, l: Log) {
    && l.received == l.done + l.part + q
    && Whole(l.done) && NoLast(l.part)
    && (if active then
          HasLast(q) && l.sent == Frames(l.done) + [|l.part| + FirstLength(q)] + Datas(l.part)
        else l.part == [] && l.sent == Frames(l.done))
  }

  ghost predicate EgressInv(e: Egress, l: Log) {
    EgressShape(e) && Inv(e.buf, true) && LogInv(e.active, Contents(e.buf), l)
  }

  /** The module never asks its buffer for a flit too early, so no flit is lost. */
  lemma BufferIsQueue(e: Egress, l: Log, input: Input, hostReady: bool)
    requires EgressInv(e, l)
    ensures OutValid(e.buf, true) <==> HasLast(Contents(e.buf))
    ensures Inv(EgressNext(e, input, hostReady).buf, true)
    ensures var pop := e.active && hostReady;
      && (pop ==> Contents(e.buf) != [] && OutFlit(e.buf) == Contents(e.buf)[0])
      && Contents(EgressNext(e, input, hostReady).buf) == QueueStep(Contents(e.buf), BUF_SIZE, input, pop)
      && (InReady(e.buf) <==> |Contents(e.buf)| < BUF_SIZE)
  {
    NeverTooEarly(e, l, input, hostReady);
    FullPacketModeIsQueue(e.buf, input, DiiReady(e, hostReady));
  }

  lemma NeverTooEarly(e: Egress, l: Log, input: Input, hostReady: bool)
    requires EgressInv(e, l)
    ensures !LosesFlit(e.buf, input, DiiReady(e, hostReady)) && (e.active ==> HasLast(Contents(e.buf)))
  {
    if |Contents(e.buf)| == 1 && HasLast(Contents(e.buf)) {
      assert Contents(e.buf)[0].last;
    }
  }

  /** The length word: exact for packets of at most seven flits, and it goes out first. */
  lemma LengthSent(e: Egress, l: Log)
    requires EgressInv(e, l) && !e.active && OutValid(e.buf, true) && Short(0, l.received, 7)
    ensures HasLast(Contents(e.buf)) && OfferedWord(e) == FirstLength(Contents(e.buf))
  {
    var q := Contents(e.buf);
    OutValidIsHasLast(e.buf);
    PacketSizeExact(e.buf);
    ShortAtEnd(l.done, q);
    ShortBoundsFirst(0, q, 7);
  }

  lemma ShortAtEnd(done: seq<Flit>, q: seq<Flit>)
    requires Short(0, done + [] + q, 7) && Whole(done)
    ensures Short(0, q, 7)
  {
    assert done + [] + q == done + q;
    if done == [] {
      assert done + q == q;
    } else {
      ShortAfter(0, done, q, 7);
    }
  }

  lemma ArrivalKeepsLog(active: bool, q: seq<Flit>, l: Log, more: seq<Flit>)
    requires LogInv(active, q, l)
    ensures LogInv(active, q + more, l.(received := l.received + more))
  {
    assert l.done + l.part + (q + more) == (l.done + l.part + q) + more;
    if active {
      FirstLengthOfAppend(q, more);
    }
  }

  lemma LengthKeepsLog(q: seq<Flit>, l: Log)
    requires LogInv(false, q, l) && HasLast(q)
    ensures LogInv(true, q, l.(sent := l.sent + [FirstLength(q)]))
  {
    assert Datas([]) == [];
  }

  lemma LastFlitKeepsLog(q: seq<Flit>, l: Log)
    requires LogInv(true, q, l) && q != [] && q[0].last
    ensures LogInv(false, q[1..], Log(l.received, l.sent + [q[0].data], l.done + l.part + [q[0]], []))
  {
    var f := q[0];
    FirstLengthUnique(q, 1);
    assert l.done + l.part + q == l.done + l.part + [f] + [] + q[1..];
    Associate(l.done, l.part, [f]);
    WholeFrame(l.part, f);
    Associate(Frames(l.done) + [|l.part| + 1], Datas(l.part), [f.data]);
    Associate(Frames(l.done), [|l.part| + 1], Datas(l.part + [f]));
    FramesInTwo(l.done, l.part + [f]);
  }

  /** The frame of a single packet. */
  lemma WholeFrame(part: seq<Flit>, f: Flit)
    requires NoLast(part) && f.last
    ensures Frames(part + [f]) == [|part| + 1] + Datas(part + [f]) && Datas(part + [f]) == Datas(part) + [f.data]
  {
    FramesOfPart([], part, [f]);
    assert [] + part == part && [f][1..] == [];
    assert [|part| + 1] + Datas(part + [f]) + [] == [|part| + 1] + Datas(part + [f]);
  }

  lemma MiddleFlitKeepsLog(q: seq<Flit>, l: Log)
    requires LogInv(true, q, l) && q != [] && !q[0].last
    ensures LogInv(true, q[1..], Log(l.received, l.sent + [q[0].data], l.done, l.part + [q[0]]))
  {
    HasLastTail(q);
    FirstLengthUnique(q, 1 + FirstLength(q[1..]));
    assert l.done + l.part + q == l.done + (l.part + [q[0]]) + q[1..];
    assert Datas(l.part + [q[0]]) == Datas(l.part) + [q[0].data];
  }

  /** The flits that arrive in the cycle. */
  function Arriving(e: Egress, input: Input): seq<Flit> {
    if input.Valid? && InReady(e.buf) then [input.flit] else []
  }

  lemma QueueAfter(e: Egress, l: Log, input: Input, hostReady: bool)
    requires EgressInv(e, l)
    ensures var q, q' := Contents(e.buf), Contents(EgressNext(e, input, hostReady).buf);
      && (e.active && hostReady ==> q != [] && OutFlit(e.buf) == q[0])
      && q' == (if e.active && hostReady then q[1..] else q) + Arriving(e, input)
  {
    BufferIsQueue(e, l, input, hostReady);
  }

  lemma LengthStep(e: Egress, l: Log, input: Input, hostReady: bool)
    requires EgressInv(e, l) && Short(0, l.received, 7) && !e.active && WordSent(e, hostReady)
    ensures LogInv(true, Contents(e.buf) + Arriving(e, input), LogNext(l, e, input, hostReady))
  {
    var q := Contents(e.buf);
    LengthSent(e, l);
    LengthKeepsLog(q, l);
    ArrivalKeepsLog(true, q, l.(sent := l.sent + [FirstLength(q)]), Arriving(e, input));
    assert l.received + [] == l.received;
  }

  lemma LastFlitStep(q: seq<Flit>, l: Log, more: seq<Flit>)
    requires LogInv(true, q, l) && q != [] && q[0].last
    ensures LogInv(false, q[1..] + more, Log(l.received + more, l.sent + [q[0].data], l.done + l.part + [q[0]], []))
  {
    LastFlitKeepsLog(q, l);
    ArrivalKeepsLog(false, q[1..], Log(l.received, l.sent + [q[0].data], l.done + l.part + [q[0]], []), more);
  }

  lemma MiddleFlitStep(q: seq<Flit>, l: Log, more: seq<Flit>)
    requires LogInv(true, q, l) && q != [] && !q[0].last
    ensures LogInv(true, q[1..] + more, Log(l.received + more, l.sent + [q[0].data], l.done, l.part + [q[0]]))
  {
    MiddleFlitKeepsLog(q, l);
    ArrivalKeepsLog(true, q[1..], Log(l.received, l.sent + [q[0].data], l.done, l.part + [q[0]]), more);
  }

  lemma FlitStep(e: Egress, l: Log, input: Input, hostReady: bool)
    requires EgressInv(e, l) && e.active && hostReady
    ensures var q := Contents(e.buf);
      q != [] && OutFlit(e.buf) == q[0] && OutValid(e.buf, true)
      && LogInv(!q[0].last, q[1..] + Arriving(e, input), LogNext(l, e, input, hostReady))
  {
    var q, more := Contents(e.buf), Arriving(e, input);
    BufferIsQueue(e, l, input, hostReady);
    LogOfFlit(l, e, input, hostReady);
    if q[0].last {
      LastFlitStep(q, l, more);
    } else {
      MiddleFlitStep(q, l, more);
    }
  }

  lemma LogOfFlit(l: Log, e: Egress, input: Input, hostReady: bool)
    requires EgressShape(e) && e.active && hostReady && OutValid(e.buf, true)
    ensures var f, received := OutFlit(e.buf), l.received + Arriving(e, input);
      LogNext(l, e, input, hostReady)
      == if f.last then Log(received, l.sent + [f.data], l.done + l.part + [f], [])
         else Log(received, l.sent + [f.data], l.done, l.part + [f])
  {
    assert l.received + [] == l.received;
  }

  lemma EgressInvKept(e: Egress, l: Log, input: Input, hostReady: bool)
    requires EgressInv(e, l) && Short(0, l.received, 7)
    ensures EgressInv(EgressNext(e, input, hostReady), LogNext(l, e, input, hostReady))
  {
    BufferIsQueue(e, l, input, hostReady);
    QueueAfter(e, l, input, hostReady);
    if e.active && hostReady {
      FlitStep(e, l, input, hostReady);
    } else if WordSent(e, hostReady) {
      LengthStep(e, l, input, hostReady);
    } else {
      ArrivalKeepsLog(e.active, Contents(e.buf), l, Arriving(e, input));
      assert l.received + [] == l.received;
    }
  }

  // ---------- Egress over whole runs ----------

  datatype Cycle = Cycle(input: Input, hostReady: bool)

  datatype System = System(egress: Egress, log: Log)

  ghost function Step(s: System, c: Cycle): (s': System)
    requires EgressShape(s.egress)
    ensures EgressShape(s'.egress)
  {
    System(EgressNext(s.egress, c.input, c.hostReady), LogNext(s.log, s.egress, c.input, c.hostReady))
  }

  ghost function Run(s: System, run: seq<Cycle>): (s': System)
    requires EgressShape(s.egress)
    ensures EgressShape(s'.egress)
    decreases |run|
  {
    if run == [] then s else Run(Step(s, run[0]), run[1..])
  }

  function AfterReset(data: seq<Flit>): System {
    System(Egress(Reset(data), false), Log([], [], [], []))
  }

  lemma {:induction false} ReceivedGrowsOverRun(s: System, run: seq<Cycle>)
    requires EgressShape(s.egress)
    ensures s.log.received <= Run(s, run).log.received
    decreases |run|
  {
    if run != [] {
      ReceivedGrowsOverRun(Step(s, run[0]), run[1..]);
    }
  }

  lemma ShortBefore(first: seq<Flit>, all: seq<Flit>)
    requires first <= all && Short(0, all, 7)
    ensures Short(0, first, 7)
  {
    assert all == first + all[|first|..];
    ShortAfter(0, first, all[|first|..], 7);
  }

  lemma {:induction false} EgressInvOverRun(s: System, run: seq<Cycle>)
    requires EgressInv(s.egress, s.log) && Short(0, Run(s, run).log.received, 7)
    ensures EgressInv(Run(s, run).egress, Run(s, run).log)
    decreases |run|
  {
    if run != [] {
      ReceivedGrowsOverRun(s, run);
      ShortBefore(s.log.received, Run(s, run).log.received);
      EgressInvKept(s.egress, s.log, run[0].input, run[0].hostReady);
      EgressInvOverRun(Step(s, run[0]), run[1..]);
    }
  }

  /** The words that pass to the host in a run: the one offered in every cycle with valid and ready, and no other. */
  ghost function WordsOut(s: System, run: seq<Cycle>): seq<nat>
    requires EgressShape(s.egress)
    decreases |run|
  {
    if run == [] then []
    else
      (if OutValid(s.egress.buf, true) && run[0].hostReady then [OfferedWord(s.egress)] else [])
      + WordsOut(Step(s, run[0]), run[1..])
  }

  /** The flits that come in: the one offered in every cycle with valid and ready, and no other. */
  ghost function FlitsIn(s: System, run: seq<Cycle>): seq<Flit>
    requires EgressShape(s.egress)
    decreases |run|
  {
    if run == [] then []
    else
      (if run[0].input.Valid? && InReady(s.egress.buf) then [run[0].input.flit] else [])
      + FlitsIn(Step(s, run[0]), run[1..])
  }

  lemma CycleIsLogged(s: System, c: Cycle)
    requires EgressShape(s.egress)
    ensures Step(s, c).log.sent
      == s.log.sent + if OutValid(s.egress.buf, true) && c.hostReady then [OfferedWord(s.egress)] else []
    ensures Step(s, c).log.received
      == s.log.received + if c.input.Valid? && InReady(s.egress.buf) then [c.input.flit] else []
  {}

  /** The log notes exactly these. */
  lemma {:induction false} RunIsLogged(s: System, run: seq<Cycle>)
    requires EgressShape(s.egress)
    ensures Run(s, run).log.sent == s.log.sent + WordsOut(s, run)
    ensures Run(s, run).log.received == s.log.received + FlitsIn(s, run)
    decreases |run|
  {
    if run == [] {
      assert s.log.sent + [] == s.log.sent && s.log.received + [] == s.log.received;
    } else {
      var c, rest := run[0], run[1..];
      CycleIsLogged(s, c);
      RunIsLogged(Step(s, c), rest);
      Associate(s.log.sent, if OutValid(s.egress.buf, true) && c.hostReady then [OfferedWord(s.egress)] else [],
                WordsOut(Step(s, c), rest));
      Associate(s.log.received, if c.input.Valid? && InReady(s.egress.buf) then [c.input.flit] else [],
                FlitsIn(Step(s, c), rest));
    }
  }

  lemma LogFromReset(data: seq<Flit>, run: seq<Cycle>)
    requires |data| == BUF_SIZE
    ensures Run(AfterReset(data), run).log.sent == WordsOut(AfterReset(data), run)
    ensures Run(AfterReset(data), run).log.received == FlitsIn(AfterReset(data), run)
  {
    var s := AfterReset(data);
    RunIsLogged(s, run);
    assert [] + WordsOut(s, run) == WordsOut(s, run) && [] + FlitsIn(s, run) == FlitsIn(s, run);
  }

  /**
   * The host gets the length-prefixed frames of the packets received, in order: always a
   * prefix of them, and all of them once no complete packet is left in the module.
   */
  lemma EgressFramesPackets(data: seq<Flit>, run: seq<Cycle>)
    requires |data| == BUF_SIZE && Short(0, FlitsIn(AfterReset(data), run), 7)
    ensures var e, words, flits :=
        Run(AfterReset(data), run).egress, WordsOut(AfterReset(data), run), FlitsIn(AfterReset(data), run);
      && words <= Frames(flits)
      && (!e.active && !HasLast(Contents(e.buf)) ==> words == Frames(flits))
  {
    LogFromReset(data, run);
    EgressInvOverRun(AfterReset(data), run);
    var s := Run(AfterReset(data), run);
    SentIsPrefix(s.egress.active, Contents(s.egress.buf), s.log);
  }

  /** How many cycles a willing host needs at most. */
  ghost function CyclesLeft(e: Egress): nat
    requires EgressShape(e)
  {
    2 * |Contents(e.buf)| + if e.active then 0 else 1
  }

  lemma WillingCycle(s: System, c: Cycle)
    requires EgressInv(s.egress, s.log) && c.hostReady && c.input.Nothing?
    requires s.egress.active || HasLast(Contents(s.egress.buf))
    ensures CyclesLeft(Step(s, c).egress) < CyclesLeft(s.egress) && Step(s, c).log.received == s.log.received
  {
    BufferIsQueue(s.egress, s.log, c.input, c.hostReady);
  }

  lemma RestingCycle(s: System, c: Cycle)
    requires EgressInv(s.egress, s.log) && c.input.Nothing? && !s.egress.active && !HasLast(Contents(s.egress.buf))
    ensures !Step(s, c).egress.active && !HasLast(Contents(Step(s, c).egress.buf))
    ensures Step(s, c).log.received == s.log.received
  {
    BufferIsQueue(s.egress, s.log, c.input, c.hostReady);
  }

  predicate Willing(run: seq<Cycle>) { forall i :: 0 <= i < |run| ==> run[i].hostReady && run[i].input.Nothing? }

  lemma {:induction false} DrainsOverRun(s: System, run: seq<Cycle>)
    requires EgressInv(s.egress, s.log) && Short(0, s.log.received, 7) && Willing(run)
    ensures var e := Run(s, run).egress;
      |run| > CyclesLeft(s.egress) || (!s.egress.active && !HasLast(Contents(s.egress.buf)))
      ==> !e.active && !HasLast(Contents(e.buf))
    ensures Run(s, run).log.received == s.log.received
    decreases |run|
  {
    if run != [] {
      var c := run[0];
      EgressInvKept(s.egress, s.log, c.input, c.hostReady);
      if s.egress.active || HasLast(Contents(s.egress.buf)) {
        WillingCycle(s, c);
      } else {
        RestingCycle(s, c);
      }
      DrainsOverRun(Step(s, c), run[1..]);
    }
  }

  lemma {:induction false} RunInTwo(s: System, a: seq<Cycle>, b: seq<Cycle>)
    requires EgressShape(s.egress)
    ensures Run(s, a + b) == Run(Run(s, a), b)
    decreases |a|
  {
    if a == [] {
      assert a + b == b;
    } else {
      assert (a + b)[0] == a[0] && (a + b)[1..] == a[1..] + b;
      RunInTwo(Step(s, a[0]), a[1..], b);
    }
  }

  /** After any run, eighteen cycles of a willing host get every complete packet out. */
  lemma EgressDrains(data: seq<Flit>, run: seq<Cycle>, more: seq<Cycle>)
    requires |data| == BUF_SIZE && Short(0, FlitsIn(AfterReset(data), run), 7)
    requires Willing(more) && |more| >= 18
    ensures WordsOut(AfterReset(data), run + more) == Frames(FlitsIn(AfterReset(data), run))
  {
    var s0 := AfterReset(data);
    var s := Run(s0, run);
    LogFromReset(data, run);
    EgressInvOverRun(s0, run);
    DrainsOverRun(s, more);
    RunInTwo(s0, run, more);
    LogFromReset(data, run + more);
    EgressFramesPackets(data, run + more);
  }

  lemma SentIsPrefix(active: bool, q: seq<Flit>, l: Log)
    requires LogInv(active, q, l)
    ensures l.sent <= Frames(l.received)
    ensures !active && !HasLast(q) ==> l.sent == Frames(l.received)
  {
    var rest := l.part + q;
    Associate(l.done, l.part, q);
    FramesInTwo(l.done, rest);
    FramesOfPart([], l.part, q);
    assert [] + l.part == l.part;
    if active {
      FrameStart(l.part, q);
      Associate(Frames(l.done), [|l.part| + FirstLength(q)], Datas(l.part));
    } else {
      assert [] + q == q;
      if !HasLast(q) {
        FramesOfPart([], q, []);
        assert q + [] == q;
      }
    }
  }

  lemma FramesInTwo(done: seq<Flit>, rest: seq<Flit>)
    requires Whole(done)
    ensures Frames(done + rest) == Frames(done) + Frames(rest)
  {
    if done == [] {
      assert done + rest == rest;
    } else {
      FramesOfAppend([], done, rest);
    }
  }

  // ---------- Ingress: words to packets ----------

  /** `size` has five bits. */
  datatype Ingress = Ingress(active: bool, size: nat)

  function CountDown(size: nat): (r: nat)
    ensures r < 32
    ensures 1 <= size <= 32 ==> r == size - 1
    ensures size == 0 ==> r == 31
  {
    (size + 31) % 32
  }

  /** One accepted host word, its bytes already swapped, and the flit it becomes. */
  function IngressNext(s: Ingress, w: nat): (r: (Ingress, seq<Flit>)) {
    if !s.active then (Ingress(true, CountDown(w)), [])
    else (Ingress(s.size != 0, CountDown(s.size)), [Flit(s.size == 0, w)])
  }

  /** The flits that come of the words `ws`. */
  function Decoded(s: Ingress, ws: seq<nat>): seq<Flit>
    decreases |ws|
  {
    if ws == [] then [] else IngressNext(s, ws[0]).1 + Decoded(IngressNext(s, ws[0]).0, ws[1..])
  }

  const IDLE := Ingress(false, 31)

  lemma DecodedFirst(s: Ingress, w: nat, ws: seq<nat>)
    ensures Decoded(s, [w] + ws) == IngressNext(s, w).1 + Decoded(IngressNext(s, w).0, ws)
  {
    assert ([w] + ws)[1..] == ws;
  }

  lemma DatasOfFirst(f: Flit, q: seq<Flit>, rest: seq<nat>)
    ensures Datas([f] + q) + rest == [f.data] + (Datas(q) + rest)
  {}

  /** The payload of a packet comes out flit by flit, and the module is idle again. */
  lemma {:induction false} PayloadDecodes(part: seq<Flit>, f: Flit, rest: seq<nat>)
    requires NoLast(part) && |part| < 32 && f.last
    ensures Decoded(Ingress(true, |part|), Datas(part + [f]) + rest) == part + [f] + Decoded(IDLE, rest)
    decreases |part|
  {
    if part == [] {
      DatasOfFirst(f, [], rest);
      DecodedFirst(Ingress(true, 0), f.data, rest);
      assert [] + rest == rest && part + [f] == [f] + [];
    } else {
      var first, others := part[0], part[1..];
      PayloadDecodes(others, f, rest);
      DatasOfFirst(first, others + [f], rest);
      DecodedFirst(Ingress(true, |part|), first.data, Datas(others + [f]) + rest);
      assert part + [f] == [first] + (others + [f]);
      Associate([first], others + [f], Decoded(IDLE, rest));
    }
  }

  lemma FrameDecodes(part: seq<Flit>, f: Flit, rest: seq<nat>)
    requires NoLast(part) && |part| < 32 && f.last
    ensures Decoded(IDLE, [|part| + 1] + Datas(part + [f]) + rest) == part + [f] + Decoded(IDLE, rest)
  {
    Associate([|part| + 1], Datas(part + [f]), rest);
    DecodedFirst(IDLE, |part| + 1, Datas(part + [f]) + rest);
    PayloadDecodes(part, f, rest);
  }

  /** Every packet of up to 32 flits survives the trip through its frame. */
  lemma {:induction false} IngressInvertsFrames(part: seq<Flit>, q: seq<Flit>)
    requires NoLast(part) && Whole(q) && (q == [] ==> part == []) && Short(|part|, q, 32)
    ensures Decoded(IDLE, FramesFrom(part, q)) == part + q
    decreases |q|
  {
    if q == [] {
    } else {
      var f, others := q[0], q[1..];
      assert [f] + others == q;
      Associate(part, [f], others);
      if f.last {
        IngressInvertsFrames([], others);
        FrameDecodes(part, f, FramesFrom([], others));
        assert [] + others == others;
      } else {
        IngressInvertsFrames(part + [f], others);
      }
    }
  }

  lemma {:induction false} ShortWider(k: nat, q: seq<Flit>, max: nat, wider: nat)
    requires Short(k, q, max) && max <= wider
    ensures Short(k, q, wider)
    decreases |q|
  {
    if q != [] {
      ShortWider(if q[0].last then 0 else k + 1, q[1..], max, wider);
    }
  }

  // ---------- Both directions ----------

  predicate AllWords(ws: seq<nat>) { forall i :: 0 <= i < |ws| ==> ws[i] < 0x1_0000 }

  predicate AllFlits(q: seq<Flit>) { forall i :: 0 <= i < |q| ==> q[i].data < 0x1_0000 }

  /** The words as the host has them, and back. */
  function Swapped(ws: seq<nat>): (r: seq<nat>)
    requires AllWords(ws)
    ensures |r| == |ws| && AllWords(r)
  {
    seq(|ws|, i requires 0 <= i < |ws| => SwapBytes(ws[i]))
  }

  lemma SwappedTwice(ws: seq<nat>)
    requires AllWords(ws)
    ensures Swapped(Swapped(ws)) == ws
  {
    forall i | 0 <= i < |ws| ensures Swapped(Swapped(ws))[i] == ws[i] {
      SwapTwice(ws[i]);
    }
  }

  lemma {:induction false} FramesAreWords(part: seq<Flit>, q: seq<Flit>)
    requires AllFlits(part) && AllFlits(q) && Short(|part|, q, 7)
    ensures AllWords(FramesFrom(part, q))
    decreases |q|
  {
    if q != [] {
      FramesAreWords(if q[0].last then [] else part + [q[0]], q[1..]);
    }
  }

  /**
   * Egress followed by ingress gives back the packets, once everything is through; each of the two
   * swaps the bytes of the words on the host's channel.
   */
  lemma LoopbackIsIdentity(data: seq<Flit>, run: seq<Cycle>)
    requires |data| == BUF_SIZE && Short(0, FlitsIn(AfterReset(data), run), 7)
    requires Whole(FlitsIn(AfterReset(data), run)) && AllFlits(FlitsIn(AfterReset(data), run))
    requires var e := Run(AfterReset(data), run).egress; !e.active && !HasLast(Contents(e.buf))
    ensures var words := WordsOut(AfterReset(data), run);
      AllWords(words) && Decoded(IDLE, Swapped(Swapped(words))) == FlitsIn(AfterReset(data), run)
  {
    var words, flits := WordsOut(AfterReset(data), run), FlitsIn(AfterReset(data), run);
    EgressFramesPackets(data, run);
    FramesAreWords([], flits);
    SwappedTwice(words);
    ShortWider(0, flits, 7, 32);
    IngressInvertsFrames([], flits);
    assert [] + flits == flits;
  }

  // ---------- Longer packets ----------

  /** The buffer is full, and the packet in it is not complete. */
  ghost predicate Blocked(e: Egress) {
    EgressShape(e) && Inv(e.buf, true) && |Contents(e.buf)| == BUF_SIZE && NoLast(Contents(e.buf))
  }

  lemma BlockedStays(s: System, c: Cycle)
    requires Blocked(s.egress)
    ensures Blocked(Step(s, c).egress) && Contents(Step(s, c).egress.buf) == Contents(s.egress.buf)
    ensures Step(s, c).log == s.log
  {
    OutValidIsHasLast(s.egress.buf);
    FullPacketModeIsQueue(s.egress.buf, c.input, DiiReady(s.egress, c.hostReady));
  }

  /** Nothing is being sent, and the `n` flits in the buffer are not a whole packet. */
  ghost predicate Fills(e: Egress, n: nat) {
    && EgressShape(e) && Inv(e.buf, true) && !e.active && NoLast(Contents(e.buf)) && |Contents(e.buf)| == n
  }

  predicate AllMiddle(run: seq<Cycle>) {
    forall i :: 0 <= i < |run| ==> run[i].input.Valid? && !run[i].input.flit.last
  }

  lemma FlitWaits(s: System, c: Cycle, n: nat)
    requires Fills(s.egress, n) && n < BUF_SIZE && c.input.Valid? && !c.input.flit.last
    ensures Fills(Step(s, c).egress, n + 1) && Step(s, c).log.sent == s.log.sent
  {
    OutValidIsHasLast(s.egress.buf);
    FlitIsStored(s.egress.buf, c.input.flit);
  }

  lemma FlitIsStored(buf: Registers, f: Flit)
    requires Inv(buf, true) && |buf.data| == BUF_SIZE && |Contents(buf)| < BUF_SIZE && NoLast(Contents(buf)) && !f.last
    ensures var buf' := AfterClock(buf, true, Valid(f), false);
      && Inv(buf', true) && |buf'.data| == |buf'.lastBuf| == BUF_SIZE > buf'.rp
      && Contents(buf') == Contents(buf) + [f] && NoLast(Contents(buf'))
  {
    FullPacketModeIsQueue(buf, Valid(f), false);
  }

  /** The first eight flits of a longer packet wait in the buffer for its end. */
  lemma {:induction false} LongPacketFills(s: System, run: seq<Cycle>)
    requires |run| <= BUF_SIZE && Fills(s.egress, BUF_SIZE - |run|) && AllMiddle(run)
    ensures Blocked(Run(s, run).egress) && Run(s, run).log.sent == s.log.sent
    decreases |run|
  {
    if run != [] {
      FlitWaits(s, run[0], BUF_SIZE - |run|);
      LongPacketFills(Step(s, run[0]), run[1..]);
    }
  }

  /** With that the module is blocked for good: it takes and sends nothing any more. */
  lemma {:induction false} LongPacketBlocks(s: System, run: seq<Cycle>)
    requires Blocked(s.egress)
    ensures Blocked(Run(s, run).egress) && Contents(Run(s, run).egress.buf) == Contents(s.egress.buf)
    ensures Run(s, run).log == s.log
    decreases |run|
  {
    if run != [] {
      BlockedStays(s, run[0]);
      LongPacketBlocks(Step(s, run[0]), run[1..]);
    }
  }

  /** The three-bit size makes the length word of an eight-flit packet zero. */
  lemma EightFlitsHaveLengthZero(e: Egress)
    requires EgressShape(e) && Inv(e.buf, true) && !e.active
    requires HasLast(Contents(e.buf)) && FirstLength(Contents(e.buf)) == 8
    ensures OfferedWord(e) == 0
  {
    PacketSizeExact(e.buf);
  }

  /** The module's own registers; its egress buffer is a `DiiBuffer.Buffer`. */
  class Him {
    var ingressActive: bool
    var ingressSize: nat
    var egressActive: bool

    constructor ()
      ensures !ingressActive && !egressActive
    {
      ingressActive, ingressSize, egressActive := false, 0, false;
    }

    /** A cycle of the ingress side: at most one flit comes of the word offered by the host. */
    method IngressClock(word: nat, valid: bool, diiReady: bool) returns (ready: bool, flit: Input)
      requires word < 0x1_0000
      modifies `ingressActive, `ingressSize
      ensures ready == (!old(ingressActive) || diiReady)
      ensures var s, w := old(Ingress(ingressActive, ingressSize)), SwapBytes(word);
        && Ingress(ingressActive, ingressSize) == (if valid && ready then IngressNext(s, w).0 else s)
        && (flit.Valid? <==> valid && s.active)
        && (flit.Valid? ==> IngressNext(s, w).1 == [flit.flit])
    {
      var w := SwapBytes(word);
      ready := !ingressActive || diiReady;
      flit := if ingressActive && valid then Valid(Flit(ingressSize == 0, w)) else Nothing;
      if valid && ready {
        if !ingressActive {
          ingressSize, ingressActive := CountDown(w), true;
        } else {
          ingressActive := ingressSize != 0;
          ingressSize := CountDown(ingressSize);
        }
      }
    }

    /** A cycle of the egress side, beside the buffer in front of it. */
    method EgressClock(buf: Registers, hostReady: bool) returns (word: nat, valid: bool, bufReady: bool)
      requires |buf.data| == |buf.lastBuf| == BUF_SIZE > buf.rp
      requires forall i :: 0 <= i < |buf.data| ==> buf.data[i].data < 0x1_0000
      modifies `egressActive
      ensures var e := Egress(buf, old(egressActive));
        && OfferedWord(e) < 0x1_0000 && word == SwapBytes(OfferedWord(e)) && valid == OutValid(buf, true)
        && bufReady == DiiReady(e, hostReady)
        && forall input :: egressActive == EgressNext(e, input, hostReady).active
    {
      var flit, before := buf.data[buf.rp], egressActive;
      word := SwapBytes(if before then flit.data else PacketSize(buf) % BUF_SIZE);
      valid := exists i :: 0 <= i < |buf.lastBuf| && buf.lastBuf[i];
      bufReady := before && hostReady;
      if !before {
        egressActive := valid && hostReady;
      } else if bufReady && flit.last {
        egressActive := false;
      }
    }
  }
}
