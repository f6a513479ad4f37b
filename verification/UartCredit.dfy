/**
 * Credit-based flow control across the UART. Messages in flight are lists; the host thread and
 * the logic take their steps in any order.
 */
module UartCredit {
  import opened Bytes
  import opened Sequences
  import opened UartCodec
  import H = UartHost

  /** Where the host's thread is: parsing a chunk, writing, or about to look at its credit. */
  datatype Phase = Parsing(left: nat) | Writing | Crediting

  /**
   * `credit` and `debt` are the host's counters, `owing` is the logic's debtor, `lendable` its
   * creditor, and `fill` its input buffer.
   */
  datatype System = System(phase: Phase, credit: int, debt: int, toLogic: seq<Command>, toHost: seq<Report>,
                           owing: int, lendable: int, fill: int)

  datatype Action =
    | HostTakes | HostEndsChunk | HostWrites(ws: seq<Command>) | HostTopsUp
    | LogicTakes | LogicSends(b: Report) | LogicLends(n: nat) | LogicDrains

  function After(s: System, a: Action): System {
    match a
    case HostTakes =>
      if s.toHost == [] then s
      else
        var s' := s.(toHost := s.toHost[1..]);
        (match s.toHost[0]
         case Word(_) =>
           s'.(credit := s.credit - 1,
               phase := Parsing(if s.phase.Parsing? && s.phase.left > 0 then s.phase.left - 1 else 0))
         case Tranche(n) => s'.(debt := s.debt + n))
    case HostEndsChunk => s.(phase := Writing)
    case HostWrites(ws) => s.(phase := Crediting, debt := s.debt - |ws|, toLogic := s.toLogic + ws)
    case HostTopsUp =>
      if s.credit < H.BUFFER_SIZE - H.MAX_TRANCHE then
        s.(phase := Parsing(H.TMP_BUFFER_SIZE), credit := s.credit + H.MAX_TRANCHE,
           toLogic := s.toLogic + [Credit(H.MAX_TRANCHE)])
      else s.(phase := Parsing(H.TMP_BUFFER_SIZE))
    case LogicTakes =>
      if s.toLogic == [] then s
      else
        var s' := s.(toLogic := s.toLogic[1..]);
        (match s.toLogic[0]
         case Data(_) => s'.(fill := s.fill + 1)
         case Credit(n) => s'.(owing := s.owing + n)
         case _ => s')
    case LogicSends(m) => s.(owing := s.owing - 1, toHost := s.toHost + [m])
    case LogicLends(n) => s.(lendable := s.lendable - n, toHost := s.toHost + [Tranche(n)])
    case LogicDrains => s.(fill := s.fill - 1, lendable := s.lendable + 1)
  }

  /** The conditions under which each side takes a step. A chunk holds at most 256 words. */
  predicate Possible(s: System, a: Action) {
    match a
    case HostTakes => s.phase.Parsing? && s.toHost != [] && (s.toHost[0].Word? ==> s.phase.left > 0)
    case HostEndsChunk => s.phase.Parsing?
    case HostWrites(ws) =>
      s.phase.Writing? && |ws| <= H.TMP_BUFFER_SIZE && |ws| <= s.debt && forall m :: m in ws ==> m.Data?
    case HostTopsUp => s.phase.Crediting?
    case LogicTakes => s.toLogic != []
    case LogicSends(m) => s.owing > 0 && m.Word?
    case LogicLends(n) => n <= s.lendable && n < 0x8000
    case LogicDrains => s.fill > 0
  }

  /** After the reset of both sides; `capacity` is the logic's initial input credit. */
  function Start(capacity: nat): System {
    System(Parsing(H.TMP_BUFFER_SIZE), H.MAX_TRANCHE, 0, [Credit(H.MAX_TRANCHE)], [], 0, capacity, 0)
  }

  function RunFrom(s: System, run: seq<Action>): System
    decreases |run|
  {
    if run == [] then s else RunFrom(After(s, run[0]), run[1..])
  }

  predicate RunPossible(s: System, run: seq<Action>)
    decreases |run|
  {
    run == [] || (Possible(s, run[0]) && RunPossible(After(s, run[0]), run[1..]))
  }

  // ---------- Sums over what is in flight ----------

  function WordsIn(ms: seq<Report>): nat {
    if ms == [] then 0 else (if ms[0].Word? then 1 else 0) + WordsIn(ms[1..])
  }

  function TranchesIn(ms: seq<Report>): nat {
    if ms == [] then 0 else (if ms[0].Tranche? then ms[0].credit else 0) + TranchesIn(ms[1..])
  }

  function DataIn(ms: seq<Command>): nat {
    if ms == [] then 0 else (if ms[0].Data? then 1 else 0) + DataIn(ms[1..])
  }

  function CreditIn(ms: seq<Command>): nat {
    if ms == [] then 0 else (if ms[0].Credit? then ms[0].tranche else 0) + CreditIn(ms[1..])
  }

  lemma {:induction false} ReportsAppended(ms: seq<Report>, m: Report)
    ensures WordsIn(ms + [m]) == WordsIn(ms) + if m.Word? then 1 else 0
    ensures TranchesIn(ms + [m]) == TranchesIn(ms) + if m.Tranche? then m.credit else 0
    decreases |ms|
  {
    if ms == [] {
      assert ms + [m] == [m];
    } else {
      assert (ms + [m])[1..] == ms[1..] + [m];
      ReportsAppended(ms[1..], m);
    }
  }

  lemma {:induction false} CommandsAppended(ms: seq<Command>, ws: seq<Command>)
    ensures DataIn(ms + ws) == DataIn(ms) + DataIn(ws) && CreditIn(ms + ws) == CreditIn(ms) + CreditIn(ws)
    decreases |ms|
  {
    if ms == [] {
      assert ms + ws == ws;
    } else {
      assert (ms + ws)[1..] == ms[1..] + ws;
      CommandsAppended(ms[1..], ws);
    }
  }

  lemma {:induction false} AllData(ws: seq<Command>)
    requires forall m :: m in ws ==> m.Data?
    ensures DataIn(ws) == |ws| && CreditIn(ws) == 0
    decreases |ws|
  {
    if ws != [] {
      assert ws[0] in ws;
      AllData(ws[1..]);
    }
  }

  // ---------- Conservation ----------

  /** The words the logic may still send are exactly those the host still expects. */
  predicate CreditConserved(s: System) {
    s.credit == s.owing + WordsIn(s.toHost) + CreditIn(s.toLogic)
  }

  /** And the other way round, down to the free space of the logic's input buffer. */
  predicate DebtConserved(s: System, capacity: nat) {
    s.debt + DataIn(s.toLogic) + TranchesIn(s.toHost) + s.fill + s.lendable == capacity
  }

  /** How low the credit may be, depending on how far the thread is in its round. */
  function LeastCredit(phase: Phase): int {
    if phase.Parsing? then H.MAX_TRANCHE - H.TMP_BUFFER_SIZE + phase.left else H.MAX_TRANCHE - H.TMP_BUFFER_SIZE
  }

  predicate Inv(s: System, capacity: nat) {
    && CreditConserved(s) && DebtConserved(s, capacity)
    && s.debt >= 0 && s.owing >= 0 && s.lendable >= 0 && s.fill >= 0
    && (s.phase.Parsing? ==> s.phase.left <= H.TMP_BUFFER_SIZE)
    && LeastCredit(s.phase) <= s.credit < H.BUFFER_SIZE
  }

  lemma InvKept(s: System, a: Action, capacity: nat)
    requires Inv(s, capacity) && Possible(s, a)
    ensures Inv(After(s, a), capacity)
  {
    match a
    case HostWrites(ws) =>
      CommandsAppended(s.toLogic, ws);
      AllData(ws);
    case HostTopsUp =>
      CommandsAppended(s.toLogic, [Credit(H.MAX_TRANCHE)]);
      assert CreditIn([Credit(H.MAX_TRANCHE)]) == H.MAX_TRANCHE && DataIn([Credit(H.MAX_TRANCHE)]) == 0;
    case LogicSends(m) => ReportsAppended(s.toHost, m);
    case LogicLends(n) => ReportsAppended(s.toHost, Tranche(n));
    case _ =>
  }

  lemma {:induction false} InvOverRun(s: System, run: seq<Action>, capacity: nat)
    requires Inv(s, capacity) && RunPossible(s, run)
    ensures Inv(RunFrom(s, run), capacity)
    decreases |run|
  {
    if run != [] {
      InvKept(s, run[0], capacity);
      InvOverRun(After(s, run[0]), run[1..], capacity);
    }
  }

  lemma InvAtStart(capacity: nat)
    ensures Inv(Start(capacity), capacity)
  {
    assert CreditIn([Credit(H.MAX_TRANCHE)]) == H.MAX_TRANCHE && DataIn([Credit(H.MAX_TRANCHE)]) == 0;
  }

  /**
   * In every state that can be reached, credit is conserved in both directions; the host's credit
   * stays between 16127 and 32767, so that the assertions of the parser hold and the debtor's 15
   * bits suffice; and the logic's input buffer never overflows.
   */
  lemma CreditIsSafe(run: seq<Action>, capacity: nat)
    requires RunPossible(Start(capacity), run)
    ensures var s := RunFrom(Start(capacity), run);
      && s.credit == s.owing + WordsIn(s.toHost) + CreditIn(s.toLogic)
      && s.debt + DataIn(s.toLogic) + TranchesIn(s.toHost) + s.fill + s.lendable == capacity
      && 16127 <= s.credit <= 32767
      && 0 <= s.owing < 0x8000 && 0 <= s.debt <= capacity
      && 0 <= s.fill + DataIn(s.toLogic) <= capacity
  {
    InvAtStart(capacity);
    InvOverRun(Start(capacity), run, capacity);
  }

  /** Whenever the parser is given a word, it has credit for it. */
  lemma ParserHasCredit(run: seq<Action>, capacity: nat)
    requires RunPossible(Start(capacity), run + [HostTakes])
    ensures RunFrom(Start(capacity), run).credit > H.TMP_BUFFER_SIZE
  {
    RunSplits(Start(capacity), run, HostTakes);
    CreditIsSafe(run, capacity);
  }

  lemma {:induction false} RunSplits(s: System, run: seq<Action>, a: Action)
    requires RunPossible(s, run + [a])
    ensures RunPossible(s, run) && Possible(RunFrom(s, run), a)
    decreases |run|
  {
    if run == [] {
      assert (run + [a])[0] == a;
    } else {
      assert (run + [a])[0] == run[0] && (run + [a])[1..] == run[1..] + [a];
      RunSplits(After(s, run[0]), run[1..], a);
    }
  }

  /**
   * The logic cannot be stuck in the middle of a doubled marker while the host waits for the
   * second half: with no more than that one word in flight, it has credit or credit is on its way.
   */
  lemma RepetitionIsNotStarved(run: seq<Action>, capacity: nat)
    requires RunPossible(Start(capacity), run) && WordsIn(RunFrom(Start(capacity), run).toHost) <= 1
    ensures var s := RunFrom(Start(capacity), run); s.owing + CreditIn(s.toLogic) >= 16126
  {
    CreditIsSafe(run, capacity);
  }

  // ---------- The host's rounds are runs of its steps ----------

  /** The counters agree, and the bytes that have arrived are the messages on their way to the host. */
  ghost predicate Matches(h: H.Host, s: System)
    reads h
  {
    && h.credit == s.credit && h.debt == s.debt
    && Read(Plain, h.arriving).0 == Plain && Read(Plain, h.arriving).1 == s.toHost
  }

  function Takes(n: nat): seq<Action> { if n == 0 then [] else [HostTakes] + Takes(n - 1) }

  /** The host takes `n` messages, writes these words and gives credit if it is due. */
  function RoundOf(n: nat, ws: seq<Command>): seq<Action> { Takes(n) + [HostEndsChunk, HostWrites(ws), HostTopsUp] }

  lemma {:induction false} RunOfAppend(s: System, a: seq<Action>, b: seq<Action>)
    ensures RunFrom(s, a + b) == RunFrom(RunFrom(s, a), b)
    ensures RunPossible(s, a + b) <==> RunPossible(s, a) && RunPossible(RunFrom(s, a), b)
    decreases |a|
  {
    if a == [] {
      assert a + b == b;
    } else {
      assert (a + b)[0] == a[0] && (a + b)[1..] == a[1..] + b;
      RunOfAppend(After(s, a[0]), a[1..], b);
    }
  }

  lemma {:induction false} SameTotals(ms: seq<Report>)
    ensures WordsIn(ms) == |H.Words(ms)| && TranchesIn(ms) == H.Debts(ms)
    decreases |ms|
  {
    if ms != [] {
      var front, last := ms[..|ms| - 1], ms[|ms| - 1];
      SameTotals(front);
      ReportsAppended(front, last);
      assert ms == front + [last];
    }
  }

  /** The state once the first messages have been taken. */
  function Taken(s: System, ms: seq<Report>, later: seq<Report>): System
    requires s.phase.Parsing? && WordsIn(ms) <= s.phase.left
  {
    s.(phase := Parsing(s.phase.left - WordsIn(ms)), credit := s.credit - WordsIn(ms),
       debt := s.debt + TranchesIn(ms), toHost := later)
  }

  lemma {:induction false} TakesAll(s: System, ms: seq<Report>, later: seq<Report>)
    requires s.phase.Parsing? && WordsIn(ms) <= s.phase.left && s.toHost == ms + later
    ensures RunPossible(s, Takes(|ms|)) && RunFrom(s, Takes(|ms|)) == Taken(s, ms, later)
    decreases |ms|
  {
    if ms == [] {
      assert ms + later == later;
    } else {
      var s' := After(s, HostTakes);
      assert s.toHost[0] == ms[0] && s.toHost[1..] == ms[1..] + later;
      TakesAll(s', ms[1..], later);
      assert Takes(|ms|)[0] == HostTakes && Takes(|ms|)[1..] == Takes(|ms| - 1);
    }
  }

  /** What is sent in a round that takes these messages: these words, and credit if it is due. */
  function SentIn(s: System, ms: seq<Report>, ws: seq<Byte>): (sent: seq<Command>)
    ensures forall m :: m in sent ==> ValidCommand(m)
  {
    H.DataCommands(ws) + H.TopUps(s.credit - WordsIn(ms))
  }

  /** The state after it. */
  function AfterRound(s: System, ms: seq<Report>, later: seq<Report>, ws: seq<Byte>): System {
    var credit := s.credit - WordsIn(ms);
    s.(phase := Parsing(H.TMP_BUFFER_SIZE), toHost := later,
       credit := credit + H.Credits(H.TopUps(credit)), debt := s.debt + TranchesIn(ms) - |ws|,
       toLogic := s.toLogic + SentIn(s, ms, ws))
  }

  lemma CreditOfTopUps(credit: int)
    ensures H.Credits(H.TopUps(credit)) == if credit < H.BUFFER_SIZE - H.MAX_TRANCHE then H.MAX_TRANCHE else 0
  {
    var topUps := H.TopUps(credit);
    if topUps != [] {
      assert topUps[1..] == [];
    }
  }

  lemma TopUpEndsRound(s: System, ws: seq<Byte>)
    ensures var s' := s.(phase := Crediting, debt := s.debt - |ws|, toLogic := s.toLogic + H.DataCommands(ws));
      After(s', HostTopsUp) == AfterRound(s, [], s.toHost, ws)
  {
    CreditOfTopUps(s.credit);
    Associate(s.toLogic, H.DataCommands(ws), H.TopUps(s.credit));
  }

  lemma RestOfRound(s: System, ws: seq<Byte>)
    requires s.phase.Parsing? && |ws| <= H.TMP_BUFFER_SIZE && |ws| <= s.debt
    ensures var rest := [HostEndsChunk, HostWrites(H.DataCommands(ws)), HostTopsUp];
      RunPossible(s, rest) && RunFrom(s, rest) == AfterRound(s, [], s.toHost, ws)
  {
    TopUpEndsRound(s, ws);
    ThreeSteps(s, HostEndsChunk, HostWrites(H.DataCommands(ws)), HostTopsUp);
  }

  lemma ThreeSteps(s: System, a: Action, b: Action, c: Action)
    ensures RunFrom(s, [a, b, c]) == After(After(After(s, a), b), c)
    ensures RunPossible(s, [a, b, c])
      <==> Possible(s, a) && Possible(After(s, a), b) && Possible(After(After(s, a), b), c)
  {
    assert [a] + [b, c] == [a, b, c] && [b] + [c] == [b, c] && [c] + [] == [c];
    FirstStep(s, a, [b, c]);
    FirstStep(After(s, a), b, [c]);
    FirstStep(After(After(s, a), b), c, []);
  }

  lemma FirstStep(s: System, a: Action, rest: seq<Action>)
    ensures RunFrom(s, [a] + rest) == RunFrom(After(s, a), rest)
    ensures RunPossible(s, [a] + rest) <==> Possible(s, a) && RunPossible(After(s, a), rest)
  {
    assert ([a] + rest)[1..] == rest;
  }

  lemma RoundIsRun(s: System, ms: seq<Report>, later: seq<Report>, ws: seq<Byte>)
    requires s.phase.Parsing? && WordsIn(ms) <= s.phase.left && s.toHost == ms + later
    requires |ws| <= H.TMP_BUFFER_SIZE && |ws| <= s.debt + TranchesIn(ms)
    ensures var run := RoundOf(|ms|, H.DataCommands(ws));
      RunPossible(s, run) && RunFrom(s, run) == AfterRound(s, ms, later, ws)
  {
    TakesAll(s, ms, later);
    RestOfRound(Taken(s, ms, later), ws);
    RunOfAppend(s, Takes(|ms|), [HostEndsChunk, HostWrites(H.DataCommands(ws)), HostTopsUp]);
  }

  /** The run of a round leads from one state to the other. */
  predicate IsRound(s: System, ms: seq<Report>, ws: seq<Byte>, s': System) {
    RunPossible(s, RoundOf(|ms|, H.DataCommands(ws))) && s' == RunFrom(s, RoundOf(|ms|, H.DataCommands(ws)))
  }

  /** A round with these effects on the counters is that run. */
  lemma RoundReaches(s: System, ms: seq<Report>, later: seq<Report>, ws: seq<Byte>, credit: int, debt: nat)
    returns (s': System)
    requires s.phase == Parsing(H.TMP_BUFFER_SIZE) && s.toHost == ms + later
    requires |H.Words(ms)| <= H.TMP_BUFFER_SIZE && |ws| <= H.TMP_BUFFER_SIZE
    requires credit == s.credit - |H.Words(ms)| + H.Credits(SentIn(s, ms, ws)) && debt + |ws| == s.debt + H.Debts(ms)
    ensures IsRound(s, ms, ws, s') && s'.phase == Parsing(H.TMP_BUFFER_SIZE)
    ensures s'.credit == credit && s'.debt == debt && s'.toHost == later && s'.toLogic == s.toLogic + SentIn(s, ms, ws)
  {
    SameTotals(ms);
    H.DataOfRun(ws, H.TopUps(s.credit - WordsIn(ms)));
    RoundIsRun(s, ms, later, ws);
    s' := RunFrom(s, RoundOf(|ms|, H.DataCommands(ws)));
  }

  lemma SentTogether(s: System, ms: seq<Report>, ws: seq<Byte>, sent: seq<Command>)
    requires sent == H.DataCommands(ws) + H.TopUps(s.credit - |H.Words(ms)|)
    ensures sent == SentIn(s, ms, ws)
  {
    SameTotals(ms);
  }

  /** Wherever whole messages are cut, the rest of the last one is there. */
  lemma EndIsThere(a: seq<Byte>, b: seq<Byte>)
    requires Read(Plain, a + b).0 == Plain
    ensures H.CanFinish(Read(Plain, a).0, b)
  {
    ReadOfAppend(Plain, a, b);
    if |b| == 1 {
      H.ReadLast(Read(Plain, a).0, b[0]);
      assert b == [b[0]];
    }
  }

  /**
   * The thread's round on bytes is a run of the host's steps: the credit it needs is there by the
   * conservation of credit, and no message it has begun to read is cut off for good.
   */
  method HostRound(h: H.Host, ghost s: System, ghost capacity: nat, arrived: nat,
                   first: seq<Byte>, between: seq<Byte>, second: seq<Byte>)
    returns (aborted: bool, ghost s': System, ghost ms: seq<Report>, ghost ws: seq<Byte>)
    requires Matches(h, s) && Inv(s, capacity) && s.phase == Parsing(H.TMP_BUFFER_SIZE)
    requires |h.input| <= H.BUFFER_SIZE && |h.output| + |first| + |between| + |second| <= H.BUFFER_SIZE
    requires arrived <= H.Min(H.BUFFER_SIZE - |h.input|, H.TMP_BUFFER_SIZE) && arrived <= |h.arriving|
    modifies h
    ensures |h.input| <= H.BUFFER_SIZE
    ensures |old(h.output)| + |first| + |between| + |second| < H.BUFFER_SIZE ==> !aborted
    ensures var used := H.Used(old(h.arriving)[..arrived], old(h.arriving)[arrived..]);
      ms == Read(Plain, used).1 && used + h.arriving == old(h.arriving)
    ensures !aborted ==>
      && IsRound(s, ms, ws, s') && Matches(h, s') && s'.phase == Parsing(H.TMP_BUFFER_SIZE)
      && s.toHost == ms + s'.toHost && h.input == old(h.input) + H.Words(ms)
      && ws + h.output == old(h.output) + first + between + second
      && s'.toLogic == s.toLogic + SentIn(s, ms, ws) && h.written == old(h.written) + HostEncodeAll(SentIn(s, ms, ws))
  {
    ghost var stream := h.arriving;
    assert stream[..arrived] + stream[arrived..] == stream;
    EndIsThere(stream[..arrived], stream[arrived..]);
    ghost var sent;
    aborted, sent := h.Round(arrived, first, between, second);
    ghost var used := H.Used(stream[..arrived], stream[arrived..]);
    ms, ws := Read(Plain, used).1, H.DataOf(sent);
    ReadOfAppend(Plain, used, h.arriving);
    s' := s;
    if !aborted {
      SentTogether(s, ms, ws, sent);
      s' := RoundReaches(s, ms, Read(Plain, h.arriving).1, ws, h.credit, h.debt);
    }
  }

  // ---------- The input buffer is not covered by the credit ----------

  /** Nothing is on its way. */
  predicate Idle(s: System) { s.phase == Parsing(H.TMP_BUFFER_SIZE) && s.toHost == [] && s.toLogic == [] }

  lemma OneByte(b: Byte)
    requires b != MARK
    ensures Read(Plain, [b]).0 == Plain && Read(Plain, [b]).1 == [Word(b)]
    ensures [b][..1] == [b] && H.Used([b], [b][1..]) == [b] && H.Words([Word(b)]) == [b]
  {
    H.ReadLast(Plain, b);
    H.OneMore([], Word(b));
    assert [] + [Word(b)] == [Word(b)] && [] + [b] == [b] && [b] + [] == [b];
  }

  /** What the logic does when it has been given credit, and what it does to use it. */
  lemma LogicActs(s: System, capacity: nat)
    requires Inv(s, capacity) && s.phase == Parsing(H.TMP_BUFFER_SIZE) && s.toHost == [] && |s.toLogic| <= 1
    requires s.toLogic != [] ==> s.toLogic[0].Credit?
    ensures var run := if s.toLogic == [] then [] else [LogicTakes];
      && RunPossible(s, run) && Idle(RunFrom(s, run))
      && RunFrom(s, run).credit == s.credit && RunFrom(s, run).debt == s.debt
  {
    if s.toLogic != [] {
      assert [LogicTakes][1..] == [];
      assert RunFrom(s, [LogicTakes]) == RunFrom(After(s, LogicTakes), []) == After(s, LogicTakes);
    }
  }

  /** The run of a word. */
  lemma WordRun(s: System, b: Byte, capacity: nat) returns (run: seq<Action>)
    requires Inv(s, capacity) && Idle(s)
    ensures RunPossible(s, run) && Idle(RunFrom(s, run))
    ensures var s1 := After(s, LogicSends(Word(b))); var s2 := RunFrom(s1, RoundOf(1, []));
      RunFrom(s, run).credit == s2.credit && RunFrom(s, run).debt == s2.debt
  {
    var s1 := After(s, LogicSends(Word(b)));
    assert s1.toHost == [Word(b)] + [];
    RoundIsRun(s1, [Word(b)], [], []);
    var round := RoundOf(1, []);
    var s2 := RunFrom(s1, round);
    assert H.DataCommands([]) == [];
    InvKept(s, LogicSends(Word(b)), capacity);
    InvOverRun(s1, round, capacity);
    LogicActs(s2, capacity);
    var last := if s2.toLogic == [] then [] else [LogicTakes];
    RunOfAppend(s1, round, last);
    run := [LogicSends(Word(b))] + (round + last);
    assert run[1..] == round + last;
  }

  /** One word more, which the user does not take out of the input buffer. */
  method SendWord(h: H.Host, ghost s: System, ghost capacity: nat, b: Byte) returns (ghost run: seq<Action>)
    requires Matches(h, s) && Inv(s, capacity) && Idle(s) && h.arriving == h.output == [] && |h.input| < H.BUFFER_SIZE
    requires b != MARK
    modifies h
    ensures RunPossible(s, run) && Idle(RunFrom(s, run)) && Matches(h, RunFrom(s, run))
    ensures h.arriving == h.output == [] && h.input == old(h.input) + [b]
  {
    ghost var s1 := After(s, LogicSends(Word(b)));
    InvKept(s, LogicSends(Word(b)), capacity);
    OneByte(b);
    h.arriving := [b];
    assert s1.toHost == [Word(b)];
    var aborted;
    ghost var s2, ms, ws;
    aborted, s2, ms, ws := HostRound(h, s1, capacity, 1, [], [], []);
    run := WordRun(s, b, capacity);
  }

  /** After the reset of both sides, where the logic has lent `n` words. */
  lemma AfterReset(capacity: nat, n: nat) returns (run: seq<Action>)
    requires n <= capacity && n < 0x8000
    ensures RunPossible(Start(capacity), run) && Idle(RunFrom(Start(capacity), run))
    ensures RunFrom(Start(capacity), run).credit == H.MAX_TRANCHE && RunFrom(Start(capacity), run).debt == n
  {
    var s := Start(capacity);
    run := [LogicTakes, LogicLends(n), HostTakes];
    ThreeSteps(s, LogicTakes, LogicLends(n), HostTakes);
    assert [] + [Tranche(n)] == [Tranche(n)];
  }

  /** `n` words more. */
  method SendWords(h: H.Host, ghost s: System, ghost capacity: nat, b: Byte, n: nat) returns (ghost run: seq<Action>)
    requires Matches(h, s) && Inv(s, capacity) && Idle(s) && h.arriving == h.output == [] && b != MARK
    requires |h.input| + n <= H.BUFFER_SIZE
    modifies h
    ensures RunPossible(s, run) && Idle(RunFrom(s, run))
    ensures Matches(h, RunFrom(s, run)) && Inv(RunFrom(s, run), capacity)
    ensures h.arriving == h.output == [] && |h.input| == old(|h.input|) + n
  {
    ghost var s' := s;
    run := [];
    for i := 0 to n
      invariant h.arriving == h.output == [] && |h.input| == old(|h.input|) + i
      invariant RunPossible(s, run) && s' == RunFrom(s, run) && Matches(h, s') && Inv(s', capacity) && Idle(s')
    {
      ghost var more := SendWord(h, s', capacity, b);
      InvOverRun(s', more, capacity);
      RunOfAppend(s, run, more);
      run, s' := run + more, RunFrom(s', more);
    }
  }

  /** The last word that the logic sends. */
  lemma OneMoreWord(s: System, run: seq<Action>, b: Byte, capacity: nat)
    requires RunPossible(s, run) && Idle(RunFrom(s, run)) && Inv(RunFrom(s, run), capacity)
    ensures var s' := RunFrom(s, run + [LogicSends(Word(b))]); var was := RunFrom(s, run);
      && RunPossible(s, run + [LogicSends(Word(b))]) && s'.toHost == [Word(b)]
      && s'.credit == was.credit && s'.debt == was.debt
  {
    RunOfAppend(s, run, [LogicSends(Word(b))]);
    assert [LogicSends(Word(b))][1..] == [] && [] + [Word(b)] == [Word(b)];
  }

  lemma TwoRuns(s: System, a: seq<Action>, b: seq<Action>) returns (run: seq<Action>)
    requires RunPossible(s, a) && RunPossible(RunFrom(s, a), b)
    ensures RunPossible(s, run) && RunFrom(s, run) == RunFrom(RunFrom(s, a), b)
  {
    RunOfAppend(s, a, b);
    run := a + b;
  }

  /** Host and logic after the reset, where the logic has lent `n` words. */
  method Reset(ghost capacity: nat, n: Byte) returns (h: H.Host, ghost run: seq<Action>)
    requires n <= capacity
    ensures fresh(h) && h.arriving == h.output == h.input == []
    ensures RunPossible(Start(capacity), run)
    ensures var s := RunFrom(Start(capacity), run); Idle(s) && Matches(h, s) && Inv(s, capacity)
  {
    var message := [MARK, 1, n];
    h := new H.Host(message);
    run := AfterReset(capacity, n);
    InvAtStart(capacity);
    InvOverRun(Start(capacity), run, capacity);
  }

  /**
   * The host's credit says nothing about its input buffer: if the user takes nothing out of it, the
   * logic can fill it within its credit and send a word more. That the next thing to arrive is a
   * credit message, which the round now asserts, is wrong.
   */
  method FullBufferReached(ghost capacity: nat, b: Byte) returns (h: H.Host, ghost run: seq<Action>)
    requires capacity > 0 && b != MARK
    ensures fresh(h) && |h.input| == H.BUFFER_SIZE && h.arriving == [b] && h.output == []
    ensures RunPossible(Start(capacity), run) && Matches(h, RunFrom(Start(capacity), run))
    ensures RunFrom(Start(capacity), run).toHost == [Word(b)] && H.MAX_TRANCHE <= h.credit < H.BUFFER_SIZE
  {
    ghost var start := Start(capacity);
    h, run := Reset(capacity, 1);
    ghost var more := SendWords(h, RunFrom(start, run), capacity, b, H.BUFFER_SIZE);
    run := TwoRuns(start, run, more);
    OneMoreWord(start, run, b, capacity);
    OneByte(b);
    run := run + [LogicSends(Word(b))];
    h.arriving := [b];
  }
}
