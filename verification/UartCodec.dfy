/**
 * The byte protocol on the UART. Data bytes go out as they are; the byte 0xfe starts a control
 * message, and as data it is sent twice.
 */
module UartCodec {
  import opened Bytes

  const MARK: Byte := 0xfe

  // ---------- Host to logic ----------

  datatype Command = Data(b: Byte) | Credit(tranche: nat) | LogicReset(on: bool) | ComReset(on: bool)

  predicate ValidCommand(m: Command) { m.Credit? ==> m.tranche < 0x4000 }

  function Bit(on: bool): Byte { if on then 1 else 0 }

  /** What the host writes: the tranche's upper bits are shifted left, and bit 0 tells it from 0xfe. */
  function HostEncode(m: Command): seq<Byte>
    requires ValidCommand(m)
  {
    match m
    case Data(b) => if b == MARK then [b, b] else [b]
    case Credit(tranche) => [MARK, 1 + 2 * (tranche / 256), tranche % 256]
    case LogicReset(on) => [MARK, 2 * Bit(on) + 0x81]
    case ComReset(on) => [MARK, 2 * Bit(on) + 0x85]
  }

  function HostEncodeAll(ms: seq<Command>): seq<Byte>
    requires forall m :: m in ms ==> ValidCommand(m)
  {
    if ms == [] then [] else HostEncode(ms[0]) + HostEncodeAll(ms[1..])
  }

  datatype Ingress = Passthrough | Match | CreditLow(first: nat)

  datatype IngressOutput = Message(m: Command) | FsmError(b: Byte) | Nothing

  /** Bit `k` of the byte, for the constants the decoder looks at. */
  function BitOf(b: Byte, weight: nat): bool
    requires weight > 0
  {
    (b / weight) % 2 == 1
  }

  /** One valid byte at the decoder in the logic. */
  function IngressStep(s: Ingress, b: Byte): (r: (Ingress, IngressOutput)) {
    match s
    case Passthrough => if b == MARK then (Match, Nothing) else (Passthrough, Message(Data(b)))
    case Match =>
      if !BitOf(b, 1) then (Passthrough, if b == MARK then Message(Data(b)) else FsmError(b))
      else if !BitOf(b, 128) then (CreditLow((b / 2) % 64), Nothing)
      else if !BitOf(b, 4) then (Passthrough, Message(LogicReset(BitOf(b, 2))))
      else (Passthrough, Message(ComReset(BitOf(b, 2))))
    case CreditLow(first) => (Passthrough, Message(Credit(first * 256 + b)))
  }

  /** The error is raised exactly for a byte behind a marker that has its low bit clear and does not repeat it. */
  lemma ErrorIffNotRepeated(s: Ingress, b: Byte)
    ensures IngressStep(s, b).1.FsmError? <==> s == Match && b % 2 == 0 && b != MARK
    ensures IngressStep(s, b).1.FsmError? ==> IngressStep(s, b) == (Passthrough, FsmError(b))
  {}

  function Outputs(o: IngressOutput): seq<IngressOutput> { if o.Nothing? then [] else [o] }

  function IngressRun(s: Ingress, bs: seq<Byte>): (r: (Ingress, seq<IngressOutput>))
    decreases |bs|
  {
    if bs == [] then (s, [])
    else
      var step := IngressStep(s, bs[0]);
      var rest := IngressRun(step.0, bs[1..]);
      (rest.0, Outputs(step.1) + rest.1)
  }

  function Messages(ms: seq<Command>): (os: seq<IngressOutput>)
    ensures |os| == |ms|
  {
    seq(|ms|, i requires 0 <= i < |ms| => Message(ms[i]))
  }

  lemma IngressNext(s: Ingress, b: Byte, rest: seq<Byte>)
    ensures IngressRun(s, [b] + rest).0 == IngressRun(IngressStep(s, b).0, rest).0
    ensures IngressRun(s, [b] + rest).1
      == Outputs(IngressStep(s, b).1) + IngressRun(IngressStep(s, b).0, rest).1
  {
    assert ([b] + rest)[1..] == rest;
  }

  lemma IngressAfterMark(b: Byte, rest: seq<Byte>)
    ensures IngressRun(Passthrough, [MARK, b] + rest).0 == IngressRun(IngressStep(Match, b).0, rest).0
    ensures IngressRun(Passthrough, [MARK, b] + rest).1
      == Outputs(IngressStep(Match, b).1) + IngressRun(IngressStep(Match, b).0, rest).1
  {
    assert [MARK, b] + rest == [MARK] + ([b] + rest);
    IngressNext(Passthrough, MARK, [b] + rest);
    IngressNext(Match, b, rest);
  }

  lemma IngressDecodesCredit(tranche: nat, rest: seq<Byte>)
    requires tranche < 0x4000
    ensures var bs := HostEncode(Credit(tranche));
      && IngressRun(Passthrough, bs + rest).0 == IngressRun(Passthrough, rest).0
      && IngressRun(Passthrough, bs + rest).1 == [Message(Credit(tranche))] + IngressRun(Passthrough, rest).1
  {
    var high, low: Byte := 1 + 2 * (tranche / 256), tranche % 256;
    assert [MARK, high, low] + rest == [MARK, high] + ([low] + rest);
    IngressAfterMark(high, [low] + rest);
    assert IngressStep(Match, high) == (CreditLow(tranche / 256), Nothing);
    IngressNext(CreditLow(tranche / 256), low, rest);
  }

  lemma IngressDecodesOne(m: Command, rest: seq<Byte>)
    requires ValidCommand(m)
    ensures IngressRun(Passthrough, HostEncode(m) + rest).0 == IngressRun(Passthrough, rest).0
    ensures IngressRun(Passthrough, HostEncode(m) + rest).1 == [Message(m)] + IngressRun(Passthrough, rest).1
  {
    if m.Credit? {
      IngressDecodesCredit(m.tranche, rest);
    } else if m.Data? && m.b != MARK {
      IngressNext(Passthrough, m.b, rest);
    } else {
      IngressDecodesMarked(m, HostEncode(m)[1], rest);
    }
  }

  /** The messages of a marker and one more byte. */
  lemma IngressDecodesMarked(m: Command, b: Byte, rest: seq<Byte>)
    requires ValidCommand(m) && !m.Credit? && HostEncode(m) == [MARK, b]
    ensures IngressRun(Passthrough, [MARK, b] + rest).0 == IngressRun(Passthrough, rest).0
    ensures IngressRun(Passthrough, [MARK, b] + rest).1 == [Message(m)] + IngressRun(Passthrough, rest).1
  {
    assert IngressStep(Match, b) == (Passthrough, Message(m));
    IngressAfterMark(b, rest);
  }

  /** Everything the host sends is understood by the logic: same messages, same order, no error. */
  lemma {:induction false} IngressInvertsHost(ms: seq<Command>)
    requires forall m :: m in ms ==> ValidCommand(m)
    ensures IngressRun(Passthrough, HostEncodeAll(ms)).0 == Passthrough
    ensures IngressRun(Passthrough, HostEncodeAll(ms)).1 == Messages(ms)
    decreases |ms|
  {
    if ms != [] {
      IngressInvertsHost(ms[1..]);
      IngressDecodesOne(ms[0], HostEncodeAll(ms[1..]));
      assert Messages(ms) == [Message(ms[0])] + Messages(ms[1..]);
    }
  }

  /** What is understood of the beginning of a stream stays understood. */
  lemma {:induction false} IngressRunOfAppend(s: Ingress, a: seq<Byte>, b: seq<Byte>)
    ensures IngressRun(s, a + b).0 == IngressRun(IngressRun(s, a).0, b).0
    ensures IngressRun(s, a + b).1 == IngressRun(s, a).1 + IngressRun(IngressRun(s, a).0, b).1
    decreases |a|
  {
    if a == [] {
      assert a + b == b;
    } else {
      assert a == [a[0]] + a[1..] && a + b == [a[0]] + (a[1..] + b);
      IngressNext(s, a[0], a[1..]);
      IngressNext(s, a[0], a[1..] + b);
      IngressRunOfAppend(IngressStep(s, a[0]).0, a[1..], b);
    }
  }

  /** At any moment, with any part of the stream received, the messages understood are a prefix. */
  lemma IngressIsPrefix(ms: seq<Command>, n: nat)
    requires (forall m :: m in ms ==> ValidCommand(m)) && n <= |HostEncodeAll(ms)|
    ensures IngressRun(Passthrough, HostEncodeAll(ms)[..n]).1 <= Messages(ms)
  {
    var bs := HostEncodeAll(ms);
    IngressInvertsHost(ms);
    IngressRunOfAppend(Passthrough, bs[..n], bs[n..]);
    assert bs[..n] + bs[n..] == bs;
  }

  /** The decoder with its registers. */
  class IngressDecoder {
    var state: Ingress

    constructor ()
      ensures state == Passthrough
    {
      state := Passthrough;
    }

    /**
     * A cycle. The error output is raised by backpressure too; and a byte that should have been the
     * marker again is passed on, for all that it is an error.
     */
    method Clock(inData: Byte, inValid: bool, outReady: bool)
      returns (output: IngressOutput, outData: Byte, outValid: bool, error: bool)
      modifies this
      ensures (state, output) == if inValid then IngressStep(old(state), inData) else (old(state), Nothing)
      ensures outData == inData
      ensures outValid <==> output == Message(Data(inData)) || output == FsmError(inData)
      ensures error <==> !outReady || output.FsmError?
    {
      outData, outValid := inData, false;
      output := Nothing;
      match state {
        case Passthrough =>
          if inValid {
            if inData == MARK {
              state := Match;
            } else {
              output, outValid := Message(Data(inData)), true;
            }
          }
        case Match =>
          if inValid {
            if !BitOf(inData, 1) {
              output := if inData == MARK then Message(Data(inData)) else FsmError(inData);
              outValid := true;
              state := Passthrough;
            } else if !BitOf(inData, 128) {
              state := CreditLow((inData / 2) % 64);
            } else {
              output := Message(if BitOf(inData, 4) then ComReset(BitOf(inData, 2)) else LogicReset(BitOf(inData, 2)));
              state := Passthrough;
            }
          }
        case CreditLow(first) =>
          if inValid {
            output := Message(Credit(first * 256 + inData));
            state := Passthrough;
          }
      }
      error := !outReady || output.FsmError?;
    }
  }

  // ---------- Logic to host ----------

  datatype Report = Word(b: Byte) | Tranche(credit: nat)

  predicate ValidReport(m: Report) { m.Tranche? ==> m.credit < 0x8000 }

  function LogicEncode(m: Report): seq<Byte>
    requires ValidReport(m)
  {
    match m
    case Word(b) => if b == MARK then [b, b] else [b]
    case Tranche(credit) => [MARK, 2 * (credit / 256) + 1, credit % 256]
  }

  function LogicEncodeAll(ms: seq<Report>): seq<Byte>
    requires forall m :: m in ms ==> ValidReport(m)
  {
    if ms == [] then [] else LogicEncode(ms[0]) + LogicEncodeAll(ms[1..])
  }

  /** How far the host has come in a message. */
  datatype Reader = Plain | Marked | HasFirst(first: Byte)

  function DebtOf(first: Byte, second: Byte): nat { ((first / 2) % 128) * 256 + second }

  function ReaderStep(s: Reader, b: Byte): (r: (Reader, seq<Report>)) {
    match s
    case Plain => if b == MARK then (Marked, []) else (Plain, [Word(b)])
    case Marked => if b == MARK then (Plain, [Word(b)]) else (HasFirst(b), [])
    case HasFirst(first) => (Plain, [Tranche(DebtOf(first, b))])
  }

  /** Reading a whole stream at once: the reference for the host's chunked parser. */
  function Read(s: Reader, bs: seq<Byte>): (r: (Reader, seq<Report>))
    decreases |bs|
  {
    if bs == [] then (s, [])
    else
      var step := ReaderStep(s, bs[0]);
      var rest := Read(step.0, bs[1..]);
      (rest.0, step.1 + rest.1)
  }

  lemma ReadNext(s: Reader, b: Byte, rest: seq<Byte>)
    ensures Read(s, [b] + rest).0 == Read(ReaderStep(s, b).0, rest).0
    ensures Read(s, [b] + rest).1 == ReaderStep(s, b).1 + Read(ReaderStep(s, b).0, rest).1
  {
    assert ([b] + rest)[1..] == rest;
  }

  lemma {:induction false} ReadOfAppend(s: Reader, a: seq<Byte>, b: seq<Byte>)
    ensures Read(s, a + b).0 == Read(Read(s, a).0, b).0
    ensures Read(s, a + b).1 == Read(s, a).1 + Read(Read(s, a).0, b).1
    decreases |a|
  {
    if a == [] {
      assert a + b == b;
    } else {
      assert a == [a[0]] + a[1..] && a + b == [a[0]] + (a[1..] + b);
      ReadNext(s, a[0], a[1..]);
      ReadNext(s, a[0], a[1..] + b);
      ReadOfAppend(ReaderStep(s, a[0]).0, a[1..], b);
    }
  }

  lemma ReadsOne(m: Report, rest: seq<Byte>)
    requires ValidReport(m)
    ensures Read(Plain, LogicEncode(m) + rest).0 == Read(Plain, rest).0
    ensures Read(Plain, LogicEncode(m) + rest).1 == [m] + Read(Plain, rest).1
  {
    var bs := LogicEncode(m);
    if |bs| == 1 {
      ReadNext(Plain, bs[0], rest);
    } else if |bs| == 2 {
      assert bs + rest == [bs[0]] + ([bs[1]] + rest);
      ReadNext(Plain, bs[0], [bs[1]] + rest);
      ReadNext(Marked, bs[1], rest);
    } else {
      assert bs + rest == [bs[0]] + ([bs[1]] + ([bs[2]] + rest));
      ReadNext(Plain, bs[0], [bs[1]] + ([bs[2]] + rest));
      ReadNext(Marked, bs[1], [bs[2]] + rest);
      ReadNext(HasFirst(bs[1]), bs[2], rest);
      assert m.credit / 256 < 128 && bs[1] / 2 == m.credit / 256;
    }
  }

  /** Everything the logic sends is understood by the host. */
  lemma {:induction false} ReadInvertsLogic(ms: seq<Report>)
    requires forall m :: m in ms ==> ValidReport(m)
    ensures Read(Plain, LogicEncodeAll(ms)).0 == Plain && Read(Plain, LogicEncodeAll(ms)).1 == ms
    decreases |ms|
  {
    if ms != [] {
      ReadInvertsLogic(ms[1..]);
      ReadsOne(ms[0], LogicEncodeAll(ms[1..]));
      assert ms == [ms[0]] + ms[1..];
    }
  }

  lemma {:induction false} LogicEncodeAllOfAppend(ms: seq<Report>, m: Report)
    requires (forall x :: x in ms ==> ValidReport(x)) && ValidReport(m)
    ensures forall x :: x in ms + [m] ==> ValidReport(x)
    ensures LogicEncodeAll(ms + [m]) == LogicEncodeAll(ms) + LogicEncode(m)
    decreases |ms|
  {
    if ms == [] {
      assert ms + [m] == [m] && [m][1..] == [];
    } else {
      assert (ms + [m])[0] == ms[0] && (ms + [m])[1..] == ms[1..] + [m];
      LogicEncodeAllOfAppend(ms[1..], m);
    }
  }

  // ---------- The encoder in the logic ----------

  datatype Egress = Idle | Passing | Repeating | SendCredit1 | SendCredit2 | SendCredit3

  /** What the encoder sees in a cycle. */
  datatype Inputs = Inputs(word: Byte, wordValid: bool, canSend: bool, credit: nat, creditEn: bool, done: bool)

  function OutData(s: Egress, i: Inputs): Byte
    requires i.credit < 0x8000
  {
    match s
    case Idle => 0
    case Passing => i.word
    case Repeating => MARK
    case SendCredit1 => MARK
    case SendCredit2 => 2 * (i.credit / 256) + 1
    case SendCredit3 => i.credit % 256
  }

  predicate OutEnable(s: Egress, i: Inputs) { s != Idle && (s == Repeating ==> i.canSend) }

  predicate InReady(s: Egress, i: Inputs) { s == Passing && i.done }

  predicate CreditAck(s: Egress, i: Inputs) { s == SendCredit3 && i.done }

  function EgressNext(s: Egress, i: Inputs): Egress {
    match s
    case Idle => if i.creditEn then SendCredit1 else if i.canSend && i.wordValid then Passing else Idle
    case Passing => if !i.done then s else if i.word == MARK then Repeating else Idle
    case Repeating => if i.done then Idle else s
    case SendCredit1 => if i.done then SendCredit2 else s
    case SendCredit2 => if i.done then SendCredit3 else s
    case SendCredit3 => if i.done then Idle else s
  }

  /** The encoder with its register. */
  class EgressEncoder {
    var state: Egress

    constructor ()
      ensures state == Idle
    {
      state := Idle;
    }

    method Clock(i: Inputs) returns (inReady: bool, outData: Byte, outEnable: bool, creditAck: bool)
      requires i.credit < 0x8000
      modifies this
      ensures state == EgressNext(old(state), i)
      ensures outEnable == OutEnable(old(state), i) && outData == OutData(old(state), i)
      ensures inReady == InReady(old(state), i) && creditAck == CreditAck(old(state), i)
    {
      inReady, outData, outEnable, creditAck := false, 0, false, false;
      match state {
        case Idle =>
          if i.creditEn {
            state := SendCredit1;
          } else if i.canSend && i.wordValid {
            state := Passing;
          }
        case Passing =>
          outData, outEnable := i.word, true;
          if i.done {
            inReady := true;
            state := if i.word == MARK then Repeating else Idle;
          }
        case Repeating =>
          outData, outEnable := MARK, i.canSend;
          if i.done {
            state := Idle;
          }
        case SendCredit1 =>
          outData, outEnable := MARK, true;
          if i.done {
            state := SendCredit2;
          }
        case SendCredit2 =>
          outData, outEnable := 2 * (i.credit / 256) + 1, true;
          if i.done {
            state := SendCredit3;
          }
        case SendCredit3 =>
          outData, outEnable := i.credit % 256, true;
          if i.done {
            state, creditAck := Idle, true;
          }
      }
    }
  }

  /** The encoder with what has gone out, and what was accepted from the word and credit inputs. */
  datatype Encoder = Encoder(state: Egress, sent: seq<Byte>, accepted: seq<Report>)

  function EncoderNext(e: Encoder, i: Inputs): Encoder
    requires i.credit < 0x8000
  {
    Encoder(EgressNext(e.state, i),
            if e.state != Idle && i.done then e.sent + [OutData(e.state, i)] else e.sent,
            if InReady(e.state, i) && i.wordValid then e.accepted + [Word(i.word)]
            else if CreditAck(e.state, i) then e.accepted + [Tranche(i.credit)]
            else e.accepted)
  }

  /** The bytes of the current message that are already out. */
  function Partial(s: Egress, credit: nat): seq<Byte>
    requires credit < 0x8000
  {
    match s
    case Repeating => [MARK]
    case SendCredit2 => [MARK]
    case SendCredit3 => [MARK, 2 * (credit / 256) + 1]
    case _ => []
  }

  predicate AllValid(ms: seq<Report>) { forall m :: m in ms ==> ValidReport(m) }

  /** All that was accepted, but for a marker word whose repetition is still to come. */
  function Complete(e: Encoder): (ms: seq<Report>)
    ensures AllValid(e.accepted) ==> AllValid(ms)
  {
    if e.state == Repeating && e.accepted != [] then e.accepted[..|e.accepted| - 1] else e.accepted
  }

  /** `credit` is the tranche being sent. */
  ghost predicate EncoderInv(e: Encoder, credit: nat) {
    && AllValid(e.accepted) && credit < 0x8000
    && (e.state == Repeating ==> e.accepted != [] && e.accepted[|e.accepted| - 1] == Word(MARK))
    && e.sent == LogicEncodeAll(Complete(e)) + Partial(e.state, credit)
  }

  /**
   * What the encoder may rely on: a word stays until it is accepted, and so does a tranche. The
   * transmitter signals `done` only for a byte it was given.
   */
  predicate Held(s: Egress, i: Inputs, credit: nat) {
    && i.credit < 0x8000
    && (s == Passing ==> i.wordValid)
    && (s in {SendCredit1, SendCredit2, SendCredit3} ==> i.credit == credit)
    && (s == Idle ==> !i.done)
  }

  function TrancheAfter(s: Egress, i: Inputs, credit: nat): nat { if s == Idle then i.credit else credit }

  lemma WordKeepsInv(sent: seq<Byte>, accepted: seq<Report>, word: Byte, credit: nat)
    requires EncoderInv(Encoder(Passing, sent, accepted), credit)
    ensures EncoderInv(Encoder(if word == MARK then Repeating else Idle, sent + [word], accepted + [Word(word)]),
                       credit)
  {
    LogicEncodeAllOfAppend(accepted, Word(word));
    assert (accepted + [Word(word)])[..|accepted|] == accepted;
  }

  lemma RepeatKeepsInv(sent: seq<Byte>, accepted: seq<Report>, credit: nat)
    requires EncoderInv(Encoder(Repeating, sent, accepted), credit)
    ensures EncoderInv(Encoder(Idle, sent + [MARK], accepted), credit)
  {
    var first := accepted[..|accepted| - 1];
    LogicEncodeAllOfAppend(first, Word(MARK));
    assert accepted == first + [Word(MARK)];
    assert LogicEncodeAll(first) + [MARK] + [MARK] == LogicEncodeAll(first) + [MARK, MARK];
  }

  lemma CreditKeepsInv(sent: seq<Byte>, accepted: seq<Report>, credit: nat)
    requires EncoderInv(Encoder(SendCredit3, sent, accepted), credit)
    ensures EncoderInv(Encoder(Idle, sent + [credit % 256], accepted + [Tranche(credit)]), credit)
  {
    LogicEncodeAllOfAppend(accepted, Tranche(credit));
    assert LogicEncodeAll(accepted) + Partial(SendCredit3, credit) + [credit % 256]
      == LogicEncodeAll(accepted) + LogicEncode(Tranche(credit));
  }

  lemma EncoderInvKept(e: Encoder, i: Inputs, credit: nat)
    requires EncoderInv(e, credit) && Held(e.state, i, credit)
    ensures EncoderInv(EncoderNext(e, i), TrancheAfter(e.state, i, credit))
  {
    if InReady(e.state, i) {
      WordKeepsInv(e.sent, e.accepted, i.word, credit);
    } else if CreditAck(e.state, i) {
      CreditKeepsInv(e.sent, e.accepted, credit);
    } else if e.state == Repeating && i.done {
      RepeatKeepsInv(e.sent, e.accepted, credit);
    } else if e.state == SendCredit2 && i.done {
      assert LogicEncodeAll(e.accepted) + [MARK] + [OutData(e.state, i)]
        == LogicEncodeAll(e.accepted) + Partial(SendCredit3, credit);
    }
  }

  /** A run of cycles in which the environment plays by the rules. */
  predicate RunHeld(s: Egress, credit: nat, run: seq<Inputs>)
    decreases |run|
  {
    run == [] || (Held(s, run[0], credit) && RunHeld(EgressNext(s, run[0]), TrancheAfter(s, run[0], credit), run[1..]))
  }

  function EncoderRun(e: Encoder, credit: nat, run: seq<Inputs>): Encoder
    requires RunHeld(e.state, credit, run)
    decreases |run|
  {
    if run == [] then e
    else EncoderRun(EncoderNext(e, run[0]), TrancheAfter(e.state, run[0], credit), run[1..])
  }

  lemma {:induction false} EncoderInvOverRun(e: Encoder, credit: nat, run: seq<Inputs>) returns (credit': nat)
    requires EncoderInv(e, credit) && RunHeld(e.state, credit, run)
    ensures EncoderInv(EncoderRun(e, credit, run), credit')
    decreases |run|
  {
    credit' := credit;
    if run != [] {
      EncoderInvKept(e, run[0], credit);
      credit' := EncoderInvOverRun(EncoderNext(e, run[0]), TrancheAfter(e.state, run[0], credit), run[1..]);
    }
  }

  lemma ReadsNothingOfPartial(s: Egress, credit: nat)
    requires credit < 0x8000
    ensures Read(Plain, Partial(s, credit)).1 == []
  {
    var p := Partial(s, credit);
    if |p| == 1 {
      assert p == [MARK] + [];
      ReadNext(Plain, MARK, []);
    } else if |p| == 2 {
      assert p == [MARK] + [p[1]] && [p[1]] + [] == [p[1]];
      ReadNext(Plain, MARK, [p[1]]);
      ReadNext(Marked, p[1], []);
    }
  }

  /** Whatever the timing, the host reads what the encoder accepted: nothing more, and in order. */
  lemma HostReadsAccepted(e: Encoder, run: seq<Inputs>)
    requires e == Encoder(Idle, [], []) && RunHeld(Idle, 0, run)
    ensures Read(Plain, EncoderRun(e, 0, run).sent).1 == Complete(EncoderRun(e, 0, run))
  {
    var credit := EncoderInvOverRun(e, 0, run);
    var e' := EncoderRun(e, 0, run);
    ReadInvertsLogic(Complete(e'));
    ReadOfAppend(Plain, LogicEncodeAll(Complete(e')), Partial(e'.state, credit));
    ReadsNothingOfPartial(e'.state, credit);
  }

  /** A byte stays on the data output, unchanged, until the transmitter is done with it. */
  lemma DataIsStable(s: Egress, i: Inputs, j: Inputs, credit: nat)
    requires Held(s, i, credit) && s != Idle && !i.done && Held(EgressNext(s, i), j, credit)
    requires s == Passing ==> j.word == i.word
    ensures EgressNext(s, i) == s && OutData(s, j) == OutData(s, i)
    ensures OutEnable(s, j) || s == Repeating
  {}
}
