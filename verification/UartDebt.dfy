/**
 * The two counters of the logic's side, which keep what it may send and what it may still be sent, and
 * the encoder that sends words only as long as the first one is not used up.
 */
module UartDebt {
  import opened Bits
  import opened Bytes
  import opened UartCodec
  import F = UartCredit
  import Modular

  // ---------- What the logic may send ----------

  /** The debtor's register has 15 bits. */
  const DEBTOR_RANGE: nat := 0x8000

  function DebtorNext(owed: nat, payback: bool, lend: bool, tranche: nat): (owed': nat)
    ensures owed' < DEBTOR_RANGE || owed' == owed
  {
    if lend && !payback then (owed + tranche) % DEBTOR_RANGE
    else if payback && !lend then (owed + DEBTOR_RANGE - 1) % DEBTOR_RANGE
    else if lend && payback then (owed + tranche + DEBTOR_RANGE - 1) % DEBTOR_RANGE
    else owed
  }

  /** What the error output shows. It does not see a sum that overflows while a word is paid for. */
  predicate DebtorError(owed: nat, payback: bool, lend: bool, tranche: nat) {
    (lend && !payback && owed + tranche >= DEBTOR_RANGE) || (payback && !lend && owed == 0)
  }

  /** The register is the sum, cut to 15 bits; the error says that it was cut, unless both happen at once. */
  lemma DebtorCounts(owed: nat, payback: bool, lend: bool, tranche: nat)
    requires owed < DEBTOR_RANGE
    ensures var sum := owed + (if lend then tranche else 0) - (if payback then 1 else 0);
      && DebtorNext(owed, payback, lend, tranche) == sum % DEBTOR_RANGE
      && (DebtorError(owed, payback, lend, tranche) <==> !(lend && payback) && !(0 <= sum < DEBTOR_RANGE))
  {}

  class Debtor {
    var credit: nat

    constructor ()
      ensures credit == 0
    {
      credit := 0;
    }

    method Clock(payback: bool, lend: bool, tranche: nat) returns (owing: bool, error: bool)
      requires credit < DEBTOR_RANGE
      modifies this
      ensures credit == DebtorNext(old(credit), payback, lend, tranche) < DEBTOR_RANGE
      ensures owing <==> old(credit) > 0
      ensures error <==> DebtorError(old(credit), payback, lend, tranche)
    {
      owing, error := credit > 0, false;
      var nxtCredit: int := credit;
      if lend && !payback {
        nxtCredit := credit + tranche;
        error := nxtCredit >= DEBTOR_RANGE;
      } else if payback && !lend {
        nxtCredit := credit - 1;
        error := credit == 0;
      } else if lend && payback {
        nxtCredit := credit + tranche - 1;
      }
      credit := nxtCredit % DEBTOR_RANGE;
    }
  }

  // ---------- The encoder and the debtor ----------

  /** What both see in a cycle; whether the encoder may send is up to the debtor. */
  datatype Cycle = Cycle(word: Byte, wordValid: bool, credit: nat, creditEn: bool, done: bool, lend: bool, tranche: nat)

  datatype Sender = Sender(state: Egress, owed: nat)

  function InputsOf(s: Sender, c: Cycle): Inputs {
    Inputs(c.word, c.wordValid, s.owed > 0, c.credit, c.creditEn, c.done)
  }

  /** A word is taken from the design. */
  predicate Transfers(s: Sender, c: Cycle) { c.wordValid && InReady(s.state, InputsOf(s, c)) }

  function Next(s: Sender, c: Cycle): Sender {
    Sender(EgressNext(s.state, InputsOf(s, c)), DebtorNext(s.owed, Transfers(s, c), c.lend, c.tranche))
  }

  function After(s: Sender, cs: seq<Cycle>): Sender {
    if cs == [] then s else Next(After(s, cs[..|cs| - 1]), cs[|cs| - 1])
  }

  /** The credit given by the host. */
  function Lent(cs: seq<Cycle>): nat {
    if cs == [] then 0
    else Lent(cs[..|cs| - 1]) + if cs[|cs| - 1].lend then cs[|cs| - 1].tranche else 0
  }

  /** The number of words taken. */
  function Taken(s: Sender, cs: seq<Cycle>): nat {
    if cs == [] then 0
    else Taken(s, cs[..|cs| - 1]) + if Transfers(After(s, cs[..|cs| - 1]), cs[|cs| - 1]) then 1 else 0
  }

  /** The number of words whose first byte has been put out: the encoder has begun to pass them on. */
  function Begun(s: Sender, cs: seq<Cycle>): nat {
    if cs == [] then 0
    else
      var before, after := After(s, cs[..|cs| - 1]), After(s, cs);
      Begun(s, cs[..|cs| - 1]) + if before.state != Passing && after.state == Passing then 1 else 0
  }

  /** The design keeps offering a word until it is taken. */
  predicate Held(s: Sender, cs: seq<Cycle>) {
    forall i :: 0 <= i < |cs| && After(s, cs[..i]).state == Passing ==> cs[i].wordValid
  }

  /** The host never has more than 15 bits of credit outstanding. */
  predicate Bounded(s: Sender, cs: seq<Cycle>) {
    forall i :: 0 <= i <= |cs| ==> s.owed + Lent(cs[..i]) < DEBTOR_RANGE + Taken(s, cs[..i])
  }

  /** A word is begun exactly when the encoder is idle, may send, has a word, and no credit is to be sent. */
  lemma BeginsWordIff(s: Egress, i: Inputs)
    ensures s != Passing && EgressNext(s, i) == Passing
      <==> s == Idle && i.canSend && i.wordValid && !i.creditEn
  {}

  /** The repetition of a marker waits for credit of its own; everything else, once begun, does not. */
  lemma EnabledIff(s: Egress, i: Inputs)
    ensures OutEnable(s, i) <==> s != Idle && (s == Repeating ==> i.canSend)
  {}

  /** A word that may be begun has its byte on the output, enabled, in the next cycle. */
  lemma WordIsPutOut(i: Inputs, j: Inputs)
    requires i.canSend && i.wordValid && !i.creditEn && j.word == i.word && j.credit < 0x8000
    ensures var s := EgressNext(Idle, i); OutEnable(s, j) && OutData(s, j) == i.word
  {}

  /** The debtor counts exactly what has been lent and not yet used, and a word under way is covered. */
  ghost predicate Covered(s: Sender, cs: seq<Cycle>) {
    && After(s, cs).owed == s.owed + Lent(cs) - Taken(s, cs)
    && (After(s, cs).state == Passing ==> After(s, cs).owed > 0)
  }

  lemma CoveredStep(s: Sender, c: Cycle, lent: nat, taken: nat)
    requires s.owed == lent - taken && (s.state == Passing ==> s.owed > 0)
    requires var t := if Transfers(s, c) then 1 else 0;
      lent + (if c.lend then c.tranche else 0) < DEBTOR_RANGE + taken + t
    ensures var lent', taken' := lent + (if c.lend then c.tranche else 0), taken + (if Transfers(s, c) then 1 else 0);
      Next(s, c).owed == lent' - taken' && (Next(s, c).state == Passing ==> Next(s, c).owed > 0)
  {}

  lemma {:induction false} CoveredOverRun(s: Sender, cs: seq<Cycle>)
    requires (s.state == Passing ==> s.owed > 0) && Bounded(s, cs)
    ensures Covered(s, cs)
    decreases |cs|
  {
    if cs != [] {
      var n := |cs| - 1;
      assert forall i :: 0 <= i <= n ==> cs[..n][..i] == cs[..i];
      assert cs[..|cs|] == cs;
      CoveredOverRun(s, cs[..n]);
      assert s.owed + Lent(cs[..|cs|]) < DEBTOR_RANGE + Taken(s, cs[..|cs|]);
      CoveredStep(After(s, cs[..n]), cs[n], s.owed + Lent(cs[..n]), Taken(s, cs[..n]));
    }
  }

  lemma BegunStep(s: Sender, c: Cycle)
    requires s.state == Passing ==> c.wordValid
    ensures (if s.state == Passing then 1 else 0) + (if s.state != Passing && Next(s, c).state == Passing then 1 else 0)
      == (if Transfers(s, c) then 1 else 0) + (if Next(s, c).state == Passing then 1 else 0)
  {}

  lemma {:induction false} BegunAreTaken(s: Sender, cs: seq<Cycle>)
    requires s.state != Passing && Held(s, cs)
    ensures Begun(s, cs) == Taken(s, cs) + if After(s, cs).state == Passing then 1 else 0
    decreases |cs|
  {
    if cs != [] {
      var n := |cs| - 1;
      assert forall i :: 0 <= i < n ==> cs[..n][..i] == cs[..i];
      BegunAreTaken(s, cs[..n]);
      BegunStep(After(s, cs[..n]), cs[n]);
    }
  }

  /**
   * The words begun never exceed the credit given, a doubled marker being one word, and the debtor
   * counts exactly what is left: so a word is taken only while there is credit.
   */
  lemma SendsWithinCredit(s: Sender, cs: seq<Cycle>)
    requires s == Sender(Idle, 0) && Bounded(s, cs) && Held(s, cs)
    ensures Begun(s, cs) <= Lent(cs) && After(s, cs).owed == Lent(cs) - Taken(s, cs)
    ensures After(s, cs).state == Passing ==> After(s, cs).owed > 0
  {
    CoveredOverRun(s, cs);
    BegunAreTaken(s, cs);
  }

  /** So its error output stays low. */
  lemma NoDebtorError(s: Sender, cs: seq<Cycle>, c: Cycle)
    requires s == Sender(Idle, 0) && Bounded(s, cs + [c])
    ensures var t := After(s, cs); !DebtorError(t.owed, Transfers(t, c), c.lend, c.tranche)
  {
    assert (cs + [c])[..|cs|] == cs && (cs + [c])[..|cs| + 1] == cs + [c];
    assert forall i :: 0 <= i <= |cs| ==> (cs + [c])[..i] == cs[..i];
    CoveredOverRun(s, cs);
    assert s.owed + Lent(cs + [c]) < DEBTOR_RANGE + Taken(s, cs + [c]) by {
      assert s.owed + Lent((cs + [c])[..|cs| + 1]) < DEBTOR_RANGE + Taken(s, (cs + [c])[..|cs| + 1]);
    }
  }

  // ---------- After the reset ----------

  predicate NoneDone(cs: seq<Cycle>) { forall i :: 0 <= i < |cs| ==> !cs[i].done }

  lemma {:induction false} WaitsForDone(s: Sender, cs: seq<Cycle>)
    requires s == Sender(Passing, 0) && NoneDone(cs) && Lent(cs) < DEBTOR_RANGE
    ensures After(s, cs) == Sender(Passing, Lent(cs)) && Taken(s, cs) == 0
    decreases |cs|
  {
    if cs != [] {
      WaitsForDone(s, cs[..|cs| - 1]);
    }
  }

  /**
   * The reset leaves the encoder in the middle of a word. If the design offers one when the
   * transmitter is done with it, and no credit has been given by then, the word is taken without
   * credit, and the debtor believes that it owes the largest number there is. That is the only way to
   * exceed the credit: otherwise all is as from the idle state.
   */
  lemma ResetOverdrawsIff(s: Sender, cs: seq<Cycle>, c: Cycle)
    requires s == Sender(Passing, 0) && NoneDone(cs) && c.done && Lent(cs + [c]) < DEBTOR_RANGE
    ensures Taken(s, cs + [c]) > Lent(cs + [c]) <==> c.wordValid && Lent(cs + [c]) == 0
    ensures After(s, cs + [c]).owed
      == if c.wordValid && Lent(cs + [c]) == 0 then DEBTOR_RANGE - 1 else Lent(cs + [c]) - Taken(s, cs + [c])
    ensures After(s, cs + [c]).state != Passing
  {
    assert (cs + [c])[..|cs|] == cs;
    WaitsForDone(s, cs);
  }

  /** From there on the debtor is exact again, whatever it believes. */
  lemma AfterwardsCovered(s: Sender, cs: seq<Cycle>)
    requires s.state != Passing && Bounded(s, cs)
    ensures After(s, cs).owed == s.owed + Lent(cs) - Taken(s, cs)
    ensures After(s, cs).state == Passing ==> After(s, cs).owed > 0
  {
    CoveredOverRun(s, cs);
  }

  // ---------- What the logic may still be sent ----------

  /** A register of 15 bits counts the free places; a grant has `width` bits. */
  const CREDITOR_WIDTH: nat := 15

  function GrantOf(resources: nat, width: nat): (g: nat)
    ensures g <= resources && (resources > 0 && width > 0 ==> g > 0)
  {
    if width < CREDITOR_WIDTH && resources >= Pow2(width) then GrantIsPositive(width); Pow2(width) - 1 else resources
  }

  lemma GrantIsPositive(width: nat)
    ensures width > 0 ==> Pow2(width) >= 2
  {}

  /** A grant is as large as there are places and bits for it. */
  lemma GrantIsLargest(resources: nat, width: nat)
    requires resources < Pow2(CREDITOR_WIDTH)
    ensures var g := GrantOf(resources, width);
      g <= resources && (width <= CREDITOR_WIDTH ==> g < Pow2(width) && (g == resources || g + 1 == Pow2(width)))
  {}

  function CreditorNext(resources: nat, width: nat, payback: bool, borrow: bool): nat {
    if payback then (resources + 1) % Pow2(CREDITOR_WIDTH)
    else if borrow then (resources - GrantOf(resources, width)) % Pow2(CREDITOR_WIDTH)
    else resources % Pow2(CREDITOR_WIDTH)
  }

  class Creditor {
    const initial: nat
    const width: nat
    var resources: nat
    var credit: nat

    constructor (initial: nat, width: nat)
      requires initial < Pow2(CREDITOR_WIDTH)
      ensures this.initial == initial && this.width == width && resources == initial && credit == 0
    {
      this.initial, this.width := initial, width;
      resources, credit := initial, 0;
    }

    /** A place paid back goes before a grant, which then has to wait. */
    method Clock(payback: bool, borrow: bool) returns (grant: bool, error: bool)
      modifies this`resources, this`credit
      ensures grant <==> borrow && !payback
      ensures credit == if grant then GrantOf(old(resources), width) else old(credit)
      ensures resources == CreditorNext(old(resources), width, payback, borrow)
      ensures error <==> (payback && old(resources) + 1 >= Pow2(CREDITOR_WIDTH)) || old(resources) > initial
    {
      grant, error := false, resources > initial;
      var nxtResources := resources;
      if payback {
        nxtResources := resources + 1;
        error := error || nxtResources >= Pow2(CREDITOR_WIDTH);
      } else if borrow {
        grant := true;
        if width < CREDITOR_WIDTH && resources >= Pow2(width) {
          credit := Pow2(width) - 1;
          nxtResources := resources - credit;
        } else {
          credit, nxtResources := resources, 0;
        }
      }
      resources := nxtResources % Pow2(CREDITOR_WIDTH);
    }
  }

  /** A cycle of the creditor: a place is paid back, or a grant is asked for. */
  datatype Order = Order(payback: bool, borrow: bool)

  function ResourcesAfter(initial: nat, width: nat, os: seq<Order>): nat {
    if os == [] then initial
    else
      var n := |os| - 1;
      CreditorNext(ResourcesAfter(initial, width, os[..n]), width, os[n].payback, os[n].borrow)
  }

  /** All that has been granted: in every cycle in which it was asked for and nothing was paid back. */
  function Granted(initial: nat, width: nat, os: seq<Order>): nat {
    if os == [] then 0
    else
      var n := |os| - 1;
      Granted(initial, width, os[..n])
      + if os[n].borrow && !os[n].payback then GrantOf(ResourcesAfter(initial, width, os[..n]), width) else 0
  }

  function PaidBack(os: seq<Order>): nat {
    if os == [] then 0 else PaidBack(os[..|os| - 1]) + if os[|os| - 1].payback then 1 else 0
  }

  /** No place is paid back that has not been granted: only then is something sent that fills one. */
  predicate PaysBackOnlyGrants(initial: nat, width: nat, os: seq<Order>) {
    forall i :: 0 <= i <= |os| ==> PaidBack(os[..i]) <= Granted(initial, width, os[..i])
  }

  /** The places not granted, and those granted and not paid back, are always all there are. */
  lemma {:induction false} CreditorConserves(initial: nat, width: nat, os: seq<Order>)
    requires initial < Pow2(CREDITOR_WIDTH) && PaysBackOnlyGrants(initial, width, os)
    ensures ResourcesAfter(initial, width, os) + Granted(initial, width, os) == initial + PaidBack(os)
    ensures ResourcesAfter(initial, width, os) <= initial
    decreases |os|
  {
    if os != [] {
      var n := |os| - 1;
      assert forall i :: 0 <= i <= n ==> os[..n][..i] == os[..i];
      assert os[..|os|] == os;
      CreditorConserves(initial, width, os[..n]);
      assert PaidBack(os[..|os|]) <= Granted(initial, width, os[..|os|]);
      CreditorStep(initial, width, ResourcesAfter(initial, width, os[..n]), Granted(initial, width, os[..n]),
                   PaidBack(os[..n]), os[n]);
    }
  }

  lemma CreditorStep(initial: nat, width: nat, resources: nat, granted: nat, paid: nat, o: Order)
    requires initial < Pow2(CREDITOR_WIDTH) && resources + granted == initial + paid && paid <= granted
    requires o.payback ==> paid + 1 <= granted
    ensures var resources' := CreditorNext(resources, width, o.payback, o.borrow);
      resources' + granted + (if o.borrow && !o.payback then GrantOf(resources, width) else 0)
      == initial + paid + if o.payback then 1 else 0
  {
    Modular.Small(resources, Pow2(CREDITOR_WIDTH));
    if o.payback {
      Modular.Small(resources + 1, Pow2(CREDITOR_WIDTH));
    } else if o.borrow {
      Modular.Small(resources - GrantOf(resources, width), Pow2(CREDITOR_WIDTH));
    }
  }

  // ---------- Both counters are those of the flow control ----------

  /** The steps of the logic in a cycle of encoder and debtor. */
  function StepsOf(t: Sender, c: Cycle): seq<F.Action> {
    (if c.lend then [F.LogicTakes] else []) + if Transfers(t, c) then [F.LogicSends(Word(c.word))] else []
  }

  /**
   * Whatever the two do in a cycle is possible for the logic, and changes its credit in the same way:
   * the guard there is the word's credit here.
   */
  lemma CycleIsSteps(s: F.System, t: Sender, c: Cycle)
    requires s.owing == t.owed && (Transfers(t, c) ==> t.owed > 0)
    requires c.lend ==> s.toLogic != [] && s.toLogic[0] == Credit(c.tranche) && t.owed + c.tranche < DEBTOR_RANGE
    requires t.owed < DEBTOR_RANGE
    ensures var s' := F.RunFrom(s, StepsOf(t, c));
      && F.RunPossible(s, StepsOf(t, c)) && s'.owing == Next(t, c).owed
      && s'.toHost == s.toHost + if Transfers(t, c) then [Word(c.word)] else []
  {
    var takes := if c.lend then F.After(s, F.LogicTakes) else s;
    var sends := if Transfers(t, c) then [F.LogicSends(Word(c.word))] else [];
    assert s.toHost + [] == s.toHost;
    if c.lend {
      F.FirstStep(s, F.LogicTakes, sends);
    } else {
      assert [] + sends == sends;
    }
    if Transfers(t, c) {
      F.FirstStep(takes, F.LogicSends(Word(c.word)), []);
      assert [F.LogicSends(Word(c.word))] + [] == sends;
    }
  }

  /** So is what the creditor does: a place is paid back when a word has left the buffer, and a grant is lent. */
  lemma OrderIsStep(s: F.System, width: nat, o: Order)
    requires 0 <= s.lendable && s.lendable + 1 < DEBTOR_RANGE && (o.payback ==> s.fill > 0)
    ensures var a := if o.payback then F.LogicDrains else F.LogicLends(GrantOf(s.lendable, width));
      o.payback || o.borrow
      ==> F.Possible(s, a) && F.After(s, a).lendable == CreditorNext(s.lendable, width, o.payback, o.borrow)
  {
    RangeIsPower();
    Modular.Small(s.lendable, Pow2(CREDITOR_WIDTH));
    Modular.Small(s.lendable + 1, Pow2(CREDITOR_WIDTH));
    Modular.Small(s.lendable - GrantOf(s.lendable, width), Pow2(CREDITOR_WIDTH));
  }

  lemma RangeIsPower()
    ensures Pow2(CREDITOR_WIDTH) == DEBTOR_RANGE
  {
    assert Pow2(3) == 8 && Pow2(7) == 128 && Pow2(11) == 2048 && Pow2(15) == 32768;
  }
}
