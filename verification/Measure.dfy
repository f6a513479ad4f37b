/**
 * The throughput counter: a chain of decimal digits with registered carries, each of which reaches
 * the next digit a clock cycle later.
 */
module Measure {
  import Modular

  /** A digit and its carry output, both registers. */
  datatype Cell = Cell(count: nat, carry: bool)

  function Num(carry: bool): nat { if carry then 1 else 0 }

  /** One decimal counter at a clock edge. The sum has five bits and the count four. */
  function CellAfter(c: Cell, carryIn: nat): (c': Cell)
    ensures c.count <= 9 && carryIn <= 10
      ==> c'.count <= 9 && c'.count + 10 * Num(c'.carry) == c.count + carryIn
  {
    var sum := (c.count + carryIn) % 32;
    if sum > 9 then Cell((sum - 10) % 16, true) else Cell(sum, false)
  }

  /** The whole chain, least significant digit first: each digit takes the carry its neighbour had. */
  function Step(cells: seq<Cell>, carryIn: nat): (cells': seq<Cell>)
    ensures |cells'| == |cells|
  {
    if cells == [] then []
    else [CellAfter(cells[0], carryIn)] + Step(cells[1..], Num(cells[0].carry))
  }

  predicate Decimal(cells: seq<Cell>) { forall i :: 0 <= i < |cells| ==> cells[i].count <= 9 }

  function Pow10(n: nat): (p: nat)
    ensures p > 0
  {
    if n == 0 then 1 else 10 * Pow10(n - 1)
  }

  /** The number shown by the digits, without the carries on their way. */
  function Shown(cells: seq<Cell>): nat {
    if cells == [] then 0 else cells[0].count + 10 * Shown(cells[1..])
  }

  /** The number counted: the carries belong to the next digit already. */
  function Value(cells: seq<Cell>): nat {
    if cells == [] then 0 else cells[0].count + 10 * (Num(cells[0].carry) + Value(cells[1..]))
  }

  /** The carry out of the last digit; it is in no digit after the next edge. */
  function TopCarry(cells: seq<Cell>): nat { if cells == [] then 0 else Num(cells[|cells| - 1].carry) }

  lemma {:induction false} StepCounts(cells: seq<Cell>, carryIn: nat)
    requires Decimal(cells) && carryIn <= 10 && cells != []
    ensures Decimal(Step(cells, carryIn))
    ensures Value(Step(cells, carryIn)) + Pow10(|cells|) * TopCarry(cells) == Value(cells) + carryIn
  {
    var rest, carry := cells[1..], Num(cells[0].carry);
    var cells' := Step(cells, carryIn);
    assert cells'[1..] == Step(rest, carry);
    if rest == [] {
      assert Pow10(1) == 10;
    } else {
      StepCounts(rest, carry);
      assert TopCarry(rest) == TopCarry(cells);
      TenTimes(Pow10(|rest|), TopCarry(cells));
    }
  }

  lemma TenTimes(p: nat, top: nat)
    ensures (10 * p) * top == 10 * (p * top)
  {}

  // ---------- Runs since the last sample ----------

  /** `dropped` counts the carries that have left the last digit. */
  datatype Counter = Counter(cells: seq<Cell>, dropped: nat, triggers: nat)

  function CarryIn(trigger: bool, step: nat): nat { if trigger then step else 0 }

  function Next(c: Counter, trigger: bool, step: nat): Counter {
    Counter(Step(c.cells, CarryIn(trigger, step)), c.dropped + TopCarry(c.cells), c.triggers + Num(trigger))
  }

  function Run(c: Counter, run: seq<bool>, step: nat): (c': Counter)
    ensures |c'.cells| == |c.cells|
    decreases |run|
  {
    if run == [] then c else Run(Next(c, run[0], step), run[1..], step)
  }

  function Cleared(digits: nat): (cells: seq<Cell>)
    ensures |cells| == digits
  {
    seq(digits, _ => Cell(0, false))
  }

  ghost predicate Inv(c: Counter, step: nat) {
    && c.cells != [] && Decimal(c.cells)
    && Value(c.cells) + Pow10(|c.cells|) * c.dropped == step * c.triggers
  }

  lemma InvKept(c: Counter, trigger: bool, step: nat)
    requires Inv(c, step) && step <= 10
    ensures Inv(Next(c, trigger, step), step)
  {
    StepCounts(c.cells, CarryIn(trigger, step));
    Distribute(Pow10(|c.cells|), c.dropped, TopCarry(c.cells));
    Distribute(step, c.triggers, Num(trigger));
  }

  lemma Distribute(a: nat, b: nat, c: nat)
    ensures a * (b + c) == a * b + a * c
    ensures c == 0 ==> a * c == 0
    ensures c == 1 ==> a * c == a
  {}

  lemma {:induction false} InvOverRun(c: Counter, run: seq<bool>, step: nat)
    requires Inv(c, step) && step <= 10
    ensures Inv(Run(c, run, step), step)
    decreases |run|
  {
    if run != [] {
      InvKept(c, run[0], step);
      InvOverRun(Next(c, run[0], step), run[1..], step);
    }
  }

  lemma {:induction false} ClearedIsZero(digits: nat)
    ensures Value(Cleared(digits)) == 0 && Decimal(Cleared(digits))
  {
    if digits > 0 {
      assert Cleared(digits)[1..] == Cleared(digits - 1);
      ClearedIsZero(digits - 1);
    }
  }

  /** Nothing is lost: digits, carries on their way and dropped carries make up all the triggers. */
  lemma EveryTriggerCounts(digits: nat, run: seq<bool>, step: nat)
    requires digits > 0 && step <= 10
    ensures var c := Run(Counter(Cleared(digits), 0, 0), run, step);
      && Decimal(c.cells) && |c.cells| == digits
      && Value(c.cells) + Pow10(digits) * c.dropped == step * c.triggers
  {
    ClearedIsZero(digits);
    InvOverRun(Counter(Cleared(digits), 0, 0), run, step);
  }

  // ---------- Settling ----------

  /** The first `k` digits have no carry on its way. */
  predicate Settled(cells: seq<Cell>, k: nat) {
    forall i :: 0 <= i < k && i < |cells| ==> !cells[i].carry
  }

  lemma {:induction false} IdleSettles(cells: seq<Cell>, k: nat, carryIn: nat)
    requires Decimal(cells) && Settled(cells, k) && carryIn == 0
    ensures Settled(Step(cells, carryIn), k + 1)
    decreases |cells|
  {
    if cells != [] && k > 0 {
      assert Settled(cells[1..], k - 1);
      IdleSettles(cells[1..], k - 1, 0);
    }
  }

  function Idle(k: nat): seq<bool> { seq(k, _ => false) }

  lemma {:induction false} SettlesOverRun(c: Counter, k: nat, n: nat, step: nat)
    requires Inv(c, step) && step <= 10 && Settled(c.cells, k)
    ensures Settled(Run(c, Idle(n), step).cells, k + n) && Run(c, Idle(n), step).triggers == c.triggers
    decreases n
  {
    if n > 0 {
      assert Idle(n)[1..] == Idle(n - 1) && !Idle(n)[0];
      IdleSettles(c.cells, k, 0);
      InvKept(c, false, step);
      SettlesOverRun(Next(c, false, step), k + 1, n - 1, step);
    }
  }

  lemma {:induction false} SettledValue(cells: seq<Cell>)
    requires Decimal(cells) && Settled(cells, |cells|)
    ensures Value(cells) == Shown(cells) < Pow10(|cells|)
  {
    if cells != [] {
      assert Settled(cells[1..], |cells| - 1);
      SettledValue(cells[1..]);
    }
  }

  lemma RunsJoin(c: Counter, a: seq<bool>, b: seq<bool>, step: nat)
    ensures Run(c, a + b, step) == Run(Run(c, a, step), b, step)
    decreases |a|
  {
    if a == [] {
      assert a + b == b;
    } else {
      assert (a + b)[1..] == a[1..] + b;
      RunsJoin(Next(c, a[0], step), a[1..], b, step);
    }
  }

  /** One quiet cycle a digit, and the digits show the steps counted, modulo what they can hold. */
  lemma SettledDigitsShowCount(digits: nat, run: seq<bool>, step: nat, quiet: nat)
    requires digits > 0 && step <= 10 && quiet >= digits
    ensures var c := Run(Counter(Cleared(digits), 0, 0), run + Idle(quiet), step);
      && Shown(c.cells) == (step * c.triggers) % Pow10(digits)
      && c.triggers == Run(Counter(Cleared(digits), 0, 0), run, step).triggers
  {
    var start := Counter(Cleared(digits), 0, 0);
    ClearedIsZero(digits);
    InvOverRun(start, run, step);
    RunsJoin(start, run, Idle(quiet), step);
    InvOverRun(Run(start, run, step), Idle(quiet), step);
    SettlesOverRun(Run(start, run, step), 0, quiet, step);
    var c := Run(Run(start, run, step), Idle(quiet), step);
    SettledValue(c.cells);
    Modular.Unique(step * c.triggers, Pow10(digits), c.dropped, Shown(c.cells));
  }

  // ---------- The largest step ----------

  function Triggered(k: nat): seq<bool> { seq(k, _ => true) }

  /** The lowest digit after `k` triggers in a row. */
  function LowestAfter(c: Cell, k: nat, step: nat): Cell
    decreases k
  {
    if k == 0 then c else LowestAfter(CellAfter(c, step), k - 1, step)
  }

  lemma {:induction false} LowestOfRun(c: Counter, k: nat, step: nat)
    requires c.cells != []
    ensures Run(c, Triggered(k), step).cells[0] == LowestAfter(c.cells[0], k, step)
    decreases k
  {
    if k > 0 {
      assert Triggered(k)[1..] == Triggered(k - 1);
      LowestOfRun(Next(c, true, step), k - 1, step);
    }
  }

  /** The fewest triggers in a row after which the lowest digit is no longer decimal. */
  function TooMany(step: nat): nat {
    if step == 11 then 10 else if step == 12 then 5 else if step == 13 then 4 else if step == 14 then 3 else 2
  }

  /** Every trigger moves the lowest digit up by the step less ten, until it cannot carry enough. */
  lemma {:induction false} LowestClimbs(c: Cell, k: nat, step: nat, climb: nat)
    requires 10 < step < 16 && k > 0 && climb == (k - 1) * (step - 10)
    requires c.count + climb <= 9 && c.count + climb + step > 19
    ensures LowestAfter(c, k, step).count > 9
    decreases k
  {
    var c' := CellAfter(c, step);
    assert c'.count == c.count + step - 10;
    if k > 1 {
      assert climb - (step - 10) == (k - 2) * (step - 10);
      LowestClimbs(c', k - 1, step, climb - (step - 10));
    } else {
      assert LowestAfter(c, k, step) == LowestAfter(c', 0, step) == c';
    }
  }

  lemma LargeStepFails(step: nat)
    requires 10 < step < 16
    ensures LowestAfter(Cell(0, false), TooMany(step), step).count > 9
  {
    var k := TooMany(step);
    LowestClimbs(Cell(0, false), k, step, (k - 1) * (step - 10));
  }

  /** The digits stay decimal in every run if and only if the step is at most ten. */
  lemma StepUpToTen(digits: nat, step: nat)
    requires digits > 0 && step < 16
    ensures (forall run :: Decimal(Run(Counter(Cleared(digits), 0, 0), run, step).cells)) <==> step <= 10
  {
    var start := Counter(Cleared(digits), 0, 0);
    if step <= 10 {
      forall run ensures Decimal(Run(start, run, step).cells) {
        EveryTriggerCounts(digits, run, step);
      }
    } else {
      LargeStepFails(step);
      LowestOfRun(start, TooMany(step), step);
      assert !Decimal(Run(start, Triggered(TooMany(step)), step).cells);
    }
  }

  // ---------- The registers ----------

  lemma StepAt(cells: seq<Cell>, carryIn: nat, i: nat)
    requires i < |cells|
    ensures Step(cells, carryIn)[i] == CellAfter(cells[i], if i == 0 then carryIn else Num(cells[i - 1].carry))
    decreases |cells|
  {
    if i > 0 {
      StepAt(cells[1..], Num(cells[0].carry), i - 1);
    }
  }

  /** The chain of counters, updated in place. */
  class Cascade {
    const cells: array<Cell>

    constructor (digits: nat)
      ensures fresh(cells) && cells[..] == Cleared(digits)
    {
      cells := new Cell[digits](_ => Cell(0, false));
    }

    /** All registers change together, so the digits are updated from the last to the first. */
    method Clock(trigger: bool, sample: bool, step: nat)
      modifies cells
      ensures cells[..] == if sample then Cleared(cells.Length) else Step(old(cells[..]), CarryIn(trigger, step))
    {
      if sample {
        forall i | 0 <= i < cells.Length {
          cells[i] := Cell(0, false);
        }
      } else {
        for i := cells.Length downto 0
          invariant forall j :: 0 <= j < i ==> cells[j] == old(cells[j])
          invariant forall j :: i <= j < cells.Length ==> cells[j] == Step(old(cells[..]), CarryIn(trigger, step))[j]
        {
          StepAt(old(cells[..]), CarryIn(trigger, step), i);
          cells[i] := CellAfter(cells[i], if i == 0 then CarryIn(trigger, step) else Num(cells[i - 1].carry));
        }
      }
    }
  }
}
