/**
 * The flit buffer of the debug interconnect: a shift register with a read pointer, with and
 * without the mode that releases whole packets only.
 */
module DiiBuffer {

  datatype Flit = Flit(last: bool, data: nat)

  datatype Input = Nothing | Valid(flit: Flit)

  /** `data[0]` is the newest flit. `lastBuf` exists in full-packet mode only. */
  datatype Registers = Registers(data: seq<Flit>, rp: nat, outValid: bool, lastBuf: seq<bool>)

  predicate InReady(r: Registers) { r.rp != |r.data| - 1 || !r.outValid }

  predicate OutValid(r: Registers, fullPacket: bool) {
    if fullPacket then exists i :: 0 <= i < |r.lastBuf| && r.lastBuf[i] else r.outValid
  }

  function OutFlit(r: Registers): Flit
    requires r.rp < |r.data|
  {
    r.data[r.rp]
  }

  /** A packed vector shifted up by one place, with a new lowest element. */
  function ShiftIn<T>(v: seq<T>, x: T): (v': seq<T>)
    requires |v| > 0
    ensures |v'| == |v|
  {
    [x] + v[..|v| - 1]
  }

  /** All registers after a clock edge. */
  function AfterClock(r: Registers, fullPacket: bool, input: Input, outReady: bool): (r': Registers)
    requires |r.data| == |r.lastBuf| > r.rp
    ensures |r'.data| == |r'.lastBuf| == |r.data|
  {
    var inFire := input.Valid? && InReady(r);
    var outFire := OutValid(r, fullPacket) && outReady;
    var lastBuf := if outFire then r.lastBuf[r.rp := false] else r.lastBuf;
    Registers(
      if inFire then ShiftIn(r.data, input.flit) else r.data,
      if inFire && !outFire && r.outValid then r.rp + 1
      else if outFire && !inFire && r.rp != 0 then r.rp - 1
      else r.rp,
      if input.Valid? then true else if outReady && r.rp == 0 then false else r.outValid,
      if !fullPacket then r.lastBuf else if inFire then ShiftIn(lastBuf, input.flit.last) else lastBuf)
  }

  function Reset(data: seq<Flit>): Registers {
    Registers(data, 0, false, seq(|data|, _ => false))
  }

  /** The stored flits, the oldest first. */
  function Contents(r: Registers): (q: seq<Flit>)
    requires r.rp < |r.data|
    ensures |q| == if r.outValid then r.rp + 1 else 0
  {
    if r.outValid then seq(r.rp + 1, i requires 0 <= i <= r.rp => r.data[r.rp - i]) else []
  }

  predicate Inv(r: Registers, fullPacket: bool) {
    && |r.data| == |r.lastBuf| >= 2 && r.rp < |r.data|
    && (!r.outValid ==> r.rp == 0)
    && (fullPacket ==> forall i :: 0 <= i < |r.lastBuf| ==>
          (r.lastBuf[i] <==> r.outValid && i <= r.rp && r.data[i].last))
  }

  /** A bounded queue of capacity `n` with simultaneous push and pop. */
  function QueueStep(q: seq<Flit>, n: nat, input: Input, pop: bool): seq<Flit>
    requires pop ==> q != []
  {
    (if pop then q[1..] else q) + (if input.Valid? && |q| < n then [input.flit] else [])
  }

  /** The shift register and its pointer are a queue if the valid flag says whether it is empty. */
  lemma ShiftRegisterIsQueue(r: Registers, r': Registers, input: Input, outFire: bool)
    requires |r.data| >= 2 && r.rp < |r.data| && (!r.outValid ==> r.rp == 0) && (outFire ==> r.outValid)
    requires var inFire := input.Valid? && InReady(r);
      && r'.data == (if inFire then ShiftIn(r.data, input.flit) else r.data)
      && r'.rp == (if inFire && !outFire && r.outValid then r.rp + 1
                   else if outFire && !inFire && r.rp != 0 then r.rp - 1 else r.rp)
      && r'.outValid == (inFire || (r.outValid && !(outFire && r.rp == 0)))
    ensures Contents(r') == QueueStep(Contents(r), |r.data|, input, outFire)
  {
    var inFire := input.Valid? && InReady(r);
    var q, q' := Contents(r), Contents(r');
    var expected := QueueStep(q, |r.data|, input, outFire);
    assert inFire <==> input.Valid? && |q| < |r.data|;
    assert |q'| == |expected|;
    forall i | 0 <= i < |q'| ensures q'[i] == expected[i] {}
  }

  /** In plain mode the buffer is a bounded queue of BUF_SIZE flits, for every BUF_SIZE of at least two. */
  lemma PlainModeIsQueue(r: Registers, input: Input, outReady: bool)
    requires Inv(r, false)
    ensures var q := Contents(r);
      && (InReady(r) <==> |q| < |r.data|)
      && (OutValid(r, false) <==> q != [])
      && (q != [] ==> OutFlit(r) == q[0])
      && Inv(AfterClock(r, false, input, outReady), false)
      && Contents(AfterClock(r, false, input, outReady)) == QueueStep(q, |r.data|, input, q != [] && outReady)
  {
    ShiftRegisterIsQueue(r, AfterClock(r, false, input, outReady), input, r.outValid && outReady);
  }

  /** A buffer of one flit from which it is being taken keeps that flit, if another is offered at the same time. */
  lemma SizeOneIsNoQueue(f: Flit, g: Flit)
    ensures var r := Registers([f], 0, true, [false]);
      && !InReady(r) && Contents(r) == [f]
      && Contents(AfterClock(r, false, Valid(g), true)) == [f] != QueueStep([f], 1, Valid(g), true)
  {
    assert QueueStep([f], 1, Valid(g), true) == [];
  }

  predicate HasLast(q: seq<Flit>) { exists i :: 0 <= i < |q| && q[i].last }

  /** The case in which full-packet mode drops a flit: its reader is ready before the packet is complete. */
  predicate LosesFlit(r: Registers, input: Input, outReady: bool)
    requires r.rp < |r.data|
  {
    outReady && input.Nothing? && |Contents(r)| == 1 && !Contents(r)[0].last
  }

  /**
   * In full-packet mode a flit is offered exactly when a whole packet is stored, and the
   * buffer is the same bounded queue if and only if the reader does not ask too early.
   */
  lemma FullPacketModeIsQueue(r: Registers, input: Input, outReady: bool)
    requires Inv(r, true)
    ensures var q := Contents(r);
      && (OutValid(r, true) <==> HasLast(q))
      && (q != [] ==> OutFlit(r) == q[0])
      && Inv(AfterClock(r, true, input, outReady), true)
      && (Contents(AfterClock(r, true, input, outReady)) == QueueStep(q, |r.data|, input, HasLast(q) && outReady)
          <==> !LosesFlit(r, input, outReady))
  {
    OutValidIsHasLast(r);
    LastBufKept(r, input, outReady);
    var q, r' := Contents(r), AfterClock(r, true, input, outReady);
    if LosesFlit(r, input, outReady) {
      assert !HasLast(q);
      assert |QueueStep(q, |r.data|, input, false)| == 1 && |Contents(r')| == 0;
    } else {
      ShiftRegisterIsQueue(r, r', input, HasLast(q) && outReady);
    }
  }

  /** Such a case, two clock edges after the reset: the flit is never offered, and it is gone. */
  lemma FlitLostExists(data: seq<Flit>, f: Flit)
    requires |data| >= 2 && !f.last
    ensures var r := AfterClock(Reset(data), true, Valid(f), false);
      && Inv(Reset(data), true) && Inv(r, true) && Contents(r) == [f] && LosesFlit(r, Nothing, true)
      && !OutValid(r, true) && Contents(AfterClock(r, true, Nothing, true)) == []
  {
    var r := AfterClock(Reset(data), true, Valid(f), false);
    LastBufKept(Reset(data), Valid(f), false);
    assert Contents(r) == [f];
    OutValidIsHasLast(r);
  }

  lemma OutValidIsHasLast(r: Registers)
    requires Inv(r, true)
    ensures OutValid(r, true) <==> HasLast(Contents(r))
  {
    if OutValid(r, true) {
      var i :| 0 <= i < |r.lastBuf| && r.lastBuf[i];
      assert Contents(r)[r.rp - i].last;
    }
    if HasLast(Contents(r)) {
      var i :| 0 <= i < |Contents(r)| && Contents(r)[i].last;
      assert r.lastBuf[r.rp - i];
    }
  }

  /** A bit of `lastBuf` says whether there is a last flit at its place. */
  predicate LastBufAt(r: Registers, i: nat)
    requires |r.lastBuf| == |r.data| > i
  {
    r.lastBuf[i] <==> r.outValid && i <= r.rp && r.data[i].last
  }

  lemma LastBufKeptAt(r: Registers, input: Input, outReady: bool, outFire: bool, r': Registers, i: nat)
    requires |r.lastBuf| == |r.data| >= 2 && r.rp < |r.data| && i < |r.data| && (!r.outValid ==> r.rp == 0)
    requires LastBufAt(r, i) && (i > 0 ==> LastBufAt(r, i - 1))
    requires outFire ==> r.outValid && outReady
    requires outReady && !outFire ==> !r.lastBuf[i] && (i > 0 ==> !r.lastBuf[i - 1])
    requires var inFire, lastBuf := input.Valid? && InReady(r), if outFire then r.lastBuf[r.rp := false] else r.lastBuf;
      && r'.data == (if inFire then ShiftIn(r.data, input.flit) else r.data)
      && r'.lastBuf == (if inFire then ShiftIn(lastBuf, input.flit.last) else lastBuf)
      && r'.rp == (if inFire && !outFire && r.outValid then r.rp + 1
                   else if outFire && !inFire && r.rp != 0 then r.rp - 1 else r.rp)
      && r'.outValid == (input.Valid? || (r.outValid && !(outReady && r.rp == 0)))
    ensures LastBufAt(r', i)
  {}

  lemma LastBufKept(r: Registers, input: Input, outReady: bool)
    requires Inv(r, true)
    ensures Inv(AfterClock(r, true, input, outReady), true)
  {
    OutValidIsHasLast(r);
    var r', outFire := AfterClock(r, true, input, outReady), OutValid(r, true) && outReady;
    forall i: nat | i < |r'.lastBuf| ensures LastBufAt(r', i) {
      assert LastBufAt(r, i) && (i > 0 ==> LastBufAt(r, i - 1));
      LastBufKeptAt(r, input, outReady, outFire, r', i);
    }
  }

  // ---------- The packet size ----------

  /** Searches a vector downwards from bit `i`; `none` if no bit above 0 is set. */
  function FindFirstOne(v: seq<bool>, i: nat, none: nat): nat
    requires i < |v|
  {
    if i == 0 then none else if v[i] then i else FindFirstOne(v, i - 1, none)
  }

  /** `{1'b0, lastBuf} << (BUF_SIZE - rp)` in BUF_SIZE + 1 bits. */
  function LastShifted(r: Registers): (v: seq<bool>)
    requires |r.lastBuf| == |r.data| > r.rp
    ensures |v| == |r.data| + 1
  {
    var shift := |r.data| - r.rp;
    seq(|r.data| + 1, i requires 0 <= i <= |r.data| => i >= shift && r.lastBuf[i - shift])
  }

  function PacketSize(r: Registers): int
    requires |r.lastBuf| == |r.data| > r.rp
  {
    |r.data| + 1 - FindFirstOne(LastShifted(r), |r.data|, |r.data|)
  }

  /** The number of flits up to the first `last`. */
  function FirstLength(q: seq<Flit>): (n: nat)
    requires HasLast(q)
    ensures 0 < n <= |q| && q[n - 1].last && forall i :: 0 <= i < n - 1 ==> !q[i].last
    decreases |q|
  {
    if q[0].last then 1
    else
      assert HasLast(q[1..]) by {
        var i :| 0 <= i < |q| && q[i].last;
        assert q[1..][i - 1].last;
      }
      1 + FirstLength(q[1..])
  }

  lemma FirstLengthUnique(q: seq<Flit>, n: nat)
    requires 0 < n <= |q| && q[n - 1].last && forall i :: 0 <= i < n - 1 ==> !q[i].last
    ensures HasLast(q) && FirstLength(q) == n
  {}

  lemma {:induction false} FindFirstOneFinds(v: seq<bool>, i: nat, none: nat, j: nat)
    requires 0 < j <= i < |v| && v[j] && forall k :: j < k <= i ==> !v[k]
    ensures FindFirstOne(v, i, none) == j
    decreases i
  {
    if i > j {
      FindFirstOneFinds(v, i - 1, none, j);
    }
  }

  /** The size output is the length of the oldest packet, whatever has arrived behind it. */
  lemma PacketSizeExact(r: Registers)
    requires Inv(r, true) && HasLast(Contents(r))
    ensures PacketSize(r) == FirstLength(Contents(r))
  {
    var q, n := Contents(r), FirstLength(Contents(r));
    var v := LastShifted(r);
    var j := |r.data| + 1 - n;
    assert v[j] by { assert q[n - 1] == r.data[r.rp - (n - 1)]; }
    forall k | j < k <= |r.data| ensures !v[k] { assert q[|r.data| - k] == r.data[r.rp - (|r.data| - k)]; }
    FindFirstOneFinds(v, |r.data|, |r.data|, j);
  }

  /** The buffer with its registers updated in place. */
  class Buffer {
    const fullPacket: bool
    const data: array<Flit>
    const lastBuf: array<bool>
    var rp: nat
    var outValid: bool

    ghost function Regs(): Registers
      reads this, data, lastBuf
    {
      Registers(data[..], rp, outValid, lastBuf[..])
    }

    constructor (fullPacket: bool, data: array<Flit>, lastBuf: array<bool>)
      requires data.Length == lastBuf.Length
      requires forall i :: 0 <= i < lastBuf.Length ==> !lastBuf[i]
      ensures Regs() == Reset(data[..])
      ensures this.data == data && this.lastBuf == lastBuf && this.fullPacket == fullPacket
    {
      this.fullPacket, this.data, this.lastBuf := fullPacket, data, lastBuf;
      rp, outValid := 0, false;
    }

    method Clock(input: Input, outReady: bool)
      requires data.Length == lastBuf.Length > rp
      modifies this, data, lastBuf
      ensures Regs() == AfterClock(old(Regs()), fullPacket, input, outReady)
    {
      var inFire := input.Valid? && (rp != data.Length - 1 || !outValid);
      var offered := outValid;
      if fullPacket {
        offered := AnyLast();
      }
      var outFire := offered && outReady;
      if fullPacket {
        if outFire {
          lastBuf[rp] := false;
        }
        if inFire {
          ShiftArray(lastBuf, input.flit.last);
        }
      }
      if inFire {
        ShiftArray(data, input.flit);
      }
      var valid := if input.Valid? then true else if outReady && rp == 0 then false else outValid;
      if inFire && !outFire && outValid {
        rp := rp + 1;
      } else if outFire && !inFire && rp != 0 {
        rp := rp - 1;
      }
      outValid := valid;
    }

    method AnyLast() returns (any: bool)
      ensures any <==> exists i :: 0 <= i < lastBuf.Length && lastBuf[i]
    {
      any := false;
      for k := 0 to lastBuf.Length
        invariant any <==> exists i :: 0 <= i < k && lastBuf[i]
      {
        any := any || lastBuf[k];
      }
    }
  }

  method ShiftArray<T>(v: array<T>, x: T)
    requires v.Length > 0
    modifies v
    ensures v[..] == ShiftIn(old(v[..]), x)
  {
    forall i | 0 <= i < v.Length {
      v[i] := if i == 0 then x else v[i - 1];
    }
  }
}
