/** The UART transmitter: a start bit, the eight bits of the byte offered, and a stop bit. */
module UartTransmit {

  datatype State = Idle | Start | Bits | Stop

  datatype Registers = Registers(state: State, divcounter: nat, bitpos: nat)

  predicate Fits(r: Registers, divisor: nat) { r.divcounter < divisor && r.bitpos < 8 }

  /** The level on the line in the cycle in which the registers are `r`. */
  function Tx(r: Registers, data: seq<bool>): bool
    requires r.bitpos < 8 == |data|
  {
    match r.state
    case Idle => true
    case Start => false
    case Bits => data[r.bitpos]
    case Stop => true
  }

  /** The byte is through, and the source may offer another one. */
  predicate Done(r: Registers) { r.state == Stop && r.divcounter == 0 }

  function AtEdge(r: Registers, divisor: nat, enable: bool): (r': Registers)
    requires Fits(r, divisor)
    ensures Fits(r', divisor)
  {
    var counted := r.(divcounter := if r.divcounter == 0 then divisor - 1 else r.divcounter - 1);
    var edge := r.divcounter == 0;
    match r.state
    case Idle => if enable then counted.(state := Start, divcounter := divisor - 1) else counted
    case Start => if edge then counted.(state := Bits, bitpos := 0) else counted
    case Bits =>
      if edge then
        counted.(state := if r.bitpos == 7 then Stop else Bits, bitpos := if r.bitpos == 7 then 0 else r.bitpos + 1)
      else counted
    case Stop => if edge then counted.(state := Idle) else counted
  }

  /** The transmitter, clocked by the source's sequential process. */
  class Transmitter {
    const divisor: nat
    var state: State
    var divcounter: nat
    var bitpos: nat

    ghost predicate Valid()
      reads this
    {
      Fits(Value(), divisor)
    }

    ghost function Value(): Registers
      reads this
    {
      Registers(state, divcounter, bitpos)
    }

    constructor (divisor: nat)
      requires divisor > 0
      ensures Valid() && state == Idle && this.divisor == divisor
    {
      this.divisor := divisor;
      state, divcounter, bitpos := Idle, 0, 0;
    }

    /** The outputs belong to the cycle before the edge. */
    method Clock(data: seq<bool>, enable: bool) returns (tx: bool, done: bool)
      requires Valid() && |data| == 8
      modifies this
      ensures Valid() && Value() == AtEdge(old(Value()), divisor, enable)
      ensures tx == Tx(old(Value()), data) && done == Done(old(Value()))
    {
      var nextedge := divcounter == 0;
      var nextCounter := if nextedge then divisor - 1 else divcounter - 1;
      done := false;
      match state {
        case Idle =>
          tx := true;
          if enable {
            state, nextCounter := Start, divisor - 1;
          }
        case Start =>
          tx := false;
          if nextedge {
            state, bitpos := Bits, 0;
          }
        case Bits =>
          tx := data[bitpos];
          if nextedge {
            state := if bitpos == 7 then Stop else Bits;
            bitpos := (bitpos + 1) % 8;
          }
        case Stop =>
          tx := true;
          if nextedge {
            state, done := Idle, true;
          }
      }
      divcounter := nextCounter;
    }
  }

  // ---------- Runs ----------

  predicate AreBytes(q: seq<seq<bool>>) { forall i :: 0 <= i < |q| ==> |q[i]| == 8 }

  /** The source offers the head of `q` and keeps offering it until it is done. */
  predicate Offered(r: Registers, divisor: nat, q: seq<seq<bool>>) {
    Fits(r, divisor) && AreBytes(q) && (r.state != Idle ==> q != [])
  }

  function Enabled(q: seq<seq<bool>>, willing: bool): bool { willing && q != [] }

  function Left(r: Registers, q: seq<seq<bool>>): (q': seq<seq<bool>>)
    requires r.state != Idle ==> q != []
    ensures AreBytes(q) ==> AreBytes(q')
  {
    if Done(r) then q[1..] else q
  }

  function LevelNow(r: Registers, q: seq<seq<bool>>): bool
    requires AreBytes(q) && r.bitpos < 8 && (r.state != Idle ==> q != [])
  {
    if q == [] then true else Tx(r, q[0])
  }

  /** The levels on the line, one a cycle; `willing` says when the source lets a byte start. */
  function Wave(r: Registers, divisor: nat, q: seq<seq<bool>>, willing: seq<bool>): (w: seq<bool>)
    requires Offered(r, divisor, q)
    ensures |w| == |willing|
    decreases |willing|
  {
    if willing == [] then []
    else
      [LevelNow(r, q)] + Wave(AtEdge(r, divisor, Enabled(q, willing[0])), divisor, Left(r, q), willing[1..])
  }
}
