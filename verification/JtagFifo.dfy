/**
 * The FIFO behind the JTAG input: a shift register whose write position is a one-hot vector with
 * one bit more than there are places.
 */
module JtagFifo {

  datatype Registers<T> = Registers(data: seq<T>, ptr: seq<bool>)

  predicate Fits<T>(r: Registers<T>) { |r.data| > 0 && |r.ptr| == |r.data| + 1 }

  function OutValid<T>(r: Registers<T>): bool
    requires Fits(r)
  {
    !r.ptr[0]
  }

  function InReady<T>(r: Registers<T>): bool
    requires Fits(r)
  {
    !r.ptr[|r.data|]
  }

  /** One clock edge without reset. */
  function AfterClock<T>(r: Registers<T>, flit: T, inValid: bool, outReady: bool): (r': Registers<T>)
    requires Fits(r)
    ensures Fits(r')
  {
    var push, pop, n := inValid && InReady(r), OutValid(r) && outReady, |r.data|;
    Registers(
      seq(n, i requires 0 <= i < n => DataAfter(r, flit, push, pop, i)),
      seq(n + 1, i requires 0 <= i <= n =>
        if push && !pop then i > 0 && r.ptr[i - 1] else if pop && !push then i < n && r.ptr[i + 1] else r.ptr[i]))
  }

  function DataAfter<T>(r: Registers<T>, flit: T, push: bool, pop: bool, i: nat): T
    requires Fits(r) && i < |r.data|
  {
    if pop then
      if push && r.ptr[i + 1] then flit else if i < |r.data| - 1 then r.data[i + 1] else r.data[i]
    else if push && r.ptr[i] then flit
    else r.data[i]
  }

  function Reset<T>(data: seq<T>): Registers<T> { Registers(data, seq(|data| + 1, i => i == 0)) }

  /** Exactly the bit of the write position is set. */
  ghost predicate OneHot<T>(r: Registers<T>, k: nat) {
    Fits(r) && k <= |r.data| && forall i :: 0 <= i <= |r.data| ==> (r.ptr[i] <==> i == k)
  }

  ghost predicate Inv<T>(r: Registers<T>) { exists k: nat :: OneHot(r, k) }

  ghost function Level<T>(r: Registers<T>): (k: nat)
    requires Inv(r)
    ensures OneHot(r, k)
  {
    var k: nat :| OneHot(r, k);
    k
  }

  ghost function Contents<T>(r: Registers<T>): seq<T>
    requires Inv(r)
  {
    r.data[..Level(r)]
  }

  lemma ContentsAre<T>(r: Registers<T>, k: nat)
    requires OneHot(r, k)
    ensures Inv(r) && Contents(r) == r.data[..k]
  {
    assert r.ptr[k] && (r.ptr[k] <==> k == Level(r));
  }

  /** A bounded queue that may take and give in the same cycle. */
  function QueueStep<T>(q: seq<T>, capacity: nat, flit: T, inValid: bool, outReady: bool): seq<T> {
    var rest := if q != [] && outReady then q[1..] else q;
    if inValid && |q| < capacity then rest + [flit] else rest
  }

  /** The shift register is a queue of `LENGTH` places. */
  lemma ShiftRegisterIsQueue<T>(r: Registers<T>, flit: T, inValid: bool, outReady: bool)
    requires Inv(r)
    ensures var r', q := AfterClock(r, flit, inValid, outReady), Contents(r);
      && (OutValid(r) <==> q != []) && (InReady(r) <==> |q| < |r.data|) && (OutValid(r) ==> r.data[0] == q[0])
      && Inv(r') && Contents(r') == QueueStep(q, |r.data|, flit, inValid, outReady)
  {
    var k: nat :| OneHot(r, k);
    ContentsAre(r, k);
    var push, pop, r' := inValid && InReady(r), OutValid(r) && outReady, AfterClock(r, flit, inValid, outReady);
    var k' := if push && !pop then k + 1 else if pop && !push then k - 1 else k;
    assert OneHot(r', k');
    ContentsAre(r', k');
    var q, q' := r.data[..k], QueueStep(r.data[..k], |r.data|, flit, inValid, outReady);
    assert |q'| == k';
    forall i | 0 <= i < k' ensures r'.data[i] == q'[i] {
      assert r'.data[i] == DataAfter(r, flit, push, pop, i);
    }
    assert r'.data[..k'] == q';
  }

  // ---------- Whole runs ----------

  datatype Edge<T> = Edge(flit: T, inValid: bool, outReady: bool)

  /** The registers after a run. */
  function After<T>(r: Registers<T>, es: seq<Edge<T>>): (r': Registers<T>)
    requires Fits(r)
    ensures Fits(r') && |r'.data| == |r.data|
  {
    if es == [] then r
    else
      var n := |es| - 1;
      AfterClock(After(r, es[..n]), es[n].flit, es[n].inValid, es[n].outReady)
  }

  /** What has gone in: the flits offered while the FIFO was ready. */
  function Pushed<T>(r: Registers<T>, es: seq<Edge<T>>): seq<T>
    requires Fits(r)
  {
    if es == [] then []
    else
      var n := |es| - 1;
      Pushed(r, es[..n]) + if es[n].inValid && InReady(After(r, es[..n])) then [es[n].flit] else []
  }

  /** What has come out: the flits shown as valid while the reader was ready. */
  function Popped<T>(r: Registers<T>, es: seq<Edge<T>>): seq<T>
    requires Fits(r)
  {
    if es == [] then []
    else
      var n := |es| - 1;
      var before := After(r, es[..n]);
      Popped(r, es[..n]) + if OutValid(before) && es[n].outReady then [before.data[0]] else []
  }

  /** From the reset on, what has come out and what is stored is what has gone in, in order. */
  lemma {:induction false} RunConserves<T>(data: seq<T>, es: seq<Edge<T>>)
    requires data != []
    ensures var r := After(Reset(data), es);
      Inv(r) && Popped(Reset(data), es) + Contents(r) == Pushed(Reset(data), es) && |Contents(r)| <= |data|
    decreases |es|
  {
    if es == [] {
      ContentsAre(Reset(data), 0);
    } else {
      var n := |es| - 1;
      var r, e := After(Reset(data), es[..n]), es[n];
      RunConserves(data, es[..n]);
      ShiftRegisterIsQueue(r, e.flit, e.inValid, e.outReady);
      QueueMoves(Popped(Reset(data), es[..n]), Contents(r), |data|, e.flit, e.inValid, e.outReady);
    }
  }

  lemma QueueMoves<T>(out: seq<T>, q: seq<T>, capacity: nat, flit: T, inValid: bool, outReady: bool)
    ensures var q' := QueueStep(q, capacity, flit, inValid, outReady);
      && out + (if q != [] && outReady then [q[0]] else []) + q'
         == out + q + (if inValid && |q| < capacity then [flit] else [])
      && (|q| <= capacity ==> |q'| <= capacity)
  {
    assert q != [] ==> [q[0]] + q[1..] == q;
  }

  /** The FIFO with its registers updated in place. */
  class Fifo<T> {
    const data: array<T>
    const ptr: array<bool>

    ghost function Value(): Registers<T>
      reads data, ptr
    {
      Registers(data[..], ptr[..])
    }

    constructor (data: array<T>)
      requires data.Length > 0
      ensures this.data == data && fresh(ptr) && Value() == Reset(data[..])
    {
      this.data := data;
      ptr := new bool[data.Length + 1](i => i == 0);
    }

    method Clock(flit: T, inValid: bool, outReady: bool)
      requires Fits(Value())
      modifies data, ptr
      ensures Value() == AfterClock(old(Value()), flit, inValid, outReady)
    {
      var n := data.Length;
      var push, pop := inValid && !ptr[n], !ptr[0] && outReady;
      for i := 0 to n
        invariant ptr[..] == old(ptr[..])
        invariant forall j :: 0 <= j < i ==> data[j] == DataAfter(old(Value()), flit, push, pop, j)
        invariant forall j :: i <= j < n ==> data[j] == old(data[j])
      {
        if pop {
          if push && ptr[i + 1] {
            data[i] := flit;
          } else if i < n - 1 {
            data[i] := data[i + 1];
          }
        } else if push && ptr[i] {
          data[i] := flit;
        }
      }
      if push && !pop {
        forall i | 0 <= i <= n {
          ptr[i] := i > 0 && ptr[i - 1];
        }
      } else if pop && !push {
        forall i | 0 <= i <= n {
          ptr[i] := i < n && ptr[i + 1];
        }
      }
    }
  }
}
