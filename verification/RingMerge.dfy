/**
 * Who is served by the two merges of a ring router, in terms of the flits offered and transferred alone.
 */
module RingMerge {
  import opened DebugRing

  /** A flit that has been transferred, and from which input. */
  datatype Served = Served(second: bool, flit: Flit)

  /** The alternating merge, what its inputs have still to send, and what it has sent. */
  datatype Merge = Merge(state: RrState, in0: seq<Flit>, in1: seq<Flit>, out: seq<Served>)

  datatype Cycle = Cycle(offer0: bool, offer1: bool, ready: bool)

  function In0(m: Merge, c: Cycle): Channel { if c.offer0 then Head(m.in0) else None }

  function In1(m: Merge, c: Cycle): Channel { if c.offer1 then Head(m.in1) else None }

  /** The flit that is transferred in the cycle, if any. */
  function ServedIn(m: Merge, c: Cycle): seq<Served> {
    var in0, in1 := In0(m, c), In1(m, c);
    if !c.ready then []
    else if in0.Some? && RrGranted(m.state, false, in0.Some?, in1.Some?) then [Served(false, in0.flit)]
    else if in1.Some? && RrGranted(m.state, true, in0.Some?, in1.Some?) then [Served(true, in1.flit)]
    else []
  }

  function Next(m: Merge, c: Cycle): Merge {
    var served := ServedIn(m, c);
    Merge(RrNext(m.state, In0(m, c), In1(m, c), c.ready),
          if served != [] && !served[0].second then m.in0[1..] else m.in0,
          if served != [] && served[0].second then m.in1[1..] else m.in1,
          m.out + served)
  }

  function After(m: Merge, cs: seq<Cycle>): Merge {
    if cs == [] then m else Next(After(m, cs[..|cs| - 1]), cs[|cs| - 1])
  }

  function Start(in0: seq<Flit>, in1: seq<Flit>): Merge { Merge(NoWorm0, in0, in1, []) }

  /** A packet of this input has been begun at the output and not ended. */
  predicate Open(out: seq<Served>, second: bool) {
    out != [] && out[|out| - 1].second == second && !out[|out| - 1].flit.last
  }

  lemma {:induction false} UnderWayIsWorm(in0: seq<Flit>, in1: seq<Flit>, cs: seq<Cycle>)
    ensures Open(After(Start(in0, in1), cs).out, false) ==> After(Start(in0, in1), cs).state == Worm0
    ensures Open(After(Start(in0, in1), cs).out, true) ==> After(Start(in0, in1), cs).state == Worm1
    decreases |cs|
  {
    if cs != [] {
      UnderWayIsWorm(in0, in1, cs[..|cs| - 1]);
      OpenStep(After(Start(in0, in1), cs[..|cs| - 1]), cs[|cs| - 1]);
    }
  }

  predicate OpenInv(m: Merge) {
    (Open(m.out, false) ==> m.state == Worm0) && (Open(m.out, true) ==> m.state == Worm1)
  }

  lemma OpenStep(m: Merge, c: Cycle)
    requires OpenInv(m)
    ensures OpenInv(Next(m, c))
  {}

  /**
   * When the last flit of a packet of more than one has been transferred, a flit that waits at the
   * other input is served in the next cycle, before anything else of this input; and until that last
   * flit, nothing is served but this packet.
   */
  lemma OtherIsNext(in0: seq<Flit>, in1: seq<Flit>, cs: seq<Cycle>, c: Cycle, d: Cycle, second: bool)
    requires Open(After(Start(in0, in1), cs).out, second)
    ensures var m := After(Start(in0, in1), cs);
      var served := ServedIn(m, c);
      && (served != [] ==> served[0].second == second)
      && (served != [] && served[0].flit.last ==>
            var m' := Next(m, c);
            var other := if second then In0(m', d) else In1(m', d);
            other.Some? ==> ServedIn(m', d) == if d.ready then [Served(!second, other.flit)] else [])
  {
    UnderWayIsWorm(in0, in1, cs);
  }

  /** Between packets, and for an input that is under way, an offered flit is served as soon as the output is ready. */
  lemma SomethingIsServed(m: Merge, c: Cycle)
    requires c.ready && In0(m, c).Some? && In1(m, c).Some?
    ensures |ServedIn(m, c)| == 1
  {}

  // ---------- Long packets alternate ----------

  /** All packets have more than one flit; `inside` says that the first one has begun. */
  predicate Long(q: seq<Flit>, inside: bool)
    decreases |q|
  {
    q == [] || ((q[0].last ==> inside) && Long(q[1..], !q[0].last))
  }

  /** The input changes exactly after a last flit. */
  predicate Alternates(out: seq<Served>) {
    forall k :: 0 < k < |out| ==> (out[k].second != out[k - 1].second <==> out[k - 1].flit.last)
  }

  /** Both inputs always have a flit to offer. */
  predicate Busy(m: Merge, cs: seq<Cycle>) {
    forall i :: 0 <= i < |cs| ==>
      cs[i].offer0 && cs[i].offer1 && After(m, cs[..i]).in0 != [] && After(m, cs[..i]).in1 != []
  }

  /** Nothing has been sent, or last the end of a packet of this input. */
  predicate AtEndOf(out: seq<Served>, second: bool) {
    out == [] || (out[|out| - 1].second == second && out[|out| - 1].flit.last)
  }

  predicate BusyInv(m: Merge) {
    Alternates(m.out)
    && match m.state
       case NoWorm0 => AtEndOf(m.out, true) && Long(m.in0, false) && Long(m.in1, false)
       case NoWorm1 => AtEndOf(m.out, false) && m.out != [] && Long(m.in0, false) && Long(m.in1, false)
       case Worm0 =>
         && Long(m.in1, false)
         && if Open(m.out, false) then Long(m.in0, true) else AtEndOf(m.out, true) && Long(m.in0, false)
       case Worm1 =>
         && Long(m.in0, false)
         && if Open(m.out, true) then Long(m.in1, true)
            else AtEndOf(m.out, false) && m.out != [] && Long(m.in1, false)
  }

  lemma BusyInvKept(m: Merge, c: Cycle)
    requires BusyInv(m) && c.offer0 && c.offer1 && m.in0 != [] && m.in1 != []
    ensures BusyInv(Next(m, c))
  {}

  lemma BusyBefore(m: Merge, cs: seq<Cycle>)
    requires Busy(m, cs) && cs != []
    ensures var n := |cs| - 1;
      && Busy(m, cs[..n]) && cs[n].offer0 && cs[n].offer1
      && After(m, cs[..n]).in0 != [] && After(m, cs[..n]).in1 != []
  {
    var n := |cs| - 1;
    assert forall i :: 0 <= i < n ==> cs[..n][..i] == cs[..i];
  }

  lemma {:induction false} BusyInvOverRun(m: Merge, cs: seq<Cycle>)
    requires BusyInv(m) && Busy(m, cs)
    ensures BusyInv(After(m, cs))
    decreases |cs|
  {
    if cs != [] {
      var n := |cs| - 1;
      BusyBefore(m, cs);
      BusyInvOverRun(m, cs[..n]);
      BusyInvKept(After(m, cs[..n]), cs[n]);
    }
  }

  /**
   * As long as both inputs keep offering packets of more than one flit, no two consecutive packets at
   * the output come from the same input, whatever the output's readiness.
   */
  lemma LongPacketsAlternate(in0: seq<Flit>, in1: seq<Flit>, cs: seq<Cycle>)
    requires Long(in0, false) && Long(in1, false) && Busy(Start(in0, in1), cs)
    ensures Alternates(After(Start(in0, in1), cs).out)
  {
    BusyInvOverRun(Start(in0, in1), cs);
  }

  // ---------- Packets of one flit do not ----------

  predicate AllLast(q: seq<Flit>) { forall i :: 0 <= i < |q| ==> q[i].last }

  /** As long as the first input keeps offering packets of one flit, the second one is never served. */
  lemma {:induction false} SingleFlitsStarve(in0: seq<Flit>, in1: seq<Flit>, cs: seq<Cycle>)
    requires AllLast(in0) && Busy(Start(in0, in1), cs)
    ensures var m := After(Start(in0, in1), cs);
      m.state == NoWorm0 && m.in1 == in1 && AllLast(m.in0) && |m.out| + |m.in0| == |in0|
    decreases |cs|
  {
    if cs != [] {
      var n := |cs| - 1;
      BusyBefore(Start(in0, in1), cs);
      SingleFlitsStarve(in0, in1, cs[..n]);
    }
  }

  // ---------- The priority of the ring ----------

  /** The merge of the local input into the ring; `second` is the local one. */
  datatype Priority = Priority(state: MuxState, ring: seq<Flit>, local: seq<Flit>, out: seq<Served>)

  function RingIn(m: Priority, c: Cycle): Channel { if c.offer0 then Head(m.ring) else None }

  function LocalIn(m: Priority, c: Cycle): Channel { if c.offer1 then Head(m.local) else None }

  function PriorityServed(m: Priority, c: Cycle): seq<Served> {
    var ring, local := RingIn(m, c), LocalIn(m, c);
    if !c.ready then []
    else if ring.Some? && RingGranted(m.state) then [Served(false, ring.flit)]
    else if local.Some? && LocalGranted(m.state, ring.Some?) then [Served(true, local.flit)]
    else []
  }

  function PriorityNext(m: Priority, c: Cycle): Priority {
    var served := PriorityServed(m, c);
    Priority(MuxNext(m.state, RingIn(m, c), LocalIn(m, c), c.ready),
             if served != [] && !served[0].second then m.ring[1..] else m.ring,
             if served != [] && served[0].second then m.local[1..] else m.local,
             m.out + served)
  }

  function PriorityAfter(m: Priority, cs: seq<Cycle>): Priority {
    if cs == [] then m else PriorityNext(PriorityAfter(m, cs[..|cs| - 1]), cs[|cs| - 1])
  }

  lemma {:induction false} OpenIsWorm(m: Priority, cs: seq<Cycle>)
    requires m.state == NoWorm && m.out == []
    ensures Open(PriorityAfter(m, cs).out, false) ==> PriorityAfter(m, cs).state == WormRing
    ensures Open(PriorityAfter(m, cs).out, true) ==> PriorityAfter(m, cs).state == WormLocal
    decreases |cs|
  {
    if cs != [] {
      OpenIsWorm(m, cs[..|cs| - 1]);
    }
  }

  /**
   * Until the last flit of a packet, nothing is served but this packet; and in the cycle after it a
   * flit on the ring is served first, and a local one only if there is none.
   */
  lemma RingIsFirst(m: Priority, cs: seq<Cycle>, c: Cycle, d: Cycle, second: bool)
    requires m.state == NoWorm && m.out == [] && Open(PriorityAfter(m, cs).out, second)
    ensures var m1 := PriorityAfter(m, cs);
      var served := PriorityServed(m1, c);
      && (served != [] ==> served[0].second == second)
      && (served != [] && served[0].flit.last ==>
            var m2 := PriorityNext(m1, c);
            && (RingIn(m2, d).Some? ==>
                  PriorityServed(m2, d) == if d.ready then [Served(false, RingIn(m2, d).flit)] else [])
            && (RingIn(m2, d).None? && LocalIn(m2, d).Some? ==>
                  PriorityServed(m2, d) == if d.ready then [Served(true, LocalIn(m2, d).flit)] else []))
  {
    OpenIsWorm(m, cs);
  }

  /**
   * A choice holds although nothing has been transferred: after a cycle in which the output was not
   * ready for a local packet of more than one flit, a flit on the ring has to wait.
   */
  lemma ChoiceHolds(m: Priority, c: Cycle, d: Cycle)
    requires m.state == NoWorm && !c.ready && RingIn(m, c).None? && LocalIn(m, c).Some? && !LocalIn(m, c).flit.last
    ensures PriorityServed(PriorityNext(m, c), d) == if d.ready && d.offer1 then [Served(true, m.local[0])] else []
  {}

  /** The same holds of the alternating merge. */
  lemma AlternatingChoiceHolds(m: Merge, c: Cycle, d: Cycle)
    requires m.state == NoWorm0 && !c.ready && In0(m, c).None? && In1(m, c).Some? && !In1(m, c).flit.last
    ensures ServedIn(Next(m, c), d) == if d.ready && d.offer1 then [Served(true, m.in1[0])] else []
  {}
}
