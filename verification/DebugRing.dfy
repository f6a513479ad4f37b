/**
 * The debug ring: `n` routers on two chains, the end of chain 0 feeding the start of chain 1.
 * Unrolled, it is one line of `2n` stages. Stage `k` is a demultiplexer with the identity of
 * port `k mod n`, on chain 0 a multiplexer that merges in the local input, and a buffer.
 * One step is one clock cycle of the whole ring.
 */
module DebugRing {

  /**
   * A valid flit. Only `last` and `data` exist in hardware. The other fields are the
   * bookkeeping of the properties: source port, destination, packet number at that source
   * and position in the packet.
   */
  datatype Flit = Flit(last: bool, data: nat, src: nat, dst: nat, packet: nat, pos: nat)

  /** A flit channel in one cycle, or the last flit that has passed a point. */
  datatype Channel = None | Some(flit: Flit)

  /** A buffer of the ring, and the last flit it has given away. */
  datatype Buffer = Buffer(q: seq<Flit>, lastOut: Channel)

  datatype Demux = Demux(worm: bool, wormLocal: bool)

  datatype MuxState = NoWorm | WormLocal | WormRing

  datatype RrState = NoWorm0 | NoWorm1 | Worm0 | Worm1

  /** The last flits a demultiplexer has passed along the ring and to its local port. */
  datatype Passed = Passed(ring: Channel, port: Channel)

  datatype Ring = Ring(
    n: nat, capacity: nat,
    bufs: seq<Buffer>, demux: seq<Demux>, passed: seq<Passed>,
    mux: seq<MuxState>, rr: seq<RrState>,
    todo: seq<seq<Flit>>, lastInjected: seq<Channel>,
    out: seq<seq<Flit>>, dropped: seq<Flit>)

  /** What the ports do in a cycle: offer their next flit, accept a delivered one. */
  datatype Ports = Ports(offer: seq<bool>, ready: seq<bool>)

  predicate Shape(r: Ring) {
    && 1 <= r.n <= 1024 && r.capacity >= 1
    && |r.bufs| == |r.demux| == |r.passed| == 2 * r.n
    && |r.mux| == |r.rr| == |r.todo| == |r.lastInjected| == |r.out| == r.n
  }

  predicate PortsShape(r: Ring, e: Ports) { |e.offer| == |e.ready| == r.n }

  // ---------- Combinational logic ----------

  function Head(q: seq<Flit>): Channel {
    if q == [] then None else Some(q[0])
  }

  function Port(r: Ring, k: nat): (id: nat)
    requires Shape(r) && k < 2 * r.n
    ensures id < r.n && (k == id || k == id + r.n)
  {
    if k < r.n then k else k - r.n
  }

  /** The channel into stage `k`: nothing enters stage 0, every other stage is fed by its predecessor. */
  function Input(r: Ring, k: nat): Channel
    requires Shape(r) && k <= 2 * r.n
  {
    if k == 0 then None else Head(r.bufs[k - 1].q)
  }

  predicate SwitchLocal(d: Demux, f: Flit, id: nat) {
    if d.worm then d.wormLocal else f.data % 1024 == id
  }

  predicate ToPort(r: Ring, k: nat)
    requires Shape(r) && k < 2 * r.n
  {
    Input(r, k).Some? && SwitchLocal(r.demux[k], Input(r, k).flit, Port(r, k))
  }

  predicate ToRing(r: Ring, k: nat)
    requires Shape(r) && k < 2 * r.n
  {
    Input(r, k).Some? && !SwitchLocal(r.demux[k], Input(r, k).flit, Port(r, k))
  }

  predicate RingGranted(m: MuxState) { m.NoWorm? || m.WormRing? }

  predicate LocalGranted(m: MuxState, ringValid: bool) { m.WormLocal? || (m.NoWorm? && !ringValid) }

  /** The priority multiplexer. A worm locks it even in a cycle without a transfer. */
  function MuxNext(m: MuxState, ring: Channel, local: Channel, ready: bool): MuxState {
    match m
    case NoWorm =>
      if ring.Some? then (if ring.flit.last then NoWorm else WormRing)
      else if local.Some? then (if local.flit.last then NoWorm else WormLocal)
      else NoWorm
    case WormRing => if ring.Some? && ring.flit.last && ready then NoWorm else WormRing
    case WormLocal => if local.Some? && local.flit.last && ready then NoWorm else WormLocal
  }

  predicate RrGranted(s: RrState, second: bool, in0Valid: bool, in1Valid: bool) {
    match s
    case NoWorm0 => if second then !in0Valid else true
    case NoWorm1 => if second then true else !in1Valid
    case Worm0 => !second
    case Worm1 => second
  }

  /** The alternating multiplexer in front of a local output. */
  function RrNext(s: RrState, in0: Channel, in1: Channel, ready: bool): RrState {
    match s
    case NoWorm0 =>
      if in0.Some? then (if in0.flit.last then s else Worm0)
      else if in1.Some? then (if in1.flit.last then s else Worm1)
      else s
    case NoWorm1 =>
      if in1.Some? then (if in1.flit.last then s else Worm1)
      else if in0.Some? then (if in0.flit.last then s else Worm0)
      else s
    case Worm0 => if in0.Some? && in0.flit.last && ready then NoWorm1 else s
    case Worm1 => if in1.Some? && in1.flit.last && ready then NoWorm0 else s
  }

  // ---------- Handshakes of a cycle ----------

  predicate Forwards(r: Ring, k: nat)
    requires Shape(r) && k < 2 * r.n
  {
    ToRing(r, k) && |r.bufs[k].q| < r.capacity && (k < r.n ==> RingGranted(r.mux[k]))
  }

  function Offered(r: Ring, e: Ports, k: nat): Channel
    requires Shape(r) && PortsShape(r, e) && k < r.n
  {
    if e.offer[k] then Head(r.todo[k]) else None
  }

  predicate Injects(r: Ring, e: Ports, k: nat)
    requires Shape(r) && PortsShape(r, e) && k < r.n
  {
    Offered(r, e, k).Some? && LocalGranted(r.mux[k], ToRing(r, k)) && |r.bufs[k].q| < r.capacity
  }

  predicate Delivers(r: Ring, e: Ports, k: nat)
    requires Shape(r) && PortsShape(r, e) && k < 2 * r.n
  {
    var p := Port(r, k);
    ToPort(r, k) && e.ready[p] && RrGranted(r.rr[p], k >= r.n, ToPort(r, p), ToPort(r, p + r.n))
  }

  /** The input of stage `k` is taken; the end of chain 1 takes everything. */
  predicate Takes(r: Ring, e: Ports, k: nat)
    requires Shape(r) && PortsShape(r, e) && k <= 2 * r.n
  {
    if k == 2 * r.n then Input(r, k).Some? else Forwards(r, k) || Delivers(r, e, k)
  }

  function Enters(r: Ring, e: Ports, k: nat): (fs: seq<Flit>)
    requires Shape(r) && PortsShape(r, e) && k < 2 * r.n
    ensures |fs| <= 1
  {
    if Forwards(r, k) then [Input(r, k).flit]
    else if k < r.n && Injects(r, e, k) then [r.todo[k][0]]
    else []
  }

  function Leaves(r: Ring, e: Ports, p: nat): (fs: seq<Flit>)
    requires Shape(r) && PortsShape(r, e) && p < r.n
    ensures |fs| <= 1
  {
    if Delivers(r, e, p) then [Input(r, p).flit]
    else if Delivers(r, e, p + r.n) then [Input(r, p + r.n).flit]
    else []
  }

  // ---------- Registers after the cycle ----------

  function NextBuffer(b: Buffer, taken: bool, entering: seq<Flit>): Buffer
    requires taken ==> b.q != []
  {
    if taken then Buffer(b.q[1..] + entering, Some(b.q[0])) else Buffer(b.q + entering, b.lastOut)
  }

  function NextDemux(d: Demux, input: Channel, id: nat, taken: bool): Demux {
    if !d.worm then
      Demux(taken && input.Some? && !input.flit.last, input.Some? && input.flit.data % 1024 == id)
    else
      Demux(!(taken && input.Some? && input.flit.last), d.wormLocal)
  }

  function BufferAfter(r: Ring, e: Ports, k: nat): Buffer
    requires Shape(r) && PortsShape(r, e) && k < 2 * r.n
  {
    NextBuffer(r.bufs[k], Takes(r, e, k + 1), Enters(r, e, k))
  }

  function DemuxAfter(r: Ring, e: Ports, k: nat): Demux
    requires Shape(r) && PortsShape(r, e) && k < 2 * r.n
  {
    NextDemux(r.demux[k], Input(r, k), Port(r, k), Takes(r, e, k))
  }

  function PassedAfter(r: Ring, e: Ports, k: nat): Passed
    requires Shape(r) && PortsShape(r, e) && k < 2 * r.n
  {
    Passed(if Forwards(r, k) then Input(r, k) else r.passed[k].ring,
           if Delivers(r, e, k) then Input(r, k) else r.passed[k].port)
  }

  function MuxAfter(r: Ring, e: Ports, k: nat): MuxState
    requires Shape(r) && PortsShape(r, e) && k < r.n
  {
    MuxNext(r.mux[k], if ToRing(r, k) then Input(r, k) else None, Offered(r, e, k), |r.bufs[k].q| < r.capacity)
  }

  function RrAfter(r: Ring, e: Ports, p: nat): RrState
    requires Shape(r) && PortsShape(r, e) && p < r.n
  {
    var q := p + r.n;
    RrNext(r.rr[p], if ToPort(r, p) then Input(r, p) else None, if ToPort(r, q) then Input(r, q) else None, e.ready[p])
  }

  function TodoAfter(r: Ring, e: Ports, k: nat): seq<Flit>
    requires Shape(r) && PortsShape(r, e) && k < r.n
  {
    if Injects(r, e, k) then r.todo[k][1..] else r.todo[k]
  }

  function LastInjectedAfter(r: Ring, e: Ports, k: nat): Channel
    requires Shape(r) && PortsShape(r, e) && k < r.n
  {
    if Injects(r, e, k) then Head(r.todo[k]) else r.lastInjected[k]
  }

  function Next(r: Ring, e: Ports): (r': Ring)
    requires Shape(r) && PortsShape(r, e)
    ensures Shape(r')
  {
    var stages, n := 2 * r.n, r.n;
    r.(bufs := seq(stages, k requires 0 <= k < stages => BufferAfter(r, e, k)),
       demux := seq(stages, k requires 0 <= k < stages => DemuxAfter(r, e, k)),
       passed := seq(stages, k requires 0 <= k < stages => PassedAfter(r, e, k)),
       mux := seq(n, k requires 0 <= k < n => MuxAfter(r, e, k)),
       rr := seq(n, p requires 0 <= p < n => RrAfter(r, e, p)),
       todo := seq(n, k requires 0 <= k < n => TodoAfter(r, e, k)),
       lastInjected := seq(n, k requires 0 <= k < n => LastInjectedAfter(r, e, k)),
       out := seq(n, p requires 0 <= p < n => r.out[p] + Leaves(r, e, p)),
       dropped := if Takes(r, e, stages) then r.dropped + [Input(r, stages).flit] else r.dropped)
  }

  // ---------- Worms ----------

  /** No packet is under way at a point that was last passed by `c`. */
  predicate Between(c: Channel) { c.None? || c.flit.last }

  /** `f` is the flit that has to come after `c`: a header, or the next of the same packet. */
  predicate Follows(c: Channel, f: Flit) {
    if Between(c) then f.pos == 0
    else f.src == c.flit.src && f.dst == c.flit.dst && f.packet == c.flit.packet && f.pos == c.flit.pos + 1
  }

  /** After `c`, the stream `q` consists of whole packets, one after the other, up to a last partial one. */
  predicate Chained(c: Channel, q: seq<Flit>)
    decreases |q|
  {
    q == [] || (Follows(c, q[0]) && Chained(Some(q[0]), q[1..]))
  }

  function LastOf(c: Channel, q: seq<Flit>): Channel {
    if q == [] then c else Some(q[|q| - 1])
  }

  lemma {:induction false} ChainedAppend(c: Channel, q: seq<Flit>, more: seq<Flit>)
    requires Chained(c, q) && |more| <= 1 && (more != [] ==> Follows(LastOf(c, q), more[0]))
    ensures Chained(c, q + more)
    decreases |q|
  {
    if q == [] {
      assert q + more == more;
      if more != [] {
        assert more[1..] == [];
      }
    } else {
      ChainedAppend(Some(q[0]), q[1..], more);
      assert (q + more)[1..] == q[1..] + more;
    }
  }

  /** A header's low ten bits name the packet's destination. */
  predicate Honest(f: Flit) { f.pos == 0 ==> f.data % 1024 == f.dst }

  predicate AllHonest(q: seq<Flit>) { forall i :: 0 <= i < |q| ==> Honest(q[i]) }

  /** A demultiplexer remembers the destination of the worm that its input buffer is giving away. */
  predicate LinkInv(b: Buffer, d: Demux, p: Passed, id: nat) {
    && Chained(b.lastOut, b.q) && AllHonest(b.q)
    && (d.worm <==> !Between(b.lastOut))
    && (d.worm ==> (d.wormLocal <==> b.lastOut.flit.dst == id))
    && (if d.worm && !d.wormLocal then p.ring == b.lastOut else Between(p.ring))
    && (if d.worm && d.wormLocal then p.port == b.lastOut else Between(p.port))
  }

  /** The switch decides by destination, also in the middle of a packet, and both sides stay chained. */
  lemma SwitchByDestination(b: Buffer, d: Demux, p: Passed, id: nat)
    requires LinkInv(b, d, p, id) && b.q != []
    ensures SwitchLocal(d, b.q[0], id) <==> b.q[0].dst == id
    ensures !SwitchLocal(d, b.q[0], id) ==> Follows(p.ring, b.q[0])
    ensures SwitchLocal(d, b.q[0], id) ==> Follows(p.port, b.q[0])
  {
    assert Honest(b.q[0]);
  }

  lemma LinkKept(b: Buffer, d: Demux, p: Passed, id: nat, forwarded: bool, delivered: bool, entering: seq<Flit>)
    requires LinkInv(b, d, p, id) && |entering| <= 1
    requires forwarded ==> b.q != [] && !SwitchLocal(d, b.q[0], id)
    requires delivered ==> b.q != [] && SwitchLocal(d, b.q[0], id)
    requires entering != [] ==> Follows(LastOf(b.lastOut, b.q), entering[0]) && Honest(entering[0])
    ensures LinkInv(NextBuffer(b, forwarded || delivered, entering),
                    NextDemux(d, Head(b.q), id, forwarded || delivered),
                    Passed(if forwarded then Head(b.q) else p.ring, if delivered then Head(b.q) else p.port), id)
  {
    if b.q != [] {
      SwitchByDestination(b, d, p, id);
    }
    if forwarded || delivered {
      ChainedAppend(Some(b.q[0]), b.q[1..], entering);
    } else {
      ChainedAppend(b.lastOut, b.q, entering);
    }
  }

  /** `into` is the last flit that the multiplexer has sent on. */
  predicate MuxInv(m: MuxState, ring: Channel, injected: Channel, into: Channel) {
    && (m.WormRing? || Between(ring)) && (m.WormLocal? || Between(injected))
    && (Between(into) || (m.WormRing? && into == ring) || (m.WormLocal? && into == injected))
    && (Between(ring) || into == ring) && (Between(injected) || into == injected)
  }

  lemma MuxKept(m: MuxState, ring: Channel, injected: Channel, into: Channel,
                fromRing: Channel, fromLocal: Channel, ready: bool)
    requires MuxInv(m, ring, injected, into)
    requires fromRing.Some? ==> Follows(ring, fromRing.flit)
    requires fromLocal.Some? ==> Follows(injected, fromLocal.flit)
    ensures var m' := MuxNext(m, fromRing, fromLocal, ready);
      var takesRing := fromRing.Some? && ready && RingGranted(m);
      var takesLocal := fromLocal.Some? && ready && LocalGranted(m, fromRing.Some?);
      && !(takesRing && takesLocal)
      && (takesRing ==> Follows(into, fromRing.flit) && MuxInv(m', fromRing, injected, fromRing))
      && (takesLocal ==> Follows(into, fromLocal.flit) && MuxInv(m', ring, fromLocal, fromLocal))
      && (!takesRing && !takesLocal ==> MuxInv(m', ring, injected, into))
  {}

  predicate RrInv(s: RrState, port0: Channel, port1: Channel, out: Channel) {
    && (s.Worm0? || Between(port0)) && (s.Worm1? || Between(port1))
    && (Between(out) || (s.Worm0? && out == port0) || (s.Worm1? && out == port1))
    && (Between(port0) || out == port0) && (Between(port1) || out == port1)
  }

  lemma RrKept(s: RrState, port0: Channel, port1: Channel, out: Channel, in0: Channel, in1: Channel, ready: bool)
    requires RrInv(s, port0, port1, out)
    requires in0.Some? ==> Follows(port0, in0.flit)
    requires in1.Some? ==> Follows(port1, in1.flit)
    ensures var s' := RrNext(s, in0, in1, ready);
      var takes0 := in0.Some? && ready && RrGranted(s, false, in0.Some?, in1.Some?);
      var takes1 := in1.Some? && ready && RrGranted(s, true, in0.Some?, in1.Some?);
      && !(takes0 && takes1)
      && (takes0 ==> Follows(out, in0.flit) && RrInv(s', in0, port1, in0))
      && (takes1 ==> Follows(out, in1.flit) && RrInv(s', port0, in1, in1))
      && (!takes0 && !takes1 ==> RrInv(s', port0, port1, out))
  {}

  // ---------- The invariant of the whole ring ----------

  /** The stage at whose demultiplexer packets from `src` to `dst` leave the line. */
  function ExitStage(n: nat, src: nat, dst: nat): nat { if src < dst then dst else dst + n }

  /** Where a flit may be stored: from its source on, before its exit. */
  predicate OnItsWay(n: nat, f: Flit, k: nat) {
    f.src <= k && (f.dst < n ==> k < ExitStage(n, f.src, f.dst))
  }

  predicate StageInv(r: Ring, k: nat)
    requires Shape(r) && k < 2 * r.n
  {
    && |r.bufs[k].q| <= r.capacity
    && Chained(r.bufs[k].lastOut, r.bufs[k].q) && AllHonest(r.bufs[k].q)
    && AllOnTheirWay(r.n, r.bufs[k].q, k)
    && (k > 0 ==> LinkInv(r.bufs[k - 1], r.demux[k], r.passed[k], Port(r, k)))
    && (k == 0 ==> r.passed[0].ring.None? && r.passed[0].port.None?)
    && MuxInv(if k < r.n then r.mux[k] else WormRing, r.passed[k].ring, if k < r.n then r.lastInjected[k] else None,
              LastOf(r.bufs[k].lastOut, r.bufs[k].q))
  }

  predicate AllFor(q: seq<Flit>, p: nat) { forall i :: 0 <= i < |q| ==> q[i].dst == p }

  predicate PortInv(r: Ring, p: nat)
    requires Shape(r) && p < r.n
  {
    && Chained(r.lastInjected[p], r.todo[p]) && AllHonest(r.todo[p])
    && (forall i :: 0 <= i < |r.todo[p]| ==> r.todo[p][i].src == p)
    && Between(LastOf(r.lastInjected[p], r.todo[p]))
    && Chained(None, r.out[p])
    && AllFor(r.out[p], p)
    && RrInv(r.rr[p], r.passed[p].port, r.passed[p + r.n].port, LastOf(None, r.out[p]))
  }

  predicate Inv(r: Ring) {
    && Shape(r)
    && (forall k :: 0 <= k < 2 * r.n ==> StageInv(r, k))
    && (forall p :: 0 <= p < r.n ==> PortInv(r, p))
  }

  /** What arrives at stage `k` is switched by its destination and continues the side it goes to. */
  lemma ArrivalSwitched(r: Ring, k: nat)
    requires Inv(r) && k < 2 * r.n
    ensures ToRing(r, k) ==> var f := Input(r, k).flit;
      Follows(r.passed[k].ring, f) && Honest(f) && OnItsWay(r.n, f, k)
    ensures ToPort(r, k) ==> var f := Input(r, k).flit;
      Follows(r.passed[k].port, f) && f.dst == Port(r, k) && f.src < k && k == ExitStage(r.n, f.src, f.dst)
  {
    if Input(r, k).Some? {
      assert StageInv(r, k) && StageInv(r, k - 1);
      SwitchByDestination(r.bufs[k - 1], r.demux[k], r.passed[k], Port(r, k));
      assert Honest(r.bufs[k - 1].q[0]) && OnItsWay(r.n, r.bufs[k - 1].q[0], k - 1);
    }
  }

  ghost function MuxOf(r: Ring, k: nat): MuxState
    requires Shape(r) && k < 2 * r.n
  {
    if k < r.n then r.mux[k] else WormRing
  }

  ghost function InjectedOf(r: Ring, k: nat): Channel
    requires Shape(r) && k < 2 * r.n
  {
    if k < r.n then r.lastInjected[k] else None
  }

  lemma OfferFollows(r: Ring, e: Ports, k: nat)
    requires Inv(r) && PortsShape(r, e) && k < r.n
    ensures Offered(r, e, k).Some? ==> var f := Offered(r, e, k).flit;
      Follows(r.lastInjected[k], f) && Honest(f) && OnItsWay(r.n, f, k) && f == r.todo[k][0]
  {
    assert PortInv(r, k);
  }

  /** The part of a cycle that concerns stage `k`. */
  ghost predicate StageStep(r: Ring, e: Ports, r': Ring, k: nat)
    requires Shape(r) && PortsShape(r, e) && k < 2 * r.n
  {
    && Shape(r') && r'.n == r.n && r'.capacity == r.capacity
    && r'.bufs[k] == BufferAfter(r, e, k) && r'.demux[k] == DemuxAfter(r, e, k) && r'.passed[k] == PassedAfter(r, e, k)
    && (k < r.n ==>
          && r'.mux[k] == MuxAfter(r, e, k)
          && r'.todo[k] == TodoAfter(r, e, k) && r'.lastInjected[k] == LastInjectedAfter(r, e, k))
  }

  ghost predicate PortStep(r: Ring, e: Ports, r': Ring, p: nat)
    requires Shape(r) && PortsShape(r, e) && p < r.n
  {
    && Shape(r') && r'.n == r.n
    && r'.rr[p] == RrAfter(r, e, p)
    && r'.out[p] == r.out[p] + Leaves(r, e, p)
  }

  /** The cycle, seen stage by stage and port by port. */
  ghost predicate Cycle(r: Ring, e: Ports, r': Ring) {
    && Shape(r) && PortsShape(r, e)
    && (forall k :: 0 <= k < 2 * r.n ==> StageStep(r, e, r', k))
    && (forall p :: 0 <= p < r.n ==> PortStep(r, e, r', p))
  }

  lemma NextStepsStage(r: Ring, e: Ports, k: nat)
    requires Shape(r) && PortsShape(r, e) && k < 2 * r.n
    ensures StageStep(r, e, Next(r, e), k)
  {}

  lemma NextStepsPort(r: Ring, e: Ports, p: nat)
    requires Shape(r) && PortsShape(r, e) && p < r.n
    ensures PortStep(r, e, Next(r, e), p)
  {}

  lemma NextIsCycle(r: Ring, e: Ports)
    requires Shape(r) && PortsShape(r, e)
    ensures Cycle(r, e, Next(r, e))
  {
    forall k | 0 <= k < 2 * r.n ensures StageStep(r, e, Next(r, e), k) { NextStepsStage(r, e, k); }
    forall p | 0 <= p < r.n ensures PortStep(r, e, Next(r, e), p) { NextStepsPort(r, e, p); }
  }

  lemma EnteringFollows(r: Ring, e: Ports, r': Ring, k: nat)
    requires Inv(r) && PortsShape(r, e) && k < 2 * r.n && StageStep(r, e, r', k)
    ensures Enters(r, e, k) != [] ==> var f := Enters(r, e, k)[0];
      Follows(LastOf(r.bufs[k].lastOut, r.bufs[k].q), f) && Honest(f) && OnItsWay(r.n, f, k)
    ensures Enters(r, e, k) != [] ==> |r.bufs[k].q| < r.capacity
    ensures MuxInv(MuxOf(r', k), r'.passed[k].ring, InjectedOf(r', k),
                   LastOf(LastOf(r.bufs[k].lastOut, r.bufs[k].q), Enters(r, e, k)))
  {
    assert StageInv(r, k);
    ArrivalSwitched(r, k);
    if k < r.n {
      OfferFollows(r, e, k);
      MuxKept(r.mux[k], r.passed[k].ring, r.lastInjected[k], LastOf(r.bufs[k].lastOut, r.bufs[k].q),
              if ToRing(r, k) then Input(r, k) else None, Offered(r, e, k), |r.bufs[k].q| < r.capacity);
    }
  }

  predicate AllOnTheirWay(n: nat, q: seq<Flit>, k: nat) {
    forall i :: 0 <= i < |q| ==> OnItsWay(n, q[i], k)
  }

  lemma NextBufferKept(b: Buffer, taken: bool, more: seq<Flit>, n: nat, k: nat)
    requires Chained(b.lastOut, b.q) && AllHonest(b.q) && AllOnTheirWay(n, b.q, k)
    requires taken ==> b.q != []
    requires |more| <= 1
    requires more != [] ==> Follows(LastOf(b.lastOut, b.q), more[0]) && Honest(more[0]) && OnItsWay(n, more[0], k)
    ensures var b' := NextBuffer(b, taken, more);
      && Chained(b'.lastOut, b'.q) && AllHonest(b'.q) && AllOnTheirWay(n, b'.q, k)
      && LastOf(b'.lastOut, b'.q) == LastOf(LastOf(b.lastOut, b.q), more)
  {
    QueueKept(if taken then Some(b.q[0]) else b.lastOut, if taken then b.q[1..] else b.q, more, n, k);
  }

  lemma QueueKept(last: Channel, q: seq<Flit>, more: seq<Flit>, n: nat, k: nat)
    requires Chained(last, q) && AllHonest(q) && AllOnTheirWay(n, q, k) && |more| <= 1
    requires more != [] ==> Follows(LastOf(last, q), more[0]) && Honest(more[0]) && OnItsWay(n, more[0], k)
    ensures Chained(last, q + more) && AllHonest(q + more) && AllOnTheirWay(n, q + more, k)
    ensures LastOf(last, q + more) == LastOf(LastOf(last, q), more)
  {
    ChainedAppend(last, q, more);
    HonestAppend(q, more);
    OnTheirWayAppend(q, more, n, k);
    LastOfAppend(last, q, more);
  }

  lemma HonestAppend(q: seq<Flit>, more: seq<Flit>)
    requires AllHonest(q) && |more| <= 1 && (more != [] ==> Honest(more[0]))
    ensures AllHonest(q + more)
  {
    forall i | 0 <= i < |q + more| ensures Honest((q + more)[i]) {
      if i < |q| {
        assert (q + more)[i] == q[i];
      } else {
        assert (q + more)[i] == more[0];
      }
    }
  }

  lemma OnTheirWayAppend(q: seq<Flit>, more: seq<Flit>, n: nat, k: nat)
    requires AllOnTheirWay(n, q, k) && |more| <= 1 && (more != [] ==> OnItsWay(n, more[0], k))
    ensures AllOnTheirWay(n, q + more, k)
  {
    forall i | 0 <= i < |q + more| ensures OnItsWay(n, (q + more)[i], k) {
      if i < |q| {
        assert (q + more)[i] == q[i];
      } else {
        assert (q + more)[i] == more[0];
      }
    }
  }

  lemma LastOfAppend(last: Channel, q: seq<Flit>, more: seq<Flit>)
    ensures LastOf(last, q + more) == LastOf(LastOf(last, q), more)
  {
    if more == [] {
      assert q + more == q;
    }
  }

  lemma LinkOfStageKept(r: Ring, e: Ports, r': Ring, k: nat)
    requires Inv(r) && PortsShape(r, e) && 0 < k < 2 * r.n
    requires StageStep(r, e, r', k) && StageStep(r, e, r', k - 1)
    ensures LinkInv(r'.bufs[k - 1], r'.demux[k], r'.passed[k], Port(r', k))
  {
    assert StageInv(r, k);
    EnteringFollows(r, e, r', k - 1);
    LinkKept(r.bufs[k - 1], r.demux[k], r.passed[k], Port(r, k), Forwards(r, k), Delivers(r, e, k),
             Enters(r, e, k - 1));
  }

  lemma StageKept(r: Ring, e: Ports, r': Ring, k: nat)
    requires Inv(r) && PortsShape(r, e) && k < 2 * r.n
    requires StageStep(r, e, r', k) && (k > 0 ==> StageStep(r, e, r', k - 1))
    ensures StageInv(r', k)
  {
    assert StageInv(r, k);
    EnteringFollows(r, e, r', k);
    NextBufferKept(r.bufs[k], Takes(r, e, k + 1), Enters(r, e, k), r.n, k);
    if k > 0 {
      LinkOfStageKept(r, e, r', k);
    }
  }

  lemma OutGrows(out: seq<Flit>, fs: seq<Flit>, p: nat)
    requires Chained(None, out) && AllFor(out, p) && |fs| <= 1
    requires fs != [] ==> Follows(LastOf(None, out), fs[0]) && fs[0].dst == p
    ensures Chained(None, out + fs) && AllFor(out + fs, p)
    ensures LastOf(None, out + fs) == if fs == [] then LastOf(None, out) else Some(fs[0])
  {
    ChainedAppend(None, out, fs);
    assert out + [] == out;
  }

  lemma OutKept(r: Ring, e: Ports, r': Ring, p: nat)
    requires Inv(r) && PortsShape(r, e) && p < r.n && PortStep(r, e, r', p)
    requires StageStep(r, e, r', p) && StageStep(r, e, r', p + r.n)
    ensures Chained(None, r'.out[p]) && AllFor(r'.out[p], p)
    ensures RrInv(r'.rr[p], r'.passed[p].port, r'.passed[p + r.n].port, LastOf(None, r'.out[p]))
  {
    var n := r.n;
    assert PortInv(r, p);
    ArrivalSwitched(r, p);
    ArrivalSwitched(r, p + n);
    RrKept(r.rr[p], r.passed[p].port, r.passed[p + n].port, LastOf(None, r.out[p]),
           if ToPort(r, p) then Input(r, p) else None, if ToPort(r, p + n) then Input(r, p + n) else None, e.ready[p]);
    OutGrows(r.out[p], Leaves(r, e, p), p);
  }

  lemma TodoKept(r: Ring, e: Ports, p: nat)
    requires Inv(r) && PortsShape(r, e) && p < r.n
    ensures var last, todo := LastInjectedAfter(r, e, p), TodoAfter(r, e, p);
      && Chained(last, todo) && AllHonest(todo) && Between(LastOf(last, todo))
      && forall i :: 0 <= i < |todo| ==> todo[i].src == p
  {
    assert PortInv(r, p);
  }

  lemma PortKept(r: Ring, e: Ports, r': Ring, p: nat)
    requires Inv(r) && PortsShape(r, e) && p < r.n && PortStep(r, e, r', p)
    requires StageStep(r, e, r', p) && StageStep(r, e, r', p + r.n)
    ensures PortInv(r', p)
  {
    TodoKept(r, e, p);
    OutKept(r, e, r', p);
  }

  lemma InvKept(r: Ring, e: Ports, r': Ring)
    requires Inv(r) && Cycle(r, e, r')
    ensures Inv(r')
  {
    assert StageStep(r, e, r', 0);
    forall k | 0 <= k < 2 * r.n ensures StageInv(r', k) {
      assert StageStep(r, e, r', k) && (k > 0 ==> StageStep(r, e, r', k - 1));
      StageKept(r, e, r', k);
    }
    forall p | 0 <= p < r.n ensures PortInv(r', p) {
      assert StageStep(r, e, r', p) && StageStep(r, e, r', p + r.n);
      PortKept(r, e, r', p);
    }
  }

  // ---------- Conservation ----------

  predicate Travels(f: Flit, src: nat, dst: nat) { f.src == src && f.dst == dst }

  /** The flits of `q` that travel from `src` to `dst`, in order. */
  function Of(q: seq<Flit>, src: nat, dst: nat): (fs: seq<Flit>)
    decreases |q|
  {
    if q == [] then []
    else (if Travels(q[0], src, dst) then [q[0]] else []) + Of(q[1..], src, dst)
  }

  lemma {:induction false} OfAppend(a: seq<Flit>, b: seq<Flit>, src: nat, dst: nat)
    ensures Of(a + b, src, dst) == Of(a, src, dst) + Of(b, src, dst)
    decreases |a|
  {
    if a == [] {
      assert a + b == b;
    } else {
      OfAppend(a[1..], b, src, dst);
      assert (a + b)[1..] == a[1..] + b;
    }
  }

  /** Entries `lo` to `hi - 1`, the last one first. */
  function Backwards(qs: seq<seq<Flit>>, lo: nat, hi: nat): seq<Flit>
    requires hi <= |qs|
    decreases hi
  {
    if hi <= lo then [] else qs[hi - 1] + Backwards(qs, lo, hi - 1)
  }

  /** If every queue hands its front on to the next queue's back, the whole line is a queue. */
  lemma {:induction false} QueuesInARow(qs: seq<seq<Flit>>, qs': seq<seq<Flit>>, gives: seq<seq<Flit>>,
                                        gets: seq<seq<Flit>>, lo: nat, hi: nat)
    requires |qs| == |qs'| == |gets| && |gives| == |qs| + 1 && lo < hi <= |qs|
    requires forall k :: lo <= k < hi ==> gives[k + 1] + qs'[k] == qs[k] + gets[k]
    requires forall k :: lo < k < hi ==> gets[k] == gives[k]
    ensures gives[hi] + Backwards(qs', lo, hi) == Backwards(qs, lo, hi) + gets[lo]
    decreases hi
  {
    var k := hi - 1;
    assert gives[k + 1] + qs'[k] == qs[k] + gets[k];
    if k > lo {
      QueuesInARow(qs, qs', gives, gets, lo, k);
    }
    Regroup(gives[hi], qs'[k], Backwards(qs', lo, k), qs[k], gets[k], Backwards(qs, lo, k), gets[lo]);
  }

  lemma Regroup(a: seq<Flit>, b: seq<Flit>, c: seq<Flit>, d: seq<Flit>, x: seq<Flit>, f: seq<Flit>, g: seq<Flit>)
    requires a + b == d + x && x + c == f + g
    ensures a + (b + c) == (d + f) + g
  {
    assert a + (b + c) == (a + b) + c == d + (x + c) == (d + f) + g;
  }

  function StoredOf(bufs: seq<Buffer>, src: nat, dst: nat): (qs: seq<seq<Flit>>)
    ensures |qs| == |bufs|
  {
    seq(|bufs|, k requires 0 <= k < |bufs| => Of(bufs[k].q, src, dst))
  }

  /** The flits from `src` to `dst` in buffers `lo` to `hi - 1`, the furthest first. */
  function InLine(bufs: seq<Buffer>, src: nat, dst: nat, lo: nat, hi: nat): seq<Flit>
    requires hi <= |bufs|
  {
    Backwards(StoredOf(bufs, src, dst), lo, hi)
  }

  /** Delivered, stored and not yet injected flits of one pair of ports, the oldest first. */
  function Line(r: Ring, src: nat, dst: nat): seq<Flit>
    requires Shape(r) && src < r.n && dst < r.n
  {
    Of(r.out[dst], src, dst) + InLine(r.bufs, src, dst, src, ExitStage(r.n, src, dst)) + Of(r.todo[src], src, dst)
  }

  function Taken(r: Ring, e: Ports, k: nat): seq<Flit>
    requires Shape(r) && PortsShape(r, e) && k <= 2 * r.n
  {
    if Takes(r, e, k) then [Input(r, k).flit] else []
  }

  function Injected(r: Ring, e: Ports, k: nat): seq<Flit>
    requires Shape(r) && PortsShape(r, e) && k < r.n
  {
    if Injects(r, e, k) then [r.todo[k][0]] else []
  }

  lemma BufferBalance(b: Buffer, taken: bool, entering: seq<Flit>, src: nat, dst: nat)
    requires taken ==> b.q != []
    ensures Of(if taken then [b.q[0]] else [], src, dst) + Of(NextBuffer(b, taken, entering).q, src, dst)
         == Of(b.q, src, dst) + Of(entering, src, dst)
  {
    OfAppend(b.q, entering, src, dst);
    if taken {
      assert [b.q[0]] + (b.q[1..] + entering) == b.q + entering;
      OfAppend([b.q[0]], b.q[1..] + entering, src, dst);
    } else {
      assert Of([], src, dst) == [];
    }
  }

  /** What enters buffer `k` from `src` to `dst` is what stage `k` has taken. */
  ghost predicate Hands(r: Ring, e: Ports, src: nat, dst: nat, k: nat)
    requires Shape(r) && PortsShape(r, e) && k < 2 * r.n
  {
    Of(Enters(r, e, k), src, dst) == Of(Taken(r, e, k), src, dst)
  }

  lemma OfOne(f: Flit, src: nat, dst: nat)
    ensures Of([f], src, dst) == if Travels(f, src, dst) then [f] else []
    ensures Of([], src, dst) == []
  {
    assert [f][1..] == [];
  }

  /** Between source and exit, what a buffer gives away is what the next one takes. */
  lemma HandedOn(r: Ring, e: Ports, k: nat, src: nat, dst: nat)
    requires Inv(r) && PortsShape(r, e) && src < k < ExitStage(r.n, src, dst) && src < r.n && dst < r.n
    ensures Hands(r, e, src, dst, k)
  {
    ArrivalSwitched(r, k);
    if k < r.n {
      assert PortInv(r, k);
      if r.todo[k] != [] {
        OfOne(r.todo[k][0], src, dst);
      }
    }
    if Input(r, k).Some? {
      OfOne(Input(r, k).flit, src, dst);
    }
  }

  lemma EntersAtSource(r: Ring, e: Ports, src: nat, dst: nat)
    requires Inv(r) && PortsShape(r, e) && src < r.n && dst < r.n
    ensures Of(Enters(r, e, src), src, dst) == Of(Injected(r, e, src), src, dst)
  {
    if Input(r, src).Some? {
      assert StageInv(r, src - 1);
      assert OnItsWay(r.n, r.bufs[src - 1].q[0], src - 1);
      OfOne(r.bufs[src - 1].q[0], src, dst);
    }
  }

  lemma LeavesAtExit(r: Ring, e: Ports, src: nat, dst: nat)
    requires Inv(r) && PortsShape(r, e) && src < r.n && dst < r.n
    ensures Of(Leaves(r, e, dst), src, dst) == Of(Taken(r, e, ExitStage(r.n, src, dst)), src, dst)
  {
    forall k | k == dst || k == dst + r.n
      ensures ToPort(r, k) && k != ExitStage(r.n, src, dst) ==> Of([Input(r, k).flit], src, dst) == []
      ensures ToRing(r, k) && k == ExitStage(r.n, src, dst) ==> Of([Input(r, k).flit], src, dst) == []
    {
      ArrivalSwitched(r, k);
      if Input(r, k).Some? {
        OfOne(Input(r, k).flit, src, dst);
      }
    }
    ExitTaken(r, e, src, dst);
  }

  /** The two demultiplexers of a port never deliver in the same cycle. */
  lemma ExitTaken(r: Ring, e: Ports, src: nat, dst: nat)
    requires Shape(r) && PortsShape(r, e) && src < r.n && dst < r.n
    ensures var exit := ExitStage(r.n, src, dst);
      var other := if exit == dst then dst + r.n else dst;
      && (Delivers(r, e, exit) ==> Leaves(r, e, dst) == Taken(r, e, exit) == [Input(r, exit).flit])
      && (!Delivers(r, e, exit) ==>
            && Leaves(r, e, dst) == (if Delivers(r, e, other) then [Input(r, other).flit] else [])
            && Taken(r, e, exit) == (if Forwards(r, exit) then [Input(r, exit).flit] else []))
  {}

  /** Stage `k` as one queue of the row, for one pair of ports. */
  ghost predicate Passes(r: Ring, e: Ports, r': Ring, src: nat, dst: nat, k: nat)
    requires Shape(r) && PortsShape(r, e) && Shape(r') && r'.n == r.n && k < 2 * r.n
  {
    Of(Taken(r, e, k + 1), src, dst) + Of(r'.bufs[k].q, src, dst)
      == Of(r.bufs[k].q, src, dst) + Of(Enters(r, e, k), src, dst)
  }

  lemma StagePasses(r: Ring, e: Ports, r': Ring, src: nat, dst: nat, k: nat)
    requires Cycle(r, e, r') && Shape(r') && r'.n == r.n && k < 2 * r.n
    ensures Passes(r, e, r', src, dst, k)
  {
    assert StageStep(r, e, r', k);
    BufferBalance(r.bufs[k], Takes(r, e, k + 1), Enters(r, e, k), src, dst);
  }

  lemma LineMoves(r: Ring, e: Ports, r': Ring, src: nat, dst: nat, exit: nat)
    requires Shape(r) && PortsShape(r, e) && Shape(r') && r'.n == r.n && src < exit < 2 * r.n
    requires forall k :: src <= k < exit ==> Passes(r, e, r', src, dst, k)
    requires forall k :: src < k < exit ==> Hands(r, e, src, dst, k)
    ensures Of(Taken(r, e, exit), src, dst) + InLine(r'.bufs, src, dst, src, exit)
         == InLine(r.bufs, src, dst, src, exit) + Of(Enters(r, e, src), src, dst)
  {
    var stages := 2 * r.n;
    var gives := seq(stages + 1, k requires 0 <= k <= stages => Of(Taken(r, e, k), src, dst));
    var gets := seq(stages, k requires 0 <= k < stages => Of(Enters(r, e, k), src, dst));
    var qs, qs' := StoredOf(r.bufs, src, dst), StoredOf(r'.bufs, src, dst);
    forall k | src <= k < exit ensures gives[k + 1] + qs'[k] == qs[k] + gets[k] {
      assert Passes(r, e, r', src, dst, k);
    }
    forall k | src < k < exit ensures gets[k] == gives[k] { assert Hands(r, e, src, dst, k); }
    QueuesInARow(qs, qs', gives, gets, src, exit);
  }

  lemma StoredMoves(r: Ring, e: Ports, r': Ring, src: nat, dst: nat)
    requires Inv(r) && Cycle(r, e, r') && Shape(r') && r'.n == r.n && src < r.n && dst < r.n
    ensures var exit := ExitStage(r.n, src, dst);
      Of(Leaves(r, e, dst), src, dst) + InLine(r'.bufs, src, dst, src, exit)
        == InLine(r.bufs, src, dst, src, exit) + Of(Injected(r, e, src), src, dst)
  {
    var exit := ExitStage(r.n, src, dst);
    forall k | src <= k < exit ensures Passes(r, e, r', src, dst, k) { StagePasses(r, e, r', src, dst, k); }
    forall k | src < k < exit ensures Hands(r, e, src, dst, k) { HandedOn(r, e, k, src, dst); }
    LineMoves(r, e, r', src, dst, exit);
    EntersAtSource(r, e, src, dst);
    LeavesAtExit(r, e, src, dst);
  }

  lemma EndsMove(r: Ring, e: Ports, r': Ring, src: nat, dst: nat)
    requires Cycle(r, e, r') && Shape(r') && r'.n == r.n && src < r.n && dst < r.n
    ensures Of(r'.out[dst], src, dst) == Of(r.out[dst], src, dst) + Of(Leaves(r, e, dst), src, dst)
    ensures Of(r.todo[src], src, dst) == Of(Injected(r, e, src), src, dst) + Of(r'.todo[src], src, dst)
  {
    assert StageStep(r, e, r', src) && PortStep(r, e, r', dst);
    OfAppend(r.out[dst], Leaves(r, e, dst), src, dst);
    assert r.todo[src] == Injected(r, e, src) + r'.todo[src];
    OfAppend(Injected(r, e, src), r'.todo[src], src, dst);
  }

  lemma LineKept(r: Ring, e: Ports, r': Ring, src: nat, dst: nat)
    requires Inv(r) && Cycle(r, e, r') && Shape(r') && r'.n == r.n && src < r.n && dst < r.n
    ensures Line(r', src, dst) == Line(r, src, dst)
  {
    var exit := ExitStage(r.n, src, dst);
    StoredMoves(r, e, r', src, dst);
    EndsMove(r, e, r', src, dst);
    Join(Of(r.out[dst], src, dst), Of(Leaves(r, e, dst), src, dst), InLine(r'.bufs, src, dst, src, exit),
         InLine(r.bufs, src, dst, src, exit), Of(Injected(r, e, src), src, dst), Of(r'.todo[src], src, dst));
  }

  lemma Join(out: seq<Flit>, leaves: seq<Flit>, line': seq<Flit>, line: seq<Flit>, injected: seq<Flit>,
             todo': seq<Flit>)
    requires leaves + line' == line + injected
    ensures (out + leaves) + line' + todo' == out + line + (injected + todo')
  {
    assert (out + leaves) + line' == out + (leaves + line') == (out + line) + injected;
  }

  // ---------- No deadlock ----------

  /** A locked multiplexer has a flit to wait for. */
  ghost predicate LockInv(r: Ring, k: nat)
    requires Shape(r) && k < r.n
  {
    && (r.mux[k].WormLocal? ==> r.todo[k] != [])
    && (r.mux[k].WormRing? && Between(r.passed[k].ring) ==> ToRing(r, k))
    && (RrLocked(r, k) ==> ToPort(r, k))
    && (RrLocked(r, k + r.n) ==> ToPort(r, k + r.n))
  }

  ghost predicate AllLocksInv(r: Ring) {
    Shape(r) && forall k :: 0 <= k < r.n ==> LockInv(r, k)
  }

  /** What is not taken in a cycle arrives unchanged in the next one. */
  lemma ArrivalStays(r: Ring, e: Ports, r': Ring, k: nat)
    requires Inv(r) && Cycle(r, e, r') && Shape(r') && r'.n == r.n && k < 2 * r.n && !Takes(r, e, k)
    ensures ToRing(r, k) ==> ToRing(r', k)
    ensures ToPort(r, k) ==> ToPort(r', k)
  {
    assert StageStep(r, e, r', k) && (k > 0 ==> StageStep(r, e, r', k - 1));
  }

  lemma MuxLockKept(r: Ring, e: Ports, r': Ring, k: nat)
    requires Inv(r) && Cycle(r, e, r') && Shape(r') && r'.n == r.n && k < r.n && LockInv(r, k)
    ensures r'.mux[k].WormLocal? ==> r'.todo[k] != []
    ensures r'.mux[k].WormRing? && Between(r'.passed[k].ring) ==> ToRing(r', k)
  {
    assert StageStep(r, e, r', k) && PortInv(r, k) && StageInv(r, k);
    if !Takes(r, e, k) {
      ArrivalStays(r, e, r', k);
    }
  }

  ghost predicate RrLocked(r: Ring, k: nat)
    requires Shape(r) && k < 2 * r.n
  {
    var s := r.rr[Port(r, k)];
    (if k < r.n then s.Worm0? else s.Worm1?) && Between(r.passed[k].port)
  }

  /** A lock that holds without a packet under way waits for a flit that is there. */
  lemma RrLockStep(s: RrState, in0: Channel, in1: Channel, port0: Channel, port1: Channel, ready: bool)
    ensures var s' := RrNext(s, in0, in1, ready);
      var takes0 := in0.Some? && ready && RrGranted(s, false, in0.Some?, in1.Some?);
      var takes1 := in1.Some? && ready && RrGranted(s, true, in0.Some?, in1.Some?);
      && ((s == Worm0 && Between(port0) ==> in0.Some?)
          ==> (s' == Worm0 && Between(if takes0 then in0 else port0) ==> in0.Some? && !takes0))
      && ((s == Worm1 && Between(port1) ==> in1.Some?)
          ==> (s' == Worm1 && Between(if takes1 then in1 else port1) ==> in1.Some? && !takes1))
  {}

  lemma RrLockKept(r: Ring, e: Ports, r': Ring, k: nat)
    requires Inv(r) && Cycle(r, e, r') && Shape(r') && r'.n == r.n && k < 2 * r.n
    requires RrLocked(r, k) ==> ToPort(r, k)
    ensures RrLocked(r', k) ==> ToPort(r', k)
  {
    var p, n := Port(r, k), r.n;
    assert StageStep(r, e, r', k) && PortStep(r, e, r', p);
    RrLockStep(r.rr[p], if ToPort(r, p) then Input(r, p) else None, if ToPort(r, p + n) then Input(r, p + n) else None,
               r.passed[p].port, r.passed[p + n].port, e.ready[p]);
    if RrLocked(r', k) {
      assert ToPort(r, k) && !Takes(r, e, k);
      ArrivalStays(r, e, r', k);
    }
  }

  lemma LockKept(r: Ring, e: Ports, r': Ring, k: nat)
    requires Inv(r) && Cycle(r, e, r') && Shape(r') && r'.n == r.n && k < r.n && LockInv(r, k)
    ensures LockInv(r', k)
  {
    MuxLockKept(r, e, r', k);
    RrLockKept(r, e, r', k);
    RrLockKept(r, e, r', k + r.n);
  }

  /** Something passes the input of stage `k`, or port `k` injects. */
  ghost predicate MovesAt(r: Ring, e: Ports, k: nat)
    requires Shape(r) && PortsShape(r, e) && k <= 2 * r.n
  {
    Takes(r, e, k) || (k < r.n && Injects(r, e, k))
  }

  /** All ports offer what they have and are ready to receive. */
  predicate AllWilling(n: nat, e: Ports) {
    |e.offer| == |e.ready| == n && forall p :: 0 <= p < n ==> e.offer[p] && e.ready[p]
  }

  ghost predicate Willing(r: Ring, e: Ports) { PortsShape(r, e) && AllWilling(r.n, e) }

  /** What arrives in the middle of a packet goes where its header went. */
  lemma WormGoesOn(r: Ring, k: nat)
    requires Inv(r) && k < 2 * r.n
    ensures Input(r, k).Some? && !Between(r.passed[k].ring) ==> ToRing(r, k)
    ensures Input(r, k).Some? && !Between(r.passed[k].port) ==> ToPort(r, k)
    ensures k > 0 && !(Between(r.passed[k].ring) && Between(r.passed[k].port)) ==> !Between(r.bufs[k - 1].lastOut)
  {
    assert StageInv(r, k);
  }

  /** A worm whose end has not left an empty buffer moves further upstream. */
  lemma {:induction false} TailMoves(r: Ring, e: Ports, k: nat) returns (j: nat)
    requires Inv(r) && AllLocksInv(r) && Shape(r) && Willing(r, e) && k < 2 * r.n
    requires r.bufs[k].q == [] && !Between(r.bufs[k].lastOut)
    ensures j <= k && MovesAt(r, e, j)
    decreases k
  {
    assert StageInv(r, k) && (k < r.n ==> LockInv(r, k));
    WormGoesOn(r, k);
    j := k;
    if !MovesAt(r, e, k) {
      // The worm came along the ring, and its next flit is not here yet.
      assert k > 0 && !Between(r.passed[k].ring);
      j := TailMoves(r, e, k - 1);
    }
  }

  lemma LocalOutputMoves(r: Ring, e: Ports, k: nat) returns (j: nat)
    requires Inv(r) && AllLocksInv(r) && Willing(r, e) && k < 2 * r.n && ToPort(r, k)
    ensures j <= 2 * r.n && MovesAt(r, e, j)
  {
    var p := Port(r, k);
    var other := if k < r.n then p + r.n else p;
    assert LockInv(r, p) && PortInv(r, p) && StageInv(r, other);
    WormGoesOn(r, other);
    j := k;
    if !MovesAt(r, e, k) {
      j := other;
      if !MovesAt(r, e, other) {
        // The output waits for a worm from the other chain.
        assert other > 0 && !Between(r.passed[other].port);
        j := TailMoves(r, e, other - 1);
      }
    }
  }

  /** The ring never locks up: while ports are willing and anything is left, some flit moves. */
  lemma SomethingMoves(r: Ring, e: Ports, k: nat) returns (j: nat)
    requires Inv(r) && AllLocksInv(r) && Willing(r, e) && k < 2 * r.n
    requires r.bufs[k].q != [] || (k < r.n && r.todo[k] != [])
    requires forall i :: k < i < 2 * r.n ==> r.bufs[i].q == []
    ensures j <= 2 * r.n && MovesAt(r, e, j)
  {
    if r.bufs[k].q == [] {
      j := MuxMoves(r, e, k);
    } else if k + 1 == 2 * r.n {
      j := k + 1;
    } else if ToPort(r, k + 1) {
      j := LocalOutputMoves(r, e, k + 1);
    } else if k + 1 < r.n {
      j := MuxMoves(r, e, k + 1);
    } else {
      j := k + 1;
      assert StageInv(r, k + 1);
    }
  }

  /** An empty buffer behind a multiplexer with a candidate gets a flit, or the worm it waits for moves. */
  lemma MuxMoves(r: Ring, e: Ports, k: nat) returns (j: nat)
    requires Inv(r) && AllLocksInv(r) && Willing(r, e) && k < r.n
    requires r.bufs[k].q == [] && (ToRing(r, k) || r.todo[k] != [])
    ensures j <= 2 * r.n && MovesAt(r, e, j)
  {
    assert LockInv(r, k) && StageInv(r, k);
    WormGoesOn(r, k);
    j := k;
    if !MovesAt(r, e, k) {
      assert r.mux[k].WormRing? && k > 0 && !Between(r.passed[k].ring);
      j := TailMoves(r, e, k - 1);
    }
  }

  // ---------- Everything arrives ----------

  /** The flits in buffers below stage `hi`, injected or not: they still have to pass its input. */
  function Ahead(r: Ring, hi: nat): (count: nat)
    requires Shape(r) && hi <= 2 * r.n
    decreases hi
  {
    if hi == 0 then 0
    else |r.bufs[hi - 1].q| + (if hi - 1 < r.n then |r.todo[hi - 1]| else 0) + Ahead(r, hi - 1)
  }

  function Waiting(r: Ring, hi: nat): (count: nat)
    requires Shape(r) && hi <= r.n
    decreases hi
  {
    if hi == 0 then 0 else |r.todo[hi - 1]| + Waiting(r, hi - 1)
  }

  /** A bound on the moves still to make: every flit once past every later input, and once injected. */
  function Work(r: Ring, hi: nat): (w: nat)
    requires Shape(r) && hi <= 2 * r.n
    decreases hi
  {
    (if hi == 0 then Waiting(r, r.n) else Ahead(r, hi) + Work(r, hi - 1))
  }

  lemma {:induction false} AheadFalls(r: Ring, e: Ports, r': Ring, hi: nat)
    requires Cycle(r, e, r') && Inv(r) && Shape(r') && r'.n == r.n && hi <= 2 * r.n
    ensures Ahead(r', hi) <= Ahead(r, hi) - |Taken(r, e, hi)|
    decreases hi
  {
    if hi > 0 {
      var k := hi - 1;
      assert StageStep(r, e, r', k);
      AheadFalls(r, e, r', k);
      assert |r'.bufs[k].q| == |r.bufs[k].q| - |Taken(r, e, hi)| + |Enters(r, e, k)|;
    }
  }

  lemma {:induction false} WaitingFalls(r: Ring, e: Ports, r': Ring, hi: nat, j: nat)
    requires Cycle(r, e, r') && Shape(r') && r'.n == r.n && hi <= r.n
    ensures Waiting(r', hi) <= Waiting(r, hi) - if j < hi then |Injected(r, e, j)| else 0
    decreases hi
  {
    if hi > 0 {
      assert StageStep(r, e, r', hi - 1);
      WaitingFalls(r, e, r', hi - 1, j);
    }
  }

  lemma {:induction false} WorkFalls(r: Ring, e: Ports, r': Ring, hi: nat, j: nat)
    requires Inv(r) && Cycle(r, e, r') && Shape(r') && r'.n == r.n && hi <= 2 * r.n && j <= 2 * r.n
    ensures Work(r', hi) <= Work(r, hi) - (if j <= hi then |Taken(r, e, j)| else 0)
                            - if j < r.n then |Injected(r, e, j)| else 0
    decreases hi
  {
    if hi == 0 {
      WaitingFalls(r, e, r', r.n, j);
    } else {
      AheadFalls(r, e, r', hi);
      WorkFalls(r, e, r', hi - 1, j);
    }
  }

  ghost predicate Drained(r: Ring)
    requires Shape(r)
  {
    (forall k :: 0 <= k < 2 * r.n ==> r.bufs[k].q == []) && (forall p :: 0 <= p < r.n ==> r.todo[p] == [])
  }

  lemma {:induction false} LastOccupied(r: Ring, hi: nat) returns (k: nat)
    requires Shape(r) && 0 < hi <= 2 * r.n
    requires exists i :: 0 <= i < hi && (r.bufs[i].q != [] || (i < r.n && r.todo[i] != []))
    requires forall i :: hi <= i < 2 * r.n ==> r.bufs[i].q == []
    ensures k < 2 * r.n && (r.bufs[k].q != [] || (k < r.n && r.todo[k] != []))
    ensures forall i :: k < i < 2 * r.n ==> r.bufs[i].q == []
    decreases hi
  {
    k := hi - 1;
    if r.bufs[k].q == [] && !(k < r.n && r.todo[k] != []) {
      k := LastOccupied(r, hi - 1);
    }
  }

  /** A cycle in which all ports are willing makes progress unless nothing is left. */
  lemma WillingCycleWorks(r: Ring, e: Ports, r': Ring)
    requires Inv(r) && AllLocksInv(r) && Willing(r, e) && Cycle(r, e, r') && Shape(r') && r'.n == r.n
    ensures Drained(r) || Work(r', 2 * r.n) < Work(r, 2 * r.n)
  {
    if !Drained(r) {
      var k := LastOccupied(r, 2 * r.n);
      var j := SomethingMoves(r, e, k);
      WorkFalls(r, e, r', 2 * r.n, j);
    }
  }

  // ---------- Whole runs ----------

  predicate RunShape(n: nat, run: seq<Ports>) {
    forall i :: 0 <= i < |run| ==> |run[i].offer| == |run[i].ready| == n
  }

  function Run(r: Ring, run: seq<Ports>): (r': Ring)
    requires Shape(r) && RunShape(r.n, run)
    ensures Shape(r') && r'.n == r.n
    decreases |run|
  {
    if run == [] then r else Run(Next(r, run[0]), run[1..])
  }

  /** An idle ring whose ports have the packet streams `todo` to inject. */
  function Idle(n: nat, capacity: nat, todo: seq<seq<Flit>>): Ring {
    Ring(n, capacity,
         seq(2 * n, _ => Buffer([], None)), seq(2 * n, _ => Demux(false, false)), seq(2 * n, _ => Passed(None, None)),
         seq(n, _ => NoWorm), seq(n, _ => NoWorm0), todo, seq(n, _ => None), seq(n, _ => []), [])
  }

  /** Whole packets of port `p`, one after the other, each header naming the destination. */
  predicate IsWorkload(q: seq<Flit>, p: nat) {
    && Chained(None, q) && AllHonest(q) && Between(LastOf(None, q))
    && forall i :: 0 <= i < |q| ==> q[i].src == p
  }

  predicate WorkloadShape(n: nat, capacity: nat, todo: seq<seq<Flit>>) {
    1 <= n <= 1024 && capacity >= 1 && |todo| == n && forall p :: 0 <= p < n ==> IsWorkload(todo[p], p)
  }

  lemma IdleInv(n: nat, capacity: nat, todo: seq<seq<Flit>>)
    requires WorkloadShape(n, capacity, todo)
    ensures Inv(Idle(n, capacity, todo)) && AllLocksInv(Idle(n, capacity, todo))
  {
    var r := Idle(n, capacity, todo);
    forall k | 0 <= k < 2 * n ensures StageInv(r, k) {}
    forall p | 0 <= p < n ensures PortInv(r, p) && LockInv(r, p) {
      assert IsWorkload(todo[p], p);
    }
  }

  lemma CycleKeepsLocks(r: Ring, e: Ports, r': Ring)
    requires Inv(r) && AllLocksInv(r) && Cycle(r, e, r') && Shape(r') && r'.n == r.n
    ensures AllLocksInv(r')
  {
    forall k | 0 <= k < r.n ensures LockInv(r', k) { LockKept(r, e, r', k); }
  }

  lemma CycleKeepsLines(r: Ring, e: Ports, r': Ring)
    requires Inv(r) && Cycle(r, e, r') && Shape(r') && r'.n == r.n
    ensures forall src, dst :: 0 <= src < r.n && 0 <= dst < r.n ==> Line(r', src, dst) == Line(r, src, dst)
  {
    forall src, dst | 0 <= src < r.n && 0 <= dst < r.n ensures Line(r', src, dst) == Line(r, src, dst) {
      LineKept(r, e, r', src, dst);
    }
  }

  lemma StepKeepsAll(r: Ring, e: Ports)
    requires Inv(r) && AllLocksInv(r) && PortsShape(r, e)
    ensures Inv(Next(r, e)) && AllLocksInv(Next(r, e)) && Cycle(r, e, Next(r, e)) && Next(r, e).n == r.n
    ensures forall src, dst :: 0 <= src < r.n && 0 <= dst < r.n ==> Line(Next(r, e), src, dst) == Line(r, src, dst)
  {
    var r' := Next(r, e);
    NextIsCycle(r, e);
    InvKept(r, e, r');
    CycleKeepsLocks(r, e, r');
    CycleKeepsLines(r, e, r');
  }

  lemma {:induction false} RunKeepsAll(r: Ring, run: seq<Ports>)
    requires Inv(r) && AllLocksInv(r) && RunShape(r.n, run)
    ensures Inv(Run(r, run)) && AllLocksInv(Run(r, run))
    ensures forall src, dst :: 0 <= src < r.n && 0 <= dst < r.n ==> Line(Run(r, run), src, dst) == Line(r, src, dst)
    decreases |run|
  {
    if run != [] {
      StepKeepsAll(r, run[0]);
      RunKeepsAll(Next(r, run[0]), run[1..]);
    }
  }

  /** The number of cycles in which all ports are willing. */
  function WillingCycles(n: nat, run: seq<Ports>): nat {
    if run == [] then 0 else (if AllWilling(n, run[0]) then 1 else 0) + WillingCycles(n, run[1..])
  }

  /** No cycle adds work, and every willing one uses some up. */
  lemma {:induction false} WillingRunDrains(r: Ring, run: seq<Ports>)
    requires Inv(r) && AllLocksInv(r) && RunShape(r.n, run)
    ensures Drained(Run(r, run)) || Work(Run(r, run), 2 * r.n) + WillingCycles(r.n, run) <= Work(r, 2 * r.n)
    decreases |run|
  {
    if run != [] {
      var r' := Next(r, run[0]);
      StepKeepsAll(r, run[0]);
      WorkFalls(r, run[0], r', 2 * r.n, 0);
      WillingRunDrains(r', run[1..]);
      if Drained(r) {
        DrainedStays(r, run[0], r');
        DrainedRun(r', run[1..]);
      } else if AllWilling(r.n, run[0]) {
        WillingCycleWorks(r, run[0], r');
      }
    }
  }

  lemma DrainedStays(r: Ring, e: Ports, r': Ring)
    requires Inv(r) && Cycle(r, e, r') && Shape(r') && r'.n == r.n && Drained(r)
    ensures Drained(r')
  {
    forall k | 0 <= k < 2 * r.n ensures r'.bufs[k].q == [] && (k < r.n ==> r'.todo[k] == []) {
      assert StageStep(r, e, r', k);
    }
  }

  lemma {:induction false} DrainedRun(r: Ring, run: seq<Ports>)
    requires Inv(r) && AllLocksInv(r) && RunShape(r.n, run) && Drained(r)
    ensures Drained(Run(r, run))
    decreases |run|
  {
    if run != [] {
      StepKeepsAll(r, run[0]);
      DrainedStays(r, run[0], Next(r, run[0]));
      DrainedRun(Next(r, run[0]), run[1..]);
    }
  }

  lemma {:induction false} NothingInLine(bufs: seq<Buffer>, src: nat, dst: nat, lo: nat, hi: nat)
    requires hi <= |bufs| && forall k :: lo <= k < hi ==> bufs[k].q == []
    ensures InLine(bufs, src, dst, lo, hi) == []
    decreases hi
  {
    if hi > lo {
      NothingInLine(bufs, src, dst, lo, hi - 1);
    }
  }

  lemma RunConserves(n: nat, capacity: nat, todo: seq<seq<Flit>>, run: seq<Ports>, src: nat, dst: nat)
    requires WorkloadShape(n, capacity, todo) && RunShape(n, run) && src < n && dst < n
    ensures Line(Run(Idle(n, capacity, todo), run), src, dst) == Of(todo[src], src, dst)
  {
    var r := Idle(n, capacity, todo);
    IdleInv(n, capacity, todo);
    RunKeepsAll(r, run);
    NothingInLine(r.bufs, src, dst, src, ExitStage(n, src, dst));
    assert Line(r, src, dst) == [] + [] + Of(todo[src], src, dst);
  }

  /** Flits for ports that do not exist. */
  predicate AllStray(q: seq<Flit>, n: nat) { forall i :: 0 <= i < |q| ==> q[i].dst >= n }

  lemma StraysAtTheEnd(n: nat, q: seq<Flit>)
    requires n >= 1 && AllOnTheirWay(n, q, 2 * n - 1)
    ensures AllStray(q, n)
  {
    forall i | 0 <= i < |q| ensures q[i].dst >= n { assert OnItsWay(n, q[i], 2 * n - 1); }
  }

  /**
   * However many ports there are, whatever they inject and whenever they are ready: a port
   * receives whole packets in one piece, only its own, and from each source in the order
   * injected, none twice and none skipped. On its way a flit passes at most `n` buffers, and
   * only flits for ports that do not exist reach the end of the line.
   */
  lemma RingDelivers(n: nat, capacity: nat, todo: seq<seq<Flit>>, run: seq<Ports>, src: nat, dst: nat)
    requires WorkloadShape(n, capacity, todo) && RunShape(n, run) && src < n && dst < n
    ensures var r := Run(Idle(n, capacity, todo), run);
      && Chained(None, r.out[dst])
      && (forall i :: 0 <= i < |r.out[dst]| ==> r.out[dst][i].dst == dst)
      && Of(r.out[dst], src, dst) <= Of(todo[src], src, dst)
      && Line(r, src, dst) == Of(todo[src], src, dst)
      && (forall k, i :: 0 <= k < 2 * n && 0 <= i < |r.bufs[k].q| && Travels(r.bufs[k].q[i], src, dst) ==>
            src <= k < ExitStage(n, src, dst) <= src + n)
      && AllStray(r.bufs[2 * n - 1].q, n)
  {
    var r := Run(Idle(n, capacity, todo), run);
    IdleInv(n, capacity, todo);
    RunKeepsAll(Idle(n, capacity, todo), run);
    RunConserves(n, capacity, todo, run, src, dst);
    assert PortInv(r, dst) && StageInv(r, 2 * n - 1);
    forall k, i | 0 <= k < 2 * n && 0 <= i < |r.bufs[k].q| && Travels(r.bufs[k].q[i], src, dst)
      ensures src <= k < ExitStage(n, src, dst) <= src + n
    {
      assert StageInv(r, k) && OnItsWay(n, r.bufs[k].q[i], k);
    }
    StraysAtTheEnd(n, r.bufs[2 * n - 1].q);
  }

  lemma DrainedHasDelivered(r: Ring, src: nat, dst: nat)
    requires Shape(r) && Drained(r) && src < r.n && dst < r.n
    ensures Line(r, src, dst) == Of(r.out[dst], src, dst)
  {
    NothingInLine(r.bufs, src, dst, src, ExitStage(r.n, src, dst));
    assert r.todo[src] == [];
  }

  /**
   * However the ports behave in between: once there have been enough cycles in which all of them were
   * willing, every packet has arrived.
   */
  lemma EverythingArrives(n: nat, capacity: nat, todo: seq<seq<Flit>>, run: seq<Ports>, src: nat, dst: nat)
    requires WorkloadShape(n, capacity, todo) && RunShape(n, run) && src < n && dst < n
    requires WillingCycles(n, run) > Work(Idle(n, capacity, todo), 2 * n)
    ensures Of(Run(Idle(n, capacity, todo), run).out[dst], src, dst) == Of(todo[src], src, dst)
  {
    var r := Idle(n, capacity, todo);
    IdleInv(n, capacity, todo);
    WillingRunDrains(r, run);
    RunConserves(n, capacity, todo, run, src, dst);
    DrainedHasDelivered(Run(r, run), src, dst);
  }

  // ---------- Nothing waits without a reason ----------

  /** The flit at the head of the buffer before stage `k`. */
  predicate Arrives(r: Ring, k: nat, f: Flit)
    requires Shape(r)
  {
    0 < k < 2 * r.n && r.bufs[k - 1].q != [] && r.bufs[k - 1].q[0] == f
  }

  /** What arrives goes to the port if and only if it is for the port. */
  lemma ArrivalGoesByDestination(r: Ring, k: nat)
    requires Inv(r) && k < 2 * r.n
    ensures ToPort(r, k) <==> Input(r, k).Some? && Input(r, k).flit.dst == Port(r, k)
    ensures ToRing(r, k) <==> Input(r, k).Some? && Input(r, k).flit.dst != Port(r, k)
  {
    assert StageInv(r, k);
    if Input(r, k).Some? {
      SwitchByDestination(r.bufs[k - 1], r.demux[k], r.passed[k], Port(r, k));
    }
  }

  /** A flit for another port moves on as soon as the next buffer has room and no local packet is being merged in. */
  lemma RingFlitMoves(r: Ring, e: Ports, k: nat, f: Flit)
    requires Inv(r) && PortsShape(r, e) && Arrives(r, k, f) && f.dst != Port(r, k)
    requires |r.bufs[k].q| < r.capacity && (k < r.n ==> r.mux[k] != WormLocal)
    ensures var r' := Next(r, e);
      && r'.bufs[k - 1].lastOut == Some(f) && LastOf(r'.bufs[k].lastOut, r'.bufs[k].q) == Some(f)
  {
    ArrivalGoesByDestination(r, k);
    assert Takes(r, e, k) && Enters(r, e, k) == [f];
  }

  /** A flit for this port is delivered as soon as the port is ready and nothing on the other chain is for it. */
  lemma FlitIsDelivered(r: Ring, e: Ports, k: nat, other: nat, f: Flit)
    requires Inv(r) && PortsShape(r, e) && Arrives(r, k, f) && f.dst == Port(r, k) && e.ready[f.dst]
    requires other == (if k < r.n then k + r.n else k - r.n) && r.rr[f.dst] != (if k < r.n then Worm1 else Worm0)
    requires Input(r, other).Some? ==> Input(r, other).flit.dst != f.dst
    ensures Next(r, e).out[f.dst] == r.out[f.dst] + [f] && Next(r, e).bufs[k - 1].lastOut == Some(f)
  {
    ArrivalGoesByDestination(r, k);
    ArrivalGoesByDestination(r, other);
    assert Delivers(r, e, k) && !Delivers(r, e, other);
    assert Leaves(r, e, f.dst) == [f];
  }

  /** A local flit enters as soon as there is room, no packet of the ring is passing, and none begins to. */
  lemma LocalFlitEnters(r: Ring, e: Ports, k: nat)
    requires Inv(r) && PortsShape(r, e) && k < r.n && e.offer[k] && r.todo[k] != [] && |r.bufs[k].q| < r.capacity
    requires r.mux[k] != WormRing
    requires r.mux[k] == NoWorm && Input(r, k).Some? ==> Input(r, k).flit.dst == k
    ensures var r' := Next(r, e);
      r'.todo[k] == r.todo[k][1..] && LastOf(r'.bufs[k].lastOut, r'.bufs[k].q) == Some(r.todo[k][0])
  {
    ArrivalGoesByDestination(r, k);
    assert Injects(r, e, k) && Enters(r, e, k) == [r.todo[k][0]];
  }

  /** A port that is not ready is given nothing, and nothing is taken from a port that offers nothing. */
  lemma OnlyWillingPorts(r: Ring, e: Ports, p: nat)
    requires Shape(r) && PortsShape(r, e) && p < r.n
    ensures !e.ready[p] ==> Next(r, e).out[p] == r.out[p]
    ensures !e.offer[p] ==> Next(r, e).todo[p] == r.todo[p]
    ensures Next(r, e).todo[p] == r.todo[p] || (r.todo[p] != [] && Next(r, e).todo[p] == r.todo[p][1..])
  {}

  // ---------- Packets as ports send them ----------

  /** The flits of one packet of 16-bit words; the first word's low ten bits name the destination. */
  function PacketFlits(words: seq<nat>, src: nat, packet: nat): (fs: seq<Flit>)
    requires words != []
    ensures |fs| == |words|
  {
    seq(|words|, i requires 0 <= i < |words| =>
      Flit(i == |words| - 1, words[i], src, words[0] % 1024, packet, i))
  }

  function PacketStream(packets: seq<seq<nat>>, src: nat, first: nat): seq<Flit>
    requires forall i :: 0 <= i < |packets| ==> packets[i] != []
    decreases |packets|
  {
    if packets == [] then []
    else PacketFlits(packets[0], src, first) + PacketStream(packets[1..], src, first + 1)
  }

  lemma {:induction false} ChainedWithin(fs: seq<Flit>, i: nat, rest: seq<Flit>)
    requires 0 < i <= |fs| && Chained(Some(fs[|fs| - 1]), rest)
    requires forall j :: i <= j < |fs| ==> Follows(Some(fs[j - 1]), fs[j])
    ensures Chained(Some(fs[i - 1]), fs[i..] + rest)
    decreases |fs| - i
  {
    if i == |fs| {
      assert fs[i..] + rest == rest;
    } else {
      ChainedWithin(fs, i + 1, rest);
      assert (fs[i..] + rest)[0] == fs[i] && (fs[i..] + rest)[1..] == fs[i + 1..] + rest;
    }
  }

  /** Any sequence of non-empty packets is a stream that the ring serves. */
  lemma {:induction false} PacketStreamIsWorkload(packets: seq<seq<nat>>, src: nat, first: nat)
    requires forall i :: 0 <= i < |packets| ==> packets[i] != []
    ensures IsWorkload(PacketStream(packets, src, first), src)
    ensures PacketStream(packets, src, first) != [] ==> PacketStream(packets, src, first)[0].pos == 0
    decreases |packets|
  {
    if packets != [] {
      PacketStreamIsWorkload(packets[1..], src, first + 1);
      PacketBeforeStream(packets[0], src, first, PacketStream(packets[1..], src, first + 1));
    }
  }

  lemma PacketBeforeStream(words: seq<nat>, src: nat, packet: nat, rest: seq<Flit>)
    requires words != [] && IsWorkload(rest, src) && (rest != [] ==> rest[0].pos == 0)
    ensures IsWorkload(PacketFlits(words, src, packet) + rest, src)
    ensures (PacketFlits(words, src, packet) + rest)[0].pos == 0
  {
    var fs := PacketFlits(words, src, packet);
    assert Chained(Some(fs[|fs| - 1]), rest);
    ChainedWithin(fs, 1, rest);
    assert (fs + rest)[1..] == fs[1..] + rest && (fs + rest)[0] == fs[0];
    assert Chained(None, fs + rest);
  }
}
