/** The three worm-locked switches of a ring router, with their registers updated in place. */
module RingRouter {
  import opened DebugRing

  predicate Fires(c: Channel, ready: bool) { c.Some? && ready }

  /** Sends a flit to the local port or along the ring; a packet follows its header. */
  class RouterDemux {
    const id: nat
    var worm: bool
    var wormLocal: bool

    constructor (id: nat)
      ensures this.id == id && !worm
    {
      this.id := id;
      worm, wormLocal := false, false;
    }

    method Clock(inRing: Channel, localReady: bool, ringReady: bool)
      returns (outLocal: Channel, outRing: Channel, inReady: bool)
      modifies this
      ensures var d := old(Demux(worm, wormLocal));
        && Demux(worm, wormLocal) == NextDemux(d, inRing, id, Fires(inRing, inReady))
        && (inRing.Some? ==>
              && outLocal == (if SwitchLocal(d, inRing.flit, id) then inRing else None)
              && outRing == (if SwitchLocal(d, inRing.flit, id) then None else inRing)
              && inReady == if SwitchLocal(d, inRing.flit, id) then localReady else ringReady)
        && (inRing.None? ==> outLocal == outRing == None)
    {
      var isLocal := inRing.Some? && inRing.flit.data % 1024 == id;
      var switchLocal := if worm then wormLocal else isLocal;
      outRing := if switchLocal then None else inRing;
      outLocal := if switchLocal then inRing else None;
      inReady := if switchLocal then localReady else ringReady;
      if !worm {
        wormLocal := isLocal;
        if inReady && inRing.Some? && !inRing.flit.last {
          worm := true;
        }
      } else if inReady && inRing.Some? && inRing.flit.last {
        worm := false;
      }
    }
  }

  /** Merges the local input into the ring, which has priority between packets. */
  class RouterMux {
    var state: MuxState

    constructor ()
      ensures state == NoWorm
    {
      state := NoWorm;
    }

    method Clock(inRing: Channel, inLocal: Channel, outReady: bool)
      returns (out: Channel, ringReady: bool, localReady: bool)
      modifies this
      ensures state == MuxNext(old(state), inRing, inLocal, outReady)
      ensures Fires(inRing, ringReady) <==> Fires(inRing, outReady) && RingGranted(old(state))
      ensures Fires(inLocal, localReady) <==> Fires(inLocal, outReady) && LocalGranted(old(state), inRing.Some?)
      ensures !(Fires(inRing, ringReady) && Fires(inLocal, localReady))
      ensures Fires(inRing, ringReady) ==> out == inRing
      ensures Fires(inLocal, localReady) ==> out == inLocal
      ensures Fires(out, outReady) ==> Fires(inRing, ringReady) || Fires(inLocal, localReady)
    {
      out, ringReady, localReady := None, false, false;
      match state {
        case NoWorm =>
          if inRing.Some? {
            out, ringReady := inRing, outReady;
            if !inRing.flit.last {
              state := WormRing;
            }
          } else if inLocal.Some? {
            out, localReady := inLocal, outReady;
            if !inLocal.flit.last {
              state := WormLocal;
            }
          }
        case WormRing =>
          out, ringReady := inRing, outReady;
          if out.Some? && out.flit.last && outReady {
            state := NoWorm;
          }
        case WormLocal =>
          out, localReady := inLocal, outReady;
          if out.Some? && out.flit.last && outReady {
            state := NoWorm;
          }
      }
    }
  }

  /** Merges two inputs and prefers, after a packet of one, the other. */
  class RouterMuxRr {
    var state: RrState

    constructor ()
      ensures state == NoWorm0
    {
      state := NoWorm0;
    }

    method Clock(in0: Channel, in1: Channel, outReady: bool) returns (out: Channel, ready0: bool, ready1: bool)
      modifies this
      ensures state == RrNext(old(state), in0, in1, outReady)
      ensures Fires(in0, ready0) <==> Fires(in0, outReady) && RrGranted(old(state), false, in0.Some?, in1.Some?)
      ensures Fires(in1, ready1) <==> Fires(in1, outReady) && RrGranted(old(state), true, in0.Some?, in1.Some?)
      ensures !(Fires(in0, ready0) && Fires(in1, ready1))
      ensures Fires(in0, ready0) ==> out == in0
      ensures Fires(in1, ready1) ==> out == in1
      ensures Fires(out, outReady) ==> Fires(in0, ready0) || Fires(in1, ready1)
    {
      out, ready0, ready1 := None, false, false;
      match state {
        case NoWorm0 =>
          if in0.Some? {
            out, ready0 := in0, outReady;
            state := if in0.flit.last then NoWorm0 else Worm0;
          } else if in1.Some? {
            out, ready1 := in1, outReady;
            state := if in1.flit.last then NoWorm0 else Worm1;
          }
        case NoWorm1 =>
          if in1.Some? {
            out, ready1 := in1, outReady;
            state := if in1.flit.last then NoWorm1 else Worm1;
          } else if in0.Some? {
            out, ready0 := in0, outReady;
            state := if in0.flit.last then NoWorm1 else Worm0;
          }
        case Worm0 =>
          out, ready0 := in0, outReady;
          if out.Some? && out.flit.last && outReady {
            state := NoWorm1;
          }
        case Worm1 =>
          out, ready1 := in1, outReady;
          if out.Some? && out.flit.last && outReady {
            state := NoWorm0;
          }
      }
    }
  }
}
