// A session of the viewer on the direct H.264 path (apps/vpu_stream.c): datagrams
// go to the handler, but when a decode call has neither decoded nor shown a picture
// the loop falls back to feed(), which puts the next datagram into the ring as it
// is.  What the ring gets is what the handler commits, and so all that is proved of
// its runs, if and only if no such fallback receives anything.
module RtpSession {
  import opened BitstreamRing
  import opened Octets
  import opened RtpDirect
  import opened RtpGate
  import opened RtpH264

  datatype Event =
    | Handled(pkt: seq<byte>)
    | Fallback(pkt: seq<byte>, readable: bool, got: nat)

  // feed(h, 1) on the datagram socket, with a unit staged.
  method FallBack(rx: DirectReceiver, pkt: seq<byte>, readable: bool, got: nat) returns (rc: int)
    requires rx.Valid()
    modifies rx.ring, rx.ring.buf
    ensures rx.ring.Valid() && rx.ring.DecoderRan()
    ensures rc <= 0 ==> rx.Valid() && rx.Model() == old(rx.Model()) && rx.ring.Committed() == old(rx.ring.Committed())
    ensures rc > 0 ==> rc <= |pkt| && rx.ring.Committed() == old(rx.ring.Committed()) + pkt[..rc]
    ensures rc > 0 ==> readable && pkt != []
    ensures readable && pkt != [] && old(rx.ring.Room()) >= 512 ==> rc > 0
    ensures old(rx.ring.pace) == [] ==> (rc > 0 <==> readable && pkt != [] && old(rx.ring.Room()) >= 512)
    ensures readable && |pkt| <= got && |pkt| <= FEED_CHUNK_SIZE && 512 <= old(rx.ring.Room()) && |pkt| <= old(rx.ring.Room())
              && old(rx.ring.wrPtr) - rx.ring.start + |pkt| <= rx.ring.buf.Length && pkt != []
            ==> rc == |pkt|
    // From then on the staged unit is taken to be what lies rc bytes further on.
    ensures rc > 0 && rx.auLen + rc <= old(rx.ring.Room()) ==>
              && rx.auLen <= rx.ring.Room()
              && rx.ring.Staged(rx.auLen) == Shifted(old(rx.ring.buf[..]), old(rx.ring.wrPtr) - rx.ring.start, rc, rx.auLen)
  {
    hide Slice, At;
    ghost var s, wr := rx.ring.buf[..], rx.ring.wrPtr - rx.ring.start;
    rc := rx.ring.Feed(pkt, false, true, readable, got);
    if rc > 0 {
      if rx.auLen + rc < |s| {
        ShiftedWindow(s, rx.ring.buf[..], wr, rc, rx.auLen);
      }
    } else {
      assert rx.ring.buf[..] == s;
    }
  }

  // ----- Whole sessions -----

  // The handler's run: the packets it was given.
  predicate RunOf(run: seq<Arrival>, events: seq<Event>)
    decreases |events|
  {
    if events == [] then run == []
    else
      var e := events[|events| - 1];
      if e.Fallback? then RunOf(run, events[..|events| - 1])
      else run != [] && run[|run| - 1].pkt == e.pkt && RunOf(run[..|run| - 1], events[..|events| - 1])
  }

  lemma {:induction false} RunPrefix(run: seq<Arrival>, params: seq<byte>, a: Arrival, n: nat)
    requires n <= |run|
    ensures RxAt(run + [a], params, n) == RxAt(run, params, n) && OutUpTo(run + [a], params, n) == OutUpTo(run, params, n)
  {
    hide Step;
    if n > 0 {
      RunPrefix(run, params, a, n - 1);
      assert (run + [a])[n - 1] == run[n - 1];
    }
  }

  // One more packet in a run.
  lemma RunMore(run: seq<Arrival>, params: seq<byte>, a: Arrival, events: seq<Event>)
    requires RunOf(run, events)
    ensures RunOf(run + [a], events + [Handled(a.pkt)])
    ensures var (r, out) := Step(RxAt(run, params, |run|), a.pkt, params, a.room);
            && RxAt(run + [a], params, |run| + 1) == r
            && OutUpTo(run + [a], params, |run| + 1) == OutUpTo(run, params, |run|) + out
  {
    hide Step;
    RunPrefix(run, params, a, |run|);
    assert (run + [a])[..|run|] == run && (events + [Handled(a.pkt)])[..|events|] == events;
  }

  lemma RunSame(run: seq<Arrival>, events: seq<Event>, e: Event)
    requires RunOf(run, events) && e.Fallback?
    ensures RunOf(run, events + [e])
  {
    assert (events + [e])[..|events|] == events;
  }

  // A fallback that finds a datagram.
  predicate Exposed(e: Event) {
    e.Fallback? && e.readable && e.pkt != []
  }

  // How many packets the handler has been given.
  function HandledIn(events: seq<Event>): (n: nat)
    ensures n <= |events|
  {
    if events == [] then 0
    else HandledIn(events[..|events| - 1]) + if events[|events| - 1].Handled? then 1 else 0
  }

  // Fallback k finds a datagram, and 512 bytes of room as long as the decoder has
  // read nothing more since the session started with `room` bytes free.
  predicate Receives(events: seq<Event>, run: seq<Arrival>, params: seq<byte>, room: int, k: nat)
    requires k < |events|
  {
    var n := HandledIn(events[..k]);
    Exposed(events[k]) && n <= |run| && |OutUpTo(run, params, n)| + 512 <= room
  }

  lemma ReceivesStays(events: seq<Event>, run: seq<Arrival>, params: seq<byte>, room: int, e: Event, a: Arrival, k: nat)
    requires k < |events| && HandledIn(events[..k]) <= |run|
    ensures Receives(events + [e], run, params, room, k) <==> Receives(events, run, params, room, k)
    ensures Receives(events + [e], run + [a], params, room, k) <==> Receives(events, run, params, room, k)
  {
    hide HandledIn, OutUpTo;
    assert (events + [e])[..k] == events[..k] && (events + [e])[k] == events[k];
    RunPrefix(run, params, a, HandledIn(events[..k]));
  }

  lemma {:induction false} HandledMore(events: seq<Event>, k: nat)
    requires k <= |events|
    ensures HandledIn(events[..k]) <= HandledIn(events)
    decreases |events|
  {
    if k < |events| {
      HandledMore(events[..|events| - 1], k);
      assert events[..|events| - 1][..k] == events[..k];
    } else {
      assert events[..k] == events;
    }
  }

  // None of these fallbacks receives anything.
  predicate Sealed(events: seq<Event>, run: seq<Arrival>, params: seq<byte>, room: int) {
    |run| == HandledIn(events) && forall k :: 0 <= k < |events| ==> !Receives(events, run, params, room, k)
  }

  lemma SealedHandled(events: seq<Event>, run: seq<Arrival>, params: seq<byte>, room: int, a: Arrival)
    requires Sealed(events, run, params, room)
    ensures Sealed(events + [Handled(a.pkt)], run + [a], params, room)
  {
    hide Receives, OutUpTo;
    var es := events + [Handled(a.pkt)];
    assert es[..|events|] == events;
    forall k | 0 <= k < |es|
      ensures !Receives(es, run + [a], params, room, k)
    {
      if k < |events| {
        HandledMore(events, k);
        ReceivesStays(events, run, params, room, es[|events|], a, k);
      } else {
        NotAFallback(es, run + [a], params, room, k);
      }
    }
  }

  lemma NotAFallback(events: seq<Event>, run: seq<Arrival>, params: seq<byte>, room: int, k: nat)
    requires k < |events| && events[k].Handled?
    ensures !Receives(events, run, params, room, k)
  {
  }

  lemma SealedFallback(events: seq<Event>, run: seq<Arrival>, params: seq<byte>, room: int, e: Event)
    requires Sealed(events, run, params, room) && e.Fallback?
    ensures Receives(events + [e], run, params, room, |events|) <==>
              Exposed(e) && |OutUpTo(run, params, |run|)| + 512 <= room
    ensures !Receives(events + [e], run, params, room, |events|) ==> Sealed(events + [e], run, params, room)
  {
    var es := events + [e];
    assert es[..|events|] == events;
    LastReceives(events, run, params, room, e);
    hide Receives, OutUpTo;
    forall k | 0 <= k < |events|
      ensures !Receives(es, run, params, room, k)
    {
      HandledMore(events, k);
      ReceivesStays(events, run, params, room, e, Arrival([], []), k);
    }
  }

  lemma LastReceives(events: seq<Event>, run: seq<Arrival>, params: seq<byte>, room: int, e: Event)
    requires |run| == HandledIn(events)
    ensures Receives(events + [e], run, params, room, |events|) <==>
              Exposed(e) && |OutUpTo(run, params, |run|)| + 512 <= room
  {
    hide HandledIn, OutUpTo;
    assert (events + [e])[..|events|] == events;
  }

  // Any session up to its end or to the first fallback that receives something
  // (`breached`).  The ring has been given exactly what the handler commits of its
  // run if and only if there was none; otherwise `raw` bytes of that datagram, too.
  // While 512 bytes of the room at the start are left, every fallback that finds a
  // datagram is one; with a decoder that stands still, no other.
  method Session(rx: DirectReceiver, events: seq<Event>, params: seq<byte>)
    returns (done: nat, breached: bool, ghost run: seq<Arrival>, ghost raw: seq<byte>)
    requires rx.Valid() && rx.Model() == Fresh
    modifies rx, rx.ring, rx.ring.buf
    ensures done <= |events| && RunOf(run, events[..done]) && (!breached ==> done == |events| && rx.Valid())
    ensures rx.ring.Committed() == old(rx.ring.Committed()) + OutUpTo(run, params, |run|) + raw
    ensures breached <==> raw != []
    ensures breached ==> done > 0 && Exposed(events[done - 1]) && raw <= events[done - 1].pkt
    ensures |OutUpTo(run, params, |run|)| + 512 <= old(rx.ring.Room()) ==>
              (breached <==> exists k :: 0 <= k < done && Exposed(events[k]))
    ensures old(rx.ring.pace) == [] ==>
              (breached <==> exists k :: 0 <= k < done && Receives(events[..done], run, params, old(rx.ring.Room()), k))
    ensures !breached ==> rx.Model() == RxAt(run, params, |run|)
  {
    hide Slice, At, Step, RunOf, Exposed, Receives, HandledIn, OutUpTo;
    ghost var log, room := rx.ring.Committed(), rx.ring.Room();
    done, breached, run, raw := 0, false, [], [];
    NoRun(log, params);
    NoneSealed(params, room);
    assert events[..0] == [];
    while done < |events|
      invariant 0 <= done <= |events| && rx.Valid() && rx.ring.DecoderRan() && RunOf(run, events[..done]) && !breached
      invariant rx.Model() == RxAt(run, params, |run|)
      invariant rx.ring.Committed() == log + OutUpTo(run, params, |run|) && raw == []
      invariant |OutUpTo(run, params, |run|)| + 512 <= room ==> forall k :: 0 <= k < done ==> !Exposed(events[k])
      invariant old(rx.ring.pace) == [] ==> Sealed(events[..done], run, params, room)
    {
      assert events[..done + 1] == events[..done] + [events[done]];
      ghost var sofar := OutUpTo(run, params, |run|);
      match events[done] {
        case Handled(pkt) =>
          run := HandleOne(rx, pkt, params, events[..done], run, log, room);
          NotExposed(events[done]);
        case Fallback(pkt, readable, got) =>
          RunSame(run, events[..done], events[done]);
          if old(rx.ring.pace) == [] {
            SealedFallback(events[..done], run, params, room, events[done]);
          }
          ExposedMeans(events[done]);
          var rc := FallBack(rx, pkt, readable, got);
          if rc > 0 {
            done, breached, raw := done + 1, true, pkt[..rc];
            return;
          }
      }
      done := done + 1;
    }
    assert events[..done] == events;
    assert log + OutUpTo(run, params, |run|) + raw == log + OutUpTo(run, params, |run|);
  }

  // One packet to the handler.
  method HandleOne(rx: DirectReceiver, pkt: seq<byte>, params: seq<byte>, ghost events: seq<Event>, ghost run0: seq<Arrival>,
                   ghost log: seq<byte>, ghost room: int)
    returns (ghost run: seq<Arrival>)
    requires rx.Valid() && RunOf(run0, events) && rx.Model() == RxAt(run0, params, |run0|)
    requires rx.ring.Committed() == log + OutUpTo(run0, params, |run0|)
    modifies rx, rx.ring, rx.ring.buf
    ensures rx.Valid() && rx.ring.DecoderRan() && RunOf(run, events + [Handled(pkt)])
    ensures rx.Model() == RxAt(run, params, |run|) && rx.ring.Committed() == log + OutUpTo(run, params, |run|)
    ensures |OutUpTo(run0, params, |run0|)| <= |OutUpTo(run, params, |run|)|
    ensures Sealed(events, run0, params, room) ==> Sealed(events + [Handled(pkt)], run, params, room)
  {
    hide Slice, At, Step, RunOf, Receives, HandledIn, OutUpTo, Sealed;
    var n;
    ghost var oc;
    n, oc := rx.HandlePacket(pkt, params);
    RunMore(run0, params, Arrival(pkt, oc), events);
    Assoc(log, OutUpTo(run0, params, |run0|), Step(RxAt(run0, params, |run0|), pkt, params, oc).1);
    run := run0 + [Arrival(pkt, oc)];
    if Sealed(events, run0, params, room) {
      SealedHandled(events, run0, params, room, Arrival(pkt, oc));
    }
  }

  lemma NotExposed(e: Event)
    requires e.Handled?
    ensures !Exposed(e)
  {
  }

  lemma ExposedMeans(e: Event)
    requires e.Fallback?
    ensures Exposed(e) <==> e.readable && e.pkt != []
  {
  }

  lemma NoneSealed(params: seq<byte>, room: int)
    ensures Sealed([], [], params, room)
  {
  }

  lemma NoRun(log: seq<byte>, params: seq<byte>)
    ensures RunOf([], []) && log + [] == log && OutUpTo([], params, 0) == []
  {
  }

  // ----- A session in which the gate does not hold -----

  // A datagram with this sequence number that carries one byte of a P slice.
  function PSlice(seqNo: byte): (pkt: seq<byte>)
    ensures ValidHeader(pkt) && SeqNo(pkt) == seqNo && !Marker(pkt) && |pkt| == 13 && NalType(pkt[12]) == 1
  {
    [0x80, 0x60, 0, seqNo, 0, 0, 0, 0, 0, 0, 0, 0, 0x41]
  }

  lemma StepTracks(r: Receiver, pkt: seq<byte>, params: seq<byte>, oc: seq<Outcome>)
    requires ValidHeader(pkt) && !Marker(pkt)
    ensures var r' := Step(r, pkt, params, oc).0;
            && Step(r, pkt, params, oc).1 == []
            && r'.haveSeq && r'.lastSeq == SeqNo(pkt) && (SeqGap(r, pkt) || r.needIdr ==> r'.needIdr)
  {
    hide Payload, PlanFor, PutAll, SeqNo, Timestamp;
  }

  // After a gap an IDR is awaited, and yet a P slice reaches the ring, RTP header
  // and all.
  method BreachExample() returns (rx: DirectReceiver, pkt: seq<byte>)
    ensures rx.ring.Valid() && rx.needIdr && ValidHeader(pkt) && |pkt| == 13 && NalType(pkt[12]) == 1
    ensures rx.ring.Committed() == pkt
  {
    hide Slice, At, Step, PSlice, Payload, OutUpTo;
    var ring := new Ring(0, 1024 * 1024, []);
    rx := new DirectReceiver(ring);
    var n;
    ghost var oc;
    ghost var r := rx.Model();
    n, oc := rx.HandlePacket(PSlice(0), []);
    StepTracks(r, PSlice(0), [], oc);
    r := rx.Model();
    n, oc := rx.HandlePacket(PSlice(5), []);
    StepTracks(r, PSlice(5), [], oc);
    assert rx.ring.Committed() == [];
    pkt := PSlice(6);
    var rc := FallBack(rx, pkt, true, 13);
  }

  // n bytes, from m past off on.
  function Shifted(s: seq<byte>, off: nat, m: nat, n: nat): seq<byte>
    requires off < |s| && m + n <= |s|
  {
    Slice(s, off, m + n)[m..]
  }

  // Overwriting m bytes at off leaves those behind them as they were.
  lemma ShiftedWindow(s: seq<byte>, t: seq<byte>, off: nat, m: nat, n: nat)
    requires off < |s| == |t| && m + n < |s| && off + m <= |s|
    requires forall i :: 0 <= i < |s| && !(off <= i < off + m) ==> t[i] == s[i]
    ensures Slice(t, At(off, m, |s|), n) == Shifted(s, off, m, n)
  {
    var a, b := Slice(t, At(off, m, |s|), n), Shifted(s, off, m, n);
    forall k | 0 <= k < n
      ensures a[k] == b[k]
    {
      AtAt(off, m, k, |s|);
    }
  }
}
