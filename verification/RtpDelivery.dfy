// Access units on the ring: what the receive loop of the direct path
// (rtp_feed_direct) makes of the packets of a unit, by the bytes that the ring has
// room for, and the two receivers side by side.
module RtpDelivery {
  import BitstreamRing
  import opened Octets
  import opened RtpBuffered
  import opened RtpBufferedReceiver
  import opened RtpDirect
  import opened RtpH264
  import opened RtpRoundTrip

  // ----- One call of the receive loop -----

  const MAX_BURST := 256

  lemma {:induction false} ReceiveSnoc(r: Receiver, pkts: seq<seq<byte>>, params: seq<byte>, ocs: seq<seq<Outcome>>,
                                       pkt: seq<byte>, oc: seq<Outcome>)
    requires |ocs| == |pkts|
    ensures var (r1, out) := Receive(r, pkts, params, ocs);
            var (r2, more) := Step(r1, pkt, params, oc);
            Receive(r, pkts + [pkt], params, ocs + [oc]) == (r2, out + more)
    decreases |pkts|
  {
    hide Step;
    if pkts == [] {
      assert (pkts + [pkt])[1..] == [] && (ocs + [oc])[1..] == [];
      var more := Step(r, pkt, params, oc).1;
      assert more + [] == more && [] + more == more;
    } else {
      var (r1, out) := Step(r, pkts[0], params, ocs[0]);
      ReceiveSnoc(r1, pkts[1..], params, ocs[1..], pkt, oc);
      var (r2, rest) := Receive(r1, pkts[1..], params, ocs[1..]);
      assert (pkts + [pkt])[1..] == pkts[1..] + [pkt] && (ocs + [oc])[1..] == ocs[1..] + [oc];
      Assoc(out, rest, Step(r2, pkt, params, oc).1);
    }
  }

  // With what earlier packets of the call have committed, packet k still finds room
  // for itself, for what is staged already and for the 512 spare bytes.
  predicate FindsRoom(r: Receiver, pkts: seq<seq<byte>>, params: seq<byte>, ocs: seq<seq<Outcome>>, k: nat, room: int)
    requires k < |ocs| <= |pkts|
  {
    var (rk, out) := Receive(r, pkts[..k], params, ocs[..k]);
    |out| + |rk.staged| + |Bytes(ItemsOf(rk, pkts[k], params))| + 512 < room
  }

  lemma RoomStays(r: Receiver, pkts: seq<seq<byte>>, params: seq<byte>, ocs: seq<seq<Outcome>>, k: nat, room: int,
                  oc: seq<Outcome>)
    requires k < |ocs| < |pkts|
    ensures FindsRoom(r, pkts, params, ocs + [oc], k, room) <==> FindsRoom(r, pkts, params, ocs, k, room)
  {
    hide Receive, Bytes, ItemsOf;
    assert (ocs + [oc])[..k] == ocs[..k];
  }

  lemma LastFindsRoom(r: Receiver, pkts: seq<seq<byte>>, params: seq<byte>, ocs: seq<seq<Outcome>>, room: int,
                      oc: seq<Outcome>)
    requires |ocs| < |pkts|
    ensures var (rk, out) := Receive(r, pkts[..|ocs|], params, ocs);
            FindsRoom(r, pkts, params, ocs + [oc], |ocs|, room)
            <==> |out| + |rk.staged| + |Bytes(ItemsOf(rk, pkts[|ocs|], params))| + 512 < room
  {
    hide Receive, Bytes, ItemsOf;
    assert (ocs + [oc])[..|ocs|] == ocs;
  }

  // rtp_feed_direct on the datagrams that are waiting: the handler gets them in order
  // up to the first empty one and at most 256.  An empty datagram makes the result 0,
  // which its callers take for the end of the feed, whatever has been committed.
  method FeedDirect(rx: DirectReceiver, waiting: seq<seq<byte>>, params: seq<byte>)
    returns (rc: int, ghost ocs: seq<seq<Outcome>>)
    requires rx.Valid()
    modifies rx, rx.ring, rx.ring.buf
    ensures rx.Valid() && rx.ring.DecoderRan()
    ensures |ocs| <= |waiting| && |ocs| <= MAX_BURST && forall k :: 0 <= k < |ocs| ==> waiting[k] != []
    ensures |ocs| == |waiting| || |ocs| == MAX_BURST || waiting[|ocs|] == []
    ensures var (r, out) := Receive(old(rx.Model()), waiting[..|ocs|], params, ocs);
            && rx.Model() == r && rx.ring.Committed() == old(rx.ring.Committed()) + out
            && rc == (if |ocs| < |waiting| && |ocs| < MAX_BURST then 0 else if out == [] then -1 else |out|)
    ensures forall k :: 0 <= k < |ocs| && FindsRoom(old(rx.Model()), waiting, params, ocs, k, old(rx.ring.Room())) ==>
              Roomy(ocs[k])
  {
    hide BitstreamRing.Slice, BitstreamRing.At, Step, Receive, FindsRoom, ItemsOf, Bytes;
    ghost var r0, log, room := rx.Model(), rx.ring.Committed(), rx.ring.Room();
    ghost var sent: seq<byte> := [];
    ocs := [];
    ReceiveNone(r0, params);
    var packets, committed := 0, 0;
    assert waiting[..0] == [];
    assert log + [] == log;
    while true
      invariant 0 <= packets == |ocs| <= |waiting| && packets < MAX_BURST && rx.Valid() && rx.ring.DecoderRan()
      invariant forall k :: 0 <= k < packets ==> waiting[k] != []
      invariant Receive(r0, waiting[..packets], params, ocs) == (rx.Model(), sent)
      invariant rx.ring.Committed() == log + sent && committed == |sent|
      invariant forall k :: 0 <= k < packets && FindsRoom(r0, waiting, params, ocs, k, room) ==> Roomy(ocs[k])
      decreases |waiting| - packets
    {
      if packets == |waiting| {
        rc := if packets > 0 && committed > 0 then committed else -1;
        return;
      }
      if |waiting[packets]| == 0 {
        rc := 0;
        return;
      }
      ghost var r := rx.Model();
      assert rx.ring.Room() >= room - |sent|;
      var n;
      ghost var oc;
      n, oc := rx.HandlePacket(waiting[packets], params);
      ReceiveSnoc(r0, waiting[..packets], params, ocs, waiting[packets], oc);
      assert waiting[..packets + 1] == waiting[..packets] + [waiting[packets]];
      LastFindsRoom(r0, waiting, params, ocs, room, oc);
      forall k | 0 <= k < packets && FindsRoom(r0, waiting, params, ocs + [oc], k, room)
        ensures Roomy((ocs + [oc])[k])
      {
        RoomStays(r0, waiting, params, ocs, k, room, oc);
      }
      Assoc(log, sent, Step(r, waiting[packets], params, oc).1);
      sent := sent + Step(r, waiting[packets], params, oc).1;
      ocs := ocs + [oc];
      packets := packets + 1;
      if n > 0 {
        committed := committed + n;
      }
      if packets >= MAX_BURST {
        rc := if committed > 0 then committed else -1;
        return;
      }
    }
  }

  lemma ReceiveNone(r: Receiver, params: seq<byte>)
    ensures Receive(r, [], params, []) == (r, [])
  {
  }

  // ----- The packets of a unit -----

  lemma {:induction false} SoakGrows(r: Receiver, pls: seq<Nalu>, params: seq<byte>)
    ensures |r.staged| <= |SoakAll(r, pls, params).staged|
    decreases |pls|
  {
    hide PlanFor, Bytes;
    if pls != [] {
      SoakGrows(Soak(r, pls[0], params), pls[1..], params);
    }
  }

  // What one packet of a unit in step takes.
  lemma SoakSize(r: Receiver, pkt: seq<byte>, seqNo: nat, ts: nat, marker: bool, pl: Nalu, params: seq<byte>)
    requires Carries(pkt, seqNo, ts, marker, pl) && InUnit(r, seqNo, ts)
    ensures |Soak(r, pl, params).staged| == |r.staged| + |Bytes(ItemsOf(r, pkt, params))|
  {
    hide Bytes, Aggregated, AllItems;
    assert AfterHeader(r, pkt) == Tuned(r, seqNo, ts);
  }

  // The k-th sequence number of a unit.
  lemma NextSeqStep(seqNo: nat, n: nat)
    ensures NextSeq(seqNo, n + 1) == (NextSeq(seqNo, n) + 1) % SEQ_MOD
    decreases n
  {
    if n > 0 {
      NextSeqStep((seqNo + 1) % SEQ_MOD, n - 1);
    }
  }

  // What is left of a unit before packet k: still in step, and staging from there
  // gives what staging the whole unit gives.
  ghost predicate Midway(r: Receiver, pkts: seq<seq<byte>>, seqNo: nat, ts: nat, pls: seq<Nalu>, params: seq<byte>,
                         k: nat, whole: Receiver)
  {
    && k < |pls| == |pkts| && CarryAll(pkts[k..], NextSeq(seqNo, k), ts, pls[k..])
    && InUnit(r, NextSeq(seqNo, k), ts)
    && SoakAll(r, pls[k..], params).staged == whole.staged
    && Flushes(SoakAll(r, pls[k..], params), whole)
  }

  // The same comes of these at the marker.
  predicate Flushes(r: Receiver, whole: Receiver) {
    Flush(r).1 == Flush(whole).1 && Flush(r).0.needIdr == Flush(whole).0.needIdr
  }

  // In step after the marker, with what was to be committed of the unit.
  predicate Ended(r: Receiver, out: seq<byte>, whole: Receiver, seqNo: nat) {
    out == Flush(whole).1 && InStep(r, seqNo) && r.needIdr == Flush(whole).0.needIdr
  }

  // One packet of a unit for which there is room.
  lemma MidwayStep(r: Receiver, pkts: seq<seq<byte>>, seqNo: nat, ts: nat, pls: seq<Nalu>, params: seq<byte>,
                   k: nat, whole: Receiver, oc: seq<Outcome>)
    requires Midway(r, pkts, seqNo, ts, pls, params, k, whole)
    ensures |r.staged| + |Bytes(ItemsOf(r, pkts[k], params))| <= |whole.staged|
    ensures Roomy(oc) ==>
              var (r', out) := Step(r, pkts[k], params, oc);
              if k + 1 < |pls| then out == [] && Midway(r', pkts, seqNo, ts, pls, params, k + 1, whole)
              else Ended(r', out, whole, NextSeq(seqNo, |pls|))
  {
    hide Soak, Carries, Step, Flush, Bytes, ItemsOf, InUnit, InStep;
    var s := NextSeq(seqNo, k);
    var rest, left := pkts[k..], pls[k..];
    assert rest[0] == pkts[k] && left[0] == pls[k] && rest[1..] == pkts[k + 1..] && left[1..] == pls[k + 1..];
    SoakSize(r, pkts[k], s, ts, |left| == 1, pls[k], params);
    SoakGrows(Soak(r, pls[k], params), left[1..], params);
    NextSeqStep(seqNo, k);
    if Roomy(oc) {
      MidwayRoomy(r, pkts[k], s, ts, left, params, oc);
    }
  }

  lemma TunedInUnit(r: Receiver, s: nat, ts: nat)
    ensures InUnit(Tuned(r, s, ts), (s + 1) % SEQ_MOD, ts)
  {
  }

  lemma MidwayRoomy(r: Receiver, pkt: seq<byte>, s: nat, ts: nat, left: seq<Nalu>, params: seq<byte>, oc: seq<Outcome>)
    requires left != [] && Carries(pkt, s, ts, |left| == 1, left[0]) && InUnit(r, s, ts) && Roomy(oc)
    ensures var (r', out) := Step(r, pkt, params, oc);
            var next, whole := (s + 1) % SEQ_MOD, SoakAll(r, left, params);
            if |left| > 1 then
              && out == [] && InUnit(r', next, ts)
              && SoakAll(r', left[1..], params).staged == whole.staged
              && Flushes(SoakAll(r', left[1..], params), whole)
            else Ended(r', out, whole, next)
  {
    hide Soak, Carries, Step, InUnit, InStep, Flush;
    var soaked := Soak(r, left[0], params);
    TunedInUnit(soaked, s, ts);
    StepInUnit(r, pkt, s, ts, |left| == 1, left[0], params, oc);
    if |left| > 1 {
      SoakAllTuned(soaked, s, ts, left[1..], params);
      FlushTuned(SoakAll(soaked, left[1..], params), s, ts);
    } else {
      FlushSyncs(soaked, s, ts);
    }
  }

  // rtp_feed_direct over the packets of a unit, in however many calls: with room
  // for the unit and the 512 spare bytes it is committed at its marker.  With a
  // decoder that stands still nothing larger is ever committed.
  method FeedUnit(rx: DirectReceiver, pkts: seq<seq<byte>>, params: seq<byte>,
                  ghost seqNo: nat, ghost ts: nat, ghost pls: seq<Nalu>)
    requires rx.Valid() && |pls| == |pkts| > 0 && CarryAll(pkts, seqNo, ts, pls) && InUnit(rx.Model(), seqNo, ts)
    modifies rx, rx.ring, rx.ring.buf
    ensures rx.Valid() && rx.ring.DecoderRan()
    ensures var whole := SoakAll(old(rx.Model()), pls, params);
            |whole.staged| + 512 < old(rx.ring.Room()) ==>
              && rx.ring.Committed() == old(rx.ring.Committed()) + Flush(whole).1
              && InStep(rx.Model(), NextSeq(seqNo, |pls|)) && rx.Model().needIdr == Flush(whole).0.needIdr
    ensures var n := |rx.ring.Committed()| - |old(rx.ring.Committed())|;
            n >= 0 && (n > 0 && old(rx.ring.pace) == [] ==> n + 512 < old(rx.ring.Room()))
  {
    hide CarryAll, InUnit, SoakAll, Flush, Step, ItemsOf, Bytes, BitstreamRing.Slice, BitstreamRing.At, Midway, InStep;
    ghost var whole := SoakAll(rx.Model(), pls, params);
    ghost var room, log := rx.ring.Room(), rx.ring.Committed();
    ghost var roomy := |whole.staged| + 512 < room;
    MidwayStart(rx.Model(), pkts, seqNo, ts, pls, params);
    var k := 0;
    while k < |pkts|
      invariant 0 <= k <= |pkts| && rx.Valid() && rx.ring.DecoderRan()
      invariant k < |pkts| ==> rx.ring.Committed() == log && rx.ring.Room() >= room
                               && (old(rx.ring.pace) == [] ==> rx.ring.Room() == room)
      invariant k < |pkts| && roomy ==> Midway(rx.Model(), pkts, seqNo, ts, pls, params, k, whole)
      invariant k == |pkts| && roomy ==>
                  && rx.ring.Committed() == log + Flush(whole).1
                  && InStep(rx.Model(), NextSeq(seqNo, |pls|)) && rx.Model().needIdr == Flush(whole).0.needIdr
      invariant k == |pkts| ==> var n := |rx.ring.Committed()| - |log|;
                                n >= 0 && (n > 0 && old(rx.ring.pace) == [] ==> n + 512 < room)
    {
      ghost var r := rx.Model();
      if roomy {
        MidwayStep(r, pkts, seqNo, ts, pls, params, k, whole, []);
      }
      MarkerLast(pkts, seqNo, ts, pls, k);
      var committed;
      ghost var oc;
      committed, oc := rx.HandlePacket(pkts[k], params);
      if k + 1 < |pkts| {
        OnlyMarkersCommit(r, pkts[k], params, oc);
      }
      if roomy {
        MidwayStep(r, pkts, seqNo, ts, pls, params, k, whole, oc);
      }
      k := k + 1;
      assert log + [] == log;
    }
  }

  lemma MidwayStart(r: Receiver, pkts: seq<seq<byte>>, seqNo: nat, ts: nat, pls: seq<Nalu>, params: seq<byte>)
    requires |pls| == |pkts| > 0 && CarryAll(pkts, seqNo, ts, pls) && InUnit(r, seqNo, ts)
    ensures Midway(r, pkts, seqNo, ts, pls, params, 0, SoakAll(r, pls, params))
  {
    hide CarryAll, SoakAll, InUnit;
    assert pkts[0..] == pkts && pls[0..] == pls;
  }

  // Of the packets of a unit only the last has the marker.
  lemma MarkerLast(pkts: seq<seq<byte>>, seqNo: nat, ts: nat, pls: seq<Nalu>, k: nat)
    requires k < |pls| == |pkts| && CarryAll(pkts, seqNo, ts, pls)
    ensures ValidHeader(pkts[k]) && (Marker(pkts[k]) <==> k + 1 == |pkts|)
  {
    hide Payload, SeqNo, Timestamp;
  }

  lemma OnlyMarkersCommit(r: Receiver, pkt: seq<byte>, params: seq<byte>, oc: seq<Outcome>)
    requires ValidHeader(pkt) && !Marker(pkt)
    ensures Step(r, pkt, params, oc).1 == []
  {
  }

  // What is to come of a unit: in step afterwards, and waiting for an IDR only if it
  // did before and there was none.
  ghost predicate Recovered(r': Receiver, awaiting: bool, au: AccessUnit, seqNo: nat)
    requires Sendable(au)
  {
    var next := NextSeq(seqNo, |Sent(au, seqNo)|);
    InStep(r', next) && (Synced(r', next) <==> !awaiting || AnyIdr(AllNals(au.parcels)))
  }

  // Feeding a whole access unit to a receiver in step, waiting for an IDR or not: the
  // ring gets exactly the Annex B form of what may pass whenever that and 512 bytes
  // more fit the room.  With a decoder that stands still, only then.
  method FeedAccessUnit(rx: DirectReceiver, au: AccessUnit, seqNo: nat, params: seq<byte>)
    requires rx.Valid() && Sendable(au) && seqNo < SEQ_MOD && InStep(rx.Model(), seqNo)
    modifies rx, rx.ring, rx.ring.buf
    ensures rx.Valid() && rx.ring.DecoderRan()
    ensures var bytes := AnnexB(AllAdmitted(au.parcels, old(rx.needIdr)), params);
            && (|bytes| + 512 < old(rx.ring.Room()) ==>
                  && rx.ring.Committed() == old(rx.ring.Committed()) + bytes
                  && Recovered(rx.Model(), old(rx.needIdr), au, seqNo))
            && (old(rx.ring.pace) == [] && bytes != [] ==>
                  (rx.ring.Committed() == old(rx.ring.Committed()) + bytes <==> |bytes| + 512 < old(rx.ring.Room())))
    ensures !old(rx.needIdr) ==> AllAdmitted(au.parcels, old(rx.needIdr)) == AllNals(au.parcels)
  {
    hide CarryAll, SoakAll, Flush, Payloads, Nals, AdmittedOf, AnyIdr, BitstreamRing.Slice, BitstreamRing.At;
    ghost var r, pls := rx.Model(), AllPayloads(au.parcels);
    PacketsCarry(au.envs, seqNo, au.ts, pls);
    SoakUnit(r, au, params);
    AllAdmittedUnawaited(au.parcels);
    FeedUnit(rx, Sent(au, seqNo), params, seqNo, au.ts, pls);
  }

  // A unit that is waiting as a whole when the receive loop is called: with room for
  // it one call delivers it and reports its size.
  method FeedBurst(rx: DirectReceiver, au: AccessUnit, seqNo: nat, params: seq<byte>) returns (rc: int)
    requires rx.Valid() && Sendable(au) && seqNo < SEQ_MOD && InStep(rx.Model(), seqNo)
    requires |Sent(au, seqNo)| <= MAX_BURST
    modifies rx, rx.ring, rx.ring.buf
    ensures rx.Valid() && rx.ring.DecoderRan()
    ensures var bytes := AnnexB(AllAdmitted(au.parcels, old(rx.needIdr)), params);
            |bytes| + 512 < old(rx.ring.Room()) ==>
              && rx.ring.Committed() == old(rx.ring.Committed()) + bytes
              && Recovered(rx.Model(), old(rx.needIdr), au, seqNo)
              && rc == if bytes == [] then -1 else |bytes|
  {
    hide Receive, FindsRoom, InStep, CarryAll, SoakAll, Flush, Payloads, Nals, AdmittedOf, AnyIdr;
    hide BitstreamRing.Slice, BitstreamRing.At;
    ghost var r, room, pkts, pls := rx.Model(), rx.ring.Room(), Sent(au, seqNo), AllPayloads(au.parcels);
    ghost var ocs;
    PacketsCarry(au.envs, seqNo, au.ts, pls);
    NoneEmpty(pkts, seqNo, au.ts, pls);
    rc, ocs := FeedDirect(rx, Sent(au, seqNo), params);
    assert |ocs| == |pkts| && pkts[..|ocs|] == pkts;
    if |AnnexB(AllAdmitted(au.parcels, r.needIdr), params)| + 512 < room {
      InStepInUnit(r, seqNo, au.ts);
      SoakUnit(r, au, params);
      UnitRoomy(r, pkts, seqNo, au.ts, pls, params, ocs, room, |pkts|);
      Recovery(r, au, seqNo, params, ocs);
    }
  }

  lemma InStepInUnit(r: Receiver, seqNo: nat, ts: nat)
    requires InStep(r, seqNo)
    ensures InUnit(r, seqNo, ts) && r.staged == [] && !r.bad && !r.hasIdr
  {
  }

  lemma NoneEmpty(pkts: seq<seq<byte>>, seqNo: nat, ts: nat, pls: seq<Nalu>)
    requires |pls| == |pkts| && CarryAll(pkts, seqNo, ts, pls)
    ensures forall k :: 0 <= k < |pkts| ==> pkts[k] != []
  {
    forall k | 0 <= k < |pkts|
      ensures pkts[k] != []
    {
      MarkerLast(pkts, seqNo, ts, pls, k);
    }
  }

  // The first n packets of a unit find room if the unit does.
  lemma {:induction false} UnitRoomy(r: Receiver, pkts: seq<seq<byte>>, seqNo: nat, ts: nat, pls: seq<Nalu>, params: seq<byte>,
                                     ocs: seq<seq<Outcome>>, room: int, n: nat)
    requires n <= |pls| == |pkts| == |ocs| && |pkts| > 0 && CarryAll(pkts, seqNo, ts, pls) && InUnit(r, seqNo, ts)
    requires |SoakAll(r, pls, params).staged| + 512 < room
    requires forall k :: 0 <= k < |ocs| && FindsRoom(r, pkts, params, ocs, k, room) ==> Roomy(ocs[k])
    ensures AllRoomy(ocs[..n])
    ensures n < |pkts| ==> var (rn, out) := Receive(r, pkts[..n], params, ocs[..n]);
                           out == [] && Midway(rn, pkts, seqNo, ts, pls, params, n, SoakAll(r, pls, params))
    decreases n
  {
    hide Step, ItemsOf, Bytes, CarryAll, InUnit, SoakAll, Midway, Receive;
    if n == 0 {
      ReceiveNone(r, params);
      MidwayStart(r, pkts, seqNo, ts, pls, params);
    } else {
      var k := n - 1;
      UnitRoomy(r, pkts, seqNo, ts, pls, params, ocs, room, k);
      var (rk, out) := Receive(r, pkts[..k], params, ocs[..k]);
      MidwayStep(rk, pkts, seqNo, ts, pls, params, k, SoakAll(r, pls, params), ocs[k]);
      assert FindsRoom(r, pkts, params, ocs, k, room);
      ReceiveSnoc(r, pkts[..k], params, ocs[..k], pkts[k], ocs[k]);
      assert pkts[..n] == pkts[..k] + [pkts[k]] && ocs[..n] == ocs[..k] + [ocs[k]];
    }
  }

  // The buffered handler over a list of packets, up to the first write that fails:
  // everything is written if there is none, and a proper front part otherwise.
  method FeedBuffered(bx: BufferedReceiver, pkts: seq<seq<byte>>, params: seq<byte>) returns (rc: int)
    requires bx.Valid()
    modifies bx, bx.fu, bx.au
    ensures bx.Valid() && (0 !in old(bx.takes) ==> rc == 0)
    ensures var (b, out) := ReceiveOut(old(bx.Model()), pkts, params);
            if rc == 0 then bx.Model() == b && bx.written == old(bx.written) + out
            else rc < 0 && old(bx.written) <= bx.written < old(bx.written) + out
  {
    hide StepOut;
    ghost var whole := ReceiveOut(bx.Model(), pkts, params);
    ghost var log := bx.written;
    assert pkts[0..] == pkts;
    var k := 0;
    rc := 0;
    while k < |pkts|
      invariant 0 <= k <= |pkts| && bx.Valid() && rc == 0 && log <= bx.written && (0 !in old(bx.takes) ==> 0 !in bx.takes)
      invariant var rest := ReceiveOut(bx.Model(), pkts[k..], params); (rest.0, bx.written + rest.1) == (whole.0, log + whole.1)
    {
      ghost var b, out := bx.Model(), bx.written;
      assert pkts[k..][0] == pkts[k] && pkts[k..][1..] == pkts[k + 1..];
      rc := bx.HandlePacket(pkts[k], params);
      Assoc(out, StepOut(b, pkts[k], params).1, ReceiveOut(bx.Model(), pkts[k + 1..], params).1);
      if rc < 0 {
        return;
      }
      assert bx.written == out + StepOut(b, pkts[k], params).1;
      k := k + 1;
    }
    assert bx.written + [] == bx.written;
  }

  // The same unit to both handlers, with room in the ring, and both waiting for an IDR
  // or neither: they deliver the same bytes if and only if what may pass of the unit
  // keeps within the two buffers and no write fails.
  method FeedBoth(rx: DirectReceiver, bx: BufferedReceiver, au: AccessUnit, seqNo: nat, params: seq<byte>) returns (rc: int)
    requires rx.Valid() && bx.Valid() && {rx, rx.ring, rx.ring.buf} !! {bx, bx.fu, bx.au}
    requires Sendable(au) && seqNo < SEQ_MOD && InStep(rx.Model(), seqNo) && InStep(bx.Model().rx, seqNo)
    requires rx.needIdr == bx.needIdr
    requires |AnnexB(AllAdmitted(au.parcels, rx.needIdr), params)| + 512 < rx.ring.Room()
    modifies rx, rx.ring, rx.ring.buf, bx, bx.fu, bx.au
    ensures exists direct, buffered: seq<byte> ::
              && rx.ring.Committed() == old(rx.ring.Committed()) + direct && bx.written == old(bx.written) + buffered
              && (direct == buffered <==> WithinBuffers(au, old(rx.needIdr), params) && rc == 0)
    ensures 0 !in old(bx.takes) ==> rc == 0
  {
    hide InStep, StepOut, AdmittedOf, AnyIdr, BitstreamRing.Slice, BitstreamRing.At;
    ghost var b, bytes := bx.Model(), AnnexB(AllAdmitted(au.parcels, rx.needIdr), params);
    FeedAccessUnit(rx, au, seqNo, params);
    ghost var log := bx.written;
    rc := FeedBuffered(bx, Sent(au, seqNo), params);
    BufferedRecovery(b, au, seqNo, params);
    ghost var buffered := bx.written[|log|..];
    ghost var out := ReceiveOut(b, Sent(au, seqNo), params).1;
    assert bx.written == log + buffered;
    assert buffered == (log + out)[|log|..][..|buffered|] && (log + out)[|log|..] == out;
    assert rc < 0 ==> |buffered| < |out|;
    assert bytes == buffered <==> WithinBuffers(au, b.rx.needIdr, params) && rc == 0;
  }
}
