// Recovery of the direct H.264 handler (apps/vpu_stream.c): what becomes of a whole
// access unit, from any state a run can leave the receiver in.
module RtpResync {
  import opened Octets
  import RtpGate
  import opened RtpH264
  import opened RtpRoundTrip

  // ----- The states that runs lead to -----

  // Staged bytes have a number and a timestamp, and an IDR slice has left bytes
  // unless the unit is spoiled.
  predicate Sane(r: Receiver) {
    (r.staged != [] ==> r.haveSeq && r.haveTs) && (r.staged == [] && r.hasIdr ==> r.bad)
  }

  lemma RunsAreSane(run: seq<RtpGate.Arrival>, params: seq<byte>, n: nat)
    requires n <= |run|
    ensures Sane(RtpGate.RxAt(run, params, n))
  {
    hide RtpGate.RxAt;
    RtpGate.Invariants(run, params, n);
    var r, o := RtpGate.RxAt(run, params, n), RtpGate.Origin(run, params, n);
    if r.staged == [] && !r.bad {
      RtpGate.NoIdrYet(run, params, r, o, n);
    }
  }

  // A new receiver is in step with every sender.
  lemma FreshInStep(seqNo: nat)
    ensures Sane(Fresh) && Synced(Fresh, seqNo)
  {
  }

  // ----- Where a new unit finds the receiver -----

  // The number is not the one after the last.
  predicate Gap(r: Receiver, seqNo: nat) {
    r.haveSeq && seqNo != (r.lastSeq + 1) % SEQ_MOD
  }

  // Whether an IDR is awaited from the unit's first packet on.
  predicate Awaits(r: Receiver, seqNo: nat) {
    r.needIdr || Gap(r, seqNo) || r.staged != []
  }

  // A unit that was spoiled before anything of it was staged, and whose marker is
  // lost, spoils the next one.
  predicate Spoils(r: Receiver) {
    r.staged == [] && r.bad
  }

  // After a gap the first packet is not used if it is a fragment.
  function LeftOf(ps: seq<Parcel>, gap: bool): seq<Parcel> {
    if gap && ps != [] && ps[0].Split? then ps[1..] else ps
  }

  // If that was the start of an IDR slice, the fragments that follow spoil the unit.
  predicate Orphans(ps: seq<Parcel>, gap: bool) {
    gap && ps != [] && ps[0].Split? && NalType(ps[0].nal[0]) == 5 && |ps[0].parts| > 1
  }

  // The receiver as the first packet's header leaves it, short of number and timestamp.
  function Turned(r: Receiver, seqNo: nat): Receiver {
    Receiver(false, 0, Awaits(r, seqNo), false, 0, [], Spoils(r), r.staged == [] && r.hasIdr,
             r.fuActive && !Gap(r, seqNo))
  }

  lemma HeaderTurns(r: Receiver, pkt: seq<byte>, seqNo: nat, ts: nat)
    requires Sane(r) && ValidHeader(pkt) && SeqNo(pkt) == seqNo && Timestamp(pkt) == ts && (r.haveTs ==> r.ts != ts)
    ensures AfterHeader(r, pkt) == Tuned(Turned(r, seqNo), seqNo, ts) == AfterHeader(Turned(r, seqNo), pkt)
    ensures (SeqGap(r, pkt) <==> Gap(r, seqNo)) && !SeqGap(Turned(r, seqNo), pkt)
  {
    hide SeqNo, Timestamp;
  }

  lemma GapMattersToFragments(pl: Nalu, r: Receiver, params: seq<byte>)
    ensures if NalType(pl[0]) == 28 && |pl| >= 2 then PlanFor(pl, r, true, params) == Plan([], false, r.fuActive, false)
            else PlanFor(pl, r, true, params) == PlanFor(pl, r, false, params)
  {
    hide AllItems, AnyIdr, Aggregated;
  }

  // The first packet finds the receiver turned, and is not used if it is a fragment
  // after a gap.
  lemma FirstStep(r: Receiver, pkt: seq<byte>, seqNo: nat, ts: nat, marker: bool, pl: Nalu, params: seq<byte>, oc: seq<Outcome>)
    requires Sane(r) && Carries(pkt, seqNo, ts, marker, pl) && (r.haveTs ==> r.ts != ts) && Roomy(oc)
    requires |pl| >= 2 || NalType(pl[0]) != 28
    ensures var r0 := Turned(r, seqNo);
            var r1 := Tuned(r0, seqNo, ts);
            Step(r, pkt, params, oc)
            == if !Gap(r, seqNo) || NalType(pl[0]) != 28 then Step(r0, pkt, params, oc)
               else if marker then Flush(r1) else (r1, [])
  {
    hide SeqNo, Timestamp, Marker, Payload, AfterHeader, SeqGap, PlanFor, Turned, Flush;
    HeaderTurns(r, pkt, seqNo, ts);
    GapMattersToFragments(pl, AfterHeader(r, pkt), params);
  }

  // ----- Staging a spoiled unit -----

  lemma {:induction false} SoakSpoiled(r: Receiver, pls: seq<Nalu>, params: seq<byte>)
    requires r.bad
    ensures var whole := SoakAll(r, pls, params);
            whole.bad && whole.needIdr == r.needIdr && Flush(whole).1 == [] && Flush(whole).0.needIdr == r.needIdr
    decreases |pls|
  {
    hide PlanFor, Bytes;
    if pls != [] {
      SoakSpoiled(Soak(r, pls[0], params), pls[1..], params);
    }
  }

  // Fragments of an IDR slice whose first was not used.
  lemma SoakOrphans(r: Receiver, nal: Nalu, parts: seq<seq<byte>>, more: seq<Nalu>, params: seq<byte>)
    requires r.needIdr && !r.fuActive && NalType(nal[0]) == 5 && parts != []
    ensures var whole := SoakAll(r, FragmentPayloads(nal, parts, false) + more, params);
            Flush(whole).1 == [] && Flush(whole).0.needIdr
  {
    var pls := FragmentPayloads(nal, parts, false);
    var pl := pls[0];
    assert NalType(pl[0]) == 28 && FuHeader(pl) == nal[0];
    var r1 := Soak(r, pl, params);
    assert r1.bad;
    SoakTail(r, pls, more, params);
    SoakSpoiled(r1, pls[1..] + more, params);
  }

  lemma FragmentType(nal: Nalu, part: seq<byte>, first: bool, last: bool)
    ensures var pl := FragmentPayload(nal, part, first, last); NalType(pl[0]) == 28 && |pl| >= 2
  {
  }

  // The first fragment and the others.
  lemma FirstFragment(nal: Nalu, parts: seq<seq<byte>>, more: seq<Nalu>)
    requires parts != []
    ensures var pls := FragmentPayloads(nal, parts, true) + more;
            && pls != [] && NalType(pls[0][0]) == 28 && |pls[0]| >= 2
            && pls[1..] == FragmentPayloads(nal, parts[1..], false) + more
  {
    hide FragmentPayload, NalType;
    FragmentType(nal, parts[0], true, |parts| == 1);
    var front := FragmentPayloads(nal, parts, true);
    assert front[1..] == FragmentPayloads(nal, parts[1..], false);
    assert (front + more)[1..] == front[1..] + more;
  }

  // What is left of a unit after the first packet of a split parcel.
  lemma RestOfSplit(ps: seq<Parcel>)
    requires AllProper(ps) && ps != [] && ps[0].Split?
    ensures var pls := AllPayloads(ps);
            && pls != [] && NalType(pls[0][0]) == 28 && |pls[0]| >= 2
            && pls[1..] == FragmentPayloads(ps[0].nal, ps[0].parts[1..], false) + AllPayloads(ps[1..])
  {
    assert ps[0].parts != [];
    hide FragmentPayloads, NalType, AllProper, Proper;
    FirstFragment(ps[0].nal, ps[0].parts, AllPayloads(ps[1..]));
  }

  lemma FirstOfWhole(ps: seq<Parcel>)
    requires AllProper(ps) && ps != [] && !ps[0].Split?
    ensures AllPayloads(ps) != [] && NalType(AllPayloads(ps)[0][0]) != 28
  {
  }

  // What comes of a unit staged into a receiver that is not spoiled.
  lemma SoakParcelsFlushed(r: Receiver, ps: seq<Parcel>, params: seq<byte>)
    requires AllProper(ps) && r.staged == [] && !r.bad && !r.hasIdr
    ensures var (end, unit) := Flush(SoakAll(r, AllPayloads(ps), params));
            && unit == AnnexB(AllAdmitted(ps, r.needIdr), params)
            && (end.needIdr <==> r.needIdr && !AnyIdr(AllNals(ps)))
  {
    hide SoakAll, AnyIdr;
    var bytes := AnnexB(AllAdmitted(ps, r.needIdr), params);
    SoakParcels(r, ps, params);
    assert [] + bytes == bytes;
    if AnyIdr(AllNals(ps)) {
      IdrLeavesBytes(ps, r.needIdr, params);
    }
  }

  // What is to come of a unit.
  predicate Outlived(r: Receiver, ps: seq<Parcel>, seqNo: nat, params: seq<byte>, awaits: bool, out: seq<byte>) {
    var left := LeftOf(ps, Gap(r, seqNo));
    if Spoils(r) || Orphans(ps, Gap(r, seqNo)) then out == [] && awaits == Awaits(r, seqNo)
    else
      && out == AnnexB(AllAdmitted(left, Awaits(r, seqNo)), params)
      && (awaits <==> Awaits(r, seqNo) && !AnyIdr(AllNals(left)))
  }

  // The first packet is used, or is no fragment.
  lemma WholeOutlived(r: Receiver, ps: seq<Parcel>, seqNo: nat, params: seq<byte>)
    requires Sane(r) && AllProper(ps) && ps != [] && (Gap(r, seqNo) ==> !ps[0].Split?)
    ensures var (end, unit) := Flush(SoakAll(Turned(r, seqNo), AllPayloads(ps), params));
            Outlived(r, ps, seqNo, params, end.needIdr, unit)
  {
    hide SoakAll, AnyIdr, Flush, Gap, Awaits;
    if Spoils(r) {
      SoakSpoiled(Turned(r, seqNo), AllPayloads(ps), params);
    } else {
      SoakParcelsFlushed(Turned(r, seqNo), ps, params);
    }
  }

  // The first packet is not used.
  lemma RestOutlived(r: Receiver, ps: seq<Parcel>, seqNo: nat, ts: nat, params: seq<byte>)
    requires Sane(r) && AllProper(ps) && ps != [] && Gap(r, seqNo) && ps[0].Split?
    ensures var (end, unit) := Flush(SoakAll(Tuned(Turned(r, seqNo), seqNo, ts), AllPayloads(ps)[1..], params));
            Outlived(r, ps, seqNo, params, end.needIdr, unit)
  {
    hide SoakAll, AnyIdr, Flush, AllPayloads, FragmentPayloads;
    var r1, nal, parts := Tuned(Turned(r, seqNo), seqNo, ts), ps[0].nal, ps[0].parts[1..];
    RestOfSplit(ps);
    if Spoils(r) {
      SoakSpoiled(r1, AllPayloads(ps)[1..], params);
    } else if Orphans(ps, true) {
      SoakOrphans(r1, nal, parts, AllPayloads(ps[1..]), params);
    } else {
      SoakConcat(r1, FragmentPayloads(nal, parts, false), AllPayloads(ps[1..]), params);
      NothingSoaked(r1, nal, parts, params);
      SoakParcelsFlushed(r1, ps[1..], params);
    }
  }

  lemma NothingSoaked(r: Receiver, nal: Nalu, parts: seq<seq<byte>>, params: seq<byte>)
    requires r.needIdr && (NalType(nal[0]) == 5 ==> parts == [])
    ensures SoakAll(r, FragmentPayloads(nal, parts, false), params) == r
  {
    if parts != [] {
      SoakHeldBack(r, nal, parts, false, params);
    }
  }

  // From any state of a run: a whole unit with a new timestamp, and room for it.  The
  // receiver is in step afterwards.  It commits what may pass of the unit: all, if
  // nothing was lost; IDR slices and parameter sets, if something was or an IDR is
  // awaited; without the first parcel, if that is split and a gap comes before it; and
  // nothing, if that parcel was an IDR slice of several fragments, or if the last unit
  // was spoiled before anything of it was staged and lost its marker.
  lemma Resync(r: Receiver, au: AccessUnit, seqNo: nat, params: seq<byte>, ocs: seq<seq<Outcome>>)
    requires Sendable(au) && seqNo < SEQ_MOD && Sane(r) && (r.haveTs ==> r.ts != au.ts)
    requires |ocs| == |Sent(au, seqNo)| && AllRoomy(ocs)
    ensures var (r', out) := Receive(r, Sent(au, seqNo), params, ocs);
            InStep(r', NextSeq(seqNo, |Sent(au, seqNo)|)) && Outlived(r, au.parcels, seqNo, params, r'.needIdr, out)
  {
    hide SoakAll, Receive, CarryAll, Carries, Flush, Outlived, InStep, Turned, Step, AllPayloads, Gap, Packets;
    var ps, pkts, pls := au.parcels, Sent(au, seqNo), AllPayloads(au.parcels);
    PacketsCarry(au.envs, seqNo, au.ts, pls);
    FirstCarries(pkts, seqNo, au.ts, pls);
    SomeParcel(ps);
    if ps[0].Split? {
      RestOfSplit(ps);
    } else {
      FirstOfWhole(ps);
    }
    FirstStep(r, pkts[0], seqNo, au.ts, |pls| == 1, pls[0], params, ocs[0]);
    var r0 := Turned(r, seqNo);
    TurnedInUnit(r, seqNo, au.ts);
    if Gap(r, seqNo) && ps[0].Split? {
      RestOutlived(r, ps, seqNo, au.ts, params);
      RestReceived(r, Tuned(r0, seqNo, au.ts), pkts, seqNo, au.ts, pls, params, ocs);
    } else {
      WholeOutlived(r, ps, seqNo, params);
      SameFromFirst(r, r0, pkts, params, ocs);
      UnitDelivered(r0, pkts, seqNo, au.ts, pls, params, ocs);
    }
  }

  lemma SomeParcel(ps: seq<Parcel>)
    requires AllPayloads(ps) != []
    ensures ps != []
  {
  }

  lemma FirstCarries(pkts: seq<seq<byte>>, seqNo: nat, ts: nat, pls: seq<Nalu>)
    requires CarryAll(pkts, seqNo, ts, pls) && pls != []
    ensures Carries(pkts[0], seqNo, ts, |pls| == 1, pls[0])
    ensures CarryAll(pkts[1..], (seqNo + 1) % SEQ_MOD, ts, pls[1..])
    ensures NextSeq(seqNo, |pls|) == NextSeq((seqNo + 1) % SEQ_MOD, |pls| - 1)
  {
    hide Carries;
    assert NextSeq(seqNo, 0) == seqNo;
  }

  lemma TurnedInUnit(r: Receiver, seqNo: nat, ts: nat)
    ensures InUnit(Turned(r, seqNo), seqNo, ts)
    ensures var r1 := Tuned(Turned(r, seqNo), seqNo, ts);
            InUnit(r1, (seqNo + 1) % SEQ_MOD, ts) && r1.staged == []
  {
  }

  lemma SameFromFirst(r: Receiver, r0: Receiver, pkts: seq<seq<byte>>, params: seq<byte>, ocs: seq<seq<Outcome>>)
    requires |ocs| == |pkts| > 0 && Step(r, pkts[0], params, ocs[0]) == Step(r0, pkts[0], params, ocs[0])
    ensures Receive(r, pkts, params, ocs) == Receive(r0, pkts, params, ocs)
  {
    hide Step;
  }

  // After a first packet that is not used the others decide.
  lemma RestReceived(r: Receiver, r1: Receiver, pkts: seq<seq<byte>>, seqNo: nat, ts: nat, pls: seq<Nalu>,
                     params: seq<byte>, ocs: seq<seq<Outcome>>)
    requires |pls| == |ocs| == |pkts| > 0 && AllRoomy(ocs) && r1 == Tuned(r1, seqNo, ts)
    requires InUnit(r1, (seqNo + 1) % SEQ_MOD, ts) && CarryAll(pkts[1..], (seqNo + 1) % SEQ_MOD, ts, pls[1..])
    requires Step(r, pkts[0], params, ocs[0]) == if |pls| == 1 then Flush(r1) else (r1, [])
    ensures var (r', out), (end, unit) := Receive(r, pkts, params, ocs), Flush(SoakAll(r1, pls[1..], params));
            InStep(r', NextSeq((seqNo + 1) % SEQ_MOD, |pls| - 1)) && r'.needIdr == end.needIdr && out == unit
  {
    hide Step, CarryAll, InUnit;
    ReceiveCons(r, pkts[0], pkts[1..], params, ocs[0], ocs[1..]);
    assert [pkts[0]] + pkts[1..] == pkts && [ocs[0]] + ocs[1..] == ocs;
    if |pls| == 1 {
      hide Flush;
      FlushSyncs(r1, seqNo, ts);
      assert pkts[1..] == [] && pls[1..] == [];
      var out := Flush(r1).1;
      assert out + [] == out;
    } else {
      hide Flush;
      UnitDelivered(r1, pkts[1..], (seqNo + 1) % SEQ_MOD, ts, pls[1..], params, ocs[1..]);
      var out := Receive(r1, pkts[1..], params, ocs[1..]).1;
      assert [] + out == out;
    }
  }
}
