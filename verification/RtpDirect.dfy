// The direct H.264 receiver as the driver program runs it: fields updated per
// packet, bytes staged in the bitstream ring behind the write pointer while the
// decoder reads on.  Every call is one Step of the packet semantics.
module RtpDirect {
  import opened BitstreamRing
  import opened Octets
  import opened RtpH264

  lemma {:induction false} PutAllConcat(st: Stage, a: seq<Item>, b: seq<Item>, oa: seq<Outcome>, ob: seq<Outcome>)
    requires |a| == |oa| && |b| == |ob|
    ensures PutAll(st, a + b, oa + ob) == PutAll(PutAll(st, a, oa), b, ob)
    decreases |a|
  {
    if a == [] {
      assert a + b == b && oa + ob == ob;
    } else {
      PutAllConcat(Put(st, a[0], oa[0]), a[1..], b, oa[1..], ob);
      assert (a + b)[1..] == a[1..] + b && (oa + ob)[1..] == oa[1..] + ob;
    }
  }

  // Putting items one after another, and how many bytes that can add.
  lemma {:induction false} PutAllLength(st: Stage, items: seq<Item>, oc: seq<Outcome>)
    requires |oc| == |items|
    ensures |PutAll(st, items, oc).bytes| <= |st.bytes| + |Bytes(items)|
    decreases |items|
  {
    if items != [] {
      PutAllLength(Put(st, items[0], oc[0]), items[1..], oc[1..]);
    }
  }

  class DirectReceiver {
    const ring: Ring
    var haveSeq: bool
    var lastSeq: nat
    var needIdr: bool
    var haveTs: bool
    var ts: nat
    var auLen: nat
    var bad: bool
    var hasIdr: bool
    var fuActive: bool

    // The staged unit keeps 512 bytes clear of what the decoder has yet to read.
    ghost predicate Valid()
      reads this, ring, ring.buf
    {
      ring.Valid() && (auLen == 0 || auLen + 512 < ring.Room())
    }

    ghost function StageNow(): Stage
      requires Valid()
      reads this, ring, ring.buf
    {
      Stage(ring.Staged(auLen), bad)
    }

    ghost function Model(): Receiver
      requires Valid()
      reads this, ring, ring.buf
    {
      Receiver(haveSeq, lastSeq, needIdr, haveTs, ts, ring.Staged(auLen), bad, hasIdr, fuActive)
    }

    constructor (ring: Ring)
      requires ring.Valid()
      ensures Valid() && this.ring == ring && Model() == Fresh
    {
      this.ring := ring;
      haveSeq, lastSeq, needIdr, haveTs, ts := false, 0, false, false, 0;
      auLen, bad, hasIdr, fuActive := 0, false, false, false;
    }

    // rtp_direct_append.
    method Append(p: seq<byte>) returns (ok: bool)
      requires Valid()
      modifies this`auLen, this`bad, ring`pace, ring`rdPtr, ring`queue, ring`decoded, ring.buf
      ensures Valid() && ring.Committed() == old(ring.Committed()) && ring.DecoderRan()
      ensures StageNow() == Put(old(StageNow()), Raw(p), if ok then Full else Refused)
      ensures ring.Room() >= old(ring.Room())
      ensures p == [] || old(auLen) + |p| + 512 < old(ring.Room()) ==> ok
    {
      ghost var staged := ring.Staged(auLen);
      ok := ring.DirectAppend(auLen, p);
      if !ok {
        bad := true;
        return;
      }
      assert staged + [] == staged;
      auLen := auLen + |p|;
    }

    // rtp_direct_append_nal.
    method AppendNal(nal: Nalu) returns (ok: bool, ghost o: Outcome)
      requires Valid()
      modifies this`auLen, this`bad, ring`pace, ring`rdPtr, ring`queue, ring`decoded, ring.buf
      ensures Valid() && ring.Committed() == old(ring.Committed()) && ring.DecoderRan()
      ensures StageNow() == Put(old(StageNow()), Nal(nal), o) && (ok <==> o == Full)
      ensures ring.Room() >= old(ring.Room())
      ensures old(auLen) + 4 + |nal| + 512 < old(ring.Room()) ==> ok
    {
      ok := Append(START_CODE);
      if !ok {
        return ok, Refused;
      }
      ok := Append(nal);
      o := if ok then Full else HeadOnly;
    }

    // A whole NAL unit, as the single-unit and aggregation branches stage it.
    method AppendUnit(nal: Nalu, params: seq<byte>) returns (ghost oc: seq<Outcome>)
      requires Valid()
      modifies this`auLen, this`bad, this`hasIdr, ring`pace, ring`rdPtr, ring`queue, ring`decoded, ring.buf
      ensures Valid() && ring.Committed() == old(ring.Committed()) && ring.DecoderRan()
      ensures |oc| == |UnitItems(nal, params)|
      ensures StageNow() == PutAll(old(StageNow()), UnitItems(nal, params), oc)
      ensures hasIdr == (old(hasIdr) || NalType(nal[0]) == 5)
      ensures ring.Room() >= old(ring.Room())
      ensures old(auLen) + |Bytes(UnitItems(nal, params))| + 512 < old(ring.Room()) ==> Roomy(oc)
    {
      hide Slice, At, Bytes, PutAll;
      oc := [];
      var ok;
      ghost var o;
      if nal[0] % 32 == 5 {
        hasIdr := true;
      }
      if nal[0] % 32 == 5 && |params| > 0 {
        ok := Append(params);
        oc := [if ok then Full else Refused];
      }
      ok, o := AppendNal(nal);
      oc := oc + [o];
      TwoItems(old(StageNow()), nal, params, oc);
    }

    // One unit of an aggregation packet: staged unless the IDR gate holds it back.
    method AppendGated(unit: Nalu, params: seq<byte>) returns (ghost oc: seq<Outcome>)
      requires Valid()
      modifies this`auLen, this`bad, this`hasIdr, ring`pace, ring`rdPtr, ring`queue, ring`decoded, ring.buf
      ensures Valid() && ring.Committed() == old(ring.Committed()) && ring.DecoderRan()
      ensures var items := GatedItems(unit, needIdr, params);
              && |oc| == |items|
              && StageNow() == PutAll(old(StageNow()), items, oc)
              && (old(auLen) + |Bytes(items)| + 512 < old(ring.Room()) ==> Roomy(oc))
      ensures hasIdr == (old(hasIdr) || NalType(unit[0]) == 5)
      ensures ring.Room() >= old(ring.Room())
    {
      if needIdr && unit[0] % 32 != 5 && unit[0] % 32 != 7 && unit[0] % 32 != 8 {
        return [];
      }
      oc := AppendUnit(unit, params);
    }

    // The loop over an aggregation packet.
    method AppendAggregated(pl: Nalu, params: seq<byte>) returns (ghost oc: seq<Outcome>)
      requires Valid()
      modifies this`auLen, this`bad, this`hasIdr, ring`pace, ring`rdPtr, ring`queue, ring`decoded, ring.buf
      ensures Valid() && ring.Committed() == old(ring.Committed()) && ring.DecoderRan()
      ensures var items := AllItems(Aggregated(pl, 1), needIdr, params);
              && |oc| == |items|
              && StageNow() == PutAll(old(StageNow()), items, oc)
              && (old(auLen) + |Bytes(items)| + 512 < old(ring.Room()) ==> Roomy(oc))
      ensures hasIdr == (old(hasIdr) || AnyIdr(Aggregated(pl, 1)))
      ensures ring.Room() >= old(ring.Room())
    {
      hide Bytes, PutAll, AllItems, GatedItems, Aggregated, AnyIdr, Put;
      ghost var st0, items := StageNow(), AllItems(Aggregated(pl, 1), needIdr, params);
      ghost var done, rest: seq<Item> := [], items;
      oc := [];
      var p := 1;
      NothingPut(st0);
      while p + 2 <= |pl|
        invariant Valid() && p >= 1 && ring.Committed() == old(ring.Committed()) && ring.DecoderRan()
        invariant done + rest == items && rest == AllItems(Aggregated(pl, p), needIdr, params)
        invariant |oc| == |done| && StageNow() == PutAll(st0, done, oc)
        invariant (hasIdr || AnyIdr(Aggregated(pl, p))) == (old(hasIdr) || AnyIdr(Aggregated(pl, 1)))
        invariant ring.Room() >= old(ring.Room())
        invariant old(auLen) + |Bytes(items)| + 512 < old(ring.Room()) ==> Roomy(oc)
        decreases |pl| - p
      {
        var n := Word(pl[p], pl[p + 1]);
        if n <= 0 || p + 2 + n > |pl| {
          break;
        }
        p := p + 2;
        var unit: Nalu := pl[p..p + n];
        p := p + n;
        ghost var more := GatedItems(unit, needIdr, params);
        rest := NextAggregated(pl, p - 2 - n, needIdr, params);
        RoomLeft(st0, done, more, rest, oc);
        ghost var oc1 := AppendGated(unit, params);
        PutAllConcat(st0, done, more, oc, oc1);
        assert done + more + rest == done + (more + rest);
        done, oc := done + more, oc + oc1;
      }
      AggregatedEnd(pl, p, needIdr, params);
      assert done == items;
    }

    // The head of a unit at its first fragment, with the parameter sets if it is an
    // IDR slice.
    method AppendHead(hdr: byte, start: bool, params: seq<byte>)
      returns (ghost head: seq<Item>, ghost oc: seq<Outcome>)
      requires Valid()
      modifies this`auLen, this`bad, this`hasIdr, this`fuActive, ring`pace, ring`rdPtr, ring`queue, ring`decoded, ring.buf
      ensures Valid() && ring.Committed() == old(ring.Committed()) && ring.DecoderRan()
      ensures head == (if start then UnitItems([hdr], params) else []) && |oc| == |head|
      ensures StageNow() == PutAll(old(StageNow()), head, oc)
      ensures hasIdr == (old(hasIdr) || (start && NalType(hdr) == 5)) && fuActive == (old(fuActive) || start)
      ensures ring.Room() >= old(ring.Room())
      ensures old(auLen) + |Bytes(head)| + 512 < old(ring.Room()) ==> Roomy(oc)
    {
      hide Bytes, PutAll, Put, UnitItems, Slice, At;
      head, oc := [], [];
      NothingPut(StageNow());
      if start {
        head := UnitItems([hdr], params);
        oc := AppendUnit([hdr], params);
        fuActive := true;
      }
    }

    // The fragmentation-unit branch.
    method AppendFragment(pl: Nalu, gap: bool, params: seq<byte>) returns (ghost oc: seq<Outcome>)
      requires Valid() && |pl| >= 2
      modifies this`auLen, this`bad, this`hasIdr, this`fuActive, ring`pace, ring`rdPtr, ring`queue, ring`decoded, ring.buf
      ensures Valid() && ring.Committed() == old(ring.Committed()) && ring.DecoderRan()
      ensures var plan := FuPlan(pl, old(Model()), gap, params);
              && |oc| == |plan.items|
              && StageNow() == PutAll(Stage(old(ring.Staged(auLen)), old(bad) || plan.orphan), plan.items, oc)
              && hasIdr == (old(hasIdr) || plan.idr) && fuActive == plan.fuActive
              && (old(auLen) + |Bytes(plan.items)| + 512 < old(ring.Room()) ==> Roomy(oc))
      ensures ring.Room() >= old(ring.Room())
    {
      hide Bytes, PutAll, Put, UnitItems, FuPlan, Slice, At;
      FragmentPlan(pl, Model(), gap, params);
      var start, end := pl[1] >= 0x80, (pl[1] / 64) % 2 == 1;
      var hdr: byte := (pl[0] / 32) * 32 + pl[1] % 32;
      var t := hdr % 32;
      oc := [];
      ghost var st0 := StageNow();
      NothingPut(st0);
      NothingPut(Stage(st0.bytes, true));
      if gap || (needIdr && t != 5) {
        return;
      }
      ghost var head;
      head, oc := AppendHead(hdr, start, params);
      if !fuActive {
        bad := true;
        return;
      }
      BytesLength(head, [Raw(pl[2..])]);
      oc := AppendBody(pl[2..], end, st0, head, oc);
    }

    // The rest of the branch: the fragment's bytes, and the end of the unit.
    method AppendBody(body: seq<byte>, end: bool, ghost st0: Stage, ghost head: seq<Item>, ghost oc0: seq<Outcome>)
      returns (ghost oc: seq<Outcome>)
      requires Valid() && fuActive && |oc0| == |head| && StageNow() == PutAll(st0, head, oc0)
      modifies this`auLen, this`bad, this`fuActive, ring`pace, ring`rdPtr, ring`queue, ring`decoded, ring.buf
      ensures Valid() && ring.Committed() == old(ring.Committed()) && ring.DecoderRan()
      ensures |oc| == |oc0| + 1 && StageNow() == PutAll(st0, head + [Raw(body)], oc)
      ensures fuActive == !end && ring.Room() >= old(ring.Room())
      ensures Roomy(oc0) && |st0.bytes| + |Bytes(head + [Raw(body)])| + 512 < old(ring.Room()) ==> Roomy(oc)
    {
      hide Bytes, PutAll, Put;
      PutAllLength(st0, head, oc0);
      BytesLength(head, [Raw(body)]);
      var ok := Append(body);
      OneItem(st0, head, Raw(body), oc0, if ok then Full else Refused);
      oc := oc0 + [if ok then Full else Refused];
      if end {
        fuActive := false;
      }
    }

    // rtp_h264_seq_gap.
    method CheckSequence(pkt: seq<byte>) returns (gap: bool)
      requires Valid() && ValidHeader(pkt)
      modifies this`haveSeq, this`lastSeq, this`fuActive, this`needIdr
      ensures Valid() && gap == SeqGap(old(Model()), pkt) && Model() == AfterSeq(old(Model()), pkt)
    {
      var seqNo := Word(pkt[2], pkt[3]);
      if !haveSeq {
        haveSeq := true;
        lastSeq := seqNo;
        return false;
      }
      var wanted := (lastSeq + 1) % SEQ_MOD;
      lastSeq := seqNo;
      if seqNo == wanted {
        return false;
      }
      fuActive := false;
      needIdr := true;
      return true;
    }

    // rtp_direct_reset.
    method ResetUnit()
      requires ring.Valid()
      modifies this`auLen, this`bad, this`hasIdr
      ensures Valid() && auLen == 0 && !bad && !hasIdr
      ensures old(Valid()) ==> Model() == Reset(old(Model()))
    {
      auLen := 0;
      bad := false;
      hasIdr := false;
    }

    // rtp_direct_flush: the update call succeeds because staging kept within the
    // room and the decoder only makes more of it.
    method FlushUnit() returns (committed: nat)
      requires Valid()
      modifies this`auLen, this`bad, this`hasIdr, this`needIdr, ring
      ensures Valid() && ring.DecoderRan()
      ensures var (m, out) := Flush(old(Model()));
              Model() == m && committed == |out| && ring.Committed() == old(ring.Committed()) + out
      ensures committed > 0 ==> committed + 512 < old(ring.Room())
      ensures committed == 0 ==> ring.wrPtr == old(ring.wrPtr)
    {
      hide Slice, At;
      committed := 0;
      ghost var log := ring.Committed();
      assert log + [] == log;
      if auLen > 0 && !bad {
        if !needIdr || hasIdr {
          committed := ring.CommitStaged(auLen);
          if hasIdr {
            needIdr := false;
          }
        } else {
          committed := ring.CommitStaged(auLen);
        }
      }
      ResetUnit();
    }

    // The access-unit boundary test of handle_rtp_h264_direct.
    method CheckTimestamp(pkt: seq<byte>, gap: bool)
      requires Valid() && ValidHeader(pkt)
      modifies this`auLen, this`bad, this`hasIdr, this`needIdr, this`haveTs, this`ts
      ensures Valid() && Model() == AfterTimestamp(old(Model()), pkt, gap) && auLen <= old(auLen)
    {
      var stamp := Word(pkt[4], pkt[5]) * 0x10000 + Word(pkt[6], pkt[7]);
      var newUnit := false;
      if !haveTs || ts != stamp {
        if haveTs && auLen > 0 {
          needIdr := true;
          ResetUnit();
        }
        haveTs := true;
        ts := stamp;
        newUnit := true;
      }
      if gap && !newUnit {
        bad := true;
      }
    }

    // The single-unit branch.
    method StageSingle(pl: Nalu, params: seq<byte>) returns (ghost oc: seq<Outcome>)
      requires Valid()
      modifies this`auLen, this`bad, this`hasIdr, ring`pace, ring`rdPtr, ring`queue, ring`decoded, ring.buf
      ensures Valid() && ring.Committed() == old(ring.Committed()) && ring.DecoderRan() && ring.Room() >= old(ring.Room())
      ensures var plan := UnitsPlan([pl], old(Model()), params);
              && Model() == Staged(old(Model()), plan, oc)
              && (old(auLen) + |Bytes(plan.items)| + 512 < old(ring.Room()) ==> Roomy(oc))
    {
      hide Bytes, PutAll, AllItems, GatedItems, AnyIdr, Slice, At;
      OneUnit(pl, needIdr, params);
      oc := AppendGated(pl, params);
      assert Outcomes(oc, |oc|) == oc;
    }

    // The aggregation branch.
    method StageGroup(pl: Nalu, params: seq<byte>) returns (ghost oc: seq<Outcome>)
      requires Valid()
      modifies this`auLen, this`bad, this`hasIdr, ring`pace, ring`rdPtr, ring`queue, ring`decoded, ring.buf
      ensures Valid() && ring.Committed() == old(ring.Committed()) && ring.DecoderRan() && ring.Room() >= old(ring.Room())
      ensures var plan := UnitsPlan(Aggregated(pl, 1), old(Model()), params);
              && Model() == Staged(old(Model()), plan, oc)
              && (old(auLen) + |Bytes(plan.items)| + 512 < old(ring.Room()) ==> Roomy(oc))
    {
      hide Bytes, PutAll, AllItems, Aggregated, AnyIdr, Slice, At;
      oc := AppendAggregated(pl, params);
      assert Outcomes(oc, |oc|) == oc;
    }

    // The fragmentation-unit branch.
    method StageFragment(pl: Nalu, gap: bool, params: seq<byte>) returns (ghost oc: seq<Outcome>)
      requires Valid() && |pl| >= 2
      modifies this`auLen, this`bad, this`hasIdr, this`fuActive, ring`pace, ring`rdPtr, ring`queue, ring`decoded, ring.buf
      ensures Valid() && ring.Committed() == old(ring.Committed()) && ring.DecoderRan() && ring.Room() >= old(ring.Room())
      ensures var plan := FuPlan(pl, old(Model()), gap, params);
              && Model() == Staged(old(Model()), plan, oc)
              && (old(auLen) + |Bytes(plan.items)| + 512 < old(ring.Room()) ==> Roomy(oc))
    {
      hide Bytes, PutAll, FuPlan, Slice, At;
      oc := AppendFragment(pl, gap, params);
      assert Outcomes(oc, |oc|) == oc;
    }

    // The payload part of handle_rtp_h264_direct.
    method StagePayload(pl: Nalu, gap: bool, params: seq<byte>) returns (ghost oc: seq<Outcome>)
      requires Valid()
      modifies this`auLen, this`bad, this`hasIdr, this`fuActive, ring`pace, ring`rdPtr, ring`queue, ring`decoded, ring.buf
      ensures Valid() && ring.Committed() == old(ring.Committed()) && ring.DecoderRan() && ring.Room() >= old(ring.Room())
      ensures var plan := PlanFor(pl, old(Model()), gap, params);
              && Model() == Staged(old(Model()), plan, oc)
              && (old(auLen) + |Bytes(plan.items)| + 512 < old(ring.Room()) ==> Roomy(oc))
    {
      hide Bytes, Staged, UnitsPlan, FuPlan, Aggregated, Slice, At;
      var t := pl[0] % 32;
      oc := [];
      if 1 <= t <= 23 {
        oc := StageSingle(pl, params);
      } else if t == 24 {
        oc := StageGroup(pl, params);
      } else if t == 28 && |pl| >= 2 {
        oc := StageFragment(pl, gap, params);
      } else {
        NothingStaged(Model());
      }
    }

    // handle_rtp_h264_direct: one call is one Step, whatever the decoder consumes
    // meanwhile, and what it commits is appended to the ring's queue.
    method HandlePacket(pkt: seq<byte>, params: seq<byte>) returns (committed: nat, ghost oc: seq<Outcome>)
      requires Valid()
      modifies this, ring, ring.buf
      ensures Valid() && ring.DecoderRan()
      ensures var (m, out) := Step(old(Model()), pkt, params, oc);
              && Model() == m && committed == |out|
              && ring.Committed() == old(ring.Committed()) + out
      ensures old(auLen) + |Bytes(ItemsOf(old(Model()), pkt, params))| + 512 < old(ring.Room()) ==> Roomy(oc)
      ensures committed == 0 ==> ring.wrPtr == old(ring.wrPtr) && ring.Room() >= old(ring.Room())
      ensures old(ring.pace) == [] && committed > 0 ==> committed + 512 < old(ring.Room())
      ensures old(ring.pace) == [] && committed == 0 ==> ring.Room() == old(ring.Room())
    {
      hide PlanFor, Payload, Staged, Flush, AfterSeq, AfterTimestamp, SeqGap, Bytes, SeqNo, Timestamp;
      committed, oc := 0, [];
      ghost var log := ring.Committed();
      assert log + [] == log;
      if |pkt| < 12 || pkt[0] / 64 != 2 {
        return;
      }
      var marker := pkt[1] >= 0x80;
      var gap := CheckSequence(pkt);
      CheckTimestamp(pkt, gap);
      var off := LocatePayload(pkt);
      if |pkt| <= off {
        return;
      }
      oc := StagePayload(pkt[off..], gap, params);
      if marker {
        committed := FlushUnit();
      }
    }
  }

  // Skipping contributing sources and the header extension.
  method LocatePayload(pkt: seq<byte>) returns (off: nat)
    requires ValidHeader(pkt)
    ensures Payload(pkt) == if off < |pkt| then Some(pkt[off..]) else None
  {
    off := 12 + (pkt[0] % 16) * 4;
    if (pkt[0] / 16) % 2 == 1 {
      if |pkt| < off + 4 {
        return |pkt|;
      }
      var words := Word(pkt[off + 2], pkt[off + 3]);
      off := off + 4 + words * 4;
    }
  }

  lemma OneUnit(unit: Nalu, needIdr: bool, params: seq<byte>)
    ensures AllItems([unit], needIdr, params) == GatedItems(unit, needIdr, params)
    ensures AnyIdr([unit]) <==> NalType(unit[0]) == 5
  {
    AnyIdrCons(unit, []);
    assert [unit] + [] == [unit] && [unit][1..] == [];
  }

  lemma OneItem(st: Stage, items: seq<Item>, item: Item, oc: seq<Outcome>, o: Outcome)
    requires |oc| == |items|
    ensures PutAll(st, items + [item], oc + [o]) == Put(PutAll(st, items, oc), item, o)
    ensures |Bytes([item])| == |ItemBytes(item)|
  {
    PutAllConcat(st, items, [item], oc, [o]);
    var st1 := PutAll(st, items, oc);
    assert PutAll(st1, [item], [o]) == PutAll(Put(st1, item, o), [], []);
    assert Bytes([item]) == ItemBytes(item) + Bytes([]);
  }

  lemma AnyIdrCons(unit: Nalu, rest: seq<Nalu>)
    ensures AnyIdr([unit] + rest) <==> NalType(unit[0]) == 5 || AnyIdr(rest)
  {
    var all := [unit] + rest;
    if i :| 0 <= i < |all| && NalType(all[i][0]) == 5 {
      assert i > 0 ==> rest[i - 1] == all[i];
    }
    if i :| 0 <= i < |rest| && NalType(rest[i][0]) == 5 {
      assert all[i + 1] == rest[i];
    }
    assert all[0] == unit;
  }

  function GatedItems(unit: Nalu, needIdr: bool, params: seq<byte>): seq<Item> {
    if Passes(needIdr, NalType(unit[0])) then UnitItems(unit, params) else []
  }

  lemma NothingStaged(r: Receiver)
    ensures Staged(r, Plan([], false, r.fuActive, false), []) == r
  {
  }

  // A fragment is held back, or an orphan, or adds its bytes behind the head.
  lemma FragmentPlan(pl: seq<byte>, r: Receiver, gap: bool, params: seq<byte>)
    requires |pl| >= 2
    ensures var start, hdr := pl[1] >= 0x80, FuHeader(pl);
            var head := if start then UnitItems([hdr], params) else [];
            FuPlan(pl, r, gap, params)
            == if gap || (r.needIdr && NalType(hdr) != 5) then Plan([], false, r.fuActive, false)
               else if !start && !r.fuActive then Plan([], false, false, true)
               else Plan(head + [Raw(pl[2..])], start && NalType(hdr) == 5, (pl[1] / 64) % 2 != 1, false)
  {
    hide UnitItems;
    assert [] + [Raw(pl[2..])] == [Raw(pl[2..])];
  }

  lemma NothingPut(st: Stage)
    ensures PutAll(st, [], []) == st
  {
  }

  // An aggregation packet ends where no further unit fits.
  lemma AggregatedEnd(pl: Nalu, p: nat, needIdr: bool, params: seq<byte>)
    requires p + 2 <= |pl| ==> var n := Word(pl[p], pl[p + 1]); n <= 0 || p + 2 + n > |pl|
    ensures AllItems(Aggregated(pl, p), needIdr, params) == [] && !AnyIdr(Aggregated(pl, p))
  {
  }

  // The first unit of the rest of an aggregation packet.
  lemma NextAggregated(pl: Nalu, p: nat, needIdr: bool, params: seq<byte>) returns (rest: seq<Item>)
    requires p + 2 <= |pl|
    requires var n := Word(pl[p], pl[p + 1]); n > 0 && p + 2 + n <= |pl|
    ensures var p' := p + 2 + Word(pl[p], pl[p + 1]);
            var unit: Nalu := pl[p + 2..p'];
            && rest == AllItems(Aggregated(pl, p'), needIdr, params)
            && AllItems(Aggregated(pl, p), needIdr, params) == GatedItems(unit, needIdr, params) + rest
            && (AnyIdr(Aggregated(pl, p)) <==> NalType(unit[0]) == 5 || AnyIdr(Aggregated(pl, p')))
  {
    var p' := p + 2 + Word(pl[p], pl[p + 1]);
    var unit: Nalu := pl[p + 2..p'];
    var units := Aggregated(pl, p');
    rest := AllItems(units, needIdr, params);
    AnyIdrCons(unit, units);
    assert ([unit] + units)[1..] == units;
  }

  lemma BytesLength(a: seq<Item>, b: seq<Item>)
    ensures |Bytes(a + b)| == |Bytes(a)| + |Bytes(b)|
  {
    BytesConcat(a, b);
  }

  // What has been staged so far leaves room for what is still to come.
  lemma RoomLeft(st: Stage, done: seq<Item>, more: seq<Item>, rest: seq<Item>, oc: seq<Outcome>)
    requires |oc| == |done|
    ensures |PutAll(st, done, oc).bytes| + |Bytes(more)| <= |st.bytes| + |Bytes(done + (more + rest))|
  {
    hide Bytes, PutAll;
    PutAllLength(st, done, oc);
    BytesLength(done, more + rest);
    BytesLength(more, rest);
  }

  lemma TwoItems(st: Stage, nal: Nalu, params: seq<byte>, oc: seq<Outcome>)
    requires |oc| == |UnitItems(nal, params)|
    ensures PutAll(st, UnitItems(nal, params), oc)
         == if NalType(nal[0]) == 5 && params != [] then Put(Put(st, Raw(params), oc[0]), Nal(nal), oc[1])
            else Put(st, Nal(nal), oc[0])
    ensures |Bytes(UnitItems(nal, params))|
         == 4 + |nal| + if NalType(nal[0]) == 5 then |params| else 0
  {
    var items := UnitItems(nal, params);
    if |items| == 2 {
      var st1 := Put(st, items[0], oc[0]);
      assert items[1..] == [Nal(nal)] && oc[1..] == [oc[1]];
      assert PutAll(st1, [Nal(nal)], [oc[1]]) == PutAll(Put(st1, Nal(nal), oc[1]), [], []);
      assert Bytes([Nal(nal)]) == START_CODE + nal + Bytes([]);
    } else {
      assert PutAll(st, items, oc) == PutAll(Put(st, Nal(nal), oc[0]), [], []);
      assert Bytes([Nal(nal)]) == START_CODE + nal + Bytes([]);
    }
  }
}
