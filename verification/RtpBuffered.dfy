// The buffered H.264 receiver (apps/vpu_stream.c): fragments are gathered in
// one buffer, the access unit in another, and a finished unit is written out.
// Against the direct receiver: both give the same bytes exactly when the unit
// keeps within the two buffers.
module RtpBuffered {
  import opened Octets
  import opened RtpH264
  import opened RtpRoundTrip

  const FU_MAX := 128 * 1024
  const AU_MAX := 512 * 1024

  // ----- The meaning of one packet -----

  // `staged` of the common fields is what au holds, `fu` what fu holds.
  datatype Buffered = Buffered(rx: Receiver, fu: seq<byte>)

  // An item goes in whole if it fits, and marks the unit bad otherwise.
  function Fitting(st: Stage, item: Item): Stage {
    Put(st, item, if |st.bytes| + |ItemBytes(item)| <= AU_MAX then Full else Refused)
  }

  function PutFit(st: Stage, items: seq<Item>): Stage
    decreases |items|
  {
    if items == [] then st else PutFit(Fitting(st, items[0]), items[1..])
  }

  function WithItems(r: Receiver, items: seq<Item>): Receiver {
    var st := PutFit(Stage(r.staged, r.bad), items);
    r.(staged := st.bytes, bad := st.bad)
  }

  // Whole NAL units, alone or aggregated.
  function WithUnits(r: Receiver, units: seq<Nalu>, params: seq<byte>): Receiver {
    WithItems(r, AllItems(units, r.needIdr, params)).(hasIdr := r.hasIdr || AnyIdr(units))
  }

  // The first fragment of a unit: the parameter sets go ahead of an IDR slice.
  function FuStart(b: Buffered, hdr: byte, params: seq<byte>): Buffered {
    var idr := NalType(hdr) == 5;
    var r := if idr then WithItems(b.rx, [Raw(params)]).(hasIdr := true) else b.rx;
    Buffered(r.(fuActive := true), [hdr])
  }

  // The bytes of a fragment; the flag says that the handler gave up on it.
  function FuBody(b: Buffered, body: seq<byte>, last: bool): (Buffered, bool) {
    if !b.rx.fuActive || |b.fu| + |body| > FU_MAX then (b.(rx := b.rx.(fuActive := false)), true)
    else
      var fu := b.fu + body;
      if last then
        (Buffered((if fu == [] then b.rx.(bad := true) else WithItems(b.rx, [Nal(fu)])).(fuActive := false), []), false)
      else (b.(fu := fu), false)
  }

  function FuTaken(b: Buffered, pl: seq<byte>, gap: bool, params: seq<byte>): (Buffered, bool)
    requires |pl| >= 2
  {
    var first, last := pl[1] >= 0x80, (pl[1] / 64) % 2 == 1;
    var hdr := FuHeader(pl);
    if gap || (b.rx.needIdr && NalType(hdr) != 5) then (b, false)
    else FuBody(if first then FuStart(b, hdr, params) else b, pl[2..], last)
  }

  function Taken(b: Buffered, pl: Nalu, gap: bool, params: seq<byte>): (Buffered, bool) {
    var t := NalType(pl[0]);
    if 1 <= t <= 23 then (b.(rx := WithUnits(b.rx, [pl], params)), false)
    else if t == 24 then (b.(rx := WithUnits(b.rx, Aggregated(pl, 1), params)), false)
    else if t == 28 && |pl| >= 2 then FuTaken(b, pl, gap, params)
    else (b, false)
  }

  function FlushOut(b: Buffered): (Buffered, seq<byte>) {
    var (r, out) := Flush(b.rx);
    (b.(rx := r), out)
  }

  function Opened(b: Buffered, pkt: seq<byte>): Buffered
    requires ValidHeader(pkt)
  {
    Buffered(AfterHeader(b.rx, pkt), if SeqGap(b.rx, pkt) then [] else b.fu)
  }

  // handle_rtp_h264: the state after, and what it writes.
  function StepOut(b: Buffered, pkt: seq<byte>, params: seq<byte>): (Buffered, seq<byte>) {
    if !ValidHeader(pkt) then (b, [])
    else
      var b1 := Opened(b, pkt);
      match Payload(pkt)
      case None => (b1, [])
      case Some(pl) =>
        var (b2, quit) := Taken(b1, pl, SeqGap(b.rx, pkt), params);
        if Marker(pkt) && !quit then FlushOut(b2) else (b2, [])
  }

  // ----- What fits, and how much is staged at most -----

  // All items go in while they fit; the first that does not marks the unit bad.
  lemma {:induction false} PutFitExact(st: Stage, items: seq<Item>)
    requires |st.bytes| <= AU_MAX
    ensures var st' := PutFit(st, items);
            && |st'.bytes| <= AU_MAX && (st.bad ==> st'.bad)
            && (if |st.bytes| + |Bytes(items)| <= AU_MAX then st' == Stage(st.bytes + Bytes(items), st.bad) else st'.bad)
    decreases |items|
  {
    if items == [] {
      assert st.bytes + [] == st.bytes;
    } else {
      PutFull(st, items[0]);
      Assoc(st.bytes, ItemBytes(items[0]), Bytes(items[1..]));
      PutFitExact(Fitting(st, items[0]), items[1..]);
    }
  }

  lemma NalBytes(nal: seq<byte>)
    ensures Bytes([Nal(nal)]) == START_CODE + nal
  {
    assert Bytes([Nal(nal)]) == START_CODE + nal + Bytes([]);
  }

  // All the payloads of a run of packets; the flag is that of the last.
  function TakenAll(b: Buffered, pls: seq<Nalu>, params: seq<byte>): (Buffered, bool)
    decreases |pls|
  {
    if pls == [] then (b, false)
    else if |pls| == 1 then Taken(b, pls[0], false, params)
    else TakenAll(Taken(b, pls[0], false, params).0, pls[1..], params)
  }

  lemma TakenTail(b: Buffered, a: seq<Nalu>, c: seq<Nalu>, params: seq<byte>)
    requires a != [] && c != []
    ensures TakenAll(b, a + c, params) == TakenAll(Taken(b, a[0], false, params).0, a[1..] + c, params)
  {
    assert (a + c)[1..] == a[1..] + c;
  }

  lemma {:induction false} TakenConcat(b: Buffered, a: seq<Nalu>, c: seq<Nalu>, params: seq<byte>)
    requires c != []
    ensures TakenAll(b, a + c, params) == TakenAll(TakenAll(b, a, params).0, c, params)
    decreases |a|
  {
    hide Taken;
    if a == [] {
      assert a + c == c;
    } else {
      TakenTail(b, a, c, params);
      TakenConcat(Taken(b, a[0], false, params).0, a[1..], c, params);
    }
  }

  // b' has staged these bytes behind what b had, and kept its word on bad.
  predicate Held(b: Buffered, b': Buffered, bytes: seq<byte>) {
    Grew(b.rx, b'.rx, bytes)
  }

  // Of these bytes b' has staged all, or is spoiled for want of room; it notes whether
  // an IDR slice starts in them.
  predicate Stages(b: Buffered, b': Buffered, bytes: seq<byte>, idr: bool) {
    && b'.rx.needIdr == b.rx.needIdr && (b'.rx.hasIdr <==> b.rx.hasIdr || idr)
    && |b'.rx.staged| <= AU_MAX && (b.rx.bad ==> b'.rx.bad)
    && (if |b.rx.staged| + |bytes| <= AU_MAX then Held(b, b', bytes) else b'.rx.bad)
  }

  lemma StagesTwice(b: Buffered, m: Buffered, b': Buffered, x: seq<byte>, y: seq<byte>, ix: bool, iy: bool)
    requires |b.rx.staged| <= AU_MAX && Stages(b, m, x, ix) && Stages(m, b', y, iy)
    ensures Stages(b, b', x + y, ix || iy)
  {
    if |b.rx.staged| + |x| + |y| <= AU_MAX {
      GrewTwice(b.rx, m.rx, b'.rx, x, y);
    }
  }

  lemma StagesNothing(b: Buffered, b': Buffered)
    requires |b.rx.staged| <= AU_MAX && b'.rx == b.rx.(fuActive := b'.rx.fuActive)
    ensures Stages(b, b', [], false)
  {
    assert b.rx.staged + [] == b.rx.staged;
  }

  lemma UnitsWhole(b: Buffered, units: seq<Nalu>, params: seq<byte>)
    requires |b.rx.staged| <= AU_MAX
    ensures Stages(b, b.(rx := WithUnits(b.rx, units, params)), AnnexB(Admitted(units, b.rx.needIdr), params), AnyIdr(units))
  {
    hide AnyIdr;
    AllItemsBytes(units, b.rx.needIdr, params);
    PutFitExact(Stage(b.rx.staged, b.rx.bad), AllItems(units, b.rx.needIdr, params));
  }

  // ----- Fragments -----

  lemma TakenFragment(b: Buffered, nal: Nalu, part: seq<byte>, first: bool, last: bool, params: seq<byte>)
    requires b.rx.needIdr ==> NalType(nal[0]) == 5
    ensures Taken(b, FragmentPayload(nal, part, first, last), false, params)
         == FuBody(if first then FuStart(b, nal[0], params) else b, part, last)
  {
    hide FuBody, FuStart;
    var pl := FragmentPayload(nal, part, first, last);
    assert pl[2..] == part && NalType(pl[0]) == 28 && FuHeader(pl) == nal[0];
  }

  lemma LastFragment(b: Buffered, body: seq<byte>)
    requires b.rx.fuActive && b.fu != [] && |b.rx.staged| <= AU_MAX
    ensures var (b', quit), n := FuBody(b, body, true), |b.fu| + |body|;
            && (quit <==> n > FU_MAX)
            && (if quit then b'.rx == b.rx.(fuActive := false) else Stages(b, b', START_CODE + (b.fu + body), false))
  {
    var nal := b.fu + body;
    NalBytes(nal);
    PutFitExact(Stage(b.rx.staged, b.rx.bad), [Nal(nal)]);
  }

  lemma MiddleFragment(b: Buffered, body: seq<byte>)
    ensures var b' := FuBody(b, body, false).0;
            && b'.rx == b.rx.(fuActive := b.rx.fuActive && |b.fu| + |body| <= FU_MAX)
            && (b'.rx.fuActive ==> b'.fu == b.fu + body)
  {
  }

  lemma LostFragment(b: Buffered, body: seq<byte>)
    requires !b.rx.fuActive
    ensures FuBody(b, body, true) == (b, true)
  {
  }

  // Fragments after the first: they complete the unit, or lose it for good.
  lemma {:induction false} FragmentsTaken(b: Buffered, nal: Nalu, parts: seq<seq<byte>>, params: seq<byte>)
    requires (b.rx.needIdr ==> NalType(nal[0]) == 5) && parts != [] && (b.rx.fuActive ==> b.fu != [])
    requires |b.rx.staged| <= AU_MAX
    ensures var (b', quit), n := TakenAll(b, FragmentPayloads(nal, parts, false), params), |b.fu| + |Join(parts)|;
            && (quit <==> !b.rx.fuActive || n > FU_MAX)
            && (if quit then b'.rx == b.rx.(fuActive := false)
                else Stages(b, b', START_CODE + (b.fu + Join(parts)), false))
    decreases |parts|
  {
    hide Taken, FuBody;
    var last := |parts| == 1;
    TakenFragment(b, nal, parts[0], false, last, params);
    var b1 := FuBody(b, parts[0], last).0;
    if last {
      assert parts[1..] == [] && Join(parts) == parts[0] + [] == parts[0];
      if b.rx.fuActive {
        LastFragment(b, parts[0]);
      } else {
        LostFragment(b, parts[0]);
      }
    } else {
      MiddleFragment(b, parts[0]);
      FragmentsTaken(b1, nal, parts[1..], params);
      Assoc(b.fu, parts[0], Join(parts[1..]));
    }
  }

  lemma StartTaken(b: Buffered, hdr: byte, params: seq<byte>)
    requires |b.rx.staged| <= AU_MAX
    ensures var b' := FuStart(b, hdr, params);
            b'.rx.fuActive && b'.fu == [hdr] && Stages(b, b', if NalType(hdr) == 5 then params else [], NalType(hdr) == 5)
  {
    OneRaw(params);
    PutFitExact(Stage(b.rx.staged, b.rx.bad), [Raw(params)]);
    assert b.rx.staged + [] == b.rx.staged;
  }

  lemma SplitBytes(nal: Nalu, params: seq<byte>)
    ensures AnnexB([nal], params) == (if NalType(nal[0]) == 5 then params else []) + (START_CODE + nal)
  {
    assert AnnexB([nal], params) == OneNal(nal, params) + AnnexB([], params);
  }

  // The first fragment, and the others if there are any.
  lemma SplitHead(b: Buffered, nal: Nalu, parts: seq<seq<byte>>, params: seq<byte>)
    requires (b.rx.needIdr ==> NalType(nal[0]) == 5) && parts != []
    ensures var b0 := FuStart(b, nal[0], params);
            TakenAll(b, FragmentPayloads(nal, parts, true), params)
            == if |parts| == 1 then FuBody(b0, parts[0], true)
               else TakenAll(FuBody(b0, parts[0], false).0, FragmentPayloads(nal, parts[1..], false), params)
  {
    hide Taken, FuStart, FuBody, FragmentPayload;
    TakenFragment(b, nal, parts[0], true, |parts| == 1, params);
    var pls, rest := FragmentPayloads(nal, parts, true), FragmentPayloads(nal, parts[1..], false);
    assert pls[0] == FragmentPayload(nal, parts[0], true, |parts| == 1) && pls[1..] == rest;
    assert |parts| > 1 ==> rest != [];
  }

  // All fragments of a NAL unit: one too long for the fragment buffer is lost, but for
  // the parameter sets ahead of an IDR slice.
  lemma SplitTaken(b: Buffered, nal: Nalu, parts: seq<seq<byte>>, params: seq<byte>)
    requires (b.rx.needIdr ==> NalType(nal[0]) == 5) && Proper(Split(nal, parts)) && |b.rx.staged| <= AU_MAX
    ensures var (b', quit), lead := TakenAll(b, FragmentPayloads(nal, parts, true), params),
                                    if NalType(nal[0]) == 5 then params else [];
            && (quit <==> |nal| > FU_MAX)
            && Stages(b, b', if quit then lead else AnnexB([nal], params), NalType(nal[0]) == 5)
  {
    hide Taken, FuStart, FuBody, Stages;
    var last, lead := |parts| == 1, if NalType(nal[0]) == 5 then params else [];
    var b0 := FuStart(b, nal[0], params);
    StartTaken(b, nal[0], params);
    StagesBounds(b, b0, lead, NalType(nal[0]) == 5);
    SplitHead(b, nal, parts, params);
    SplitBytes(nal, params);
    assert nal == [nal[0]] + Join(parts);
    var (b', quit) := TakenAll(b, FragmentPayloads(nal, parts, true), params);
    if last {
      assert parts[1..] == [] && Join(parts) == parts[0] + [] == parts[0];
      LastFragment(b0, parts[0]);
    } else {
      var b1 := FuBody(b0, parts[0], false).0;
      MiddleFragment(b0, parts[0]);
      Assoc([nal[0]], parts[0], Join(parts[1..]));
      FragmentsTaken(b1, nal, parts[1..], params);
      if !quit {
        StagesFrom(b0, b1, b', START_CODE + nal, false);
      }
    }
    if quit {
      StagesNothing(b0, b');
      StagesTwice(b, b0, b', lead, [], NalType(nal[0]) == 5, false);
      assert lead + [] == lead;
    } else {
      StagesTwice(b, b0, b', lead, START_CODE + nal, NalType(nal[0]) == 5, false);
    }
  }

  lemma StagesBounds(b: Buffered, b': Buffered, bytes: seq<byte>, idr: bool)
    requires Stages(b, b', bytes, idr)
    ensures b'.rx.needIdr == b.rx.needIdr && |b'.rx.staged| <= AU_MAX
  {
  }

  // Whether fragments are coming in does not matter to what is staged.
  lemma StagesFrom(b: Buffered, b1: Buffered, b': Buffered, bytes: seq<byte>, idr: bool)
    requires b1.rx == b.rx.(fuActive := b1.rx.fuActive) && Stages(b1, b', bytes, idr)
    ensures Stages(b, b', bytes, idr)
  {
  }

  // ----- Parcels -----

  // What gets through of it fits the fragment buffer.
  predicate WithinFu(p: Parcel, awaiting: bool) {
    p.Split? && AdmittedOf(p, awaiting) != [] ==> |p.nal| <= FU_MAX
  }

  predicate AllWithinFu(ps: seq<Parcel>, awaiting: bool) {
    ps != [] ==> WithinFu(ps[0], awaiting) && AllWithinFu(ps[1..], awaiting)
  }

  // Fragments of anything but an IDR slice are held back while one is awaited.
  lemma {:induction false} HeldBack(b: Buffered, nal: Nalu, parts: seq<seq<byte>>, first: bool, params: seq<byte>)
    requires b.rx.needIdr && NalType(nal[0]) != 5
    ensures TakenAll(b, FragmentPayloads(nal, parts, first), params) == (b, false)
    decreases |parts|
  {
    hide FuStart, FuBody;
    if parts != [] {
      var pl := FragmentPayload(nal, parts[0], first, |parts| == 1);
      assert NalType(pl[0]) == 28 && FuHeader(pl) == nal[0];
      HeldBack(b, nal, parts[1..], false, params);
    }
  }

  // What is staged of a parcel: what gets through of it, without a NAL unit that is too
  // long for the fragment buffer.
  function Survives(p: Parcel, awaiting: bool, params: seq<byte>): seq<byte> {
    if WithinFu(p, awaiting) then AnnexB(AdmittedOf(p, awaiting), params)
    else if NalType(p.nal[0]) == 5 then params else []
  }

  function AllSurvive(ps: seq<Parcel>, awaiting: bool, params: seq<byte>): seq<byte> {
    if ps == [] then [] else Survives(ps[0], awaiting, params) + AllSurvive(ps[1..], awaiting, params)
  }

  // Of units that keep within the fragment buffer everything is, and of others less.
  lemma {:induction false} SurviveWhole(ps: seq<Parcel>, awaiting: bool, params: seq<byte>)
    ensures var all, bytes := AllSurvive(ps, awaiting, params), AnnexB(AllAdmitted(ps, awaiting), params);
            if AllWithinFu(ps, awaiting) then all == bytes else |all| < |bytes|
  {
    if ps != [] {
      SurviveWhole(ps[1..], awaiting, params);
      AnnexBConcat(AdmittedOf(ps[0], awaiting), AllAdmitted(ps[1..], awaiting), params);
      if !WithinFu(ps[0], awaiting) {
        SplitBytes(ps[0].nal, params);
      }
    }
  }

  lemma ParcelTaken(b: Buffered, p: Parcel, params: seq<byte>)
    requires Proper(p) && |b.rx.staged| <= AU_MAX
    ensures Payloads(p) != []
    ensures var (b', quit) := TakenAll(b, Payloads(p), params);
            (quit <==> !WithinFu(p, b.rx.needIdr)) && Stages(b, b', Survives(p, b.rx.needIdr, params), AnyIdr(Nals(p)))
  {
    hide Stages;
    match p
    case Single(nal) =>
      UnitsWhole(b, [nal], params);
    case Group(ind, nals) =>
      AggregatedWhole([ind], nals);
      UnitsWhole(b, nals, params);
    case Split(nal, parts) =>
      OneIdr(nal);
      if b.rx.needIdr && NalType(nal[0]) != 5 {
        HeldBack(b, nal, parts, true, params);
        StagesNothing(b, b);
      } else {
        SplitTaken(b, nal, parts, params);
      }
  }

  // The handler gives up on the last packet of a unit if that ends a NAL unit too long
  // for the fragment buffer.
  predicate EndsLost(ps: seq<Parcel>, awaiting: bool) {
    ps != [] && !WithinFu(ps[|ps| - 1], awaiting)
  }

  lemma {:induction false} ParcelsTaken(b: Buffered, ps: seq<Parcel>, params: seq<byte>)
    requires AllProper(ps) && |b.rx.staged| <= AU_MAX
    ensures var (b', quit) := TakenAll(b, AllPayloads(ps), params);
            && (quit <==> EndsLost(ps, b.rx.needIdr))
            && Stages(b, b', AllSurvive(ps, b.rx.needIdr, params), AnyIdr(AllNals(ps)))
    decreases |ps|
  {
    hide Taken, Proper, WithinFu, Payloads, AnyIdr, Survives, Nals, Stages;
    if ps == [] {
      StagesNothing(b, b);
      NoIdr();
    } else {
      var waits := b.rx.needIdr;
      var a, c := Payloads(ps[0]), AllPayloads(ps[1..]);
      var x, y := Survives(ps[0], waits, params), AllSurvive(ps[1..], waits, params);
      ParcelTaken(b, ps[0], params);
      var b1 := TakenAll(b, a, params).0;
      StagesBounds(b, b1, x, AnyIdr(Nals(ps[0])));
      ParcelsTaken(b1, ps[1..], params);
      AnyIdrConcat(Nals(ps[0]), AllNals(ps[1..]));
      NoPayloads(ps[1..]);
      if c == [] {
        assert a + c == a && x + y == x;
        NoIdr();
      } else {
        TakenConcat(b, a, c, params);
        StagesTwice(b, b1, TakenAll(b1, c, params).0, x, y, AnyIdr(Nals(ps[0])), AnyIdr(AllNals(ps[1..])));
      }
    }
  }

  lemma NoPayloads(ps: seq<Parcel>)
    requires AllProper(ps)
    ensures AllPayloads(ps) == [] <==> ps == []
  {
  }

  // ----- Whole packets and access units -----

  function ReceiveOut(b: Buffered, pkts: seq<seq<byte>>, params: seq<byte>): (Buffered, seq<byte>)
    decreases |pkts|
  {
    if pkts == [] then (b, [])
    else
      var (b1, out) := StepOut(b, pkts[0], params);
      var (b2, rest) := ReceiveOut(b1, pkts[1..], params);
      (b2, out + rest)
  }

  function TunedOut(b: Buffered, seqNo: nat, ts: nat): Buffered {
    b.(rx := Tuned(b.rx, seqNo, ts))
  }

  lemma WithItemsTuned(r: Receiver, seqNo: nat, ts: nat, items: seq<Item>)
    ensures WithItems(Tuned(r, seqNo, ts), items) == Tuned(WithItems(r, items), seqNo, ts)
    ensures WithItems(r, items).needIdr == r.needIdr
  {
    hide PutFit;
  }

  lemma WithUnitsTuned(r: Receiver, seqNo: nat, ts: nat, units: seq<Nalu>, params: seq<byte>)
    ensures WithUnits(Tuned(r, seqNo, ts), units, params) == Tuned(WithUnits(r, units, params), seqNo, ts)
    ensures WithUnits(r, units, params).needIdr == r.needIdr
  {
    hide WithItems, AllItems, AnyIdr;
    WithItemsTuned(r, seqNo, ts, AllItems(units, r.needIdr, params));
  }

  lemma FuStartTuned(b: Buffered, seqNo: nat, ts: nat, hdr: byte, params: seq<byte>)
    ensures FuStart(TunedOut(b, seqNo, ts), hdr, params) == TunedOut(FuStart(b, hdr, params), seqNo, ts)
    ensures FuStart(b, hdr, params).rx.needIdr == b.rx.needIdr
  {
    hide WithItems;
    WithItemsTuned(b.rx, seqNo, ts, [Raw(params)]);
  }

  lemma FuBodyTuned(b: Buffered, seqNo: nat, ts: nat, body: seq<byte>, last: bool)
    ensures var (b', quit) := FuBody(b, body, last);
            && FuBody(TunedOut(b, seqNo, ts), body, last) == (TunedOut(b', seqNo, ts), quit)
            && b'.rx.needIdr == b.rx.needIdr
  {
    hide WithItems;
    WithItemsTuned(b.rx, seqNo, ts, [Nal(b.fu + body)]);
  }

  lemma FuTakenTuned(b: Buffered, seqNo: nat, ts: nat, pl: seq<byte>, params: seq<byte>)
    requires |pl| >= 2
    ensures var (b', quit) := FuTaken(b, pl, false, params);
            && FuTaken(TunedOut(b, seqNo, ts), pl, false, params) == (TunedOut(b', seqNo, ts), quit)
            && b'.rx.needIdr == b.rx.needIdr
  {
    hide FuStart, FuBody, FuHeader;
    var first, last := pl[1] >= 0x80, (pl[1] / 64) % 2 == 1;
    var hdr := FuHeader(pl);
    FuStartTuned(b, seqNo, ts, hdr, params);
    FuBodyTuned(if first then FuStart(b, hdr, params) else b, seqNo, ts, pl[2..], last);
  }

  // Sequence number and timestamp do not matter to what a payload does.
  lemma TakenTuned(b: Buffered, seqNo: nat, ts: nat, pl: Nalu, params: seq<byte>)
    ensures var (b', quit) := Taken(b, pl, false, params);
            && Taken(TunedOut(b, seqNo, ts), pl, false, params) == (TunedOut(b', seqNo, ts), quit)
            && b'.rx.needIdr == b.rx.needIdr
  {
    hide WithUnits, FuTaken, Aggregated;
    WithUnitsTuned(b.rx, seqNo, ts, [pl], params);
    WithUnitsTuned(b.rx, seqNo, ts, Aggregated(pl, 1), params);
    if |pl| >= 2 {
      FuTakenTuned(b, seqNo, ts, pl, params);
    }
  }

  lemma {:induction false} TakenAllTuned(b: Buffered, seqNo: nat, ts: nat, pls: seq<Nalu>, params: seq<byte>)
    ensures var (b', quit) := TakenAll(b, pls, params);
            TakenAll(TunedOut(b, seqNo, ts), pls, params) == (TunedOut(b', seqNo, ts), quit)
    decreases |pls|
  {
    hide Taken;
    if pls != [] {
      TakenTuned(b, seqNo, ts, pls[0], params);
      if |pls| > 1 {
        TakenAllTuned(Taken(b, pls[0], false, params).0, seqNo, ts, pls[1..], params);
      }
    }
  }

  lemma StepOutInUnit(b: Buffered, pkt: seq<byte>, seqNo: nat, ts: nat, marker: bool, pl: Nalu, params: seq<byte>)
    requires Carries(pkt, seqNo, ts, marker, pl) && InUnit(b.rx, seqNo, ts)
    ensures var (b', quit) := Taken(b, pl, false, params);
            var t := TunedOut(b', seqNo, ts);
            StepOut(b, pkt, params) == if marker && !quit then FlushOut(t) else (t, [])
  {
    hide Taken;
    assert Opened(b, pkt) == TunedOut(b, seqNo, ts);
    TakenTuned(b, seqNo, ts, pl, params);
  }

  // What comes of a unit's packets: its flush, unless the last was given up on.
  function Result(after: (Buffered, bool)): seq<byte> {
    if after.1 then [] else Flush(after.0.rx).1
  }

  lemma {:induction false} UnitWritten(b: Buffered, pkts: seq<seq<byte>>, seqNo: nat, ts: nat, pls: seq<Nalu>, params: seq<byte>)
    requires |pls| == |pkts| > 0 && CarryAll(pkts, seqNo, ts, pls) && InUnit(b.rx, seqNo, ts)
    ensures var (b', out), after := ReceiveOut(b, pkts, params), TakenAll(b, pls, params);
            && out == Result(after)
            && (!after.1 ==> InStep(b'.rx, NextSeq(seqNo, |pls|)) && b'.rx.needIdr == Flush(after.0.rx).0.needIdr)
    decreases |pls|
  {
    hide Taken, Carries, Flush, FlushOut, StepOut, InUnit;
    var next := (seqNo + 1) % SEQ_MOD;
    var (b1, quit) := Taken(b, pls[0], false, params);
    StepOutInUnit(b, pkts[0], seqNo, ts, |pls| == 1, pls[0], params);
    TakenTuned(b, seqNo, ts, pls[0], params);
    StillInUnit(b1, seqNo, ts);
    var t := TunedOut(b1, seqNo, ts);
    if |pls| == 1 {
      assert pkts[1..] == [];
      FlushOutSyncs(b1, seqNo, ts);
      assert NextSeq(seqNo, 1) == NextSeq(next, 0) == next;
      var (b2, out) := StepOut(b, pkts[0], params);
      assert out + [] == out;
    } else {
      UnitWritten(t, pkts[1..], next, ts, pls[1..], params);
      TakenAllTuned(b1, seqNo, ts, pls[1..], params);
      FlushTuned(TakenAll(b1, pls[1..], params).0.rx, seqNo, ts);
      var out := ReceiveOut(t, pkts[1..], params).1;
      assert [] + out == out;
    }
  }

  lemma StillInUnit(b1: Buffered, seqNo: nat, ts: nat)
    ensures InUnit(TunedOut(b1, seqNo, ts).rx, (seqNo + 1) % SEQ_MOD, ts)
  {
  }

  lemma FlushOutSyncs(b: Buffered, seqNo: nat, ts: nat)
    ensures var (b', out) := FlushOut(TunedOut(b, seqNo, ts));
            InStep(b'.rx, (seqNo + 1) % SEQ_MOD) && b'.rx.needIdr == Flush(b.rx).0.needIdr && out == Flush(b.rx).1
  {
    FlushSyncs(b.rx, seqNo, ts);
  }

  // What gets through of the unit fits au, and every fragmented NAL unit of it fu.
  predicate WithinBuffers(au: AccessUnit, awaiting: bool, params: seq<byte>) {
    |AnnexB(AllAdmitted(au.parcels, awaiting), params)| <= AU_MAX && AllWithinFu(au.parcels, awaiting)
  }

  // What the buffered receiver, in step and waiting for an IDR or not, makes of any
  // access unit: it writes what survives of it, unless that does not fit the unit
  // buffer or the unit ends with a NAL unit too long for the fragment buffer; and it
  // waits no longer when it has written something and an IDR slice started, even if
  // that slice is what has been lost.
  lemma BufferedExact(b: Buffered, au: AccessUnit, seqNo: nat, params: seq<byte>)
    requires Sendable(au) && seqNo < SEQ_MOD && InStep(b.rx, seqNo)
    ensures var (b', out), next := ReceiveOut(b, Sent(au, seqNo), params), NextSeq(seqNo, |Sent(au, seqNo)|);
            var bytes, lost := AllSurvive(au.parcels, b.rx.needIdr, params), EndsLost(au.parcels, b.rx.needIdr);
            && out == (if lost || |bytes| > AU_MAX then [] else bytes)
            && (!lost ==> InStep(b'.rx, next) && (Synced(b'.rx, next) <==> !b.rx.needIdr || (out != [] && AnyIdr(AllNals(au.parcels)))))
  {
    hide Carries, CarryAll, Taken, AnyIdr;
    var pls, bytes := AllPayloads(au.parcels), AllSurvive(au.parcels, b.rx.needIdr, params);
    PacketsCarry(au.envs, seqNo, au.ts, pls);
    UnitWritten(b, Sent(au, seqNo), seqNo, au.ts, pls, params);
    ParcelsTaken(b, au.parcels, params);
    assert b.rx.staged + bytes == bytes;
  }

  // Recovery: it writes what may pass of the access unit exactly when that keeps within
  // the two buffers, and never more; and then it waits no longer exactly when there is
  // an IDR slice in it.
  lemma BufferedRecovery(b: Buffered, au: AccessUnit, seqNo: nat, params: seq<byte>)
    requires Sendable(au) && seqNo < SEQ_MOD && InStep(b.rx, seqNo)
    ensures var (b', out), next := ReceiveOut(b, Sent(au, seqNo), params), NextSeq(seqNo, |Sent(au, seqNo)|);
            var bytes, within := AnnexB(AllAdmitted(au.parcels, b.rx.needIdr), params), WithinBuffers(au, b.rx.needIdr, params);
            && (out == bytes <==> within) && |out| <= |bytes|
            && (within ==> InStep(b'.rx, next) && (Synced(b'.rx, next) <==> !b.rx.needIdr || AnyIdr(AllNals(au.parcels))))
  {
    hide AnyIdr, WithinFu, InStep;
    var bytes := AnnexB(AllAdmitted(au.parcels, b.rx.needIdr), params);
    BufferedExact(b, au, seqNo, params);
    SurviveWhole(au.parcels, b.rx.needIdr, params);
    if AnyIdr(AllNals(au.parcels)) {
      IdrLeavesBytes(au.parcels, b.rx.needIdr, params);
    }
    if AllWithinFu(au.parcels, b.rx.needIdr) {
      LastWithin(au.parcels, b.rx.needIdr);
    }
  }

  lemma {:induction false} LastWithin(ps: seq<Parcel>, awaiting: bool)
    requires AllWithinFu(ps, awaiting)
    ensures !EndsLost(ps, awaiting)
  {
    if |ps| > 1 {
      LastWithin(ps[1..], awaiting);
    }
  }

  // The buffered receiver gives the access unit back exactly when it keeps
  // within the two buffers, and never more.
  lemma BufferedRoundTrip(b: Buffered, au: AccessUnit, seqNo: nat, params: seq<byte>)
    requires Sendable(au) && seqNo < SEQ_MOD && Synced(b.rx, seqNo)
    ensures var (b', out) := ReceiveOut(b, Sent(au, seqNo), params);
            && (out == AnnexB(AllNals(au.parcels), params) <==> WithinBuffers(au, false, params))
            && |out| <= |AnnexB(AllNals(au.parcels), params)|
            && (WithinBuffers(au, false, params) ==> Synced(b'.rx, NextSeq(seqNo, |Sent(au, seqNo)|)))
  {
    BufferedRecovery(b, au, seqNo, params);
    AllAdmittedUnawaited(au.parcels);
  }

  // So the two receivers agree on a unit exactly then.
  lemma SameBytes(r: Receiver, b: Buffered, au: AccessUnit, seqNo: nat, params: seq<byte>, ocs: seq<seq<Outcome>>)
    requires Sendable(au) && seqNo < SEQ_MOD && InStep(r, seqNo) && InStep(b.rx, seqNo) && r.needIdr == b.rx.needIdr
    requires |ocs| == |Sent(au, seqNo)| && AllRoomy(ocs)
    ensures Receive(r, Sent(au, seqNo), params, ocs).1 == ReceiveOut(b, Sent(au, seqNo), params).1
            <==> WithinBuffers(au, r.needIdr, params)
  {
    Recovery(r, au, seqNo, params, ocs);
    BufferedRecovery(b, au, seqNo, params);
  }
}
