// Recovery of the direct H.264 handler on a few datagrams, byte by byte.
module RtpExamples {
  import opened Octets
  import opened RtpH264
  import opened RtpResync
  import opened RtpRoundTrip

  // A datagram with this first byte, whatever is behind its fixed header, and a payload.
  function Datagram(first: byte, marker: bool, seqNo: byte, ts: byte, extra: seq<byte>, pl: Nalu): seq<byte> {
    [first, if marker then 0xE0 else 0x60, 0, seqNo, 0, 0, 0, ts, 0, 0, 0, 0] + extra + pl
  }

  // One contributing source, or an extension of one word.
  predicate Extra(first: byte, extra: seq<byte>) {
    || (first == 0x80 && extra == [])
    || (first == 0x81 && |extra| == 4)
    || (first == 0x90 && |extra| == 8 && extra[2] == 0 && extra[3] == 1)
  }

  lemma DatagramCarries(first: byte, marker: bool, seqNo: byte, ts: byte, extra: seq<byte>, pl: Nalu)
    requires Extra(first, extra)
    ensures Carries(Datagram(first, marker, seqNo, ts, extra, pl), seqNo, ts, marker, pl)
  {
    var pkt := Datagram(first, marker, seqNo, ts, extra, pl);
    assert pkt[12 + |extra|..] == pl;
    if extra != [] {
      assert pkt[12 + 2] == extra[2] && pkt[12 + 3] == extra[3];
    }
  }

  // One whole NAL unit, alone in its access unit.
  lemma LoneUnit(r: Receiver, nal: Nalu, params: seq<byte>)
    requires r.staged == [] && 1 <= NalType(nal[0]) <= 23
    ensures Flush(Soak(r, nal, params)).1 == if r.bad then [] else AnnexB(Admitted([nal], r.needIdr), params)
    ensures NalType(nal[0]) != 5 && !r.hasIdr ==> Flush(Soak(r, nal, params)).0.needIdr == r.needIdr
  {
    hide Bytes, AllItems;
    AllItemsBytes([nal], r.needIdr, params);
    var bytes := AnnexB(Admitted([nal], r.needIdr), params);
    assert [] + bytes == bytes;
    OneIdr(nal);
  }

  lemma LoneBytes(nal: Nalu, awaiting: bool, params: seq<byte>)
    requires NalType(nal[0]) in {5, 7, 8}
    ensures AnnexB(Admitted([nal], awaiting), params) == OneNal(nal, params)
  {
    assert [nal][1..] == [] && [nal] + [] == [nal];
    assert AnnexB([nal], params) == OneNal(nal, params) + AnnexB([], params);
  }

  // A sequence parameter set alone gets through to a receiver that awaits an IDR, which
  // it goes on doing.
  lemma ParameterSetExample(params: seq<byte>)
    ensures var r := Fresh.(haveSeq := true, lastSeq := 1, needIdr := true);
            var (r', out) := Step(r, Datagram(0x80, true, 2, 9, [], [0x67, 0x42]), params, []);
            out == [0, 0, 0, 1, 0x67, 0x42] && r'.needIdr
  {
    hide Carries, Step, Soak, Flush, Datagram, AnnexB, Admitted;
    var r := Fresh.(haveSeq := true, lastSeq := 1, needIdr := true);
    var nal: Nalu := [0x67, 0x42];
    DatagramCarries(0x80, true, 2, 9, [], nal);
    StepInUnit(r, Datagram(0x80, true, 2, 9, [], nal), 2, 9, true, nal, params, []);
    LoneUnit(r, nal, params);
    FlushTuned(Soak(r, nal, params), 2, 9);
    LoneBytes(nal, true, params);
  }

  lemma FragmentsMade()
    ensures FragmentPayload([0x65], [0xA, 0xB], true, false) == [0x7C, 0x85, 0xA, 0xB]
    ensures FragmentPayload([0x65], [0xC, 0xD], false, true) == [0x7C, 0x45, 0xC, 0xD]
  {
  }

  // An IDR slice in two fragments, one behind an extension and one behind a
  // contributing source, comes together behind the parameter sets and ends the wait.
  lemma FragmentsExample(e: seq<byte>)
    requires Extra(0x90, e)
    ensures var r := Fresh.(haveSeq := true, lastSeq := 0xFFFF, needIdr := true);
            var (r1, none) := Step(r, Datagram(0x90, false, 0, 9, e, [0x7C, 0x85, 0xA, 0xB]), [0xFF], []);
            var (r2, out) := Step(r1, Datagram(0x81, true, 1, 9, [1, 2, 3, 4], [0x7C, 0x45, 0xC, 0xD]), [0xFF], []);
            none == [] && out == [0xFF, 0, 0, 0, 1, 0x65, 0xA, 0xB, 0xC, 0xD] && Synced(r2, 2)
  {
    hide Carries, Step, Soak, FragmentPayload, Datagram;
    var r := Fresh.(haveSeq := true, lastSeq := 0xFFFF, needIdr := true);
    var nal: Nalu := [0x65];
    FragmentsMade();
    DatagramCarries(0x90, false, 0, 9, e, [0x7C, 0x85, 0xA, 0xB]);
    DatagramCarries(0x81, true, 1, 9, [1, 2, 3, 4], [0x7C, 0x45, 0xC, 0xD]);
    StepInUnit(r, Datagram(0x90, false, 0, 9, e, [0x7C, 0x85, 0xA, 0xB]), 0, 9, false, [0x7C, 0x85, 0xA, 0xB], [0xFF], []);
    SoakFirst(r, nal, [0xA, 0xB], false, [0xFF]);
    var r1 := Tuned(Soak(r, [0x7C, 0x85, 0xA, 0xB], [0xFF]), 0, 9);
    assert r1.staged == [0xFF, 0, 0, 0, 1, 0x65, 0xA, 0xB];
    StepInUnit(r1, Datagram(0x81, true, 1, 9, [1, 2, 3, 4], [0x7C, 0x45, 0xC, 0xD]), 1, 9, true,
               [0x7C, 0x45, 0xC, 0xD], [0xFF], []);
    SoakMiddle(r1, nal, [0xC, 0xD], true, [0xFF]);
  }

  lemma StraySoaked()
    ensures Soak(Fresh, [0x7C, 0x05, 0xA], []) == Fresh.(bad := true)
    ensures var r := Turned(Tuned(Fresh.(bad := true), 1, 1), 3); r.bad && r.staged == [] && InUnit(r, 3, 2)
  {
  }

  lemma TwoReceived(r: Receiver, a: seq<byte>, b: seq<byte>, params: seq<byte>)
    ensures Receive(r, [b], params, [[]]).1 == Step(r, b, params, []).1
    ensures var (r1, out) := Step(r, a, params, []);
            Receive(r, [a, b], params, [[], []]).1 == out + Step(r1, b, params, []).1
  {
    hide Step;
    var no: seq<Outcome> := [];
    ReceiveCons(r, a, [b], params, no, [no]);
    assert [a] + [b] == [a, b] && [no] + [no] == [no, no] && [b][1..] == [] && [no][1..] == [];
    var r1 := Step(r, a, params, no).0;
    var more := Step(r1, b, params, no).1;
    assert more + [] == more && Receive(r1, [b], params, [no]).1 == more;
  }

  // A lone fragment of a unit whose start and marker are lost spoils the next unit, an
  // IDR slice that arrives whole and would get through without the fragment.
  lemma SpoiledExample()
    ensures var stray, whole := Datagram(0x80, false, 1, 1, [], [0x7C, 0x05, 0xA]), Datagram(0x80, true, 3, 2, [], [0x65, 0xB]);
            && Receive(Fresh, [stray, whole], [], [[], []]).1 == []
            && Receive(Fresh, [whole], [], [[]]).1 == [0, 0, 0, 1, 0x65, 0xB]
  {
    hide Carries, Step, Soak, Receive, Flush, AnnexB, Admitted, Turned, Datagram;
    var idr: Nalu := [0x65, 0xB];
    var stray, whole := Datagram(0x80, false, 1, 1, [], [0x7C, 0x05, 0xA]), Datagram(0x80, true, 3, 2, [], idr);
    DatagramCarries(0x80, false, 1, 1, [], [0x7C, 0x05, 0xA]);
    DatagramCarries(0x80, true, 3, 2, [], idr);
    StraySoaked();
    var r1 := Tuned(Fresh.(bad := true), 1, 1);
    var r2 := Turned(r1, 3);
    StepInUnit(Fresh, stray, 1, 1, false, [0x7C, 0x05, 0xA], [], []);
    StepInUnit(Fresh, whole, 3, 2, true, idr, [], []);
    FirstStep(r1, whole, 3, 2, true, idr, [], []);
    StepInUnit(r2, whole, 3, 2, true, idr, [], []);
    TwoReceived(Fresh, stray, whole, []);
    LoneUnit(r2, idr, []);
    LoneUnit(Fresh, idr, []);
    LoneBytes(idr, false, []);
    FlushTuned(Soak(r2, idr, []), 3, 2);
    FlushTuned(Soak(Fresh, idr, []), 3, 2);
  }
}
