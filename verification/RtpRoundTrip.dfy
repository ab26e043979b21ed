// Packetizing an access unit and receiving it gives the access unit back: for
// every mix of single NAL unit, STAP-A and FU-A packets, every way of cutting
// the fragments, and every RTP header the receiver accepts.  A receiver that awaits
// an IDR gets the IDR slices and parameter sets of it, and recovers with the first.
module RtpRoundTrip {
  import opened Octets
  import RtpGate
  import opened RtpH264

  // ----- The sender -----

  // How one or more NAL units travel.
  datatype Parcel =
    | Single(nal: Nalu)
    | Group(indicator: byte, nals: seq<Nalu>)
    | Split(nal: Nalu, parts: seq<seq<byte>>)

  function Join(parts: seq<seq<byte>>): seq<byte> {
    if parts == [] then [] else parts[0] + Join(parts[1..])
  }

  predicate Plain(nal: Nalu) {
    1 <= NalType(nal[0]) <= 23
  }

  predicate Proper(p: Parcel) {
    match p
    case Single(nal) => Plain(nal)
    case Group(ind, nals) =>
      NalType(ind) == 24 && forall i :: 0 <= i < |nals| ==> Plain(nals[i]) && |nals[i]| < 0x10000
    case Split(nal, parts) => Plain(nal) && parts != [] && Join(parts) == nal[1..]
  }

  function Nals(p: Parcel): seq<Nalu> {
    match p
    case Single(nal) => [nal]
    case Group(_, nals) => nals
    case Split(nal, _) => [nal]
  }

  function AllNals(ps: seq<Parcel>): seq<Nalu> {
    if ps == [] then [] else Nals(ps[0]) + AllNals(ps[1..])
  }

  function Half(w: nat, low: bool): byte {
    if low then w % 0x100 else (w / 0x100) % 0x100
  }

  function Sized(nals: seq<Nalu>): seq<byte> {
    if nals == [] then [] else Lead(nals[0]) + Sized(nals[1..])
  }

  function Lead(nal: Nalu): seq<byte> {
    [Half(|nal|, false), Half(|nal|, true)] + nal
  }

  // FU indicator and FU header (RFC 6184 section 5.8) in front of one part.
  function FragmentPayload(nal: Nalu, part: seq<byte>, first: bool, last: bool): Nalu {
    [(nal[0] / 32) * 32 + 28,
     (if first then 0x80 else 0) + (if last then 0x40 else 0) + nal[0] % 32] + part
  }

  function FragmentPayloads(nal: Nalu, parts: seq<seq<byte>>, first: bool): seq<Nalu> {
    if parts == [] then []
    else [FragmentPayload(nal, parts[0], first, |parts| == 1)] + FragmentPayloads(nal, parts[1..], false)
  }

  function Payloads(p: Parcel): seq<Nalu> {
    match p
    case Single(nal) => [nal]
    case Group(ind, nals) => [[ind] + Sized(nals)]
    case Split(nal, parts) => FragmentPayloads(nal, parts, true)
  }

  function AllPayloads(ps: seq<Parcel>): seq<Nalu> {
    if ps == [] then [] else Payloads(ps[0]) + AllPayloads(ps[1..])
  }

  // Everything in an RTP header the receiver has no use for.
  datatype Extension = Extension(profile: seq<byte>, words: seq<byte>)
  datatype Envelope = Envelope(payloadType: nat, ssrc: seq<byte>, csrcs: seq<byte>, ext: Option<Extension>)

  predicate Sealed(e: Envelope) {
    && e.payloadType < 0x80 && |e.ssrc| == 4
    && |e.csrcs| % 4 == 0 && |e.csrcs| <= 60
    && (e.ext.Some? ==> |e.ext.value.profile| == 2
                        && |e.ext.value.words| % 4 == 0 && |e.ext.value.words| / 4 < 0x10000)
  }

  function FixedHeader(e: Envelope, seqNo: nat, ts: nat, marker: bool): (h: seq<byte>)
    requires Sealed(e)
    ensures |h| == 12
  {
    [0x80 + (if e.ext.Some? then 0x10 else 0) + |e.csrcs| / 4,
     (if marker then 0x80 else 0) + e.payloadType,
     Half(seqNo, false), Half(seqNo, true),
     Half(ts / 0x10000, false), Half(ts / 0x10000, true), Half(ts, false), Half(ts, true)] + e.ssrc
  }

  function ExtensionBytes(e: Envelope): seq<byte>
    requires Sealed(e)
  {
    match e.ext
    case None => []
    case Some(x) => x.profile + [Half(|x.words| / 4, false), Half(|x.words| / 4, true)] + x.words
  }

  function Packet(e: Envelope, seqNo: nat, ts: nat, marker: bool, payload: seq<byte>): seq<byte>
    requires Sealed(e)
  {
    FixedHeader(e, seqNo, ts, marker) + e.csrcs + ExtensionBytes(e) + payload
  }

  // Consecutive sequence numbers, one timestamp, the marker on the last packet.
  function Packets(envs: seq<Envelope>, seqNo: nat, ts: nat, payloads: seq<Nalu>): seq<seq<byte>>
    requires |envs| == |payloads| && forall i :: 0 <= i < |envs| ==> Sealed(envs[i])
    decreases |payloads|
  {
    if payloads == [] then []
    else [Packet(envs[0], seqNo, ts, |payloads| == 1, payloads[0])]
         + Packets(envs[1..], (seqNo + 1) % SEQ_MOD, ts, payloads[1..])
  }

  // ----- What should come out -----

  // An Annex-B byte stream, with the parameter sets before every IDR slice.
  function AnnexB(nals: seq<Nalu>, params: seq<byte>): seq<byte> {
    if nals == [] then [] else OneNal(nals[0], params) + AnnexB(nals[1..], params)
  }

  function OneNal(nal: Nalu, params: seq<byte>): seq<byte> {
    (if NalType(nal[0]) == 5 then params else []) + START_CODE + nal
  }

  // What gets through while an IDR is awaited: whole NAL units of types 5, 7 and 8,
  // and of fragmented ones those of type 5.
  function Admitted(nals: seq<Nalu>, awaiting: bool): seq<Nalu> {
    if nals == [] then []
    else (if !awaiting || RtpGate.GateType(NalType(nals[0][0])) then [nals[0]] else []) + Admitted(nals[1..], awaiting)
  }

  function AdmittedOf(p: Parcel, awaiting: bool): seq<Nalu> {
    match p
    case Split(nal, _) => if awaiting && NalType(nal[0]) != 5 then [] else [nal]
    case _ => Admitted(Nals(p), awaiting)
  }

  function AllAdmitted(ps: seq<Parcel>, awaiting: bool): seq<Nalu> {
    if ps == [] then [] else AdmittedOf(ps[0], awaiting) + AllAdmitted(ps[1..], awaiting)
  }

  lemma {:induction false} AdmittedUnawaited(nals: seq<Nalu>)
    ensures Admitted(nals, false) == nals
  {
    if nals != [] {
      AdmittedUnawaited(nals[1..]);
      assert nals == [nals[0]] + nals[1..];
    }
  }

  // A receiver that awaits nothing gets everything.
  lemma {:induction false} AllAdmittedUnawaited(ps: seq<Parcel>)
    ensures AllAdmitted(ps, false) == AllNals(ps)
  {
    if ps != [] {
      AdmittedUnawaited(Nals(ps[0]));
      AllAdmittedUnawaited(ps[1..]);
    }
  }

  lemma AnyIdrConcat(a: seq<Nalu>, b: seq<Nalu>)
    ensures AnyIdr(a + b) <==> AnyIdr(a) || AnyIdr(b)
  {
    var c := a + b;
    assert forall i :: 0 <= i < |a| ==> c[i] == a[i];
    assert forall i :: 0 <= i < |b| ==> c[|a| + i] == b[i];
  }

  // An IDR slice gets through, so that bytes are left of it.
  lemma {:induction false} IdrAdmitted(nals: seq<Nalu>, awaiting: bool, params: seq<byte>)
    requires AnyIdr(nals)
    ensures AnnexB(Admitted(nals, awaiting), params) != []
  {
    if NalType(nals[0][0]) == 5 {
      AnnexBConcat([nals[0]], Admitted(nals[1..], awaiting), params);
    } else {
      assert nals == [nals[0]] + nals[1..];
      AnyIdrConcat([nals[0]], nals[1..]);
      IdrAdmitted(nals[1..], awaiting, params);
      var head := if !awaiting || RtpGate.GateType(NalType(nals[0][0])) then [nals[0]] else [];
      AnnexBConcat(head, Admitted(nals[1..], awaiting), params);
    }
  }

  lemma {:induction false} IdrLeavesBytes(ps: seq<Parcel>, awaiting: bool, params: seq<byte>)
    requires AnyIdr(AllNals(ps))
    ensures AnnexB(AllAdmitted(ps, awaiting), params) != []
  {
    assert ps != [];
    hide AnyIdr;
    AnnexBConcat(AdmittedOf(ps[0], awaiting), AllAdmitted(ps[1..], awaiting), params);
    AnyIdrConcat(Nals(ps[0]), AllNals(ps[1..]));
    if AnyIdr(Nals(ps[0])) {
      IdrAdmitted(Nals(ps[0]), awaiting, params);
      if ps[0].Split? {
        OneIdr(ps[0].nal);
        AnnexBConcat([ps[0].nal], [], params);
      }
    } else {
      IdrLeavesBytes(ps[1..], awaiting, params);
    }
  }

  lemma OneIdr(nal: Nalu)
    ensures AnyIdr([nal]) <==> NalType(nal[0]) == 5
  {
    assert [nal][0] == nal;
  }

  lemma {:induction false} AnnexBConcat(a: seq<Nalu>, b: seq<Nalu>, params: seq<byte>)
    ensures AnnexB(a + b, params) == AnnexB(a, params) + AnnexB(b, params)
  {
    if a == [] {
      assert a + b == b;
    } else {
      AnnexBConcat(a[1..], b, params);
      assert (a + b)[1..] == a[1..] + b;
      Assoc(OneNal(a[0], params), AnnexB(a[1..], params), AnnexB(b, params));
    }
  }

  // ----- Headers survive -----

  lemma HalvesMakeWord(w: nat)
    ensures Word(Half(w, false), Half(w, true)) == w % 0x10000
  {
    var q, m := w / 0x10000, w % 0x10000;
    assert w == 0x10000 * q + m;
    assert w / 0x100 == 0x100 * q + m / 0x100;
  }

  lemma FirstByte(extended: bool, n: nat)
    requires n < 16
    ensures var b := 0x80 + (if extended then 0x10 else 0) + n;
            b / 64 == 2 && b % 16 == n && ((b / 16) % 2 == 1 <==> extended)
  {
  }

  lemma FixedParses(e: Envelope, seqNo: nat, ts: nat, marker: bool)
    requires Sealed(e) && seqNo < SEQ_MOD && ts < 0x1_0000_0000
    ensures var h := FixedHeader(e, seqNo, ts, marker);
            && h[0] / 64 == 2 && h[0] % 16 == |e.csrcs| / 4 && ((h[0] / 16) % 2 == 1 <==> e.ext.Some?)
            && (h[1] >= 0x80 <==> marker)
            && Word(h[2], h[3]) == seqNo && Word(h[4], h[5]) == ts / 0x10000 && Word(h[6], h[7]) == ts % 0x10000
  {
    FirstByte(e.ext.Some?, |e.csrcs| / 4);
    HalvesMakeWord(seqNo);
    HalvesMakeWord(ts / 0x10000);
    HalvesMakeWord(ts);
  }

  lemma HeaderParses(e: Envelope, seqNo: nat, ts: nat, marker: bool, payload: Nalu)
    requires Sealed(e) && seqNo < SEQ_MOD && ts < 0x1_0000_0000
    ensures var pkt := Packet(e, seqNo, ts, marker, payload);
            && ValidHeader(pkt) && SeqNo(pkt) == seqNo && Timestamp(pkt) == ts && (Marker(pkt) <==> marker)
            && pkt[0] % 16 == |e.csrcs| / 4 && ((pkt[0] / 16) % 2 == 1 <==> e.ext.Some?)
  {
    var h := FixedHeader(e, seqNo, ts, marker);
    var pkt := Packet(e, seqNo, ts, marker, payload);
    FixedParses(e, seqNo, ts, marker);
    assert forall i :: 0 <= i < 12 ==> pkt[i] == h[i];
  }

  lemma PayloadParses(e: Envelope, seqNo: nat, ts: nat, marker: bool, payload: Nalu)
    requires Sealed(e) && seqNo < SEQ_MOD && ts < 0x1_0000_0000
    ensures var pkt := Packet(e, seqNo, ts, marker, payload);
            ValidHeader(pkt) && Payload(pkt) == Some(payload)
  {
    HeaderParses(e, seqNo, ts, marker, payload);
    var pkt := Packet(e, seqNo, ts, marker, payload);
    var front := FixedHeader(e, seqNo, ts, marker) + e.csrcs;
    var off := 12 + |e.csrcs|;
    assert |front| == off;
    if e.ext.Some? {
      var x := e.ext.value;
      var ext := ExtensionBytes(e);
      HalvesMakeWord(|x.words| / 4);
      assert pkt == front + (ext + payload);
      assert pkt[off + 2] == ext[2] && pkt[off + 3] == ext[3];
      assert pkt[off + |ext|..] == payload;
    } else {
      assert pkt[off..] == payload;
    }
  }

  lemma WordMakesHalves(hi: byte, lo: byte)
    ensures Half(Word(hi, lo), false) == hi && Half(Word(hi, lo), true) == lo
  {
    assert Word(hi, lo) / 0x100 == hi;
  }

  // What the envelope of a packet must have been.
  function EnvelopeOf(pkt: seq<byte>): (e: Envelope)
    requires ValidHeader(pkt) && Payload(pkt).Some?
  {
    var off := 12 + (pkt[0] % 16) * 4;
    Envelope(pkt[1] % 0x80, pkt[8..12], pkt[12..off],
             if (pkt[0] / 16) % 2 == 1
             then Some(Extension(pkt[off..off + 2], pkt[off + 4..off + 4 + Word(pkt[off + 2], pkt[off + 3]) * 4]))
             else None)
  }

  // What is behind the sources: the extension, if any, and the payload.
  lemma TailMade(pkt: seq<byte>, off: nat)
    requires ValidHeader(pkt) && Payload(pkt).Some? && off == 12 + (pkt[0] % 16) * 4 && Sealed(EnvelopeOf(pkt))
    ensures off < |pkt| && pkt[off..] == ExtensionBytes(EnvelopeOf(pkt)) + Payload(pkt).value
  {
    hide Word, Half, Sealed, Payload, EnvelopeOf;
    if (pkt[0] / 16) % 2 == 1 {
      ExtensionFields(pkt, off);
      WordMakesHalves(pkt[off + 2], pkt[off + 3]);
      FourParts(pkt, off, Word(pkt[off + 2], pkt[off + 3]) * 4);
    } else {
      NoExtension(pkt, off);
    }
  }

  lemma NoExtension(pkt: seq<byte>, off: nat)
    requires ValidHeader(pkt) && Payload(pkt).Some? && off == 12 + (pkt[0] % 16) * 4 && (pkt[0] / 16) % 2 != 1
    ensures off < |pkt| && Payload(pkt).value == pkt[off..] && EnvelopeOf(pkt).ext == None
  {
  }

  lemma ExtensionFields(pkt: seq<byte>, off: nat)
    requires ValidHeader(pkt) && Payload(pkt).Some? && off == 12 + (pkt[0] % 16) * 4 && (pkt[0] / 16) % 2 == 1
    ensures off + 4 <= |pkt|
    ensures var n := Word(pkt[off + 2], pkt[off + 3]) * 4;
            && off + 4 + n < |pkt| && Payload(pkt).value == pkt[off + 4 + n..]
            && EnvelopeOf(pkt).ext == Some(Extension(pkt[off..off + 2], pkt[off + 4..off + 4 + n]))
            && |pkt[off + 4..off + 4 + n]| / 4 == Word(pkt[off + 2], pkt[off + 3])
  {
    hide Word;
  }

  lemma FourParts(s: seq<byte>, off: nat, n: nat)
    requires off + 4 + n <= |s|
    ensures s[off..] == s[off..off + 2] + [s[off + 2], s[off + 3]] + s[off + 4..off + 4 + n] + s[off + 4 + n..]
  {
  }

  // The converse: whatever the receiver takes for a payload is all that is behind the
  // sources and the extension that the header announces.
  lemma OnlyPackets(pkt: seq<byte>)
    requires ValidHeader(pkt) && Payload(pkt).Some?
    ensures var e := EnvelopeOf(pkt);
            && Sealed(e) && |e.csrcs| == (pkt[0] % 16) * 4 && (e.ext.Some? <==> (pkt[0] / 16) % 2 == 1)
            && pkt[12..] == e.csrcs + ExtensionBytes(e) + Payload(pkt).value
  {
    var e, off := EnvelopeOf(pkt), 12 + (pkt[0] % 16) * 4;
    EnvelopeSealed(pkt);
    TailMade(pkt, off);
    assert e.csrcs == pkt[12..off];
    hide Word, Payload, EnvelopeOf, ExtensionBytes, Sealed, ValidHeader;
    assert pkt[12..] == pkt[12..off] + pkt[off..];
    Assoc(e.csrcs, ExtensionBytes(e), Payload(pkt).value);
  }

  lemma EnvelopeSealed(pkt: seq<byte>)
    requires ValidHeader(pkt) && Payload(pkt).Some?
    ensures var e := EnvelopeOf(pkt);
            Sealed(e) && |e.csrcs| == (pkt[0] % 16) * 4 && (e.ext.Some? <==> (pkt[0] / 16) % 2 == 1)
  {
    hide Word;
    if (pkt[0] / 16) % 2 == 1 {
      ExtensionFields(pkt, 12 + (pkt[0] % 16) * 4);
    }
  }

  // ----- Payloads with enough room -----

  // The receiver after staging a payload completely.
  function Soak(r: Receiver, pl: Nalu, params: seq<byte>): Receiver {
    var plan := PlanFor(pl, r, false, params);
    r.(staged := r.staged + Bytes(plan.items), bad := r.bad || plan.orphan,
       hasIdr := r.hasIdr || plan.idr, fuActive := plan.fuActive)
  }

  function SoakAll(r: Receiver, pls: seq<Nalu>, params: seq<byte>): Receiver
    decreases |pls|
  {
    if pls == [] then r else SoakAll(Soak(r, pls[0], params), pls[1..], params)
  }

  lemma SoakTail(r: Receiver, a: seq<Nalu>, b: seq<Nalu>, params: seq<byte>)
    requires a != []
    ensures SoakAll(r, a + b, params) == SoakAll(Soak(r, a[0], params), a[1..] + b, params)
  {
    assert (a + b)[1..] == a[1..] + b;
  }

  lemma {:induction false} SoakConcat(r: Receiver, a: seq<Nalu>, b: seq<Nalu>, params: seq<byte>)
    ensures SoakAll(r, a + b, params) == SoakAll(SoakAll(r, a, params), b, params)
    decreases |a|
  {
    if a == [] {
      assert a + b == b;
    } else {
      SoakTail(r, a, b, params);
      SoakConcat(Soak(r, a[0], params), a[1..], b, params);
    }
  }

  lemma UnitBytes(nal: Nalu, params: seq<byte>)
    ensures Bytes(UnitItems(nal, params)) == OneNal(nal, params)
  {
    var items := UnitItems(nal, params);
    assert Bytes([Nal(nal)]) == START_CODE + nal + Bytes([]);
    if |items| == 2 {
      assert items[1..] == [Nal(nal)];
    }
  }

  // Every unit of a list that gets through is staged behind its start code.
  lemma {:induction false} AllItemsBytes(nals: seq<Nalu>, awaiting: bool, params: seq<byte>)
    ensures Bytes(AllItems(nals, awaiting, params)) == AnnexB(Admitted(nals, awaiting), params)
  {
    if nals != [] {
      var rest := Admitted(nals[1..], awaiting);
      AllItemsBytes(nals[1..], awaiting, params);
      UnitBytes(nals[0], params);
      BytesConcat(UnitItems(nals[0], params), AllItems(nals[1..], awaiting, params));
      AnnexBConcat([nals[0]], rest, params);
      assert AnnexB([nals[0]], params) == OneNal(nals[0], params) + AnnexB([], params);
      assert [] + rest == rest;
    }
  }

  // No further unit: no room for its size, or a size of zero or past the end.
  predicate CutOff(tail: seq<byte>) {
    |tail| < 2 || Word(tail[0], tail[1]) == 0 || Word(tail[0], tail[1]) > |tail| - 2
  }

  // An aggregation packet splits into exactly the units put into it, up to what is cut
  // off at its end.
  lemma {:induction false} AggregatedParses(front: seq<byte>, nals: seq<Nalu>, tail: seq<byte>)
    requires CutOff(tail) && forall i :: 0 <= i < |nals| ==> |nals[i]| < 0x10000
    ensures Aggregated(front + (Sized(nals) + tail), |front|) == nals
    decreases nals
  {
    if nals == [] {
      var pl := front + ([] + tail);
      assert |tail| >= 2 ==> pl[|front|] == tail[0] && pl[|front| + 1] == tail[1];
    } else {
      var nal, rest := nals[0], Sized(nals[1..]) + tail;
      AggregatedParses(front + Lead(nal), nals[1..], tail);
      Assoc(Lead(nal), Sized(nals[1..]), tail);
      Assoc(front, Lead(nal), rest);
      AggregatedOne(front, nal, rest);
    }
  }

  lemma AggregatedWhole(front: seq<byte>, nals: seq<Nalu>)
    requires forall i :: 0 <= i < |nals| ==> |nals[i]| < 0x10000
    ensures Aggregated(front + Sized(nals), |front|) == nals
  {
    AggregatedParses(front, nals, []);
    assert Sized(nals) + [] == Sized(nals);
  }

  lemma AggregatedOne(front: seq<byte>, nal: Nalu, rest: seq<byte>)
    requires |nal| < 0x10000
    ensures var pl := front + Lead(nal) + rest;
            Aggregated(pl, |front|) == [nal] + Aggregated(pl, |front + Lead(nal)|)
  {
    var pl, p := front + Lead(nal) + rest, |front|;
    HalvesMakeWord(|nal|);
    assert pl[p] == Lead(nal)[0] && pl[p + 1] == Lead(nal)[1];
    assert Word(pl[p], pl[p + 1]) == |nal|;
    assert pl[p + 2..p + 2 + |nal|] == nal;
  }

  lemma OneRaw(b: seq<byte>)
    ensures Bytes([Raw(b)]) == b
  {
    assert Bytes([Raw(b)]) == b + Bytes([]);
  }

  lemma SoakMiddle(r: Receiver, nal: Nalu, part: seq<byte>, last: bool, params: seq<byte>)
    requires r.fuActive && (r.needIdr ==> NalType(nal[0]) == 5)
    ensures Soak(r, FragmentPayload(nal, part, false, last), params)
         == r.(staged := r.staged + part, fuActive := !last)
  {
    var pl := FragmentPayload(nal, part, false, last);
    assert pl[2..] == part && NalType(pl[0]) == 28;
    OneRaw(part);
  }

  lemma SoakFirst(r: Receiver, nal: Nalu, part: seq<byte>, last: bool, params: seq<byte>)
    requires r.needIdr ==> NalType(nal[0]) == 5
    ensures Soak(r, FragmentPayload(nal, part, true, last), params)
         == r.(staged := r.staged + (OneNal([nal[0]], params) + part), fuActive := !last,
               hasIdr := r.hasIdr || NalType(nal[0]) == 5)
  {
    var pl := FragmentPayload(nal, part, true, last);
    assert pl[2..] == part && NalType(pl[0]) == 28 && FuHeader(pl) == nal[0];
    OneRaw(part);
    UnitBytes([nal[0]], params);
    BytesConcat(UnitItems([nal[0]], params), [Raw(part)]);
  }

  // The fragments after the first add their bytes to the unit.
  lemma {:induction false} SoakFragments(r: Receiver, nal: Nalu, parts: seq<seq<byte>>, params: seq<byte>)
    requires (parts != [] ==> r.fuActive) && (r.needIdr ==> NalType(nal[0]) == 5)
    ensures var r' := SoakAll(r, FragmentPayloads(nal, parts, false), params);
            r' == r.(staged := r.staged + Join(parts), fuActive := if parts == [] then r.fuActive else false)
    decreases |parts|
  {
    if parts == [] {
      assert r.staged + Join(parts) == r.staged;
    } else {
      var r1 := r.(staged := r.staged + parts[0], fuActive := |parts| != 1);
      SoakMiddle(r, nal, parts[0], |parts| == 1, params);
      SoakFragments(r1, nal, parts[1..], params);
      Assoc(r.staged, parts[0], Join(parts[1..]));
    }
  }

  lemma OneNalParts(staged: seq<byte>, nal: Nalu, part: seq<byte>, rest: seq<byte>, params: seq<byte>)
    requires part + rest == nal[1..]
    ensures staged + (OneNal([nal[0]], params) + part) + rest == staged + OneNal(nal, params)
  {
    assert nal == [nal[0]] + (part + rest);
  }

  lemma OneHeldBack(r: Receiver, nal: Nalu, part: seq<byte>, first: bool, last: bool, params: seq<byte>)
    requires r.needIdr && NalType(nal[0]) != 5
    ensures Soak(r, FragmentPayload(nal, part, first, last), params) == r
  {
    var pl := FragmentPayload(nal, part, first, last);
    assert NalType(pl[0]) == 28 && FuHeader(pl) == nal[0];
    assert r.staged + [] == r.staged;
  }

  // Fragments of anything but an IDR slice are held back while one is awaited.
  lemma {:induction false} SoakHeldBack(r: Receiver, nal: Nalu, parts: seq<seq<byte>>, first: bool, params: seq<byte>)
    requires r.needIdr && NalType(nal[0]) != 5
    ensures SoakAll(r, FragmentPayloads(nal, parts, first), params) == r
    decreases |parts|
  {
    hide Soak;
    if parts != [] {
      OneHeldBack(r, nal, parts[0], first, |parts| == 1, params);
      SoakHeldBack(r, nal, parts[1..], false, params);
    }
  }

  lemma SoakSplit(r: Receiver, nal: Nalu, parts: seq<seq<byte>>, params: seq<byte>)
    requires Proper(Split(nal, parts)) && (r.needIdr ==> NalType(nal[0]) == 5)
    ensures var r' := SoakAll(r, FragmentPayloads(nal, parts, true), params);
            r' == r.(staged := r.staged + OneNal(nal, params), fuActive := false,
                     hasIdr := r.hasIdr || NalType(nal[0]) == 5)
  {
    SoakFirst(r, nal, parts[0], |parts| == 1, params);
    var r1 := Soak(r, FragmentPayload(nal, parts[0], true, |parts| == 1), params);
    SoakFragments(r1, nal, parts[1..], params);
    OneNalParts(r.staged, nal, parts[0], Join(parts[1..]), params);
  }

  // r' is r with these bytes staged behind what it had.
  predicate Grew(r: Receiver, r': Receiver, bytes: seq<byte>) {
    r' == r.(staged := r.staged + bytes, hasIdr := r'.hasIdr, fuActive := r'.fuActive)
  }

  // Whatever way a parcel travels, what gets through of its NAL units is staged as
  // Annex B.
  lemma SoakParcel(r: Receiver, p: Parcel, params: seq<byte>)
    requires Proper(p)
    ensures var r' := SoakAll(r, Payloads(p), params);
            && Grew(r, r', AnnexB(AdmittedOf(p, r.needIdr), params))
            && (r'.hasIdr <==> r.hasIdr || AnyIdr(Nals(p)))
  {
    match p
    case Single(nal) =>
      AllItemsBytes([nal], r.needIdr, params);
    case Group(ind, nals) =>
      var pl: Nalu := [ind] + Sized(nals);
      AggregatedWhole([ind], nals);
      AllItemsBytes(nals, r.needIdr, params);
      assert SoakAll(r, [pl], params) == SoakAll(Soak(r, pl, params), [], params);
    case Split(nal, parts) =>
      OneIdr(nal);
      if r.needIdr && NalType(nal[0]) != 5 {
        SoakHeldBack(r, nal, parts, true, params);
        assert r.staged + [] == r.staged;
      } else {
        SoakSplit(r, nal, parts, params);
        assert AnnexB([nal], params) == OneNal(nal, params) + AnnexB([], params);
      }
  }

  predicate AllProper(ps: seq<Parcel>) {
    ps != [] ==> Proper(ps[0]) && AllProper(ps[1..])
  }

  lemma {:induction false} SoakParcels(r: Receiver, ps: seq<Parcel>, params: seq<byte>)
    requires AllProper(ps)
    ensures var r' := SoakAll(r, AllPayloads(ps), params);
            && Grew(r, r', AnnexB(AllAdmitted(ps, r.needIdr), params))
            && (r'.hasIdr <==> r.hasIdr || AnyIdr(AllNals(ps)))
    decreases |ps|
  {
    hide AnyIdr, AdmittedOf, Nals;
    if ps == [] {
      assert r.staged + [] == r.staged;
      assert !AnyIdr([]) by { NoIdr(); }
    } else {
      var a, b := AdmittedOf(ps[0], r.needIdr), AllAdmitted(ps[1..], r.needIdr);
      SoakParcel(r, ps[0], params);
      var r1 := SoakAll(r, Payloads(ps[0]), params);
      SoakConcat(r, Payloads(ps[0]), AllPayloads(ps[1..]), params);
      SoakParcels(r1, ps[1..], params);
      AnnexBConcat(a, b, params);
      AnyIdrConcat(Nals(ps[0]), AllNals(ps[1..]));
      GrewTwice(r, r1, SoakAll(r1, AllPayloads(ps[1..]), params), AnnexB(a, params), AnnexB(b, params));
    }
  }

  lemma NoIdr()
    ensures !AnyIdr([])
  {
  }

  lemma GrewTwice(r: Receiver, r1: Receiver, r2: Receiver, a: seq<byte>, b: seq<byte>)
    requires Grew(r, r1, a) && Grew(r1, r2, b)
    ensures Grew(r, r2, a + b)
  {
    Assoc(r.staged, a, b);
  }

  // Other payload types, and a fragment without its header, stage nothing.
  lemma OtherTypes(r: Receiver, pl: Nalu, params: seq<byte>)
    requires var t := NalType(pl[0]); t == 0 || 25 <= t <= 27 || t >= 29 || (t == 28 && |pl| == 1)
    ensures Soak(r, pl, params) == r
  {
    assert r.staged + [] == r.staged;
  }

  // A datagram that is too short or of another version changes nothing.
  lemma Foreign(r: Receiver, pkt: seq<byte>, params: seq<byte>, oc: seq<Outcome>)
    requires |pkt| < 12 || pkt[0] < 0x80 || pkt[0] >= 0xC0
    ensures Step(r, pkt, params, oc) == (r, [])
  {
  }

  // ----- Whole packets, whole access units, whole streams -----

  // The receiver fed a list of packets: its state after, and all it committed.
  function Receive(r: Receiver, pkts: seq<seq<byte>>, params: seq<byte>, ocs: seq<seq<Outcome>>): (Receiver, seq<byte>)
    requires |ocs| == |pkts|
    decreases |pkts|
  {
    if pkts == [] then (r, [])
    else
      var (r1, out) := Step(r, pkts[0], params, ocs[0]);
      var (r2, rest) := Receive(r1, pkts[1..], params, ocs[1..]);
      (r2, out + rest)
  }

  // Between access units, in step with the sender, and not waiting for an IDR.
  predicate Synced(r: Receiver, seqNo: nat) {
    InStep(r, seqNo) && !r.needIdr
  }

  // Between access units, in step with the sender.
  predicate InStep(r: Receiver, seqNo: nat) {
    Tracking(r, seqNo) && r.staged == [] && !r.bad && !r.hasIdr
  }

  predicate Tracking(r: Receiver, seqNo: nat) {
    r.haveSeq ==> seqNo == (r.lastSeq + 1) % SEQ_MOD
  }

  // Inside an access unit with this timestamp.
  predicate InUnit(r: Receiver, seqNo: nat, ts: nat) {
    Tracking(r, seqNo) && (r.staged == [] || (r.haveTs && r.ts == ts))
  }

  function Tuned(r: Receiver, seqNo: nat, ts: nat): Receiver {
    r.(haveSeq := true, lastSeq := seqNo, haveTs := true, ts := ts)
  }

  lemma SoakTuned(r: Receiver, seqNo: nat, ts: nat, pl: Nalu, params: seq<byte>)
    ensures Soak(Tuned(r, seqNo, ts), pl, params) == Tuned(Soak(r, pl, params), seqNo, ts)
  {
  }

  lemma {:induction false} SoakAllTuned(r: Receiver, seqNo: nat, ts: nat, pls: seq<Nalu>, params: seq<byte>)
    ensures SoakAll(Tuned(r, seqNo, ts), pls, params) == Tuned(SoakAll(r, pls, params), seqNo, ts)
    decreases |pls|
  {
    if pls != [] {
      SoakTuned(r, seqNo, ts, pls[0], params);
      SoakAllTuned(Soak(r, pls[0], params), seqNo, ts, pls[1..], params);
    }
  }

  lemma StagedFully(r: Receiver, pl: Nalu, params: seq<byte>, oc: seq<Outcome>)
    requires Roomy(oc)
    ensures Staged(r, PlanFor(pl, r, false, params), oc) == Soak(r, pl, params)
  {
    var plan := PlanFor(pl, r, false, params);
    PutAllFull(Stage(r.staged, r.bad || plan.orphan), plan.items, Outcomes(oc, |plan.items|));
  }

  // A packet with this sequence number, timestamp, marker and payload.
  predicate Carries(pkt: seq<byte>, seqNo: nat, ts: nat, marker: bool, pl: Nalu) {
    && ValidHeader(pkt) && SeqNo(pkt) == seqNo && Timestamp(pkt) == ts && (Marker(pkt) <==> marker)
    && Payload(pkt) == Some(pl)
  }

  // The packets of a unit, or of what is left of it.
  predicate CarryAll(pkts: seq<seq<byte>>, seqNo: nat, ts: nat, pls: seq<Nalu>) {
    && |pkts| == |pls|
    && forall i :: 0 <= i < |pls| ==> Carries(pkts[i], NextSeq(seqNo, i), ts, i + 1 == |pls|, pls[i])
  }

  lemma {:induction false} PacketsCarry(envs: seq<Envelope>, seqNo: nat, ts: nat, pls: seq<Nalu>)
    requires |envs| == |pls| && forall i :: 0 <= i < |envs| ==> Sealed(envs[i])
    requires seqNo < SEQ_MOD && ts < 0x1_0000_0000
    ensures CarryAll(Packets(envs, seqNo, ts, pls), seqNo, ts, pls)
    decreases |pls|
  {
    if pls != [] {
      HeaderParses(envs[0], seqNo, ts, |pls| == 1, pls[0]);
      PayloadParses(envs[0], seqNo, ts, |pls| == 1, pls[0]);
      PacketsCarry(envs[1..], (seqNo + 1) % SEQ_MOD, ts, pls[1..]);
    }
  }

  // One packet in step and with room stages its payload, and the marker flushes.
  lemma StepInUnit(r: Receiver, pkt: seq<byte>, seqNo: nat, ts: nat, marker: bool, pl: Nalu,
                   params: seq<byte>, oc: seq<Outcome>)
    requires Carries(pkt, seqNo, ts, marker, pl) && InUnit(r, seqNo, ts) && Roomy(oc)
    ensures var r' := Tuned(Soak(r, pl, params), seqNo, ts);
            Step(r, pkt, params, oc) == if marker then Flush(r') else (r', [])
  {
    assert AfterHeader(r, pkt) == Tuned(r, seqNo, ts);
    StagedFully(Tuned(r, seqNo, ts), pl, params, oc);
    SoakTuned(r, seqNo, ts, pl, params);
  }

  function NextSeq(seqNo: nat, n: nat): nat
    decreases n
  {
    if n == 0 then seqNo else NextSeq((seqNo + 1) % SEQ_MOD, n - 1)
  }

  predicate AllRoomy(ocs: seq<seq<Outcome>>) {
    forall i :: 0 <= i < |ocs| ==> Roomy(ocs[i])
  }

  lemma ReceiveCons(r: Receiver, pkt: seq<byte>, rest: seq<seq<byte>>, params: seq<byte>,
                    oc: seq<Outcome>, ocs: seq<seq<Outcome>>)
    requires |ocs| == |rest|
    ensures var (r1, out) := Step(r, pkt, params, oc);
            var (r2, more) := Receive(r1, rest, params, ocs);
            Receive(r, [pkt] + rest, params, [oc] + ocs) == (r2, out + more)
  {
    assert ([pkt] + rest)[1..] == rest && ([oc] + ocs)[1..] == ocs;
  }

  lemma FlushSyncs(r: Receiver, seqNo: nat, ts: nat)
    ensures var (r', out) := Flush(Tuned(r, seqNo, ts));
            InStep(r', (seqNo + 1) % SEQ_MOD) && r'.needIdr == Flush(r).0.needIdr && out == Flush(r).1
  {
  }

  lemma SoakKeepsIdr(r: Receiver, pl: Nalu, params: seq<byte>)
    ensures Soak(r, pl, params).needIdr == r.needIdr
  {
  }

  // The first packet of what is left of a unit.
  lemma UnitHead(r: Receiver, pkts: seq<seq<byte>>, seqNo: nat, ts: nat, pls: seq<Nalu>,
                 params: seq<byte>, ocs: seq<seq<Outcome>>) returns (soaked: Receiver)
    requires |pls| == |ocs| == |pkts| > 0 && CarryAll(pkts, seqNo, ts, pls)
    requires AllRoomy(ocs) && InUnit(r, seqNo, ts)
    ensures SoakAll(r, pls, params) == SoakAll(soaked, pls[1..], params)
    ensures var r' := Tuned(soaked, seqNo, ts);
            if |pls| == 1 then Receive(r, pkts, params, ocs) == Flush(r')
            else Receive(r, pkts, params, ocs) == Receive(r', pkts[1..], params, ocs[1..])
  {
    soaked := Soak(r, pls[0], params);
    StepInUnit(r, pkts[0], seqNo, ts, |pls| == 1, pls[0], params, ocs[0]);
    hide Soak;
    ReceiveCons(r, pkts[0], pkts[1..], params, ocs[0], ocs[1..]);
    assert [pkts[0]] + pkts[1..] == pkts && [ocs[0]] + ocs[1..] == ocs;
    var (r1, out) := Step(r, pkts[0], params, ocs[0]);
    var (r2, more) := Receive(r1, pkts[1..], params, ocs[1..]);
    assert out + [] == out && [] + more == more;
    assert |pls| == 1 ==> pkts[1..] == [] && more == [];
  }

  // What is left after the first packet.
  lemma UnitRest(soaked: Receiver, pkts: seq<seq<byte>>, seqNo: nat, ts: nat, pls: seq<Nalu>,
                 params: seq<byte>, ocs: seq<seq<Outcome>>)
    requires |pls| == |ocs| == |pkts| > 0 && CarryAll(pkts, seqNo, ts, pls) && AllRoomy(ocs)
    ensures var next := (seqNo + 1) % SEQ_MOD;
            && InUnit(Tuned(soaked, seqNo, ts), next, ts) && AllRoomy(ocs[1..])
            && CarryAll(pkts[1..], next, ts, pls[1..])
            && NextSeq(seqNo, |pls|) == NextSeq(next, |pls| - 1) && NextSeq(next, 0) == next
    ensures |pls| == 1 ==> SoakAll(soaked, pls[1..], params) == soaked
  {
  }

  lemma {:induction false} UnitDelivered(r: Receiver, pkts: seq<seq<byte>>, seqNo: nat, ts: nat, pls: seq<Nalu>,
                                         params: seq<byte>, ocs: seq<seq<Outcome>>)
    requires |pls| == |ocs| == |pkts| > 0 && CarryAll(pkts, seqNo, ts, pls)
    requires AllRoomy(ocs) && InUnit(r, seqNo, ts)
    ensures var (r', out) := Receive(r, pkts, params, ocs);
            var (end, unit) := Flush(SoakAll(r, pls, params));
            InStep(r', NextSeq(seqNo, |pls|)) && r'.needIdr == end.needIdr && out == unit
    decreases |pls|
  {
    hide Soak, SoakAll, Carries, CarryAll, Receive, Flush, InUnit, InStep, AllRoomy, NextSeq;
    var next := (seqNo + 1) % SEQ_MOD;
    var soaked := UnitHead(r, pkts, seqNo, ts, pls, params, ocs);
    UnitRest(soaked, pkts, seqNo, ts, pls, params, ocs);
    if |pls| == 1 {
      FlushSyncs(soaked, seqNo, ts);
    } else {
      UnitDelivered(Tuned(soaked, seqNo, ts), pkts[1..], next, ts, pls[1..], params, ocs[1..]);
      SoakAllTuned(soaked, seqNo, ts, pls[1..], params);
      FlushTuned(SoakAll(soaked, pls[1..], params), seqNo, ts);
    }
  }

  lemma FlushTuned(r: Receiver, seqNo: nat, ts: nat)
    ensures Flush(Tuned(r, seqNo, ts)).1 == Flush(r).1
    ensures Flush(Tuned(r, seqNo, ts)).0.needIdr == Flush(r).0.needIdr
  {
  }

  // An access unit as sent: its parcels, one envelope per packet, a timestamp,
  // and for every packet that the ring had room for it.
  datatype AccessUnit = AccessUnit(parcels: seq<Parcel>, envs: seq<Envelope>, ts: nat)

  predicate Sendable(au: AccessUnit) {
    && AllProper(au.parcels) && AllPayloads(au.parcels) != []
    && |au.envs| == |AllPayloads(au.parcels)| && (forall i :: 0 <= i < |au.envs| ==> Sealed(au.envs[i]))
    && au.ts < 0x1_0000_0000
  }

  function Sent(au: AccessUnit, seqNo: nat): seq<seq<byte>>
    requires Sendable(au)
  {
    Packets(au.envs, seqNo, au.ts, AllPayloads(au.parcels))
  }

  // What a whole unit does to a receiver that has nothing staged and room for it.
  lemma SoakUnit(r: Receiver, au: AccessUnit, params: seq<byte>)
    requires Sendable(au) && r.staged == [] && !r.bad && !r.hasIdr
    ensures var whole, bytes := SoakAll(r, AllPayloads(au.parcels), params), AnnexB(AllAdmitted(au.parcels, r.needIdr), params);
            var (end, unit) := Flush(whole);
            && whole.staged == bytes && unit == bytes
            && (end.needIdr <==> r.needIdr && !AnyIdr(AllNals(au.parcels)))
  {
    hide SoakAll, AnyIdr;
    var bytes := AnnexB(AllAdmitted(au.parcels, r.needIdr), params);
    SoakParcels(r, au.parcels, params);
    assert [] + bytes == bytes;
    if AnyIdr(AllNals(au.parcels)) {
      IdrLeavesBytes(au.parcels, r.needIdr, params);
    }
  }

  // Recovery: a receiver in step, with room, that may be waiting for an IDR commits
  // the Annex B form of exactly what may pass of the access unit, and waits no longer
  // exactly when there is an IDR slice in it.
  lemma Recovery(r: Receiver, au: AccessUnit, seqNo: nat, params: seq<byte>, ocs: seq<seq<Outcome>>)
    requires Sendable(au) && seqNo < SEQ_MOD && InStep(r, seqNo)
    requires |ocs| == |Sent(au, seqNo)| && AllRoomy(ocs)
    ensures var (r', out), next := Receive(r, Sent(au, seqNo), params, ocs), NextSeq(seqNo, |Sent(au, seqNo)|);
            && out == AnnexB(AllAdmitted(au.parcels, r.needIdr), params)
            && InStep(r', next) && (Synced(r', next) <==> !r.needIdr || AnyIdr(AllNals(au.parcels)))
  {
    hide SoakAll, Receive, CarryAll, AnyIdr, Flush;
    var pls := AllPayloads(au.parcels);
    PacketsCarry(au.envs, seqNo, au.ts, pls);
    UnitDelivered(r, Sent(au, seqNo), seqNo, au.ts, pls, params, ocs);
    SoakUnit(r, au, params);
  }

  // The round trip: a synchronised receiver with room commits exactly the Annex B
  // form of the access unit, and is synchronised for the next one.
  lemma RoundTrip(r: Receiver, au: AccessUnit, seqNo: nat, params: seq<byte>, ocs: seq<seq<Outcome>>)
    requires Sendable(au) && seqNo < SEQ_MOD && Synced(r, seqNo)
    requires |ocs| == |Sent(au, seqNo)| && AllRoomy(ocs)
    ensures var (r', out) := Receive(r, Sent(au, seqNo), params, ocs);
            && out == AnnexB(AllNals(au.parcels), params)
            && Synced(r', NextSeq(seqNo, |Sent(au, seqNo)|))
  {
    Recovery(r, au, seqNo, params, ocs);
    AllAdmittedUnawaited(au.parcels);
  }
}
