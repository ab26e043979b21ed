// RTP/H.264 reception, direct path (apps/vpu_stream.c): the meaning of one
// packet.  RTP headers follow RFC 3550 sections 5.1 and 5.3.1; payloads are the
// single NAL unit, STAP-A and FU-A packets of RFC 6184 sections 5.6, 5.7.1 and
// 5.8.
module RtpH264 {
  import opened Octets

  datatype Option<+T> = None | Some(value: T)

  // A NAL unit: at least its header byte.
  type Nalu = s: seq<byte> | s != [] witness [0]

  const START_CODE: seq<byte> := [0, 0, 0, 1]
  const SEQ_MOD := 0x10000

  // ----- Packet fields -----

  // Two bytes in network order.
  function Word(hi: byte, lo: byte): (w: nat)
    ensures w < 0x10000
  {
    hi as int * 0x100 + lo as int
  }

  predicate ValidHeader(pkt: seq<byte>) {
    |pkt| >= 12 && pkt[0] / 64 == 2
  }

  function SeqNo(pkt: seq<byte>): (n: nat)
    requires ValidHeader(pkt)
    ensures n < SEQ_MOD
  {
    Word(pkt[2], pkt[3])
  }

  function Timestamp(pkt: seq<byte>): nat
    requires ValidHeader(pkt)
  {
    Word(pkt[4], pkt[5]) * 0x10000 + Word(pkt[6], pkt[7])
  }

  predicate Marker(pkt: seq<byte>)
    requires ValidHeader(pkt)
  {
    pkt[1] >= 0x80
  }

  // What follows the fixed header, the contributing sources and the extension.
  function Payload(pkt: seq<byte>): Option<Nalu>
    requires ValidHeader(pkt)
  {
    var off := 12 + (pkt[0] % 16) * 4;
    if (pkt[0] / 16) % 2 == 1 then
      if |pkt| < off + 4 then None
      else
        var off' := off + 4 + Word(pkt[off + 2], pkt[off + 3]) * 4;
        if |pkt| <= off' then None else Some(pkt[off'..])
    else if |pkt| <= off then None
    else Some(pkt[off..])
  }

  function NalType(b: byte): nat {
    b % 32
  }

  // ----- Receiver state -----

  // The fields of struct h264_rtp_state the direct path uses; `staged` is what
  // it has written behind the ring's write pointer (au_len bytes).
  datatype Receiver = Receiver(
    haveSeq: bool, lastSeq: nat, needIdr: bool,
    haveTs: bool, ts: nat,
    staged: seq<byte>, bad: bool, hasIdr: bool,
    fuActive: bool)

  // memset(&state, 0, sizeof(state))
  const Fresh := Receiver(false, 0, false, false, 0, [], false, false, false)

  function Reset(r: Receiver): Receiver {
    r.(staged := [], bad := false, hasIdr := false)
  }

  predicate SeqGap(r: Receiver, pkt: seq<byte>)
    requires ValidHeader(pkt)
  {
    r.haveSeq && SeqNo(pkt) != (r.lastSeq + 1) % SEQ_MOD
  }

  predicate NewUnit(r: Receiver, pkt: seq<byte>)
    requires ValidHeader(pkt)
  {
    !r.haveTs || r.ts != Timestamp(pkt)
  }

  // rtp_h264_seq_gap.
  function AfterSeq(r: Receiver, pkt: seq<byte>): Receiver
    requires ValidHeader(pkt)
  {
    var r' := r.(haveSeq := true, lastSeq := SeqNo(pkt));
    if SeqGap(r, pkt) then r'.(fuActive := false, needIdr := true) else r'
  }

  // The access-unit boundary test: a new timestamp abandons what is staged.
  function AfterTimestamp(r: Receiver, pkt: seq<byte>, gap: bool): Receiver
    requires ValidHeader(pkt)
  {
    if NewUnit(r, pkt) then
      var r' := if r.haveTs && r.staged != [] then Reset(r.(needIdr := true)) else r;
      r'.(haveTs := true, ts := Timestamp(pkt))
    else if gap then r.(bad := true)
    else r
  }

  function AfterHeader(r: Receiver, pkt: seq<byte>): Receiver
    requires ValidHeader(pkt)
  {
    AfterTimestamp(AfterSeq(r, pkt), pkt, SeqGap(r, pkt))
  }

  // ----- What a payload asks to be staged -----

  // Bytes to stage, with or without a start code in front.
  datatype Item = Raw(bytes: seq<byte>) | Nal(bytes: seq<byte>)

  // What a payload asks for: the items, whether an IDR slice starts in it, and for
  // fragments whether the unit goes on and whether its start was missed.
  datatype Plan = Plan(items: seq<Item>, idr: bool, fuActive: bool, orphan: bool)

  // While an IDR is awaited only IDR slices and parameter sets pass.
  predicate Passes(needIdr: bool, nalType: nat) {
    !needIdr || nalType == 5 || nalType == 7 || nalType == 8
  }

  // A whole NAL unit; an IDR slice is preceded by the parameter sets.
  function UnitItems(nal: Nalu, params: seq<byte>): seq<Item> {
    if NalType(nal[0]) == 5 && params != [] then [Raw(params), Nal(nal)] else [Nal(nal)]
  }

  // The units of an aggregation packet from offset p on.
  function Aggregated(pl: seq<byte>, p: nat): seq<Nalu>
    decreases |pl| - p
  {
    if p + 2 > |pl| then []
    else
      var n := Word(pl[p], pl[p + 1]);
      if n <= 0 || p + 2 + n > |pl| then []
      else [pl[p + 2..p + 2 + n]] + Aggregated(pl, p + 2 + n)
  }

  function AllItems(units: seq<Nalu>, needIdr: bool, params: seq<byte>): seq<Item>
  {
    if units == [] then []
    else if Passes(needIdr, NalType(units[0][0]))
      then UnitItems(units[0], params) + AllItems(units[1..], needIdr, params)
    else AllItems(units[1..], needIdr, params)
  }

  predicate AnyIdr(units: seq<Nalu>)
  {
    exists i :: 0 <= i < |units| && NalType(units[i][0]) == 5
  }

  function UnitsPlan(units: seq<Nalu>, r: Receiver, params: seq<byte>): Plan
  {
    Plan(AllItems(units, r.needIdr, params), AnyIdr(units), r.fuActive, false)
  }

  // A fragmentation unit: the NAL header is rebuilt from indicator and FU header.
  function FuHeader(pl: seq<byte>): (hdr: byte)
    requires |pl| >= 2
  {
    (pl[0] / 32) * 32 + pl[1] % 32
  }

  function FuPlan(pl: seq<byte>, r: Receiver, gap: bool, params: seq<byte>): Plan
    requires |pl| >= 2
  {
    var first, last := pl[1] >= 0x80, (pl[1] / 64) % 2 == 1;
    var hdr := FuHeader(pl);
    var t := NalType(hdr);
    if gap || (r.needIdr && t != 5) then Plan([], false, r.fuActive, false)
    else if first then
      Plan(UnitItems([hdr], params) + [Raw(pl[2..])], t == 5, !last, false)
    else if r.fuActive then
      Plan([Raw(pl[2..])], false, !last, false)
    else Plan([], false, false, true)
  }

  function PlanFor(pl: Nalu, r: Receiver, gap: bool, params: seq<byte>): Plan {
    var t := NalType(pl[0]);
    if 1 <= t <= 23 then UnitsPlan([pl], r, params)
    else if t == 24 then UnitsPlan(Aggregated(pl, 1), r, params)
    else if t == 28 && |pl| >= 2 then FuPlan(pl, r, gap, params)
    else Plan([], false, r.fuActive, false)
  }

  // ----- Staging -----

  // How much of an item the ring had room for; the room depends on how far the
  // decoder has got, so it is an input here.
  datatype Outcome = Full | HeadOnly | Refused

  datatype Stage = Stage(bytes: seq<byte>, bad: bool)

  function Put(st: Stage, item: Item, o: Outcome): Stage {
    match item
    case Raw(b) => if b == [] then st else if o.Full? then st.(bytes := st.bytes + b) else st.(bad := true)
    case Nal(b) =>
      if o.Full? then st.(bytes := st.bytes + START_CODE + b)
      else if o.HeadOnly? then Stage(st.bytes + START_CODE, true)
      else st.(bad := true)
  }

  function PutAll(st: Stage, items: seq<Item>, oc: seq<Outcome>): Stage
    requires |oc| == |items|
    decreases |items|
  {
    if items == [] then st
    else PutAll(Put(st, items[0], oc[0]), items[1..], oc[1..])
  }

  // ----- What was staged, when nothing was refused -----

  lemma Assoc(a: seq<byte>, b: seq<byte>, c: seq<byte>)
    ensures a + b + c == a + (b + c)
  {
  }

  function ItemBytes(i: Item): seq<byte> {
    match i case Raw(b) => b case Nal(b) => START_CODE + b
  }

  function Bytes(items: seq<Item>): seq<byte> {
    if items == [] then [] else ItemBytes(items[0]) + Bytes(items[1..])
  }

  lemma BytesTail(a: seq<Item>, b: seq<Item>)
    requires a != []
    ensures Bytes(a + b) == ItemBytes(a[0]) + Bytes(a[1..] + b)
  {
    assert (a + b)[1..] == a[1..] + b;
  }

  lemma {:induction false} BytesConcat(a: seq<Item>, b: seq<Item>)
    ensures Bytes(a + b) == Bytes(a) + Bytes(b)
  {
    if a == [] {
      assert a + b == b;
    } else {
      BytesTail(a, b);
      BytesConcat(a[1..], b);
      Assoc(ItemBytes(a[0]), Bytes(a[1..]), Bytes(b));
    }
  }

  // Nothing was refused for want of room.
  predicate Roomy(oc: seq<Outcome>) {
    forall i :: 0 <= i < |oc| ==> oc[i] == Full
  }

  lemma PutFull(st: Stage, item: Item)
    ensures Put(st, item, Full) == Stage(st.bytes + ItemBytes(item), st.bad)
  {
    match item {
      case Raw(b) =>
      case Nal(b) => Assoc(st.bytes, START_CODE, b);
    }
  }

  lemma {:induction false} PutAllFull(st: Stage, items: seq<Item>, oc: seq<Outcome>)
    requires |oc| == |items| && Roomy(oc)
    ensures PutAll(st, items, oc) == Stage(st.bytes + Bytes(items), st.bad)
    decreases |items|
  {
    if items != [] {
      PutFull(st, items[0]);
      PutAllFull(Put(st, items[0], oc[0]), items[1..], oc[1..]);
      Assoc(st.bytes, ItemBytes(items[0]), Bytes(items[1..]));
    }
  }

  // Outcomes for exactly n items; what is not mentioned fits.
  function Outcomes(oc: seq<Outcome>, n: nat): (r: seq<Outcome>)
    ensures |r| == n
  {
    if n <= |oc| then oc[..n] else oc + seq(n - |oc|, _ => Full)
  }

  // rtp_direct_flush: what is committed, and the state after.
  function Flush(r: Receiver): (Receiver, seq<byte>) {
    if r.staged != [] && !r.bad
    then (Reset(if r.hasIdr then r.(needIdr := false) else r), r.staged)
    else (Reset(r), [])
  }

  // What a packet asks to be staged.
  function ItemsOf(r: Receiver, pkt: seq<byte>, params: seq<byte>): seq<Item> {
    if !ValidHeader(pkt) || Payload(pkt).None? then []
    else PlanFor(Payload(pkt).value, AfterHeader(r, pkt), SeqGap(r, pkt), params).items
  }

  // ----- One packet -----

  function Staged(r: Receiver, plan: Plan, oc: seq<Outcome>): Receiver {
    var st := PutAll(Stage(r.staged, r.bad || plan.orphan), plan.items, Outcomes(oc, |plan.items|));
    r.(staged := st.bytes, bad := st.bad, hasIdr := r.hasIdr || plan.idr, fuActive := plan.fuActive)
  }

  // handle_rtp_h264_direct.
  function Step(r: Receiver, pkt: seq<byte>, params: seq<byte>, oc: seq<Outcome>): (Receiver, seq<byte>) {
    if !ValidHeader(pkt) then (r, [])
    else
      var r1 := AfterHeader(r, pkt);
      match Payload(pkt)
      case None => (r1, [])
      case Some(pl) =>
        var r2 := Staged(r1, PlanFor(pl, r1, SeqGap(r, pkt), params), oc);
        if Marker(pkt) then Flush(r2) else (r2, [])
  }
}
