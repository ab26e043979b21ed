// The buffered H.264 receiver as the viewer program runs it: two byte buffers
// and the fields of struct h264_rtp_state, updated packet by packet.  Every call
// is one StepOut of the packet semantics; when the output descriptor takes less than
// a unit, its front part is what has been written.
module RtpBufferedReceiver {
  import opened Octets
  import opened RtpBuffered
  import opened RtpDirect
  import opened RtpH264

  // memcpy of p to dst + at.
  method CopyTo(dst: array<byte>, at: nat, p: seq<byte>)
    requires at + |p| <= dst.Length
    modifies dst
    ensures dst[..at + |p|] == old(dst[..at]) + p
  {
    forall k | 0 <= k < |p| {
      dst[at + k] := p[k];
    }
    assert dst[..at + |p|] == dst[..at] + dst[at..at + |p|];
  }

  lemma {:induction false} PutFitConcat(st: Stage, a: seq<Item>, b: seq<Item>)
    ensures PutFit(st, a + b) == PutFit(PutFit(st, a), b)
    decreases |a|
  {
    hide Fitting;
    if a == [] {
      assert a + b == b;
    } else {
      PutFitConcat(Fitting(st, a[0]), a[1..], b);
      assert (a + b)[1..] == a[1..] + b;
    }
  }

  lemma PutFitOne(st: Stage, item: Item)
    ensures PutFit(st, [item]) == Fitting(st, item)
  {
    assert PutFit(st, [item]) == PutFit(Fitting(st, item), []);
  }

  // A NAL unit with or without parameter sets in front.
  lemma PutFitUnit(st: Stage, nal: Nalu, params: seq<byte>)
    ensures PutFit(st, UnitItems(nal, params))
         == Fitting(if NalType(nal[0]) == 5 && params != [] then Fitting(st, Raw(params)) else st, Nal(nal))
  {
    hide Fitting;
    PutFitOne(st, Nal(nal));
    var items := UnitItems(nal, params);
    if |items| == 2 {
      assert items[1..] == [Nal(nal)];
      PutFitOne(Fitting(st, Raw(params)), Nal(nal));
    }
  }

  // How many of n bytes get out through calls of write() that take this many each,
  // up to the first that takes none; when the list is used up a call takes all.
  function Through(takes: seq<nat>, n: nat): (m: nat)
    ensures m <= n && (0 !in takes ==> m == n)
  {
    if n == 0 || takes == [] then n
    else if takes[0] == 0 then 0
    else if takes[0] >= n then n
    else takes[0] + Through(takes[1..], n - takes[0])
  }

  class BufferedReceiver {
    const fu: array<byte>
    const au: array<byte>
    var fuLen: nat
    var fuActive: bool
    var auLen: nat
    var bad: bool
    var hasIdr: bool
    var haveTs: bool
    var ts: nat
    var haveSeq: bool
    var lastSeq: nat
    var needIdr: bool
    var written: seq<byte>      // everything written to the output descriptor
    var takes: seq<nat>         // what coming calls of write() take

    ghost predicate Valid()
      reads this
    {
      fu != au && fu.Length == FU_MAX && au.Length == AU_MAX && fuLen <= FU_MAX && auLen <= AU_MAX
    }

    ghost function StageNow(): Stage
      requires Valid()
      reads this, au
    {
      Stage(au[..auLen], bad)
    }

    ghost function Common(): Receiver
      requires Valid()
      reads this, au
    {
      Receiver(haveSeq, lastSeq, needIdr, haveTs, ts, au[..auLen], bad, hasIdr, fuActive)
    }

    ghost function Model(): Buffered
      requires Valid()
      reads this, fu, au
    {
      Buffered(Common(), fu[..fuLen])
    }

    constructor (takes: seq<nat>)
      ensures Valid() && Model() == Buffered(Fresh, []) && written == [] && this.takes == takes && fresh(fu) && fresh(au)
    {
      this.takes := takes;
      fu, au := new byte[FU_MAX](_ => 0), new byte[AU_MAX](_ => 0);
      fuLen, fuActive, auLen, bad, hasIdr := 0, false, 0, false, false;
      haveTs, ts, haveSeq, lastSeq, needIdr := false, 0, false, 0, false;
      written := [];
    }

    // rtp_au_append.
    method AppendNal(nal: seq<byte>)
      requires Valid()
      modifies this`auLen, this`bad, au
      ensures Valid()
      ensures StageNow() == if nal == [] then old(StageNow()).(bad := true) else Fitting(old(StageNow()), Nal(nal))
    {
      if |nal| <= 0 || auLen + 4 + |nal| > au.Length {
        bad := true;
        return;
      }
      ghost var was := au[..auLen];
      CopyTo(au, auLen, START_CODE);
      auLen := auLen + 4;
      CopyTo(au, auLen, nal);
      auLen := auLen + |nal|;
      assert au[..auLen] == was + START_CODE + nal;
    }

    // rtp_au_append_bytes.
    method AppendBytes(p: seq<byte>)
      requires Valid()
      modifies this`auLen, this`bad, au
      ensures Valid() && StageNow() == Fitting(old(StageNow()), Raw(p))
    {
      if |p| <= 0 {
        return;
      }
      if auLen + |p| > au.Length {
        bad := true;
        return;
      }
      CopyTo(au, auLen, p);
      auLen := auLen + |p|;
    }

    // A whole NAL unit, as the single-unit and aggregation branches store it.
    method AppendUnit(nal: Nalu, params: seq<byte>)
      requires Valid()
      modifies this`auLen, this`bad, this`hasIdr, au
      ensures Valid() && StageNow() == PutFit(old(StageNow()), UnitItems(nal, params))
      ensures hasIdr == (old(hasIdr) || NalType(nal[0]) == 5)
    {
      hide PutFit, Fitting, UnitItems;
      PutFitUnit(StageNow(), nal, params);
      if nal[0] % 32 == 5 {
        hasIdr := true;
      }
      if nal[0] % 32 == 5 && |params| > 0 {
        AppendBytes(params);
      }
      AppendNal(nal);
    }

    method AppendGated(unit: Nalu, params: seq<byte>)
      requires Valid()
      modifies this`auLen, this`bad, this`hasIdr, au
      ensures Valid() && StageNow() == PutFit(old(StageNow()), GatedItems(unit, needIdr, params))
      ensures hasIdr == (old(hasIdr) || NalType(unit[0]) == 5)
    {
      if needIdr && unit[0] % 32 != 5 && unit[0] % 32 != 7 && unit[0] % 32 != 8 {
        return;
      }
      AppendUnit(unit, params);
    }

    // The loop over an aggregation packet.
    method AppendAggregated(pl: Nalu, params: seq<byte>)
      requires Valid()
      modifies this`auLen, this`bad, this`hasIdr, au
      ensures Valid() && StageNow() == PutFit(old(StageNow()), AllItems(Aggregated(pl, 1), needIdr, params))
      ensures hasIdr == (old(hasIdr) || AnyIdr(Aggregated(pl, 1)))
    {
      hide PutFit, AllItems, GatedItems, Aggregated, AnyIdr;
      ghost var st0, items := StageNow(), AllItems(Aggregated(pl, 1), needIdr, params);
      var p := 1;
      while p + 2 <= |pl|
        invariant Valid() && p >= 1
        invariant PutFit(StageNow(), AllItems(Aggregated(pl, p), needIdr, params)) == PutFit(st0, items)
        invariant (hasIdr || AnyIdr(Aggregated(pl, p))) == (old(hasIdr) || AnyIdr(Aggregated(pl, 1)))
        decreases |pl| - p
      {
        var n := Word(pl[p], pl[p + 1]);
        if n <= 0 || p + 2 + n > |pl| {
          break;
        }
        p := p + 2;
        var unit: Nalu := pl[p..p + n];
        p := p + n;
        ghost var rest := NextAggregated(pl, p - 2 - n, needIdr, params);
        PutFitConcat(StageNow(), GatedItems(unit, needIdr, params), rest);
        AppendGated(unit, params);
      }
      AggregatedEnd(pl, p, needIdr, params);
      PutFitNone(StageNow());
    }

    // The start bit: a fresh fragment buffer, and parameter sets before an IDR slice.
    method StartFragment(hdr: byte, params: seq<byte>)
      requires Valid()
      modifies this`fuLen, this`fuActive, this`hasIdr, this`auLen, this`bad, fu, au
      ensures Valid() && Model() == FuStart(old(Model()), hdr, params)
    {
      hide PutFit, Fitting;
      PutFitOne(StageNow(), Raw(params));
      FittingEmpty(StageNow());
      fuLen := 0;
      fu[fuLen] := hdr;
      fuLen := fuLen + 1;
      if hdr % 32 == 5 {
        hasIdr := true;
      }
      if hdr % 32 == 5 && |params| > 0 {
        AppendBytes(params);
      }
      fuActive := true;
      assert fu[..1] == [hdr];
    }

    // The bytes of a fragment and the end bit.
    method FragmentBody(body: seq<byte>, end: bool) returns (quit: bool)
      requires Valid()
      modifies this`fuLen, this`fuActive, this`auLen, this`bad, fu, au
      ensures Valid() && (Model(), quit) == FuBody(old(Model()), body, end)
    {
      hide PutFit, Fitting;
      if !fuActive || fuLen + |body| > fu.Length {
        fuActive := false;
        return true;
      }
      CopyTo(fu, fuLen, body);
      fuLen := fuLen + |body|;
      if end {
        PutFitOne(StageNow(), Nal(fu[..fuLen]));
        AppendNal(fu[..fuLen]);
        fuActive := false;
        fuLen := 0;
      }
      quit := false;
    }

    // The fragmentation-unit branch.
    method TakeFragment(pl: Nalu, gap: bool, params: seq<byte>) returns (quit: bool)
      requires Valid() && |pl| >= 2
      modifies this`fuLen, this`fuActive, this`hasIdr, this`auLen, this`bad, fu, au
      ensures Valid() && (Model(), quit) == FuTaken(old(Model()), pl, gap, params)
    {
      hide FuStart, FuBody;
      var start, end := pl[1] >= 0x80, (pl[1] / 64) % 2 == 1;
      var hdr: byte := (pl[0] / 32) * 32 + pl[1] % 32;
      if gap || (needIdr && hdr % 32 != 5) {
        return false;
      }
      if start {
        StartFragment(hdr, params);
      }
      quit := FragmentBody(pl[2..], end);
    }

    // rtp_h264_seq_gap.
    method CheckSequence(pkt: seq<byte>) returns (gap: bool)
      requires Valid() && ValidHeader(pkt)
      modifies this`haveSeq, this`lastSeq, this`fuActive, this`fuLen, this`needIdr
      ensures Valid() && gap == SeqGap(old(Common()), pkt)
      ensures Model() == Buffered(AfterSeq(old(Common()), pkt), if gap then [] else old(Model()).fu)
    {
      var seqNo := Word(pkt[2], pkt[3]);
      if !haveSeq {
        haveSeq := true;
        lastSeq := seqNo;
        return false;
      }
      var wanted := (lastSeq + 1) % SEQ_MOD;
      lastSeq := seqNo;
      if seqNo == wanted {
        return false;
      }
      fuActive := false;
      fuLen := 0;
      needIdr := true;
      return true;
    }

    // rtp_au_reset.
    method ResetUnit()
      requires Valid()
      modifies this`auLen, this`bad, this`hasIdr
      ensures Valid() && Common() == Reset(old(Common()))
    {
      auLen := 0;
      bad := false;
      hasIdr := false;
    }

    // write_all: calls write() until everything is out or a call takes nothing.
    method WriteAll(p: seq<byte>) returns (rc: int)
      modifies this`written, this`takes
      ensures written == old(written) + p[..Through(old(takes), |p|)]
      ensures rc == if Through(old(takes), |p|) == |p| then 0 else -1
      ensures 0 !in old(takes) ==> 0 !in takes
    {
      var i := 0;
      while i < |p|
        invariant 0 <= i <= |p| && written == old(written) + p[..i]
        invariant i + Through(takes, |p| - i) == Through(old(takes), |p|)
        invariant 0 !in old(takes) ==> 0 !in takes
      {
        var n := |p| - i;
        if |takes| > 0 {
          n, takes := if takes[0] < n then takes[0] else n, takes[1..];
        }
        if n <= 0 {
          return -1;
        }
        assert p[..i + n] == p[..i] + p[i..i + n];
        written := written + p[i..i + n];
        i := i + n;
      }
      assert p[..i] == p;
      rc := 0;
    }

    // rtp_au_flush.  A unit that cannot be written whole is gone as well, and an IDR
    // in it opens the gate all the same.
    method FlushUnit() returns (rc: int)
      requires Valid()
      modifies this`auLen, this`bad, this`hasIdr, this`needIdr, this`written, this`takes
      ensures Valid() && Model() == FlushOut(old(Model())).0
      ensures var out := FlushOut(old(Model())).1;
              && written == old(written) + out[..Through(old(takes), |out|)]
              && rc == (if Through(old(takes), |out|) == |out| then 0 else -1)
      ensures 0 !in old(takes) ==> 0 !in takes
    {
      rc := 0;
      if auLen > 0 && !bad {
        if !needIdr || hasIdr {
          rc := WriteAll(au[..auLen]);
          if hasIdr {
            needIdr := false;
          }
        } else {
          rc := WriteAll(au[..auLen]);
        }
      }
      ResetUnit();
    }

    // The access-unit boundary test of handle_rtp_h264.
    method CheckTimestamp(pkt: seq<byte>, gap: bool)
      requires Valid() && ValidHeader(pkt)
      modifies this`auLen, this`bad, this`hasIdr, this`needIdr, this`haveTs, this`ts
      ensures Valid() && Common() == AfterTimestamp(old(Common()), pkt, gap)
    {
      var stamp := Word(pkt[4], pkt[5]) * 0x10000 + Word(pkt[6], pkt[7]);
      var newUnit := false;
      if !haveTs || ts != stamp {
        if haveTs && auLen > 0 {
          needIdr := true;
          ResetUnit();
        }
        haveTs := true;
        ts := stamp;
        newUnit := true;
      }
      if gap && !newUnit {
        bad := true;
      }
    }

    // The payload part of handle_rtp_h264.
    method TakePayload(pl: Nalu, gap: bool, params: seq<byte>) returns (quit: bool)
      requires Valid()
      modifies this`fuLen, this`fuActive, this`hasIdr, this`auLen, this`bad, fu, au
      ensures Valid() && (Model(), quit) == Taken(old(Model()), pl, gap, params)
    {
      hide PutFit, AllItems, Aggregated, AnyIdr, FuTaken, GatedItems;
      var t := pl[0] % 32;
      quit := false;
      if 1 <= t <= 23 {
        OneUnit(pl, needIdr, params);
        AppendGated(pl, params);
      } else if t == 24 {
        AppendAggregated(pl, params);
      } else if t == 28 && |pl| >= 2 {
        quit := TakeFragment(pl, gap, params);
      }
    }

    // handle_rtp_h264.
    method HandlePacket(pkt: seq<byte>, params: seq<byte>) returns (rc: int)
      requires Valid()
      modifies this, fu, au
      ensures Valid()
      ensures var (b, out) := StepOut(old(Model()), pkt, params);
              && Model() == b && written == old(written) + out[..Through(old(takes), |out|)]
              && rc == (if Through(old(takes), |out|) == |out| then 0 else -1)
      ensures 0 !in old(takes) ==> 0 !in takes
    {
      hide Taken, Payload, FlushOut, AfterSeq, AfterTimestamp, SeqGap, SeqNo, Timestamp, Through;
      rc := 0;
      if |pkt| < 12 || pkt[0] / 64 != 2 {
        return;
      }
      var marker := pkt[1] >= 0x80;
      var gap := CheckSequence(pkt);
      CheckTimestamp(pkt, gap);
      var off := LocatePayload(pkt);
      if |pkt| <= off {
        return;
      }
      var quit := TakePayload(pkt[off..], gap, params);
      if marker && !quit {
        rc := FlushUnit();
      }
    }
  }

  lemma PutFitNone(st: Stage)
    ensures PutFit(st, []) == st
  {
  }

  lemma FittingEmpty(st: Stage)
    ensures Fitting(st, Raw([])) == st
  {
  }
}
