// Whole-run safety of the direct H.264 handler: in any run of its calls, what it
// commits is put together from the packets of one timestamp with consecutive
// sequence numbers, and after a loss it commits nothing but IDR slices and
// parameter sets until it has committed a unit with an IDR slice.
module RtpGate {
  import opened Octets
  import opened RtpH264

  // ----- Runs -----

  // The packets received, and for each how much of it the ring had room for.
  datatype Arrival = Arrival(pkt: seq<byte>, room: seq<Outcome>)

  // The receiver after the first n arrivals.
  function RxAt(run: seq<Arrival>, params: seq<byte>, n: nat): Receiver
    requires n <= |run|
  {
    if n == 0 then Fresh else Step(RxAt(run, params, n - 1), run[n - 1].pkt, params, run[n - 1].room).0
  }

  // What arrival n commits.
  function OutAt(run: seq<Arrival>, params: seq<byte>, n: nat): seq<byte>
    requires n < |run|
  {
    Step(RxAt(run, params, n), run[n].pkt, params, run[n].room).1
  }

  // Everything the first n arrivals commit.
  function OutUpTo(run: seq<Arrival>, params: seq<byte>, n: nat): seq<byte>
    requires n <= |run|
  {
    if n == 0 then [] else OutUpTo(run, params, n - 1) + OutAt(run, params, n - 1)
  }

  // The receiver once the header of arrival n has been looked at.
  function HeadAt(run: seq<Arrival>, params: seq<byte>, n: nat): Receiver
    requires n < |run|
  {
    var r := RxAt(run, params, n);
    if ValidHeader(run[n].pkt) then AfterHeader(r, run[n].pkt) else r
  }

  // What arrival n asks to be staged.
  function ItemsAt(run: seq<Arrival>, params: seq<byte>, n: nat): seq<Item>
    requires n < |run|
  {
    ItemsOf(RxAt(run, params, n), run[n].pkt, params)
  }

  // Everything that arrivals lo to hi - 1 ask for, in order.
  function Gathered(run: seq<Arrival>, params: seq<byte>, lo: nat, hi: nat): seq<Item>
    requires lo <= hi <= |run|
    decreases hi
  {
    if lo == hi then [] else Gathered(run, params, lo, hi - 1) + ItemsAt(run, params, hi - 1)
  }

  // The sequence number and timestamp of a packet.
  datatype Stamp = Stamp(seqNo: nat, ts: nat)

  function StampOf(pkt: seq<byte>): Stamp
    requires ValidHeader(pkt)
  {
    Stamp(SeqNo(pkt), Timestamp(pkt))
  }

  // The stamps of all valid RTP packets among arrivals lo to hi - 1.
  function Stamps(run: seq<Arrival>, lo: nat, hi: nat): seq<Stamp>
    requires lo <= hi <= |run|
    decreases hi
  {
    if lo == hi then []
    else Stamps(run, lo, hi - 1) + if ValidHeader(run[hi - 1].pkt) then [StampOf(run[hi - 1].pkt)] else []
  }

  // Consecutive sequence numbers modulo 2^16, and one timestamp.
  predicate GapFree(span: seq<Stamp>) {
    && (forall k :: 0 < k < |span| ==> span[k].seqNo == (span[k - 1].seqNo + 1) % SEQ_MOD)
    && (forall k :: 0 < k < |span| ==> span[k].ts == span[k - 1].ts)
  }

  // ----- Where the staged unit starts -----

  // The arrival that last found nothing staged, of those that led to what is
  // staged after n arrivals.
  function Origin(run: seq<Arrival>, params: seq<byte>, n: nat): (o: nat)
    requires n <= |run|
    ensures o <= n
  {
    if n == 0 || RxAt(run, params, n).staged == [] then n
    else if HeadAt(run, params, n - 1).staged == [] then n - 1
    else Origin(run, params, n - 1)
  }

  // The same, of those that led to what arrival k adds to.
  function UnitStart(run: seq<Arrival>, params: seq<byte>, k: nat): (j: nat)
    requires k < |run|
    ensures j <= k
  {
    if HeadAt(run, params, k).staged == [] then k else Origin(run, params, k)
  }

  lemma {:induction false} OriginMeans(run: seq<Arrival>, params: seq<byte>, n: nat)
    requires n <= |run| && RxAt(run, params, n).staged != []
    ensures var o := Origin(run, params, n);
            && o < n && HeadAt(run, params, o).staged == []
            && forall m :: o < m < n ==> HeadAt(run, params, m).staged != []
  {
    hide Step;
    if HeadAt(run, params, n - 1).staged != [] {
      HeadKeeps(run, params, n - 1);
      OriginMeans(run, params, n - 1);
    }
  }

  // A header does not stage anything.
  lemma HeadKeeps(run: seq<Arrival>, params: seq<byte>, n: nat)
    requires n < |run| && HeadAt(run, params, n).staged != []
    ensures RxAt(run, params, n).staged == HeadAt(run, params, n).staged
  {
    hide Step;
  }

  // j is where the unit that arrival k adds to starts: nothing was staged then, and
  // something has been ever since.
  predicate Starts(run: seq<Arrival>, params: seq<byte>, j: nat, k: nat)
    requires j <= k < |run|
  {
    HeadAt(run, params, j).staged == [] && forall m :: j < m <= k ==> HeadAt(run, params, m).staged != []
  }

  // There is such an arrival for every k.
  lemma UnitStartMeans(run: seq<Arrival>, params: seq<byte>, k: nat)
    requires k < |run|
    ensures Starts(run, params, UnitStart(run, params, k), k)
  {
    hide HeadAt, Step;
    if HeadAt(run, params, k).staged != [] {
      HeadKeeps(run, params, k);
      OriginMeans(run, params, k);
    }
  }

  // ----- The gate -----

  predicate GateType(t: nat) {
    t == 5 || t == 7 || t == 8
  }

  // What may be staged of a packet while an IDR is awaited: NAL units of types 5,
  // 7 and 8, the parameter sets, and the bodies of fragments of type 5.
  predicate MayPass(item: Item, pkt: seq<byte>, params: seq<byte>) {
    match item
    case Nal(b) => b != [] && GateType(NalType(b[0]))
    case Raw(b) =>
      || b == params
      || (ValidHeader(pkt) && Payload(pkt).Some? && IsBody(b, Payload(pkt).value))
  }

  predicate IsBody(b: seq<byte>, pl: Nalu) {
    NalType(pl[0]) == 28 && |pl| >= 2 && NalType(pl[1]) == 5 && b == pl[2..]
  }

  predicate StartsIdr(item: Item) {
    item.Nal? && item.bytes != [] && NalType(item.bytes[0]) == 5
  }

  predicate PassesAt(run: seq<Arrival>, params: seq<byte>, m: nat)
    requires m < |run|
  {
    forall item :: item in ItemsAt(run, params, m) ==> MayPass(item, run[m].pkt, params)
  }

  predicate IdrAt(run: seq<Arrival>, params: seq<byte>, m: nat)
    requires m < |run|
  {
    exists item :: item in ItemsAt(run, params, m) && StartsIdr(item)
  }

  predicate AllPass(run: seq<Arrival>, params: seq<byte>, lo: nat, hi: nat)
    requires lo <= hi <= |run|
  {
    forall m :: lo <= m < hi ==> PassesAt(run, params, m)
  }

  // An IDR slice starts in one of these arrivals.
  predicate AnyIdrIn(run: seq<Arrival>, params: seq<byte>, lo: nat, hi: nat)
    requires lo <= hi <= |run|
  {
    exists m :: lo <= m < hi && IdrAt(run, params, m)
  }

  // ----- Facts about one payload -----

  lemma {:induction false} AllItemsPass(units: seq<Nalu>, params: seq<byte>)
    ensures forall item :: item in AllItems(units, true, params) ==> MayPass(item, [], params)
  {
    if units != [] {
      AllItemsPass(units[1..], params);
    }
  }

  lemma {:induction false} AllItemsIdr(units: seq<Nalu>, needIdr: bool, params: seq<byte>)
    ensures AnyIdr(units) <==> exists item :: item in AllItems(units, needIdr, params) && StartsIdr(item)
  {
    if units != [] {
      var head, rest := UnitItems(units[0], params), AllItems(units[1..], needIdr, params);
      var mine := if Passes(needIdr, NalType(units[0][0])) then head else [];
      AllItemsIdr(units[1..], needIdr, params);
      assert AllItems(units, needIdr, params) == mine + rest;
      assert AnyIdr(units) <==> NalType(units[0][0]) == 5 || AnyIdr(units[1..]) by {
        assert forall i :: 0 < i < |units| ==> units[i] == units[1..][i - 1];
        assert forall i :: 0 <= i < |units[1..]| ==> units[1..][i] == units[i + 1];
      }
      if NalType(units[0][0]) == 5 {
        assert head[|head| - 1] == Nal(units[0]) && StartsIdr(head[|head| - 1]);
        assert head[|head| - 1] in mine + rest;
      } else {
        assert forall item :: item in mine ==> !StartsIdr(item);
      }
    }
  }

  // What a payload asks for passes the gate while an IDR is awaited, and its flag
  // says exactly whether an IDR slice starts in it.
  lemma PlanHonest(pkt: seq<byte>, r: Receiver, gap: bool, params: seq<byte>)
    requires ValidHeader(pkt) && Payload(pkt).Some?
    ensures var plan := PlanFor(Payload(pkt).value, r, gap, params);
            && (plan.idr <==> exists item :: item in plan.items && StartsIdr(item))
            && (r.needIdr ==> forall item :: item in plan.items ==> MayPass(item, pkt, params))
  {
    hide Payload, AllItems, Aggregated, AnyIdr;
    var pl := Payload(pkt).value;
    var t := NalType(pl[0]);
    if 1 <= t <= 23 {
      AllItemsIdr([pl], r.needIdr, params);
      AllItemsPass([pl], params);
    } else if t == 24 {
      AllItemsIdr(Aggregated(pl, 1), r.needIdr, params);
      AllItemsPass(Aggregated(pl, 1), params);
    } else if t == 28 && |pl| >= 2 {
      FragmentHonest(pl, r, gap, params);
    }
  }

  lemma FragmentHonest(pl: Nalu, r: Receiver, gap: bool, params: seq<byte>)
    requires NalType(pl[0]) == 28 && |pl| >= 2
    ensures var plan := FuPlan(pl, r, gap, params);
            && (plan.idr <==> exists item :: item in plan.items && StartsIdr(item))
            && (r.needIdr ==> forall item :: item in plan.items ==>
                  if item.Nal? then item.bytes != [] && GateType(NalType(item.bytes[0]))
                  else item.bytes == params || IsBody(item.bytes, pl))
  {
    var plan, hdr := FuPlan(pl, r, gap, params), FuHeader(pl);
    assert NalType(hdr) == NalType(pl[1]);
    if plan.idr {
      assert Nal([hdr]) == plan.items[|plan.items| - 2];
      assert StartsIdr(Nal([hdr]));
    }
  }

  // A unit that is not spoiled holds everything that was to be staged.
  lemma {:induction false} PutAllClean(st: Stage, items: seq<Item>, oc: seq<Outcome>)
    requires |oc| == |items| && !PutAll(st, items, oc).bad
    ensures !st.bad && PutAll(st, items, oc).bytes == st.bytes + Bytes(items)
    decreases |items|
  {
    if items == [] {
      assert st.bytes + [] == st.bytes;
    } else {
      PutAllClean(Put(st, items[0], oc[0]), items[1..], oc[1..]);
      PutFull(st, items[0]);
      Assoc(st.bytes, ItemBytes(items[0]), Bytes(items[1..]));
      assert items[0].Raw? && items[0].bytes == [] ==> st.bytes + [] == st.bytes;
    }
  }

  lemma StagedClean(h: Receiver, plan: Plan, oc: seq<Outcome>)
    ensures var r := Staged(h, plan, oc);
            && r.needIdr == h.needIdr && r.hasIdr == (h.hasIdr || plan.idr)
            && r.haveSeq == h.haveSeq && r.lastSeq == h.lastSeq && r.haveTs == h.haveTs && r.ts == h.ts
            && (!r.bad ==> !h.bad && r.staged == h.staged + Bytes(plan.items))
  {
    var st, items, o := Stage(h.staged, h.bad || plan.orphan), plan.items, Outcomes(oc, |plan.items|);
    if !PutAll(st, items, o).bad {
      PutAllClean(st, items, o);
    }
  }

  // An IDR slice that starts somewhere has left bytes.
  lemma {:induction false} IdrHasBytes(items: seq<Item>, item: Item)
    requires item in items && StartsIdr(item)
    ensures Bytes(items) != []
  {
    if items[0] != item {
      IdrHasBytes(items[1..], item);
    }
  }

  // ----- Extending a range by one arrival -----

  lemma Extend(run: seq<Arrival>, params: seq<byte>, lo: nat, n: nat)
    requires lo <= n < |run|
    ensures Gathered(run, params, lo, n + 1) == Gathered(run, params, lo, n) + ItemsAt(run, params, n)
    ensures Bytes(Gathered(run, params, lo, n + 1)) == Bytes(Gathered(run, params, lo, n)) + Bytes(ItemsAt(run, params, n))
    ensures AllPass(run, params, lo, n + 1) <==> AllPass(run, params, lo, n) && PassesAt(run, params, n)
    ensures AnyIdrIn(run, params, lo, n + 1) <==> AnyIdrIn(run, params, lo, n) || IdrAt(run, params, n)
  {
    hide ItemsAt, PassesAt, IdrAt, Bytes;
    BytesConcat(Gathered(run, params, lo, n), ItemsAt(run, params, n));
  }

  lemma {:induction false} IdrInBytes(run: seq<Arrival>, params: seq<byte>, lo: nat, hi: nat)
    requires lo <= hi <= |run| && AnyIdrIn(run, params, lo, hi)
    ensures Bytes(Gathered(run, params, lo, hi)) != []
    decreases hi
  {
    hide ItemsAt, Bytes, Gathered, AllPass;
    Extend(run, params, lo, hi - 1);
    if IdrAt(run, params, hi - 1) {
      var item :| item in ItemsAt(run, params, hi - 1) && StartsIdr(item);
      IdrHasBytes(ItemsAt(run, params, hi - 1), item);
    } else {
      IdrInBytes(run, params, lo, hi - 1);
    }
  }

  lemma SpanGrows(span: seq<Stamp>, last: nat, ts: nat, next: Stamp)
    requires span != [] && GapFree(span) && span[|span| - 1] == Stamp(last, ts)
    requires next == Stamp((last + 1) % SEQ_MOD, ts)
    ensures GapFree(span + [next])
  {
    var all := span + [next];
    forall k | 0 < k < |all|
      ensures all[k].seqNo == (all[k - 1].seqNo + 1) % SEQ_MOD && all[k].ts == all[k - 1].ts
    {
      if k < |span| {
        assert all[k] == span[k] && all[k - 1] == span[k - 1];
      }
    }
  }

  // ----- The invariant -----

  // r's unit, unless spoiled, is what arrivals lo to hi - 1 asked for; they passed
  // the gate if it is closed; and it knows of every IDR slice in it.
  predicate Accounted(run: seq<Arrival>, params: seq<byte>, r: Receiver, lo: nat, hi: nat)
    requires lo <= hi <= |run|
  {
    !r.bad ==>
      && r.staged == Bytes(Gathered(run, params, lo, hi))
      && (r.needIdr ==> AllPass(run, params, lo, hi))
      && (r.hasIdr <==> AnyIdrIn(run, params, lo, hi))
  }

  // The packets of r's unit are consecutive, and the last of them is r's last.
  predicate Spanned(run: seq<Arrival>, r: Receiver, lo: nat, hi: nat)
    requires lo <= hi <= |run|
  {
    var span := Stamps(run, lo, hi);
    r.staged != [] ==>
      && r.haveSeq && r.haveTs
      && (!r.bad ==> span != [] && GapFree(span) && span[|span| - 1] == Stamp(r.lastSeq, r.ts))
  }

  predicate Kept(run: seq<Arrival>, params: seq<byte>, n: nat)
    requires n <= |run|
  {
    var r, o := RxAt(run, params, n), Origin(run, params, n);
    Accounted(run, params, r, o, n) && Spanned(run, r, o, n)
  }

  lemma NothingYet(run: seq<Arrival>, params: seq<byte>, r: Receiver, n: nat)
    requires n <= |run| && r.staged == [] && (!r.bad ==> !r.hasIdr)
    ensures Accounted(run, params, r, n, n) && Spanned(run, r, n, n)
  {
  }

  // Nothing staged and not spoiled means no IDR slice.
  lemma NoIdrYet(run: seq<Arrival>, params: seq<byte>, r: Receiver, lo: nat, hi: nat)
    requires lo <= hi <= |run| && Accounted(run, params, r, lo, hi) && !r.bad && r.staged == []
    ensures !r.hasIdr
  {
    if AnyIdrIn(run, params, lo, hi) {
      IdrInBytes(run, params, lo, hi);
    }
  }

  // What a header does to the unit that is staged: it leaves it alone and fits it,
  // or spoils it, or drops it.
  lemma HeaderCases(r: Receiver, pkt: seq<byte>)
    requires ValidHeader(pkt) && (r.staged != [] ==> r.haveSeq && r.haveTs)
    ensures var h := AfterHeader(r, pkt);
            && h.haveSeq && h.haveTs && h.lastSeq == SeqNo(pkt) && h.ts == Timestamp(pkt)
            && (h.staged == [] && !h.bad ==> !h.hasIdr || (r.staged == [] && !r.bad && r.hasIdr))
            && (h.staged != [] && !h.bad ==>
                  && !r.bad && h.staged == r.staged && h.needIdr == r.needIdr && h.hasIdr == r.hasIdr
                  && SeqNo(pkt) == (r.lastSeq + 1) % SEQ_MOD && Timestamp(pkt) == r.ts)
  {
    hide SeqNo, Timestamp, Bytes;
  }

  // The header keeps the invariant, and its stamp fits the unit's.
  lemma HeaderKeeps(run: seq<Arrival>, params: seq<byte>, n: nat)
    requires n < |run| && Kept(run, params, n) && ValidHeader(run[n].pkt)
    ensures var h, j := HeadAt(run, params, n), UnitStart(run, params, n);
            && Accounted(run, params, h, j, n) && h.haveSeq && h.haveTs
            && Stamp(h.lastSeq, h.ts) == StampOf(run[n].pkt)
            && (!h.bad ==> GapFree(Stamps(run, j, n) + [StampOf(run[n].pkt)]))
  {
    hide Step, Bytes, Gathered, AllPass, AnyIdrIn, GapFree, SeqNo, Timestamp, AfterHeader, RxAt;
    var r, h, pkt := RxAt(run, params, n), HeadAt(run, params, n), run[n].pkt;
    HeaderCases(r, pkt);
    if h.staged == [] {
      if r.staged == [] && !r.bad {
        NoIdrYet(run, params, r, Origin(run, params, n), n);
      }
      NothingYet(run, params, h, n);
      OneStamp(StampOf(pkt));
    } else if !h.bad {
      SpanGrows(Stamps(run, Origin(run, params, n), n), r.lastSeq, r.ts, StampOf(pkt));
    }
  }

  lemma OneStamp(s: Stamp)
    ensures GapFree([] + [s])
  {
  }

  // The receiver once the payload of a valid arrival has been staged.
  function TailAt(run: seq<Arrival>, params: seq<byte>, n: nat): Receiver
    requires n < |run| && ValidHeader(run[n].pkt)
  {
    var h, pkt := HeadAt(run, params, n), run[n].pkt;
    if Payload(pkt).None? then h
    else Staged(h, PlanFor(Payload(pkt).value, h, SeqGap(RxAt(run, params, n), pkt), params), run[n].room)
  }

  lemma PayloadKeeps(run: seq<Arrival>, params: seq<byte>, n: nat)
    requires n < |run| && Kept(run, params, n) && ValidHeader(run[n].pkt)
    ensures var r, j := TailAt(run, params, n), UnitStart(run, params, n);
            Accounted(run, params, r, j, n + 1) && Spanned(run, r, j, n + 1)
            && r.needIdr == HeadAt(run, params, n).needIdr
  {
    hide Step, Bytes, Gathered, GapFree, PlanFor, Payload, Staged, AllPass, AnyIdrIn, AfterHeader, SeqGap;
    var h, j, pkt := HeadAt(run, params, n), UnitStart(run, params, n), run[n].pkt;
    HeaderKeeps(run, params, n);
    Extend(run, params, j, n);
    assert Stamps(run, j, n + 1) == Stamps(run, j, n) + [StampOf(pkt)];
    if Payload(pkt).Some? {
      var plan := PlanFor(Payload(pkt).value, h, SeqGap(RxAt(run, params, n), pkt), params);
      PlanHonest(pkt, h, SeqGap(RxAt(run, params, n), pkt), params);
      StagedClean(h, plan, run[n].room);
    } else {
      assert Bytes([]) == [] by { NoItems(); }
      assert h.staged + [] == h.staged;
    }
  }

  lemma NoItems()
    ensures Bytes([]) == []
  {
  }

  // A packet that is no RTP packet changes nothing.
  lemma InvalidKeeps(run: seq<Arrival>, params: seq<byte>, n: nat, o: nat)
    requires o <= n < |run| && !ValidHeader(run[n].pkt)
    requires var r := RxAt(run, params, n); Accounted(run, params, r, o, n) && Spanned(run, r, o, n)
    ensures var r := RxAt(run, params, n); Accounted(run, params, r, o, n + 1) && Spanned(run, r, o, n + 1)
  {
    hide Step, RxAt, Bytes, Gathered, GapFree, AllPass, AnyIdrIn;
    var r := RxAt(run, params, n);
    assert ItemsAt(run, params, n) == [];
    Extend(run, params, o, n);
    NoItems();
    assert r.staged + [] == r.staged;
    assert Stamps(run, o, n + 1) == Stamps(run, o, n) + [] == Stamps(run, o, n);
  }

  lemma ArrivalKeeps(run: seq<Arrival>, params: seq<byte>, n: nat)
    requires n < |run| && Kept(run, params, n)
    ensures Kept(run, params, n + 1)
  {
    hide Bytes, Gathered, GapFree, PlanFor, Payload, Staged, AllPass, AnyIdrIn, AfterHeader, SeqGap;
    var r, r', pkt := RxAt(run, params, n), RxAt(run, params, n + 1), run[n].pkt;
    if !ValidHeader(pkt) {
      assert r' == r;
      if r.staged == [] {
        if !r.bad {
          NoIdrYet(run, params, r, Origin(run, params, n), n);
        }
        NothingYet(run, params, r, n + 1);
      } else {
        InvalidKeeps(run, params, n, Origin(run, params, n));
      }
    } else {
      var t, j := TailAt(run, params, n), UnitStart(run, params, n);
      PayloadKeeps(run, params, n);
      if Payload(pkt).Some? && Marker(pkt) {
        NothingYet(run, params, r', n + 1);
      } else {
        assert r' == t;
        if t.staged == [] {
          if !t.bad {
            NoIdrYet(run, params, t, j, n + 1);
          }
          NothingYet(run, params, t, n + 1);
        }
      }
    }
  }

  lemma {:induction false} Invariants(run: seq<Arrival>, params: seq<byte>, n: nat)
    requires n <= |run|
    ensures Kept(run, params, n)
  {
    hide Kept;
    if n > 0 {
      Invariants(run, params, n - 1);
      ArrivalKeeps(run, params, n - 1);
    } else {
      assert Kept(run, params, 0) by { StartKept(run, params); }
    }
  }

  lemma StartKept(run: seq<Arrival>, params: seq<byte>)
    ensures Kept(run, params, 0)
  {
    NothingYet(run, params, Fresh, 0);
  }

  // ----- What is committed -----

  // Everything committed comes from the packets since its unit's start, and nothing
  // they asked for is missing.  They are free of gaps.
  lemma CommittedUnits(run: seq<Arrival>, params: seq<byte>, k: nat)
    requires k < |run| && OutAt(run, params, k) != []
    ensures ValidHeader(run[k].pkt)
    ensures var j := UnitStart(run, params, k);
            && OutAt(run, params, k) == Bytes(Gathered(run, params, j, k + 1))
            && GapFree(Stamps(run, j, k + 1))
            && (HeadAt(run, params, k).needIdr ==> AllPass(run, params, j, k + 1))
            && (!RxAt(run, params, k + 1).needIdr <==> !HeadAt(run, params, k).needIdr || AnyIdrIn(run, params, j, k + 1))
  {
    hide Bytes, Gathered, GapFree, PlanFor, Payload, Staged, AllPass, AnyIdrIn, AfterHeader, SeqGap;
    Invariants(run, params, k);
    PayloadKeeps(run, params, k);
  }

  // Every committed unit is all that was asked for since it started, and of all
  // valid packets from there to the marker each has its predecessor's number plus
  // one and the same timestamp.
  lemma CommittedUnitsAreGapFree(run: seq<Arrival>, params: seq<byte>, j: nat, k: nat)
    requires j <= k < |run| && OutAt(run, params, k) != [] && Starts(run, params, j, k)
    ensures OutAt(run, params, k) == Bytes(Gathered(run, params, j, k + 1))
    ensures GapFree(Stamps(run, j, k + 1))
  {
    hide Bytes, Gathered, GapFree, HeadAt, Stamps, UnitStart, Step;
    UnitStartMeans(run, params, k);
    var i := UnitStart(run, params, k);
    assert i == j;
    CommittedUnits(run, params, k);
  }

  // A unit is given up because the next one starts before its marker came.
  predicate Abandons(r: Receiver, pkt: seq<byte>)
    requires ValidHeader(pkt)
  {
    NewUnit(r, pkt) && r.haveTs && r.staged != []
  }

  // The stream loses something at arrival n: a sequence gap or an abandoned unit.
  predicate LosesAt(run: seq<Arrival>, params: seq<byte>, n: nat)
    requires n < |run|
  {
    var r, pkt := RxAt(run, params, n), run[n].pkt;
    ValidHeader(pkt) && (SeqGap(r, pkt) || Abandons(r, pkt))
  }

  // The receiver remembers the number of the last valid packet.
  lemma {:induction false} LastHeard(run: seq<Arrival>, params: seq<byte>, n: nat)
    requires n <= |run|
    ensures var r, span := RxAt(run, params, n), Stamps(run, 0, n);
            (r.haveSeq <==> span != []) && (span != [] ==> r.lastSeq == span[|span| - 1].seqNo)
  {
    hide PlanFor, Payload, Staged, AfterHeader, Marker, SeqNo, Timestamp;
    if n > 0 {
      LastHeard(run, params, n - 1);
      var r, pkt := RxAt(run, params, n - 1), run[n - 1].pkt;
      if ValidHeader(pkt) {
        HeaderHears(r, pkt);
        if Payload(pkt).Some? {
          StagedClean(AfterHeader(r, pkt), PlanFor(Payload(pkt).value, AfterHeader(r, pkt), SeqGap(r, pkt), params), run[n - 1].room);
        }
      }
    }
  }

  lemma HeaderHears(r: Receiver, pkt: seq<byte>)
    requires ValidHeader(pkt)
    ensures AfterHeader(r, pkt).haveSeq && AfterHeader(r, pkt).lastSeq == SeqNo(pkt)
  {
    hide SeqNo, Timestamp;
  }

  // A loss in terms of what has arrived: the number of the valid packet before it is
  // not the one before its own, or it has a new timestamp and finds bytes staged.
  lemma LossMeans(run: seq<Arrival>, params: seq<byte>, n: nat)
    requires n < |run| && ValidHeader(run[n].pkt)
    ensures var span, r, stamp := Stamps(run, 0, n), RxAt(run, params, n), StampOf(run[n].pkt);
            LosesAt(run, params, n)
            <==> || (span != [] && stamp.seqNo != (span[|span| - 1].seqNo + 1) % SEQ_MOD)
                 || (r.staged != [] && r.ts != stamp.ts)
  {
    hide RxAt, SeqNo, Timestamp, Stamps;
    LastHeard(run, params, n);
    Invariants(run, params, n);
  }

  // Arrival n commits a unit in which an IDR slice starts.
  predicate RepairsAt(run: seq<Arrival>, params: seq<byte>, n: nat)
    requires n < |run|
  {
    OutAt(run, params, n) != [] && AnyIdrIn(run, params, UnitStart(run, params, n), n + 1)
  }

  lemma LossCloses(run: seq<Arrival>, params: seq<byte>, n: nat)
    requires n < |run| && (LosesAt(run, params, n) || RxAt(run, params, n).needIdr)
    ensures HeadAt(run, params, n).needIdr
  {
    hide Step;
  }

  // Only a commit can open the gate.
  lemma OnlyCommitsOpen(run: seq<Arrival>, params: seq<byte>, n: nat)
    requires n < |run| && HeadAt(run, params, n).needIdr && OutAt(run, params, n) == []
    ensures RxAt(run, params, n + 1).needIdr
  {
    hide PlanFor, Payload, AfterHeader, PutAll;
  }

  // After a loss an IDR is awaited until a unit with an IDR slice is committed.
  lemma {:induction false} StaysClosed(run: seq<Arrival>, params: seq<byte>, i: nat, n: nat)
    requires i < n <= |run| && LosesAt(run, params, i)
    requires forall j :: i <= j < n ==> !RepairsAt(run, params, j)
    ensures RxAt(run, params, n).needIdr
    decreases n - i
  {
    hide Step, HeadAt, LosesAt, AnyIdrIn, AllPass, GapFree, Bytes;
    assert !RepairsAt(run, params, n - 1);
    if n - 1 > i {
      StaysClosed(run, params, i, n - 1);
    }
    LossCloses(run, params, n - 1);
    if OutAt(run, params, n - 1) == [] {
      OnlyCommitsOpen(run, params, n - 1);
    } else {
      CommittedUnits(run, params, n - 1);
    }
  }

  // The IDR gate: after a loss at arrival i, whatever bytes arrival k commits before
  // any repair are those of NAL units of types 5, 7 and 8, parameter sets, and
  // fragments of type 5.
  lemma IdrGate(run: seq<Arrival>, params: seq<byte>, i: nat, j: nat, k: nat)
    requires i <= k < |run| && LosesAt(run, params, i) && OutAt(run, params, k) != []
    requires forall m :: i <= m < k ==> !RepairsAt(run, params, m)
    requires j <= k && Starts(run, params, j, k)
    ensures OutAt(run, params, k) == Bytes(Gathered(run, params, j, k + 1))
    ensures AllPass(run, params, j, k + 1)
  {
    hide Step, HeadAt, LosesAt, AnyIdrIn, AllPass, GapFree, Bytes;
    if i < k {
      StaysClosed(run, params, i, k);
    }
    LossCloses(run, params, k);
    UnitStartMeans(run, params, k);
    assert j == UnitStart(run, params, k);
    CommittedUnits(run, params, k);
  }
}
