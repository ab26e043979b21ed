// The decode loop of the viewer (apps/vpu_stream.c): every picture the decoder
// hands out is given back exactly once, at most one is withheld for display, and
// none is converted after it has been given back.
module FrameCustody {
  import opened DecoderLock

  // What has become of one picture handed out: whether it is for display, how
  // often its conversion was tried and has succeeded, how often it was released,
  // and whether it was converted after that.
  datatype Fate = Fate(index: nat, display: bool, tried: nat, good: nat, released: nat, late: bool)

  // What one turn of the loop meets: the feed ending or a watchdog; the frame
  // start; the conversion during decoding; the peer leaving meanwhile; the picture
  // handed out, if any; conversion and release of the withheld picture; whether
  // pictures are being shown; and a watchdog at the end.  What the loop's feeding
  // puts into the ring is the matter of BitstreamRing, Mpeg4Resync and RtpSession.
  datatype Turn = Turn(
    quit: bool, memory: bool, startInTime: bool,
    pipelined: bool, peerGone: bool,
    index: int,
    rendered: bool, hardError: bool, clearInTime: bool,
    visible: bool, clearNowInTime: bool,
    quitLate: bool)

  // The same pictures, whatever has happened to them.
  ghost predicate SameIndices(a: seq<Fate>, b: seq<Fate>) {
    |a| == |b| && forall k :: 0 <= k < |a| ==> a[k].index == b[k].index
  }

  const PIPELINE_COOLDOWN := 120

  class Session {
    const lib: Library
    const h: int
    const avc: bool
    const decodeOnly: bool        // OUTPUT_DECODE_ONLY
    const fbCount: nat
    var pendingIdx: int           // the withheld picture, or -1
    var pendingDisplay: bool
    var ppOk: bool
    var ppPipelineOk: bool
    var cooldown: nat
    ghost var fates: seq<Fate>    // of every picture handed out, in order
    ghost var missed: set<nat>    // indices whose release call got no lock

    ghost predicate Ready()
      reads this, lib, lib.pool, lib.flags
    {
      && lib.Valid() && lib.Usable(h) && lib.pool[h].registered && lib.pool[h].numFrames == fbCount
      && -1 <= pendingIdx < fbCount
      && (pendingIdx == -1 ==> !pendingDisplay) && (pendingDisplay ==> !decodeOnly)
    }

    // A pipeline that is switched off will be tried again within 120 turns.
    ghost predicate Cooling()
      reads this
    {
      ppPipelineOk || 1 <= cooldown <= PIPELINE_COOLDOWN
    }

    // The decoder's display flags are set at most for the withheld picture, for
    // those whose release was missed, and for the ones just handed out.
    ghost predicate Flagged(just: set<nat>)
      requires lib.Valid() && lib.Usable(h)
      reads this, lib, lib.pool, lib.flags
    {
      lib.flags[h] <= Withheld() + missed + just
    }

    ghost predicate Valid()
      reads this, lib, lib.pool, lib.flags
    {
      Ready() && Flagged({})
    }

    // The buffer the decoder marks as displayed when it hands out this index.
    function Handed(index: int): set<nat> {
      if 0 <= index < fbCount then {index} else {}
    }

    ghost function Withheld(): set<nat>
      reads this
    {
      Index(pendingIdx)
    }

    // Every picture but the withheld one has been released exactly once, and every
    // picture was converted at most once and in time.
    ghost predicate Kept()
      reads this
    {
      && (forall k :: 0 <= k < |fates| ==>
            && fates[k].good <= 1 && fates[k].good <= fates[k].tried && !fates[k].late && (fates[k].tried > 0 ==> fates[k].display)
            && fates[k].released == if pendingIdx >= 0 && k == |fates| - 1 then 0 else 1)
      && (pendingIdx >= 0 ==> |fates| > 0 && Last().index == pendingIdx && Last().display == pendingDisplay)
    }

    // Every picture for display but the withheld one has had its conversion tried.
    ghost predicate Tried()
      reads this
    {
      forall k :: 0 <= k < |fates| && fates[k].display && !(pendingIdx >= 0 && k == |fates| - 1) ==> fates[k].tried > 0
    }

    ghost function Last(): Fate
      requires |fates| > 0
      reads this
    {
      fates[|fates| - 1]
    }

    // A withheld picture is not converted between turns.
    ghost predicate Waiting()
      reads this
    {
      pendingIdx >= 0 && |fates| > 0 ==> Last().tried == 0
    }

    constructor (lib: Library, h: int, avc: bool, decodeOnly: bool, fbCount: nat)
      requires lib.Valid() && lib.Usable(h) && lib.pool[h].registered && lib.pool[h].numFrames == fbCount
      requires lib.flags[h] == {}
      ensures Valid() && Kept() && Tried() && Waiting() && Cooling() && fates == [] && missed == {} && pendingIdx == -1
      ensures this.lib == lib && this.h == h && this.avc == avc && this.decodeOnly == decodeOnly && this.fbCount == fbCount
    {
      this.lib, this.h, this.avc, this.decodeOnly, this.fbCount := lib, h, avc, decodeOnly, fbCount;
      pendingIdx, pendingDisplay, ppOk, ppPipelineOk, cooldown := -1, false, true, true, 0;
      fates, missed := [], {};
    }

    // render_frame on the withheld picture.  H.264 pictures are references for
    // longer and must not be read while the decoder runs.
    method Render(allowPp: bool, disablePpOnFail: bool, works: bool, hardError: bool) returns (ok: bool)
      requires Ready() && Kept() && pendingIdx >= 0 && pendingDisplay && !decodeOnly && Last().good == 0
      requires avc ==> lib.pending == NONE
      modifies this`ppOk, this`fates
      ensures Ready() && Kept() && ok == works
      ensures |fates| == |old(fates)| > 0 && forall k :: 0 <= k < |fates| - 1 ==> fates[k] == old(fates)[k]
      ensures ppOk == (old(ppOk) && !(!works && allowPp && disablePpOnFail && hardError))
      ensures Last() == old(Last()).(tried := old(Last()).tried + 1, good := if ok then 1 else 0)
    {
      ghost var k := |fates| - 1;
      fates := fates[k := fates[k].(tried := fates[k].tried + 1, good := fates[k].good + if works then 1 else 0,
                                    late := fates[k].late || fates[k].released > 0)];
      if !works && allowPp && ppOk && disablePpOnFail && hardError {
        ppOk := false;
      }
      return works;
    }

    // vpu_DecClrDispFlag on the picture handed out last.
    method Clear(index: nat, inTime: bool)
      requires lib.Valid() && lib.Usable(h) && lib.pool[h].registered && lib.pool[h].numFrames == fbCount
      requires index < fbCount && |fates| > 0
      modifies this`fates, this`missed, lib`apiLock, lib.flags
      ensures lib.Valid()
      ensures |fates| == |old(fates)| && fates == old(fates)[|old(fates)| - 1 := old(Last()).(released := old(Last()).released + 1)]
      ensures if lib.pending == NONE && inTime then missed == old(missed) && lib.flags[h] == old(lib.flags[h]) - {index}
              else missed == old(missed) + {index} && lib.flags[h] == old(lib.flags[h])
    {
      var rc := lib.ClrDispFlag(h, index, inTime);
      ghost var k := |fates| - 1;
      fates := fates[k := fates[k].(released := fates[k].released + 1)];
      missed := missed + if rc == Success then {} else {index};
    }

    // The withheld picture is released and forgotten.
    method ReleaseWithheld(inTime: bool, ghost just: set<nat>)
      requires Ready() && Flagged(just) && Kept() && pendingIdx >= 0
      modifies this`pendingIdx, this`pendingDisplay, this`fates, this`missed, lib`apiLock, lib.flags
      ensures Ready() && Flagged(just) && Kept() && pendingIdx == -1 && SameIndices(old(fates), fates)
      ensures fates == old(fates)[|old(fates)| - 1 := old(Last()).(released := 1)]
      ensures missed == old(missed) + (if lib.pending == NONE && inTime then {} else {old(pendingIdx)})
      ensures lib.flags[h] == old(lib.flags[h]) - if lib.pending == NONE && inTime then {old(pendingIdx)} else {}
    {
      Clear(pendingIdx, inTime);
      pendingIdx := -1;
      pendingDisplay := false;
    }

    // The pipelined conversion of the withheld picture, while the next is decoded.
    method Pipeline(works: bool) returns (rendered: bool)
      requires Valid() && Kept() && Tried() && Waiting()
      modifies this`ppOk, this`ppPipelineOk, this`cooldown, this`fates
      ensures Valid() && Kept() && Tried() && (pendingIdx >= 0 ==> Last().good == if rendered then 1 else 0)
      ensures SameIndices(old(fates), fates)
      ensures var tries := !decodeOnly && !avc && pendingIdx >= 0 && pendingDisplay && ppOk && old(ppPipelineOk);
              && rendered == (tries && works)
              && ppPipelineOk == (old(ppPipelineOk) && !(tries && !works))
              && cooldown == if tries && !works then PIPELINE_COOLDOWN else old(cooldown)
      ensures ppOk == old(ppOk)
    {
      rendered := false;
      if !decodeOnly && !avc && pendingIdx >= 0 && pendingDisplay && ppOk && ppPipelineOk {
        var ok := Render(true, false, works, false);
        if ok {
          rendered := true;
        } else {
          ppPipelineOk := false;
          cooldown := PIPELINE_COOLDOWN;
        }
      }
    }

    // With the decoder idle: convert the withheld picture unless that is done, and
    // release it.
    method Finish(rendered: bool, works: bool, hardError: bool, inTime: bool, ghost just: set<nat>)
      requires Ready() && Flagged(just) && Kept() && Tried() && lib.pending == NONE
      requires pendingIdx >= 0 ==> Last().good == if rendered then 1 else 0
      modifies this`pendingIdx, this`pendingDisplay, this`ppOk, this`fates, this`missed, lib`apiLock, lib.flags
      ensures Ready() && Flagged(just) && Kept() && Tried() && pendingIdx == -1 && lib.pending == NONE
      ensures SameIndices(old(fates), fates)
      ensures inTime ==> missed == old(missed) && lib.flags[h] == old(lib.flags[h]) - old(Withheld())
    {
      if pendingIdx >= 0 {
        if !decodeOnly && pendingDisplay && !rendered {
          var ok := Render(ppOk, true, works, hardError);
        }
        ReleaseWithheld(inTime, just);
      }
    }

    // A picture handed out: withheld for display, or for the statistics, or
    // released at once.
    method Receive(index: int, visible: bool, inTime: bool)
      requires Ready() && Kept() && Tried() && pendingIdx == -1 && lib.pending == NONE && Flagged(Handed(index))
      modifies this`pendingIdx, this`pendingDisplay, this`fates, this`missed, lib`apiLock, lib.flags
      ensures Valid() && Kept() && Tried() && Waiting() && lib.pending == NONE
      ensures if 0 <= index < fbCount then |fates| == |old(fates)| + 1 && Last().index == index else fates == old(fates)
      ensures pendingIdx == if 0 <= index < fbCount && (decodeOnly || visible) then index else -1
      ensures pendingDisplay == (0 <= index < fbCount && !decodeOnly && visible)
      ensures fates[..|old(fates)|] == old(fates)
      ensures inTime ==>
                missed == old(missed) && lib.flags[h] == old(lib.flags[h]) - if pendingIdx < 0 then Handed(index) else {}
    {
      if 0 <= index < fbCount {
        fates := fates + [Fate(index, !decodeOnly && visible, 0, 0, 0, false)];
        if decodeOnly {
          pendingIdx, pendingDisplay := index, false;
        } else if visible {
          pendingIdx, pendingDisplay := index, true;
        } else {
          Clear(index, inTime);
        }
      }
    }

    // The end of decoding: finish the withheld picture and take the next.
    method Collect(t: Turn, rendered: bool)
      requires Valid() && Kept() && Tried() && lib.pending == h
      requires pendingIdx >= 0 ==> Last().good == if rendered then 1 else 0
      modifies this`pendingIdx, this`pendingDisplay, this`ppOk, this`fates, this`missed,
               lib`apiLock, lib`pending, lib.flags
      ensures Valid() && Kept() && Tried() && Waiting() && lib.pending == NONE
      ensures HandedOut(fates) == HandedOut(old(fates)) + if 0 <= t.index < fbCount then [t.index] else []
      ensures pendingIdx == Withholds(t, decodeOnly, fbCount)
      ensures t.clearInTime && t.clearNowInTime ==>
                missed == old(missed) && (missed == {} ==> lib.flags[h] == Withheld() - old(Withheld()))
    {
      hide HandedOut;
      var rc := lib.GetOutputInfo(h, true, Handed(t.index));
      assert rc == Success;
      Finish(rendered, t.rendered, t.hardError, t.clearInTime, Handed(t.index));
      SameHandedOut(old(fates), fates);
      ghost var before := fates;
      Receive(t.index, t.visible, t.clearNowInTime);
      if 0 <= t.index < fbCount {
        HandedOutNext(before, fates);
      }
    }

    // A pipeline that failed is given another chance after a while.
    method Cool()
      requires Valid() && Kept() && Tried() && Waiting()
      modifies this`ppPipelineOk, this`cooldown
      ensures Valid() && Kept() && Tried() && Waiting()
      ensures ppPipelineOk == (old(ppPipelineOk) || old(cooldown) == 1)
      ensures cooldown == if old(ppPipelineOk) || old(cooldown) == 0 then old(cooldown) else old(cooldown) - 1
    {
      if !ppPipelineOk && cooldown > 0 {
        cooldown := cooldown - 1;
        if cooldown == 0 {
          ppPipelineOk := true;
        }
      }
    }

    // While the pipeline is switched off a turn brings it one nearer to being tried
    // again; otherwise, with a picture to convert, it is tried, and a failure switches
    // it off for 120 turns.
    twostate predicate Paced(t: Turn)
      reads this
    {
      && (old(Cooling()) ==> Cooling())
      && (!old(ppPipelineOk) && old(cooldown) > 1 ==> !ppPipelineOk && cooldown == old(cooldown) - 1)
      && ((old(ppPipelineOk) || old(cooldown) == 1) && old(pendingIdx) >= 0 && old(pendingDisplay) && old(ppOk)
          && !decodeOnly && !avc && (Collects(t) || MidFrame(t)) ==>
            ppPipelineOk == t.pipelined && (!t.pipelined ==> cooldown == PIPELINE_COOLDOWN))
    }

    // One turn of the loop; false when it is left.  A frame is in flight then only
    // if the peer went away during decoding; the output call after a successful
    // start cannot fail.
    method TakeTurn(t: Turn) returns (more: bool)
      requires Valid() && Kept() && Tried() && Waiting() && lib.pending == NONE
      modifies this`pendingIdx, this`pendingDisplay, this`ppOk, this`ppPipelineOk, this`cooldown, this`fates, this`missed,
               lib`apiLock, lib`pending, lib.flags
      ensures Valid() && Kept() && Tried()
      ensures more ==> Waiting() && lib.pending == NONE
      ensures more <==> !Leaves(t)
      ensures HandedOut(fates) == HandedOut(old(fates)) + if Collects(t) && 0 <= t.index < fbCount then [t.index] else []
      ensures pendingIdx == if Collects(t) then Withholds(t, decodeOnly, fbCount) else old(pendingIdx)
      ensures t.clearInTime && t.clearNowInTime ==> missed == old(missed)
      ensures t.clearInTime && t.clearNowInTime && missed == {} ==>
                lib.flags[h] == if Collects(t) then Withheld() - old(Withheld()) else old(lib.flags[h])
      ensures lib.pending == if MidFrame(t) then h else NONE
      ensures Paced(t)
    {
      hide HandedOut, Kept, Tried, SameIndices;
      Cool();
      if t.quit {
        return false;
      }
      var rc := lib.StartOneFrame(h, t.memory, t.startInTime);
      if rc != Success {
        return false;
      }
      var rendered := Pipeline(t.pipelined);
      SameHandedOut(old(fates), fates);
      if t.peerGone {
        return false;
      }
      Collect(t, rendered);
      return !t.quitLate;
    }

    // The code after the loop: release what is withheld and close.  While a frame
    // is in flight the lock is held, and the release does not take effect.
    method Disconnect(clearInTime: bool, closeInTime: bool) returns (rc: RetCode)
      requires Valid() && Kept() && Tried() && (lib.pending == NONE || lib.pending == h)
      modifies this`pendingIdx, this`pendingDisplay, this`fates, this`missed, lib, lib.pool, lib.flags
      ensures lib.Valid() && lib.pending == NONE && Kept() && pendingIdx == -1
      ensures SameIndices(old(fates), fates) && (rc == Success <==> closeInTime)
      ensures forall k :: 0 <= k < |fates| - 1 && fates[k].display ==> fates[k].tried > 0
      ensures missed == old(missed) + if old(pendingIdx) < 0 || (old(lib.pending) == NONE && clearInTime) then {}
                                      else {old(pendingIdx)}
      ensures lib.flags[h] <= missed
      ensures lib.flags[h] == old(lib.flags[h]) - if old(lib.pending) == NONE && clearInTime then old(Withheld()) else {}
    {
      if pendingIdx >= 0 {
        ReleaseWithheld(clearInTime, {});
      }
      rc := lib.DecClose(h, closeInTime);
    }

    // What the turns so far account for.
    ghost predicate Follows(turns: seq<Turn>)
      requires lib.Valid() && lib.Usable(h)
      reads this, lib, lib.pool, lib.flags
    {
      && HandedOut(fates) == Indices(turns, fbCount)
      && pendingIdx == WithheldAfter(turns, decodeOnly, fbCount)
      && (InTime(turns) ==> missed == {} && lib.flags[h] == FlagsAfter(turns, decodeOnly, fbCount))
    }

    // One more turn of them.
    method NextOf(turns: seq<Turn>, k: nat) returns (more: bool)
      requires Valid() && Kept() && Tried() && Waiting() && lib.pending == NONE
      requires k < |turns| && Follows(turns[..k])
      modifies this`pendingIdx, this`pendingDisplay, this`ppOk, this`ppPipelineOk, this`cooldown, this`fates, this`missed,
               lib`apiLock, lib`pending, lib.flags
      ensures Valid() && Kept() && Tried() && Follows(turns[..k + 1])
      ensures (more ==> Waiting() && lib.pending == NONE) && (more <==> !Leaves(turns[k]))
      ensures lib.pending == if MidFrame(turns[k]) then h else NONE
    {
      hide HandedOut, Indices, InTime, WithheldAfter, FlagsAfter, Kept, Tried, Waiting, Leaves, Paced, Withholds, Collects;
      NextTurn(turns, k, decodeOnly, fbCount);
      more := TakeTurn(turns[k]);
    }

    // The loop, until it is left or the turns are over.
    method Loop(turns: seq<Turn>) returns (k: nat)
      requires Valid() && Kept() && Tried() && Waiting() && lib.pending == NONE && fates == [] && missed == {}
      modifies this`pendingIdx, this`pendingDisplay, this`ppOk, this`ppPipelineOk, this`cooldown, this`fates, this`missed,
               lib`apiLock, lib`pending, lib.flags
      ensures Valid() && Kept() && Tried() && k <= |turns|
      ensures Follows(turns[..k])
      ensures lib.pending == if k > 0 && MidFrame(turns[k - 1]) then h else NONE
      ensures (k < |turns| ==> k > 0 && Leaves(turns[k - 1])) && forall j :: 0 <= j < k - 1 ==> !Leaves(turns[j])
    {
      assert lib.flags[h] == {};
      NothingHandedOut(decodeOnly, fbCount);
      assert turns[..0] == [] && Follows([]);
      hide Follows, Kept, Tried, Waiting, Leaves, MidFrame;
      k := 0;
      var more := true;
      while k < |turns| && more
        invariant 0 <= k <= |turns| && Valid() && Kept() && Tried()
        invariant more ==> Waiting() && lib.pending == NONE
        invariant lib.pending == if k > 0 && MidFrame(turns[k - 1]) then h else NONE
        invariant Follows(turns[..k])
        invariant (!more ==> k > 0 && Leaves(turns[k - 1])) && forall j :: 0 <= j < (if more then k else k - 1) ==> !Leaves(turns[j])
      {
        more := NextOf(turns, k);
        k := k + 1;
      }
    }

    // A whole session, over any turns: each picture handed out is released exactly
    // once, on whichever way out, and converted successfully at most once, before
    // its release; each one for display but the last has been tried.  With every
    // release call in time, one of them is without effect if and only if the peer
    // goes away in mid-frame while a picture is withheld.
    method Run(turns: seq<Turn>, clearInTime: bool, closeInTime: bool) returns (rc: RetCode, ghost taken: nat)
      requires Valid() && Kept() && Tried() && Waiting() && lib.pending == NONE && fates == [] && missed == {}
      modifies this, lib, lib.pool, lib.flags
      ensures taken <= |turns| && HandedOut(fates) == Indices(turns[..taken], fbCount)
      ensures (taken < |turns| ==> taken > 0 && Leaves(turns[taken - 1]))
              && forall j :: 0 <= j < taken - 1 ==> !Leaves(turns[j])
      ensures forall k :: 0 <= k < |fates| ==> fates[k].released == 1 && fates[k].good <= 1 && !fates[k].late
      ensures forall k :: 0 <= k < |fates| - 1 && fates[k].display ==> fates[k].tried > 0
      ensures lib.Valid() && lib.pending == NONE && lib.flags[h] <= missed && (rc == Success <==> closeInTime)
      ensures clearInTime && InTime(turns[..taken]) ==>
                && missed == Stuck(turns[..taken], decodeOnly, fbCount)
                && lib.flags[h] == missed * FlagsAfter(turns[..taken], decodeOnly, fbCount)
    {
      hide HandedOut, Indices, InTime, WithheldAfter, FlagsAfter, Leaves;
      taken := Loop(turns);
      ghost var before := fates;
      rc := Disconnect(clearInTime, closeInTime);
      SameHandedOut(before, fates);
    }
  }

  // No release call of these turns waits for the lock in vain.
  ghost predicate InTime(turns: seq<Turn>) {
    forall k :: 0 <= k < |turns| ==> turns[k].clearInTime && turns[k].clearNowInTime
  }

  lemma NextTurn(turns: seq<Turn>, k: nat, decodeOnly: bool, fbCount: nat)
    requires k < |turns|
    ensures var t := turns[k];
            var held := WithheldAfter(turns[..k], decodeOnly, fbCount);
            && Indices(turns[..k + 1], fbCount)
               == Indices(turns[..k], fbCount) + (if Collects(t) && 0 <= t.index < fbCount then [t.index] else [])
            && WithheldAfter(turns[..k + 1], decodeOnly, fbCount)
               == (if Collects(t) then Withholds(t, decodeOnly, fbCount) else held)
            && FlagsAfter(turns[..k + 1], decodeOnly, fbCount)
               == (if Collects(t) then Index(Withholds(t, decodeOnly, fbCount)) - Index(held)
                   else FlagsAfter(turns[..k], decodeOnly, fbCount))
            && (InTime(turns[..k + 1]) ==> InTime(turns[..k]) && t.clearInTime && t.clearNowInTime)
  {
    var next := turns[..k + 1];
    assert next[..k] == turns[..k] && next[k] == turns[k];
    assert InTime(next) ==> forall j :: 0 <= j < k ==> turns[..k][j] == next[j];
  }

  // What ends the loop.
  predicate Leaves(t: Turn) {
    t.quit || !t.memory || !t.startInTime || t.peerGone || t.quitLate
  }

  // The pictures that the turns hand out.
  ghost function Indices(turns: seq<Turn>, fbCount: nat): seq<int> {
    if turns == [] then []
    else
      var t := turns[|turns| - 1];
      Indices(turns[..|turns| - 1], fbCount) + if Collects(t) && 0 <= t.index < fbCount then [t.index] else []
  }

  // A turn that gets to the end of decoding, and one the peer leaves in mid-frame.
  predicate Collects(t: Turn) {
    !t.quit && t.memory && t.startInTime && !t.peerGone
  }

  predicate MidFrame(t: Turn) {
    !t.quit && t.memory && t.startInTime && t.peerGone
  }

  // The picture that a turn withholds, or -1.
  function Withholds(t: Turn, decodeOnly: bool, fbCount: nat): int {
    if 0 <= t.index < fbCount && (decodeOnly || t.visible) then t.index else -1
  }

  function Index(index: int): set<nat> {
    if index >= 0 then {index} else {}
  }

  // The picture withheld after these turns, or -1.
  ghost function WithheldAfter(turns: seq<Turn>, decodeOnly: bool, fbCount: nat): int {
    if turns == [] then -1
    else
      var t := turns[|turns| - 1];
      if Collects(t) then Withholds(t, decodeOnly, fbCount)
      else WithheldAfter(turns[..|turns| - 1], decodeOnly, fbCount)
  }

  // The display flags that are set after these turns, if no release call has waited
  // in vain.  Releasing a picture clears the flag of the next one too if the decoder
  // hands out the same buffer twice in a row.
  ghost function FlagsAfter(turns: seq<Turn>, decodeOnly: bool, fbCount: nat): set<nat> {
    if turns == [] then {}
    else
      var t, before := turns[|turns| - 1], turns[..|turns| - 1];
      if Collects(t) then Index(Withholds(t, decodeOnly, fbCount)) - Index(WithheldAfter(before, decodeOnly, fbCount))
      else FlagsAfter(before, decodeOnly, fbCount)
  }

  // The picture whose release at the end is without effect.
  ghost function Stuck(turns: seq<Turn>, decodeOnly: bool, fbCount: nat): set<nat> {
    if turns != [] && MidFrame(turns[|turns| - 1]) then Index(WithheldAfter(turns, decodeOnly, fbCount)) else {}
  }

  lemma TwoTurns(a: Turn, b: Turn)
    ensures a.clearInTime && a.clearNowInTime && b.clearInTime && b.clearNowInTime ==> InTime([a, b])
    ensures MidFrame(b) && Collects(a) ==>
              && WithheldAfter([a, b], false, 2) == Withholds(a, false, 2)
              && FlagsAfter([a, b], false, 2) == Index(Withholds(a, false, 2))
  {
    assert [a, b][..1] == [a] && [a][..0] == [];
  }

  // One picture is shown and withheld; the peer goes away while the next is decoded.
  method StuckExample() returns (lib: Library, s: Session, h: int, rc: RetCode)
    ensures 0 <= h < lib.flags.Length && lib.flags[h] == {0} == s.missed && rc == Success
  {
    lib := new Library();
    assert !lib.pool[0].inUse;
    rc, h := lib.DecOpen(false, true, true, true, true);
    var info := lib.GetInitialInfo(h, true, Parsed(640, 480, 1), true);
    var registered := lib.RegisterFrameBuffer(h, true, 2, 640, true);
    s := new Session(lib, h, false, false, 2);
    var shown := Turn(false, true, true, false, false, 0, false, false, true, true, true, false);
    var gone := shown.(peerGone := true);
    ghost var taken;
    var turns := [shown, gone];
    rc, taken := s.Run(turns, true, true);
    assert taken == 2 && turns[..2] == turns && turns[..1] == [shown];
    TwoTurns(shown, gone);
  }

  lemma NothingHandedOut(decodeOnly: bool, fbCount: nat)
    ensures HandedOut([]) == [] == Indices([], fbCount)
    ensures InTime([]) && WithheldAfter([], decodeOnly, fbCount) == -1 && FlagsAfter([], decodeOnly, fbCount) == {}
  {
  }

  // The indices handed out, in order.
  ghost function HandedOut(fates: seq<Fate>): (s: seq<int>)
    ensures |s| == |fates|
  {
    seq(|fates|, k requires 0 <= k < |fates| => fates[k].index)
  }

  lemma SameHandedOut(a: seq<Fate>, b: seq<Fate>)
    requires SameIndices(a, b)
    ensures HandedOut(a) == HandedOut(b)
  {
  }

  lemma HandedOutNext(a: seq<Fate>, b: seq<Fate>)
    requires |b| == |a| + 1 && b[..|a|] == a
    ensures HandedOut(b) == HandedOut(a) + [b[|a|].index]
  {
  }
}
