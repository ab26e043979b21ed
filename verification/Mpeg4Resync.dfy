// MPEG-4 over TCP (apps/vpu_stream.c): bytes are fed to the ring as they come,
// and a backlog is cut at the most recent I-VOP.  What enters the ring must
// never have a hole in the middle of a group of pictures.
module Mpeg4Resync {
  import opened BitstreamRing
  import opened Octets

  const STREAM_BUF_SIZE := 1024 * 1024
  const DRAIN_BUF_SIZE := 256 * 1024

  // An I-VOP start code with its coding type.
  predicate IVopAt(p: seq<byte>, i: int) {
    && 0 <= i && i + 4 < |p|
    && p[i] == 0 && p[i + 1] == 0 && p[i + 2] == 1 && p[i + 3] == 0xb6
    && p[i + 4] < 0x40
  }

  predicate NoneAfter(p: seq<byte>, i: int) {
    forall j :: i < j < |p| ==> !IVopAt(p, j)
  }

  // find_resync_start, MPEG-4 branch: the last I-VOP.
  method FindResyncStart(p: seq<byte>) returns (i: int)
    ensures i == -1 || IVopAt(p, i)
    ensures NoneAfter(p, i)
  {
    i := |p| - 5;
    while i >= 0
      invariant -1 <= i || |p| < 4
      invariant NoneAfter(p, i)
    {
      if p[i] == 0 && p[i + 1] == 0 && p[i + 2] == 1 && p[i + 3] == 0xb6 && p[i + 4] < 0x40 {
        return i;
      }
      i := i - 1;
    }
    return -1;
  }

  lemma NoneAfterLater(p: seq<byte>, i: int, j: int)
    requires i <= j && (NoneAfter(p, i) || p == [])
    ensures NoneAfter(p, j)
  {
  }

  // A run of the received stream, from its first to past its last byte.
  datatype Piece = Piece(from: nat, to: nat)

  ghost predicate Within(pieces: seq<Piece>, n: nat) {
    forall k :: 0 <= k < |pieces| ==> pieces[k].from <= pieces[k].to <= n
  }

  ghost function Joined(stream: seq<byte>, pieces: seq<Piece>): seq<byte>
    requires Within(pieces, |stream|)
  {
    if pieces == [] then []
    else
      var last := pieces[|pieces| - 1];
      Joined(stream, pieces[..|pieces| - 1]) + stream[last.from..last.to]
  }

  // Every piece after the first continues the one before it or starts at an I-VOP.
  ghost predicate NoHoles(stream: seq<byte>, pieces: seq<Piece>) {
    forall k :: 0 < k < |pieces| ==>
      pieces[k].from == pieces[k - 1].to || IVopAt(stream, pieces[k].from)
  }

  // Bytes from `start` on may follow these pieces without a hole.
  ghost predicate Follows(stream: seq<byte>, pieces: seq<Piece>, start: nat) {
    pieces == [] || pieces[|pieces| - 1].to == start || IVopAt(stream, start)
  }

  lemma NoHolesSnoc(stream: seq<byte>, pieces: seq<Piece>, p: Piece)
    ensures NoHoles(stream, pieces + [p]) <==> NoHoles(stream, pieces) && Follows(stream, pieces, p.from)
  {
    var all := pieces + [p];
    if NoHoles(stream, all) {
      assert pieces != [] ==> all[|pieces|].from == all[|pieces| - 1].to || IVopAt(stream, all[|pieces|].from);
      forall k | 0 < k < |pieces|
        ensures pieces[k].from == pieces[k - 1].to || IVopAt(stream, pieces[k].from)
      {
        assert all[k].from == all[k - 1].to || IVopAt(stream, all[k].from);
      }
    }
  }

  // Nothing received so far has been left out after the last piece.
  ghost predicate UpToDate(pieces: seq<Piece>, received: nat) {
    pieces == [] || pieces[|pieces| - 1].to == received
  }

  lemma IVopInside(stream: seq<byte>, from: nat, to: nat, i: nat)
    requires from <= to <= |stream| && IVopAt(stream[from..to], i)
    ensures IVopAt(stream, from + i)
  {
  }

  lemma JoinedSnoc(stream: seq<byte>, pieces: seq<Piece>, p: Piece)
    requires Within(pieces, |stream|) && p.from <= p.to <= |stream|
    ensures Within(pieces + [p], |stream|)
    ensures Joined(stream, pieces + [p]) == Joined(stream, pieces) + stream[p.from..p.to]
  {
    assert (pieces + [p])[..|pieces|] == pieces;
  }

  // What a truncated drain costs: once received bytes were left out, the next
  // piece leaves a hole unless it happens to start at an I-VOP.
  lemma HoleAfterLoss(stream: seq<byte>, pieces: seq<Piece>, received: nat, to: nat)
    requires NoHoles(stream, pieces) && !UpToDate(pieces, received) && received <= to
    ensures NoHoles(stream, pieces + [Piece(received, to)]) <==> IVopAt(stream, received)
  {
    NoHolesSnoc(stream, pieces, Piece(received, to));
  }

  // One TCP connection feeding the ring.
  // What the receive loop takes of the bytes that have arrived, up to a limit: as much
  // as each call is ready to return, until one returns nothing.
  function Taken(recvs: seq<nat>, arrived: nat, limit: nat): (n: nat)
    ensures n <= arrived && n <= limit
    ensures recvs != [] && recvs[0] >= arrived && arrived <= limit ==> n == arrived
  {
    if recvs == [] then 0
    else
      var n := Least(recvs[0], Least(arrived, limit));
      if n == 0 then 0 else n + Taken(recvs[1..], arrived - n, limit - n)
  }

  class TcpFeed {
    const ring: Ring
    const stream: seq<byte>       // what the peer sends
    var received: nat             // how much of it recv() has returned
    ghost var pieces: seq<Piece>  // which runs of it have been committed
    ghost var fed: seq<byte>      // everything committed, flushed or not

    ghost predicate Valid()
      reads this, ring, ring.buf
    {
      && ring.Valid() && ring.buf.Length == STREAM_BUF_SIZE
      && received <= |stream| && Within(pieces, received) && fed == Joined(stream, pieces)
    }

    // What enters the ring is the received stream with no holes inside a GOP.
    ghost predicate Clean()
      reads this
    {
      NoHoles(stream, pieces) && UpToDate(pieces, received)
    }

    constructor (ring: Ring, stream: seq<byte>)
      requires ring.Valid() && ring.buf.Length == STREAM_BUF_SIZE
      ensures Valid() && Clean() && this.ring == ring && this.stream == stream && received == 0
    {
      this.ring, this.stream := ring, stream;
      received, pieces, fed := 0, [], [];
    }

    ghost method Record(from: nat, to: nat)
      requires from <= to <= received <= |stream| && Within(pieces, received) && fed == Joined(stream, pieces)
      modifies this`pieces, this`fed
      ensures pieces == old(pieces) + [Piece(from, to)] && Within(pieces, received)
      ensures fed == old(fed) + stream[from..to] == Joined(stream, pieces)
    {
      JoinedSnoc(stream, pieces, Piece(from, to));
      pieces := pieces + [Piece(from, to)];
      fed := fed + stream[from..to];
    }

    // feed() on this connection, of which `arrived` bytes have come in.
    method FeedOnce(arrived: nat, closed: bool, block: bool, readable: bool, got: nat) returns (rc: int)
      requires Valid() && received <= arrived <= |stream|
      modifies this, ring, ring.buf
      ensures Valid() && received == old(received) + if rc > 0 then rc else 0
      ensures fed == old(fed) + stream[old(received)..received]
      ensures ring.Committed() == old(ring.Committed()) + stream[old(received)..received]
      ensures old(Clean()) ==> Clean()
      ensures ring.DecoderRan()
    {
      hide At, Slice, Joined, IVopAt;
      rc := ring.Feed(stream[received..arrived], closed, block, readable, got);
      if rc > 0 {
        ghost var from := received;
        received := received + rc;
        Record(from, received);
        assert stream[from..arrived][..rc] == stream[from..received];
      } else {
        assert stream[received..received] == [];
      }
    }

    // The recv() loop of feed_skip_to_latest, as far as the drain buffer goes.
    // `recvs` are what the calls are ready to return; the first that returns
    // nothing ends it.
    method Drain(arrived: nat, recvs: seq<nat>) returns (total: nat)
      requires Valid() && received <= arrived <= |stream|
      modifies this`received
      ensures Valid() && received == old(received) + total <= arrived && total <= DRAIN_BUF_SIZE
      ensures total == Taken(recvs, arrived - old(received), DRAIN_BUF_SIZE)
    {
      total := 0;
      var k := 0;
      assert recvs[0..] == recvs;
      while total < DRAIN_BUF_SIZE && k < |recvs|
        invariant total <= DRAIN_BUF_SIZE && received == old(received) + total <= arrived && k <= |recvs|
        invariant total + Taken(recvs[k..], arrived - received, DRAIN_BUF_SIZE - total)
                  == Taken(recvs, arrived - old(received), DRAIN_BUF_SIZE)
      {
        assert recvs[k..][0] == recvs[k] && recvs[k..][1..] == recvs[k + 1..];
        var n := recvs[k];
        if n > DRAIN_BUF_SIZE - total {
          n := DRAIN_BUF_SIZE - total;
        }
        if n > arrived - received {
          n := arrived - received;
        }
        if n == 0 {
          break;
        }
        total := total + n;
        received := received + n;
        k := k + 1;
      }
    }

    // feed_skip_to_latest for MPEG-4.  `backlog` is what FIONREAD reports (-1
    // for a failed ioctl), `ready` whether the flush call gets through.  Of the
    // drained bytes, those from `start` on were offered to the ring and the
    // last `lost` of them did not fit; `kept` is what the ring held on to of
    // everything committed before.
    method SkipToLatest(backlog: int, arrived: nat, recvs: seq<nat>, ready: bool)
      returns (rc: int, ghost start: nat, ghost lost: nat, ghost kept: seq<byte>)
      requires Valid() && received <= arrived <= |stream|
      modifies this, ring, ring.buf
      ensures Valid() && ring.DecoderRan() && 0 <= rc && old(received) <= start && start + rc + lost == received
      ensures backlog < 0 || (backlog < 32768 && STREAM_BUF_SIZE - old(ring.Room()) - 1 < 256 * 1024)
              ==> received == old(received)
      ensures received == old(received) + Taken(recvs, arrived - old(received), DRAIN_BUF_SIZE)
              || (received == old(received)
                  && (backlog < 0 || (backlog < 32768 && STREAM_BUF_SIZE - ring.Room() - 1 < 256 * 1024)))
      ensures old(ring.pace) == [] ==>
                received == old(received) + if backlog >= 32768 || (backlog >= 0 && STREAM_BUF_SIZE - old(ring.Room()) - 1 >= 256 * 1024)
                                            then Taken(recvs, arrived - old(received), DRAIN_BUF_SIZE) else 0
      ensures received - old(received) <= DRAIN_BUF_SIZE
      ensures fed == old(fed) + stream[start..start + rc]
      ensures ring.Committed() == kept + stream[start..start + rc]
      ensures kept <= old(ring.Committed()) && (!ready ==> kept == old(ring.Committed()))
      ensures NoneAfter(stream[old(received)..received], -1) ==> kept == old(ring.Committed()) && start == old(received)
      ensures old(ring.decoded) <= kept
      ensures if NoneAfter(stream[old(received)..received], -1) then start == old(received) else IVopAt(stream, start)
      ensures NoneAfter(stream[old(received)..received], start - old(received))
      // What is lost, and the guards that exclude it.
      ensures lost > 0 ==> old(ring.Room()) < received - start
      ensures Least(DRAIN_BUF_SIZE, arrived - old(received)) <= old(ring.Room()) ==> lost == 0
      ensures ready && !NoneAfter(stream[old(received)..received], -1) ==> lost == 0
      ensures old(ring.pace) == [] ==>
                (lost > 0 <==> (!ready || NoneAfter(stream[old(received)..received], -1))
                               && old(ring.Room()) < received - start)
      // What this does to the stream in the ring, from any state.
      ensures received == old(received) ==> pieces == old(pieces) && ring.Committed() == old(ring.Committed())
      ensures received > old(received) ==> start < received
      ensures received > old(received) ==>
                && (NoHoles(stream, pieces) <==> old(NoHoles(stream, pieces)) && Follows(stream, old(pieces), start))
                && (UpToDate(pieces, received) <==> lost == 0)
    {
      hide At, Slice, Joined, NoneAfter, IVopAt, NoHoles, Taken, Follows, Within;
      rc, start, lost, kept := 0, received, 0, ring.Committed();
      assert stream[received..received] == [];
      NoneAfterLater([], -1, -1);
      NoneAfterLater([], 0, 0);
      if backlog < 0 {
        return;
      }
      var rd, wr, room := ring.GetBitstreamBuffer();
      var used := STREAM_BUF_SIZE - room - 1;
      if backlog < 32768 && used < 256 * 1024 {
        return;
      }
      var from := received;
      var total := Drain(arrived, recvs);
      if total == 0 {
        return;
      }
      rc, start, kept := Refeed(from, ready);
      lost := received - start - rc;
      NoHolesSnoc(stream, old(pieces), Piece(start, start + rc));
    }

    // Its second half: offer the drained bytes to the ring, cut at the last
    // I-VOP among them if there is one.
    method Refeed(from: nat, ready: bool) returns (rc: int, ghost start: nat, ghost kept: seq<byte>)
      requires Valid() && from < received && received - from <= DRAIN_BUF_SIZE
      modifies this`pieces, this`fed, ring, ring.buf
      ensures Valid() && ring.DecoderRan() && 0 <= rc && from <= start && start + rc <= received
      ensures fed == old(fed) + stream[start..start + rc]
      ensures ring.Committed() == kept + stream[start..start + rc]
      ensures kept <= old(ring.Committed()) && (!ready ==> kept == old(ring.Committed()))
      ensures NoneAfter(stream[from..received], -1) ==> kept == old(ring.Committed()) && start == from
      ensures pieces == old(pieces) + [Piece(start, start + rc)]
      ensures old(ring.decoded) <= kept && start < received
      ensures if NoneAfter(stream[from..received], -1) then start == from else IVopAt(stream, start)
      ensures NoneAfter(stream[from..received], start - from)
      ensures start + rc < received ==> old(ring.Room()) < received - start
      ensures old(ring.pace) == [] && (!ready || NoneAfter(stream[from..received], -1)) ==>
                rc == Least(received - start, old(ring.Room()))
      ensures ready && !NoneAfter(stream[from..received], -1) ==> start + rc == received
    {
      hide At, Slice, Joined, Within, NoneAfter;
      var at := FindResyncStart(stream[from..received]);
      if at < 0 {
        NoneAfterLater(stream[from..received], at, 0);
        assert NoneAfter(stream[from..received], -1);
        start, kept := from, ring.Committed();
        rc := Offer(from);
      } else {
        NotNone(stream[from..received], at);
        IVopInside(stream, from, received, at);
        start := from + at;
        rc, kept := FlushAndOffer(from + at, ready);
      }
    }

    // Drop what the ring still holds, and go on from an I-VOP.
    method FlushAndOffer(start: nat, ready: bool) returns (rc: int, ghost kept: seq<byte>)
      requires Valid() && start <= received && received - start <= DRAIN_BUF_SIZE
      modifies this`pieces, this`fed, ring, ring.buf
      ensures Valid() && ring.DecoderRan() && 0 <= rc <= received - start
      ensures fed == old(fed) + stream[start..start + rc]
      ensures ring.Committed() == kept + stream[start..start + rc]
      ensures kept <= old(ring.Committed()) && (!ready ==> kept == old(ring.Committed())) && old(ring.decoded) <= kept
      ensures pieces == old(pieces) + [Piece(start, start + rc)]
      ensures ready || received - start <= old(ring.Room()) ==> rc == received - start
      ensures old(ring.pace) == [] && !ready ==> rc == Least(received - start, old(ring.Room()))
    {
      hide At, Slice, Joined, Within, IVopAt;
      var flushed := ring.BitBufferFlush(ready);
      kept := ring.Committed();
      rc := Offer(start);
    }

    // Hand everything received from `start` on to bs_ring_write.
    method Offer(start: nat) returns (rc: int)
      requires Valid() && start <= received
      modifies this`pieces, this`fed, ring, ring.buf
      ensures Valid() && ring.DecoderRan() && 0 <= rc <= received - start
      ensures fed == old(fed) + stream[start..start + rc]
      ensures ring.Committed() == old(ring.Committed()) + stream[start..start + rc]
      ensures pieces == old(pieces) + [Piece(start, start + rc)]
      ensures received - start <= old(ring.Room()) ==> rc == received - start
      ensures old(ring.pace) == [] ==> rc == Least(received - start, old(ring.Room()))
    {
      hide At, Slice, Joined, Within, IVopAt;
      var p := stream[start..received];
      rc := ring.BsRingWrite(p);
      assert p[..rc] == stream[start..start + rc];
      Record(start, start + rc);
    }
  }

  function Least(a: int, b: int): int {
    if a < b then a else b
  }

  lemma NotNone(p: seq<byte>, i: int)
    requires IVopAt(p, i)
    ensures !NoneAfter(p, -1)
  {
  }

  // ----- Whole runs -----

  datatype Step =
    | Take(more: nat, closed: bool, block: bool, readable: bool, got: nat)
    | Skip(more: nat, backlog: int, recvs: seq<nat>, ready: bool)

  // The first n bytes of some runs, as runs.
  ghost function Trim(runs: seq<Piece>, n: nat): seq<Piece>
    requires Ordered(runs)
  {
    if runs == [] then []
    else
      var rest, last := runs[..|runs| - 1], runs[|runs| - 1];
      if n <= Total(rest) then Trim(rest, n)
      else if n < Total(runs) then rest + [Piece(last.from, last.from + n - Total(rest))]
      else runs
  }

  ghost predicate Ordered(runs: seq<Piece>) {
    forall k :: 0 <= k < |runs| ==> runs[k].from <= runs[k].to
  }

  ghost function Total(runs: seq<Piece>): nat
    requires Ordered(runs)
  {
    if runs == [] then 0
    else
      var last := runs[|runs| - 1];
      Total(runs[..|runs| - 1]) + (last.to - last.from)
  }

  lemma {:induction false} TotalJoined(stream: seq<byte>, runs: seq<Piece>)
    requires Within(runs, |stream|)
    ensures |Joined(stream, runs)| == Total(runs)
  {
    if runs != [] {
      TotalJoined(stream, runs[..|runs| - 1]);
    }
  }

  // A run cut short.
  lemma CutRun(stream: seq<byte>, rest: seq<Piece>, last: Piece, m: nat)
    requires Within(rest, |stream|) && last.from + m <= last.to <= |stream|
    ensures var part := Piece(last.from, last.from + m);
            && |Joined(stream, rest)| + m <= |Joined(stream, rest + [last])|
            && Joined(stream, rest + [part]) == Joined(stream, rest + [last])[..|Joined(stream, rest)| + m]
            && (NoHoles(stream, rest + [last]) ==> NoHoles(stream, rest + [part]))
  {
    hide IVopAt, Joined, NoHoles;
    var part := Piece(last.from, last.from + m);
    NoHolesSnoc(stream, rest, last);
    NoHolesSnoc(stream, rest, part);
    JoinedSnoc(stream, rest, last);
    JoinedSnoc(stream, rest, part);
    assert stream[last.from..last.to][..m] == stream[part.from..part.to];
  }

  // Trimmed runs are runs, and trimming makes no holes.
  lemma {:induction false} TrimKeeps(stream: seq<byte>, runs: seq<Piece>, n: nat, received: nat)
    requires Within(runs, received) && received <= |stream| && n <= Total(runs)
    ensures |Joined(stream, runs)| == Total(runs) && Within(Trim(runs, n), received)
    ensures Joined(stream, Trim(runs, n)) == Joined(stream, runs)[..n]
    ensures NoHoles(stream, runs) ==> NoHoles(stream, Trim(runs, n))
  {
    hide IVopAt, NoHoles, Joined;
    TotalJoined(stream, runs);
    if runs == [] {
      assert Joined(stream, []) == [] by { NothingJoined(stream); }
    } else {
      var rest, last := runs[..|runs| - 1], runs[|runs| - 1];
      assert runs == rest + [last];
      TotalJoined(stream, rest);
      if n <= Total(rest) {
        TrimKeeps(stream, rest, n, received);
        NoHolesSnoc(stream, rest, last);
        JoinedSnoc(stream, rest, last);
        Shorter(Joined(stream, rest), stream[last.from..last.to], n);
      } else if n < Total(runs) {
        CutRun(stream, rest, last, n - Total(rest));
      } else {
        assert Joined(stream, runs)[..n] == Joined(stream, runs);
      }
    }
  }

  lemma {:induction false} TrimNoEmpty(runs: seq<Piece>, n: nat)
    requires NoEmpty(runs) && n <= Total(runs)
    ensures NoEmpty(Trim(runs, n)) && (n == Total(runs) ==> Trim(runs, n) == runs)
  {
    if runs != [] {
      TrimNoEmpty(runs[..|runs| - 1], if n <= Total(runs[..|runs| - 1]) then n else 0);
    }
  }

  lemma Shorter(front: seq<byte>, back: seq<byte>, n: nat)
    requires n <= |front|
    ensures (front + back)[..n] == front[..n]
  {
  }

  lemma NothingJoined(stream: seq<byte>)
    ensures Joined(stream, []) == []
  {
  }

  ghost predicate NoEmpty(runs: seq<Piece>) {
    forall k :: 0 <= k < |runs| ==> runs[k].from < runs[k].to
  }

  // The ring has been given `base` and then these runs of the stream.
  ghost predicate Shows(feed: TcpFeed, base: seq<byte>, runs: seq<Piece>)
    requires feed.Valid()
    reads feed, feed.ring, feed.ring.buf
  {
    && Within(runs, feed.received) && NoEmpty(runs)
    && feed.ring.Committed() == base + Joined(feed.stream, runs)
  }

  // Keeping the first bytes of what the ring has been given.
  lemma KeepFirst(stream: seq<byte>, base: seq<byte>, runs: seq<Piece>, received: nat, kept: seq<byte>)
    returns (base1: seq<byte>, runs1: seq<Piece>)
    requires Within(runs, received) && received <= |stream| && kept <= base + Joined(stream, runs)
    ensures base1 <= base && Within(runs1, received) && kept == base1 + Joined(stream, runs1)
    ensures NoHoles(stream, runs) ==> NoHoles(stream, runs1)
    ensures |kept| >= |base| ==> base1 == base
    ensures NoEmpty(runs) ==> NoEmpty(runs1)
    ensures kept == base + Joined(stream, runs) && NoEmpty(runs) ==> base1 == base && runs1 == runs
  {
    hide IVopAt;
    TotalJoined(stream, runs);
    if |kept| < |base| {
      base1, runs1 := kept, [];
      assert kept == base[..|kept|];
      assert kept + [] == kept;
    } else {
      var n := |kept| - |base|;
      base1, runs1 := base, Trim(runs, n);
      TrimKeeps(stream, runs, n, received);
      if NoEmpty(runs) {
        TrimNoEmpty(runs, n);
      }
      assert kept == base + Joined(stream, runs)[..n];
    }
  }

  // Any run of receives and skips, whatever arrives in between and however the
  // decoder reads on.  The ring has been given what is left of its old contents and
  // then `runs` of the received stream; the decoder has read a first part of that,
  // `seen`.  Unless some skip lost bytes, each run after the first continues the one
  // before it or starts at an I-VOP; and none loses any while all that has been
  // received would have fitted the ring.
  method AnyRun(feed: TcpFeed, steps: seq<Step>)
    returns (ghost lost: nat, ghost base: seq<byte>, ghost runs: seq<Piece>, ghost seen: seq<Piece>)
    requires feed.Valid() && feed.Clean()
    modifies feed, feed.ring, feed.ring.buf
    ensures feed.Valid() && base <= old(feed.ring.Committed()) && Shows(feed, base, runs)
    ensures Within(seen, feed.received) && (|feed.ring.decoded| >= |base| ==> feed.ring.decoded == base + Joined(feed.stream, seen))
    ensures lost == 0 ==> feed.Clean() && NoHoles(feed.stream, runs) && NoHoles(feed.stream, seen)
    ensures lost <= feed.received - old(feed.received)
    ensures lost > 0 ==> old(feed.ring.Room()) < feed.received - old(feed.received) && exists j :: 0 <= j < |steps| && steps[j].Skip?
  {
    hide At, Slice, Joined, IVopAt, NoHoles, Within;
    lost, base, runs := 0, feed.ring.Committed(), [];
    NoRuns(feed.stream, feed.received);
    assert base + [] == base;
    var k := 0;
    while k < |steps|
      invariant 0 <= k <= |steps| && feed.Valid() && base <= old(feed.ring.Committed()) && Shows(feed, base, runs)
      invariant lost == 0 ==> feed.Clean() && NoHoles(feed.stream, runs) && UpToDate(runs, feed.received)
      invariant lost <= feed.received - old(feed.received)
      invariant feed.ring.Room() >= old(feed.ring.Room()) - (feed.received - old(feed.received))
      invariant lost > 0 ==> old(feed.ring.Room()) < feed.received - old(feed.received)
                             && exists j :: 0 <= j < k && steps[j].Skip?
    {
      ghost var less;
      less, base, runs := OneStep(feed, steps[k], base, runs);
      lost := lost + less;
      k := k + 1;
    }
    ghost var first;
    first, seen := KeepFirst(feed.stream, base, runs, feed.received, feed.ring.decoded);
  }

  lemma NoRuns(stream: seq<byte>, received: nat)
    ensures Joined(stream, []) == [] && NoHoles(stream, []) && Within([], received)
  {
  }

  method OneStep(feed: TcpFeed, step: Step, ghost base0: seq<byte>, ghost runs0: seq<Piece>)
    returns (ghost less: nat, ghost base: seq<byte>, ghost runs: seq<Piece>)
    requires feed.Valid() && Shows(feed, base0, runs0)
    modifies feed, feed.ring, feed.ring.buf
    ensures feed.Valid() && base <= base0 && Shows(feed, base, runs)
    ensures old(feed.Clean()) && NoHoles(feed.stream, runs0) && UpToDate(runs0, old(feed.received)) && less == 0 ==>
              feed.Clean() && NoHoles(feed.stream, runs) && UpToDate(runs, feed.received)
    ensures less <= feed.received - old(feed.received)
    ensures less > 0 ==> step.Skip? && old(feed.ring.Room()) < feed.received - old(feed.received)
    ensures feed.ring.Room() >= old(feed.ring.Room()) - (feed.received - old(feed.received))
  {
    hide At, Slice, Joined, IVopAt, NoHoles, Within;
    var held := |feed.stream| - feed.received;
    var more := if step.more < held then step.more else held;
    ghost var from := feed.received;
    less, base, runs := 0, base0, runs0;
    var rc;
    match step {
      case Take(_, closed, block, readable, got) =>
        rc := feed.FeedOnce(feed.received + more, closed, block, readable, got);
        runs := AddRun(feed.stream, base, runs, from, from, feed.received);
      case Skip(_, backlog, recvs, ready) =>
        ghost var start, kept;
        rc, start, less, kept := feed.SkipToLatest(backlog, feed.received + more, recvs, ready);
        if feed.received > from {
          base, runs := KeepFirst(feed.stream, base0, runs0, from, kept);
          runs := AddRun(feed.stream, base, runs, from, start, start + rc);
          WithinLater(runs, start + rc, feed.received);
        }
    }
  }

  lemma WithinLater(runs: seq<Piece>, n: nat, m: nat)
    requires Within(runs, n) && n <= m
    ensures Within(runs, m)
  {
  }

  // One more run behind those that are there, unless it is empty.
  lemma AddRun(stream: seq<byte>, base: seq<byte>, runs: seq<Piece>, received: nat, from: nat, to: nat)
    returns (more: seq<Piece>)
    requires Within(runs, received) && NoEmpty(runs) && received <= to <= |stream| && from <= to
    ensures Within(more, to) && NoEmpty(more)
    ensures base + Joined(stream, more) == base + Joined(stream, runs) + stream[from..to]
    ensures NoHoles(stream, more) <==> NoHoles(stream, runs) && (from < to ==> Follows(stream, runs, from))
    ensures more == if from < to then runs + [Piece(from, to)] else runs
  {
    hide IVopAt, NoHoles, Joined;
    if from < to {
      NoHolesSnoc(stream, runs, Piece(from, to));
      JoinedSnoc(stream, runs, Piece(from, to));
      more := runs + [Piece(from, to)];
    } else {
      more := runs;
    }
  }

  lemma ZerosNone(p: seq<byte>)
    requires forall i :: 0 <= i < |p| ==> p[i] == 0
    ensures NoneAfter(p, -1)
  {
  }

  const WINDOW := 32 * 1024

  // A decoder that stands still, and a megabyte without an I-VOP that comes in 32
  // KB at a time, as the socket buffer holds: the last skip truncates.
  method TruncationExample() returns (feed: TcpFeed, ghost lost: nat)
    ensures feed.Valid() && NoHoles(feed.stream, feed.pieces) && lost > 0 && !feed.Clean()
  {
    hide Slice, At, Joined, Within, NoHoles;
    var ring := new Ring(0, STREAM_BUF_SIZE, []);
    var stream := seq(STREAM_BUF_SIZE, _ => 0);
    feed := new TcpFeed(ring, stream);
    var rc;
    ghost var start, kept;
    var k := 0;
    while k < 31
      invariant 0 <= k <= 31 && feed.Valid() && feed.Clean() && feed.ring == ring && feed.stream == stream
      invariant fresh(feed) && fresh(ring) && fresh(ring.buf) && ring.pace == [] && ring.decoded == []
      invariant feed.received == k * WINDOW == |ring.Committed()|
    {
      ZerosNone(stream[feed.received..feed.received + WINDOW]);
      rc, start, lost, kept := feed.SkipToLatest(WINDOW, feed.received + WINDOW, [WINDOW], true);
      k := k + 1;
    }
    ZerosNone(stream[feed.received..feed.received + WINDOW]);
    rc, start, lost, kept := feed.SkipToLatest(WINDOW, feed.received + WINDOW, [WINDOW], true);
    assert |ring.Committed()| == 31 * WINDOW + rc;
  }
}
