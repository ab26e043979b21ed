// The bitstream ring: driver-side pointer arithmetic (lib/vpu_lib.c) and the
// three writers of apps/vpu_stream.c, with the decoder hardware reading
// concurrently.
module BitstreamRing {
  import opened Octets
  import opened Ratio

  const RETCODE_SUCCESS := 0
  const RETCODE_INVALID_PARAM := 3
  const FEED_CHUNK_SIZE := 32 * 1024

  // ----- Circular slices -----

  // The index k places after off in a circular buffer.
  function At(off: nat, k: nat, size: nat): nat {
    if off + k < size then off + k else off + k - size
  }

  lemma AtAt(off: nat, a: nat, b: nat, size: nat)
    requires off < size && a + b <= size
    ensures At(At(off, a, size), b, size) == At(off, a + b, size)
  {
  }

  // The source's `% STREAM_BUF_SIZE`, on sums below twice the size.
  method Wrap(x: nat, size: nat) returns (r: nat)
    requires 0 < size && x < 2 * size
    ensures r == At(0, x, size)
  {
    DivModUnique(x, size, if x < size then 0 else 1, At(0, x, size));
    r := x % size;
  }

  // n bytes of a circular buffer from off on.
  function Slice(s: seq<byte>, off: nat, n: nat): (r: seq<byte>)
    requires off < |s| && n <= |s|
    ensures |r| == n && forall k :: 0 <= k < n ==> r[k] == s[At(off, k, |s|)]
  {
    seq(n, k requires 0 <= k < n => s[At(off, k, |s|)])
  }

  // A part of a slice is a slice.
  lemma SliceSub(s: seq<byte>, off: nat, n: nat, lo: nat, m: nat)
    requires off < |s| && lo + m <= n <= |s| && lo < |s|
    ensures Slice(s, At(off, lo, |s|), m) == Slice(s, off, n)[lo..lo + m]
  {
    forall k | 0 <= k < m
      ensures Slice(s, At(off, lo, |s|), m)[k] == Slice(s, off, n)[lo + k]
    {
      AtAt(off, lo, k, |s|);
    }
  }

  // Taking n bytes off the front of a queue that lies at off.
  lemma SliceDrop(s: seq<byte>, off: nat, q: seq<byte>, n: nat)
    requires off < |s| && n <= |q| < |s| && q == Slice(s, off, |q|)
    ensures Slice(s, off, n) == q[..n]
    ensures q[n..] == Slice(s, At(off, n, |s|), |q| - n)
    ensures At(At(off, n, |s|), |q| - n, |s|) == At(off, |q|, |s|)
  {
    SliceSub(s, off, |q|, 0, n);
    SliceSub(s, off, |q|, n, |q| - n);
  }

  lemma Consume(front: seq<byte>, q: seq<byte>, n: nat)
    requires n <= |q|
    ensures front + q[..n] + q[n..] == front + q
  {
    assert q[..n] + q[n..] == q;
  }

  // Adding the n bytes after a queue to it.
  lemma SliceExtend(s: seq<byte>, off: nat, q: seq<byte>, n: nat)
    requires off < |s| && |q| + n < |s| && q == Slice(s, off, |q|)
    ensures q + Slice(s, At(off, |q|, |s|), n) == Slice(s, off, |q| + n)
    ensures At(At(off, |q|, |s|), n, |s|) == At(off, |q| + n, |s|)
  {
    SliceSub(s, off, |q| + n, 0, |q|);
    SliceSub(s, off, |q| + n, |q|, n);
  }

  // t is s with p written from off on, wrapping at the end.
  ghost predicate Wrote(s: seq<byte>, t: seq<byte>, off: nat, p: seq<byte>) {
    && |t| == |s| && off < |s| && |p| <= |s|
    && (forall k :: 0 <= k < |p| ==> t[At(off, k, |s|)] == p[k])
    && (forall k :: |p| <= k < |s| ==> t[At(off, k, |s|)] == s[At(off, k, |s|)])
  }

  // Writing after the first m bytes from rd extends them and keeps them.
  lemma WroteAfter(s: seq<byte>, t: seq<byte>, rd: nat, m: nat, p: seq<byte>)
    requires rd < |s| && m < |s| && m + |p| <= |s| && Wrote(s, t, At(rd, m, |s|), p)
    ensures Slice(t, rd, m + |p|) == Slice(s, rd, m) + p
  {
    var off := At(rd, m, |s|);
    forall k | 0 <= k < m
      ensures t[At(rd, k, |s|)] == s[At(rd, k, |s|)]
    {
      assert At(rd, k, |s|) == At(off, |s| - m + k, |s|);
    }
    forall k | 0 <= k < |p|
      ensures t[At(rd, m + k, |s|)] == p[k]
    {
      assert At(rd, m + k, |s|) == At(off, k, |s|);
    }
  }

  // Writing one byte.
  lemma WroteOne(s: seq<byte>, pos: nat, b: byte)
    requires pos < |s|
    ensures Wrote(s, s[pos := b], pos, [b])
  {
  }

  // ----- The ring -----

  class Ring {
    const buf: array<byte>
    const start: nat            // streamBufStartAddr
    const end: nat              // streamBufEndAddr
    var rdPtr: nat              // the hardware's read-pointer register
    var wrPtr: nat              // streamWrPtr
    var streamEnd: bool         // the instance's bit in BIT_BIT_STREAM_PARAM
    var pace: seq<nat>          // how far the decoder gets before each next look at it
    ghost var queue: seq<byte>  // committed and not yet read
    ghost var decoded: seq<byte> // read by the decoder so far

    ghost predicate Valid()
      reads this, buf
    {
      && 0 < buf.Length && end == start + buf.Length
      && start <= rdPtr < end && start <= wrPtr < end
      && |queue| < buf.Length
      && wrPtr - start == At(rdPtr - start, |queue|, buf.Length)
      && queue == Slice(buf[..], rdPtr - start, |queue|)
    }

    // Everything committed, in order; what the decoder has read is a prefix.
    ghost function Committed(): (s: seq<byte>)
      reads this
      ensures decoded <= s
    {
      decoded + queue
    }

    ghost function Room(): int
      reads this
    {
      buf.Length - |queue| - 1
    }

    // The n bytes after the write pointer, not yet visible to the decoder.
    ghost function Staged(n: nat): (s: seq<byte>)
      requires Valid() && n <= Room()
      reads this, buf
      ensures |s| == n
    {
      Slice(buf[..], wrPtr - start, n)
    }

    // The decoder has only read on, and only as its pace allows: once that is
    // used up it stands still.
    twostate predicate DecoderRan()
      reads this
    {
      old(decoded) <= decoded && (old(pace) == [] ==> pace == [] && decoded == old(decoded))
    }

    constructor (base: nat, size: nat, pace: seq<nat>)
      requires size > 0
      ensures Valid() && fresh(buf) && buf.Length == size && queue == decoded == []
      ensures this.pace == pace && start == wrPtr == base && forall i :: 0 <= i < size ==> buf[i] == 0
    {
      this.pace := pace;
      buf := new byte[size](_ => 0);
      start, end := base, base + size;
      rdPtr, wrPtr, streamEnd := base, base, false;
      queue, decoded := [], [];
    }

    // The decoder consumes n committed bytes, reading them from memory.
    method HardwareRead(n: nat)
      requires Valid() && n <= |queue|
      modifies this`rdPtr, this`queue, this`decoded
      ensures Valid() && Committed() == old(Committed()) && old(decoded) <= decoded
      ensures queue == old(queue[n..]) && (n == 0 ==> rdPtr == old(rdPtr))
    {
      hide Slice;
      var off := rdPtr - start;
      var next := if off + n < buf.Length then off + n else off + n - buf.Length;
      SliceDrop(buf[..], off, queue, n);
      Consume(decoded, queue, n);
      decoded := decoded + Slice(buf[..], off, n);
      queue := queue[n..];
      rdPtr := start + next;
    }

    // The decoder works on its own: at any moment it may get any distance through
    // what is committed.
    method Tick()
      requires Valid()
      modifies this`pace, this`rdPtr, this`queue, this`decoded
      ensures Valid() && Committed() == old(Committed()) && DecoderRan() && |queue| <= old(|queue|)
      ensures old(pace) == [] ==> rdPtr == old(rdPtr)
    {
      var n := 0;
      if |pace| > 0 {
        var used := if rdPtr <= wrPtr then wrPtr - rdPtr else wrPtr + buf.Length - rdPtr;
        n := if pace[0] < used then pace[0] else used;
        pace := pace[1..];
      }
      HardwareRead(n);
    }

    // Reading the read-pointer register.
    method ReadPointer() returns (rd: nat)
      requires Valid()
      modifies this`pace, this`rdPtr, this`queue, this`decoded
      ensures Valid() && Committed() == old(Committed()) && DecoderRan()
      ensures rd == rdPtr && |queue| <= old(|queue|)
      ensures old(pace) == [] ==> Room() == old(Room()) && rdPtr == old(rdPtr)
    {
      Tick();
      rd := rdPtr;
    }

    // vpu_DecGetBitstreamBuffer on a valid handle: pointers and free room.
    method GetBitstreamBuffer() returns (rd: nat, wr: nat, room: nat)
      requires Valid()
      modifies this`pace, this`rdPtr, this`queue, this`decoded
      ensures Valid() && Committed() == old(Committed()) && DecoderRan()
      ensures rd == rdPtr && wr == wrPtr && room == Room() && room >= old(Room())
      ensures old(pace) == [] ==> Room() == old(Room()) && rdPtr == old(rdPtr)
    {
      rd := ReadPointer();
      wr := wrPtr;
      if wr < rd {
        room := rd - wr - 1;
      } else {
        room := (end - wr) + (rd - start) - 1;
      }
    }

    // The test of the next method: with free space that does not wrap, n bytes more
    // reach the read pointer.
    method Overtakes(n: nat) returns (over: bool)
      requires Valid() && n > 0
      modifies this`pace, this`rdPtr, this`queue, this`decoded
      ensures Valid() && DecoderRan() && Committed() == old(Committed()) && Room() >= old(Room())
      ensures over <==> wrPtr < rdPtr <= wrPtr + n
      ensures over ==> n > Room()
      ensures old(pace) == [] ==> rdPtr == old(rdPtr) && queue == old(queue)
    {
      hide Slice;
      over := false;
      var rd := ReadPointer();
      if wrPtr < rd {
        if rd <= wrPtr + n {
          over := true;
        }
      }
    }

    // vpu_DecUpdateBitstreamBuffer on a valid handle, without file play.  An empty
    // request marks the end of the stream.  A request larger than the room is refused
    // only while the free space does not wrap.
    method UpdateBitstreamBuffer(n: nat) returns (rc: int)
      requires Valid()
      modifies this
      ensures DecoderRan() && streamEnd == (n == 0)
      ensures n <= old(Room()) ==>
                rc == RETCODE_SUCCESS && Valid() && Committed() == old(Committed() + Staged(n))
                && wrPtr - start == At(old(wrPtr) - start, n, buf.Length)
      ensures rc == RETCODE_INVALID_PARAM <==> n > 0 && old(wrPtr) < rdPtr <= old(wrPtr) + n
      ensures rc == RETCODE_INVALID_PARAM || rc == RETCODE_SUCCESS
      // A larger request that is not refused overruns what the decoder has yet to read.
      ensures old(pace) == [] && n < buf.Length && rc == RETCODE_SUCCESS ==> (Valid() <==> n <= old(Room()))
      ensures old(pace) == [] ==>
                && rdPtr == old(rdPtr)
                && (rc == RETCODE_INVALID_PARAM <==> n > 0 && old(wrPtr) < old(rdPtr) <= old(wrPtr) + n)
      ensures rc == RETCODE_INVALID_PARAM ==> n > Room() && Valid() && Committed() == old(Committed())
    {
      hide Slice;
      ghost var staged := if n < buf.Length then Slice(buf[..], wrPtr - start, n) else [];
      if n == 0 {
        streamEnd := true;
        assert Committed() + staged == Committed();
        return RETCODE_SUCCESS;
      }
      hide At;
      streamEnd := false;
      var over := Overtakes(n);
      if over {
        return RETCODE_INVALID_PARAM;
      }
      StoreWritePointer(n, staged);
      rc := RETCODE_SUCCESS;
    }

    // Its last step: move the write pointer over n bytes, committing them.
    method StoreWritePointer(n: nat, ghost staged: seq<byte>)
      requires Valid() && (n < buf.Length ==> staged == Slice(buf[..], wrPtr - start, n))
      modifies this`wrPtr, this`queue
      ensures n <= old(Room()) ==> Valid() && Committed() == old(Committed()) + staged
                                   && wrPtr - start == At(old(wrPtr) - start, n, buf.Length)
      ensures old(Room()) < n < buf.Length ==> !Valid()
    {
      if n <= Room() {
        SliceExtend(buf[..], rdPtr - start, queue, n);
      }
      assert decoded + (queue + staged) == decoded + queue + staged;
      wrPtr := AdvanceWrite(wrPtr, n);
      queue := queue + staged;
    }

    // Its wrap at the end of the buffer.
    method AdvanceWrite(wr0: nat, n: nat) returns (wr: nat)
      requires 0 < buf.Length && end == start + buf.Length && start <= wr0 < end
      ensures n < buf.Length ==> wr - start == At(wr0 - start, n, buf.Length)
    {
      wr := wr0 + n;
      if wr > end {
        var over := wr - end;
        wr := start;
        wr := wr + over;
      }
      if wr == end {
        wr := start;
      }
    }

    // vpu_DecBitBufferFlush: the DEC_BUF_FLUSH command leaves the read pointer at
    // the start of the buffer.  `ready` is false when frame buffers are not
    // registered or the API lock cannot be taken.
    method BitBufferFlush(ready: bool) returns (ok: bool)
      requires Valid()
      modifies this
      ensures Valid() && ok == ready
      ensures queue == (if ready then [] else old(queue)) && decoded == old(decoded) && pace == old(pace)
    {
      if !ready {
        return false;
      }
      rdPtr, wrPtr := start, start;
      queue := [];
      return true;
    }

    // One byte of a memcpy, behind m staged ones; the decoder may then read on.
    method CopyByte(pos: nat, b: byte, ghost m: nat)
      requires Valid() && m < Room() && pos == At(wrPtr - start, m, buf.Length)
      modifies this`pace, this`rdPtr, this`queue, this`decoded, buf
      ensures Valid() && Committed() == old(Committed()) && DecoderRan() && Room() >= old(Room())
      ensures Staged(m + 1) == old(Staged(m)) + [b]
      ensures forall i :: 0 <= i < buf.Length && i != pos ==> buf[i] == old(buf[i])
    {
      hide Slice, Wrote;
      ghost var s, off, q := buf[..], rdPtr - start, queue;
      AtAt(off, |q|, m, |s|);
      WroteOne(s, pos, b);
      buf[pos] := b;
      assert buf[..] == s[pos := b];
      StagedBehind(s, buf[..], off, |q|, m, [b]);
      Tick();
    }

    // memcpy into the mapped buffer, behind m staged bytes, the decoder reading on
    // all the while.
    method CopyIn(pos: nat, p: seq<byte>, ghost m: nat)
      requires Valid() && m + |p| <= Room() && pos + |p| <= buf.Length
      requires p != [] ==> pos == At(wrPtr - start, m, buf.Length)
      modifies this`pace, this`rdPtr, this`queue, this`decoded, buf
      ensures Valid() && Committed() == old(Committed()) && DecoderRan() && Room() >= old(Room())
      ensures Staged(m + |p|) == old(Staged(m)) + p
      ensures forall i :: 0 <= i < buf.Length && !(pos <= i < pos + |p|) ==> buf[i] == old(buf[i])
    {
      hide Slice, At;
      ghost var staged := Staged(m);
      var k := 0;
      assert staged + p[..0] == staged;
      while k < |p|
        invariant k <= |p| && Valid() && Committed() == old(Committed()) && DecoderRan() && Room() >= old(Room())
        invariant Staged(m + k) == staged + p[..k]
        invariant forall i :: 0 <= i < buf.Length && !(pos <= i < pos + k) ==> buf[i] == old(buf[i])
      {
        NextAt(wrPtr - start, m, k, buf.Length);
        CopyByte(pos + k, p[k], m + k);
        Snoc(staged, p, k);
        k := k + 1;
      }
      assert p[..k] == p;
    }

    // rtp_direct_append: stage p after the auLen bytes already staged, unless it
    // would come within 512 bytes of filling the ring.
    method DirectAppend(auLen: nat, p: seq<byte>) returns (ok: bool)
      requires Valid() && auLen <= Room()
      modifies this`pace, this`rdPtr, this`queue, this`decoded, buf
      ensures Valid() && Committed() == old(Committed()) && DecoderRan()
      ensures Room() >= old(Room())
      ensures if ok then auLen + |p| <= Room() && Staged(auLen + |p|) == old(Staged(auLen)) + p
              else p != [] && Staged(auLen) == old(Staged(auLen))
      ensures p == [] || auLen + |p| + 512 < old(Room()) ==> ok
      ensures ok && p != [] ==> auLen + |p| + 512 < Room()
      ensures old(pace) == [] ==> (ok <==> p == [] || auLen + |p| + 512 < old(Room()))
    {
      if p == [] {
        return true;
      }
      var rd, wr, room := GetBitstreamBuffer();
      if auLen + |p| + 512 >= room {
        return false;
      }
      CopyBehind(auLen, p);
      return true;
    }

    // The copy of rtp_direct_append, continuing at the start of the buffer when it
    // runs out.
    method CopyBehind(auLen: nat, p: seq<byte>)
      requires Valid() && p != [] && auLen + |p| <= Room()
      modifies this`pace, this`rdPtr, this`queue, this`decoded, buf
      ensures Valid() && Committed() == old(Committed()) && DecoderRan() && Room() >= old(Room())
      ensures Staged(auLen + |p|) == old(Staged(auLen)) + p
    {
      hide Slice, At;
      ghost var staged := Staged(auLen);
      FromZero(wrPtr - start, auLen, buf.Length);
      var pos := Wrap(wrPtr - start + auLen, buf.Length);
      var first := buf.Length - pos;
      if first > |p| {
        first := |p|;
      }
      CopyIn(pos, p[..first], auLen);
      if first < |p| {
        WrapsAt(wrPtr - start, auLen, first, buf.Length);
        CopyIn(0, p[first..], auLen + first);
      }
      Rejoin(staged, p, first);
    }

    // feed: one non-wrapping receive, committed at once.  `pending` is what the
    // socket holds, `got` how much of it recv() is ready to return; -2 means that
    // nothing arrived in time, -1 no room or no data, 0 that the peer has closed.
    method Feed(pending: seq<byte>, closed: bool, block: bool, readable: bool, got: nat) returns (rc: int)
      requires Valid()
      modifies this, buf
      ensures Valid() && DecoderRan() && -2 <= rc <= FEED_CHUNK_SIZE
      ensures 0 < rc ==> rc <= |pending| && Committed() == old(Committed()) + pending[..rc]
                         && old(wrPtr) - start + rc <= buf.Length
                         && wrPtr - start == At(old(wrPtr) - start, rc, buf.Length)
      ensures rc <= 0 ==> Committed() == old(Committed()) && wrPtr == old(wrPtr) && Room() >= old(Room())
      ensures forall i :: 0 <= i < buf.Length && !(old(wrPtr) - start <= i < old(wrPtr) - start + rc) ==> buf[i] == old(buf[i])
      ensures old(Room()) >= 512 && (!block || readable) && pending != [] ==> rc > 0
      ensures rc > 0 && |pending| <= got && |pending| <= old(Room()) && |pending| <= FEED_CHUNK_SIZE
                && old(wrPtr) - start + |pending| <= buf.Length
              ==> rc == |pending|
      ensures rc > 0 ==> pending != [] && (!block || readable) && Room() + rc >= 512
      ensures old(pace) == [] ==> (rc > 0 <==> old(Room()) >= 512 && (!block || readable) && pending != [])
      ensures (rc == 0 ==> closed && pending == []) && (rc == -2 ==> block && !readable)
    {
      hide Slice;
      var rd, wr, room := GetBitstreamBuffer();
      if room < 512 {
        return -1;
      }
      var off := wr - start;
      var chunk := buf.Length - off;
      if chunk > room {
        chunk := room;
      }
      if chunk > FEED_CHUNK_SIZE {
        chunk := FEED_CHUNK_SIZE;
      }
      if block && !readable {
        return -2;
      }
      if pending == [] {
        return if closed then 0 else -1;
      }
      rc := Recv(|pending|, chunk, got);
      ReceiveInto(pending[..rc]);
    }

    // recv() straight into the ring at the write pointer, committed at once.
    method ReceiveInto(p: seq<byte>)
      requires Valid() && |p| <= Room() && wrPtr - start + |p| <= buf.Length
      modifies this, buf
      ensures Valid() && DecoderRan() && Committed() == old(Committed()) + p
      ensures wrPtr - start == At(old(wrPtr) - start, |p|, buf.Length)
      ensures forall i :: 0 <= i < buf.Length && !(old(wrPtr) - start <= i < old(wrPtr) - start + |p|) ==> buf[i] == old(buf[i])
    {
      hide Slice;
      CopyIn(wrPtr - start, p, 0);
      assert [] + p == p;
      var update := UpdateBitstreamBuffer(|p|);
    }

    // The copying loop of bs_ring_write.
    method WriteLoop(p: seq<byte>)
      requires Valid() && 0 < |p| <= Room()
      modifies this`pace, this`rdPtr, this`queue, this`decoded, buf
      ensures Valid() && Committed() == old(Committed()) && DecoderRan() && Room() >= old(Room())
      ensures Staged(|p|) == p
    {
      hide Slice, At;
      var off, written := wrPtr - start, 0;
      FromZero(off, 0, buf.Length);
      assert p[..0] == [];
      while written < |p|
        invariant 0 <= written <= |p| && off < buf.Length
        invariant written < |p| ==> off == At(wrPtr - start, written, buf.Length)
        invariant Valid() && Committed() == old(Committed()) && DecoderRan() && Room() >= old(Room())
        invariant Staged(written) == p[..written]
      {
        var chunk := buf.Length - off;
        if chunk > |p| - written {
          chunk := |p| - written;
        }
        CopyIn(off, p[written..written + chunk], written);
        if written + chunk < |p| {
          WrapsAt(wrPtr - start, written, chunk, buf.Length);
        }
        assert p[..written + chunk] == p[..written] + p[written..written + chunk];
        written := written + chunk;
        off := 0;
      }
      assert p[..written] == p;
    }

    // bs_ring_write on a valid handle: commit a whole drained chunk, or as much
    // of it as there is room for.
    method BsRingWrite(p: seq<byte>) returns (written: int)
      requires Valid()
      modifies this, buf
      ensures Valid() && DecoderRan() && 0 <= written <= |p|
      ensures Committed() == old(Committed()) + p[..written]
      ensures |p| <= old(Room()) ==> written == |p|
      ensures written < |p| ==> old(Room()) <= written
      ensures old(pace) == [] ==> written == if |p| < old(Room()) then |p| else old(Room())
    {
      hide Slice;
      if |p| == 0 {
        assert Committed() + p[..0] == Committed();
        return 0;
      }
      var rd, wr, room := GetBitstreamBuffer();
      var len := |p|;
      if len > room {
        len := room;
      }
      if len > 0 {
        WriteLoop(p[..len]);
        var update := UpdateBitstreamBuffer(len);
      } else {
        assert Committed() + p[..0] == Committed();
      }
      return len;
    }

    // The commit of rtp_direct_flush: everything staged becomes readable.
    method CommitStaged(auLen: nat) returns (committed: nat)
      requires Valid() && 0 < auLen <= Room()
      modifies this
      ensures Valid() && DecoderRan() && committed == auLen
      ensures Committed() == old(Committed() + Staged(auLen))
    {
      committed := 0;
      var update := UpdateBitstreamBuffer(auLen);
      if update == RETCODE_SUCCESS {
        committed := auLen;
      }
    }

    // DecBitstreamBufEmpty.
    method Empty() returns (e: bool)
      requires Valid()
      modifies this`pace, this`rdPtr, this`queue, this`decoded
      ensures Valid() && Committed() == old(Committed()) && DecoderRan()
      ensures e <==> queue == []
    {
      var rd := ReadPointer();
      e := rd == wrPtr;
    }
  }

  // What one recv() returns of `held` bytes into a buffer of `space`.
  method Recv(held: nat, space: nat, got: nat) returns (n: nat)
    requires 0 < held && 0 < space
    ensures 1 <= n <= held && n <= space && (n <= got || n == 1)
    ensures held <= got && held <= space ==> n == held
  {
    n := if got < 1 then 1 else got;
    if n > held {
      n := held;
    }
    if n > space {
      n := space;
    }
  }

  lemma FromZero(off: nat, m: nat, size: nat)
    requires off < size && m < size
    ensures At(0, off + m, size) == At(off, m, size) < size && At(off, 0, size) == off
  {
  }

  lemma WrapsAt(off: nat, m: nat, k: nat, size: nat)
    requires off < size && m + k < size && At(off, m, size) + k == size
    ensures At(off, m + k, size) == 0
  {
  }

  // Positions follow each other up to the end of the buffer.
  lemma NextAt(off: nat, m: nat, k: nat, size: nat)
    requires off < size && m < size && At(off, m, size) + k < size
    ensures At(off, m + k, size) == At(off, m, size) + k
  {
  }

  lemma Rejoin(front: seq<byte>, p: seq<byte>, k: nat)
    requires k <= |p|
    ensures front + p[..k] + p[k..] == front + p && (k == |p| ==> front + p[..k] == front + p)
  {
    assert p[..k] + p[k..] == p;
  }

  lemma Snoc(front: seq<byte>, p: seq<byte>, k: nat)
    requires k < |p|
    ensures front + p[..k] + [p[k]] == front + p[..k + 1]
  {
  }

  // Staging p behind q queued and a staged bytes leaves both as they were.
  lemma StagedBehind(s: seq<byte>, t: seq<byte>, off: nat, q: nat, a: nat, p: seq<byte>)
    requires off < |s| && q + a + |p| < |s| && Wrote(s, t, At(off, q + a, |s|), p)
    ensures Slice(t, off, q) == Slice(s, off, q)
    ensures Slice(t, At(off, q, |s|), a + |p|) == Slice(s, At(off, q, |s|), a) + p
  {
    WroteAfter(s, t, off, q + a, p);
    Extended(s, t, off, q, a, p);
  }

  lemma Extended(s: seq<byte>, t: seq<byte>, off: nat, q: nat, a: nat, p: seq<byte>)
    requires off < |s| == |t| && q + a + |p| < |s|
    requires Slice(t, off, q + a + |p|) == Slice(s, off, q + a) + p
    ensures Slice(t, off, q) == Slice(s, off, q)
    ensures Slice(t, At(off, q, |s|), a + |p|) == Slice(s, At(off, q, |s|), a) + p
  {
    var x, y := Slice(s, off, q + a), Slice(t, off, q + a + |p|);
    Cut(s, off, q, a, x);
    Cut(t, off, q, a + |p|, y);
    CutAppend(x, p, q);
  }

  lemma Cut(s: seq<byte>, off: nat, q: nat, a: nat, x: seq<byte>)
    requires off < |s| && q + a < |s| && x == Slice(s, off, q + a)
    ensures Slice(s, off, q) == x[..q]
    ensures Slice(s, At(off, q, |s|), a) == x[q..]
  {
    SliceSub(s, off, q + a, 0, q);
    SliceSub(s, off, q + a, q, a);
  }

  lemma CutAppend(x: seq<byte>, p: seq<byte>, q: nat)
    requires q <= |x|
    ensures (x + p)[..q] == x[..q] && (x + p)[q..] == x[q..] + p
  {
  }

  // ----- Any use of the ring is a use of a plain queue -----

  // What a client may do between two flushes.  Receiving and writing commit at
  // once and give up whatever is staged.
  datatype Use = Look | Receive(data: seq<byte>, got: nat) | Write(data: seq<byte>) | Hold(data: seq<byte>)
    | Commit | Abandon

  // A queue without pointers: what has been committed, and what is staged.
  datatype Queue = Queue(log: seq<byte>, staged: seq<byte>)

  // n is how many bytes the ring took; staging takes all or nothing.
  function Apply(q: Queue, use: Use, n: nat): Queue {
    match use
    case Look => q
    case Receive(data, _) => Queue(q.log + data[..if n < |data| then n else |data|], [])
    case Write(data) => Queue(q.log + data[..if n < |data| then n else |data|], [])
    case Hold(data) => if n < |data| then q else q.(staged := q.staged + data)
    case Commit => Queue(q.log + q.staged, [])
    case Abandon => q.(staged := [])
  }

  function Replay(q: Queue, uses: seq<Use>, taken: seq<nat>): Queue
    requires |taken| == |uses|
  {
    if uses == [] then q
    else
      var k := |uses| - 1;
      Apply(Replay(q, uses[..k], taken[..k]), uses[k], taken[k])
  }

  // A use takes as much as it should where at least `room` bytes are free and m are
  // staged: everything that fits is written, staged if 512 bytes more fit, and from
  // 512 bytes of room on a receive takes something.
  predicate Enough(use: Use, m: nat, room: int, taken: nat) {
    match use
    case Look => taken == 0
    case Receive(data, _) => taken <= |data| && (data != [] && room >= 512 ==> taken > 0)
    case Write(data) => taken == |data| || (room <= taken < |data|)
    case Hold(data) => taken == |data| || (taken == 0 && room <= m + |data| + 512)
    case Commit => taken == 0
    case Abandon => taken == 0
  }

  method OneUse(ring: Ring, au: nat, use: Use) returns (au1: nat, taken: nat)
    requires ring.Valid() && au <= ring.Room()
    modifies ring, ring.buf
    ensures ring.Valid() && ring.DecoderRan() && au1 <= ring.Room()
    ensures Queue(ring.Committed(), ring.Staged(au1))
         == Apply(old(Queue(ring.Committed(), ring.Staged(au))), use, taken)
    ensures Enough(use, au, old(ring.Room()), taken)
  {
    hide Slice, At;
    ghost var log, staged := ring.Committed(), ring.Staged(au);
    NoBytes(log, staged);
    au1, taken := 0, 0;
    match use
    case Look =>
      var rd := ring.ReadPointer();
      au1 := au;
    case Receive(data, got) =>
      var rc := ring.Feed(data, false, false, true, got);
      taken := if rc > 0 then rc else 0;
      assert data[..0] == [];
    case Write(data) =>
      taken := ring.BsRingWrite(data);
    case Hold(data) =>
      var ok := ring.DirectAppend(au, data);
      au1, taken := if ok then au + |data| else au, if ok then |data| else 0;
    case Commit =>
      if au > 0 {
        var n := ring.CommitStaged(au);
      }
    case Abandon =>
  }

  lemma NoBytes(log: seq<byte>, staged: seq<byte>)
    ensures log + [] == log && staged + [] == staged && (|staged| == 0 ==> staged == [] && log + staged == log)
  {
  }

  // Use k takes as much as it should, in the room there is at least: what the ring
  // holds less what is committed and had not been read at the start.
  predicate EnoughAt(capacity: nat, read: nat, q: Queue, uses: seq<Use>, taken: seq<nat>, k: nat)
    requires k < |uses| == |taken|
  {
    var before := Replay(q, uses[..k], taken[..k]);
    Enough(uses[k], |before.staged|, capacity - 1 - (|before.log| - read), taken[k])
  }

  predicate AllEnough(capacity: nat, read: nat, q: Queue, uses: seq<Use>, taken: seq<nat>)
    requires |uses| == |taken|
  {
    forall k :: 0 <= k < |uses| ==> EnoughAt(capacity, read, q, uses, taken, k)
  }

  lemma EnoughStays(capacity: nat, read: nat, q: Queue, uses: seq<Use>, taken: seq<nat>, use: Use, n: nat, k: nat)
    requires k < |uses| == |taken| && EnoughAt(capacity, read, q, uses, taken, k)
    ensures EnoughAt(capacity, read, q, uses + [use], taken + [n], k)
  {
    hide Enough, Replay;
    assert (uses + [use])[..k] == uses[..k] && (taken + [n])[..k] == taken[..k];
  }

  lemma EnoughMore(capacity: nat, read: nat, q: Queue, uses: seq<Use>, taken: seq<nat>, use: Use, n: nat)
    requires |uses| == |taken| && AllEnough(capacity, read, q, uses, taken)
    requires var now := Replay(q, uses, taken); Enough(use, |now.staged|, capacity - 1 - (|now.log| - read), n)
    ensures AllEnough(capacity, read, q, uses + [use], taken + [n])
    ensures Replay(q, uses + [use], taken + [n]) == Apply(Replay(q, uses, taken), use, n)
  {
    var us, ts := uses + [use], taken + [n];
    assert us[..|uses|] == uses && ts[..|uses|] == taken;
    LastEnough(capacity, read, q, uses, taken, use, n);
    hide EnoughAt, Replay, Apply;
    forall k | 0 <= k < |us|
      ensures EnoughAt(capacity, read, q, us, ts, k)
    {
      if k < |uses| {
        EnoughStays(capacity, read, q, uses, taken, use, n, k);
      }
    }
  }

  lemma LastEnough(capacity: nat, read: nat, q: Queue, uses: seq<Use>, taken: seq<nat>, use: Use, n: nat)
    requires |uses| == |taken|
    requires var now := Replay(q, uses, taken); Enough(use, |now.staged|, capacity - 1 - (|now.log| - read), n)
    ensures EnoughAt(capacity, read, q, uses + [use], taken + [n], |uses|)
    ensures Replay(q, uses + [use], taken + [n]) == Apply(Replay(q, uses, taken), use, n)
  {
    hide Enough, Apply;
    assert (uses + [use])[..|uses|] == uses && (taken + [n])[..|uses|] == taken;
  }

  // More room never makes a use take less.
  lemma EnoughRoom(use: Use, m: nat, room: int, less: int, taken: nat)
    requires Enough(use, m, room, taken) && less <= room
    ensures Enough(use, m, less, taken)
  {
  }

  // Whatever is done, in whatever order, and however the decoder reads on
  // meanwhile: what is committed and what is staged are those of the plain queue,
  // every use takes as much as it should, and what the decoder has read is a prefix.
  method AnyUse(ring: Ring, uses: seq<Use>) returns (au: nat, taken: seq<nat>)
    requires ring.Valid()
    modifies ring, ring.buf
    ensures ring.Valid() && ring.DecoderRan() && au <= ring.Room() && |taken| == |uses|
    ensures Queue(ring.Committed(), ring.Staged(au)) == Replay(Queue(old(ring.Committed()), []), uses, taken)
    ensures AllEnough(ring.buf.Length, |old(ring.decoded)|, Queue(old(ring.Committed()), []), uses, taken)
    ensures ring.decoded <= ring.Committed()
  {
    hide Slice, At, Apply, Replay, Enough, AllEnough;
    ghost var q, read := Queue(ring.Committed(), []), |ring.decoded|;
    au, taken := 0, [];
    NoUses(ring.buf.Length, read, q);
    var k := 0;
    assert uses[..0] == [];
    while k < |uses|
      invariant 0 <= k == |taken| <= |uses| && ring.Valid() && ring.DecoderRan() && au <= ring.Room()
      invariant Queue(ring.Committed(), ring.Staged(au)) == Replay(q, uses[..k], taken)
      invariant AllEnough(ring.buf.Length, read, q, uses[..k], taken)
    {
      ghost var room, held := ring.Room(), au;
      ghost var least := ring.buf.Length - 1 - (|Replay(q, uses[..k], taken).log| - read);
      var n;
      au, n := OneUse(ring, au, uses[k]);
      EnoughRoom(uses[k], held, room, least, n);
      EnoughMore(ring.buf.Length, read, q, uses[..k], taken, uses[k], n);
      assert uses[..k + 1] == uses[..k] + [uses[k]];
      taken := taken + [n];
      k := k + 1;
    }
    assert uses[..k] == uses;
  }

  lemma NoUses(capacity: nat, read: nat, q: Queue)
    ensures Replay(q, [], []) == q && AllEnough(capacity, read, q, [], [])
  {
  }

  // An update too large for the room, with the free space wrapping, is not refused
  // and overruns the queue.
  method OverrunExample() returns (ring: Ring, rc: int)
    ensures rc == RETCODE_SUCCESS && !ring.Valid()
  {
    ring := new Ring(0, 16, []);
    rc := ring.UpdateBitstreamBuffer(8);
    rc := ring.UpdateBitstreamBuffer(10);
  }
}
