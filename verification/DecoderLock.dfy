// The decoder API's lock (lib/vpu_lib.c, lib/vpu_util.c) on i.MX27: starting a
// frame keeps the API lock until its output is collected or the instance is
// closed, and instances come from a pool of four.
module DecoderLock {

  const MAX_NUM_INSTANCE := 4
  const NONE := -1                  // a null handle or pending pointer

  datatype RetCode = Success | Failure | InvalidHandle | InvalidParam | InvalidCommand
    | InvalidFrameBuffer | InsufficientFrameBuffers | InvalidStride | WrongCallSequence
    | CalledBefore | NotInitialized | NotSupported | Timeout

  datatype Mode = Mp4Dec | AvcDec

  // A CodecInst of the pool.  `told` is whether the codec has been given the
  // registered frame buffers.
  datatype Instance = Instance(
    instIndex: nat, inUse: bool, mode: Mode,
    obtained: bool, minFrames: nat, picWidth: nat,
    registered: bool, numFrames: nat, told: bool)

  // memset to zero, keeping the index.
  function Cleared(i: nat): Instance {
    Instance(i, true, Mp4Dec, false, 0, 0, false, 0, false)
  }

  // What reading a sequence header comes to.
  datatype Header = Empty | NoMemory | Unreadable | Parsed(width: nat, height: nat, minFrames: nat)

  // GiveCommand's commands by what they do with the lock.
  datatype Command = SetSps | SetPps | SetDeblockOutput | Setting(rc: RetCode)

  class Library {
    const pool: array<Instance>      // codecInstPool
    const flags: array<set<nat>>     // the display-flag register of each index
    var apiLock: bool                // api_lock is held
    var pending: int                 // pendingInst: the slot decoding, or NONE
    ghost var live: set<int>         // handles opened and not closed
    ghost var leaked: set<int>       // slots in use whose DecOpen has failed

    // The lock is held exactly while an instance is pending; every slot keeps its
    // own register index; a slot is in use exactly when a handle accounts for it.
    ghost predicate Valid()
      reads this, pool, flags
    {
      && pool.Length == MAX_NUM_INSTANCE && flags.Length == MAX_NUM_INSTANCE
      && (apiLock <==> pending != NONE)
      && (pending != NONE ==> 0 <= pending < MAX_NUM_INSTANCE && pool[pending].inUse && pool[pending].registered)
      && (forall i :: 0 <= i < MAX_NUM_INSTANCE ==>
            && pool[i].instIndex == i
            && (pool[i].inUse <==> i in live || i in leaked)
            && (pool[i].told ==> pool[i].registered) && (pool[i].registered ==> pool[i].obtained))
      && (forall h :: h in live || h in leaked ==> 0 <= h < MAX_NUM_INSTANCE)
      && live !! leaked
    }

    // vpu_semaphore_open, by a process that finds no pending instance.
    constructor ()
      ensures Valid() && live == leaked == {} && pending == NONE && fresh(pool) && fresh(flags)
    {
      pool := new Instance[MAX_NUM_INSTANCE](i => Cleared(i).(inUse := false));
      flags := new set<nat>[MAX_NUM_INSTANCE](_ => {});
      apiLock, pending, live, leaked := false, NONE, {}, {};
    }

    // LockVpu.  The mutex is not recursive; `inTime` is whether a free one is
    // obtained before the timeout.
    method Lock(inTime: bool) returns (ok: bool)
      modifies this`apiLock
      ensures ok == (!old(apiLock) && inTime) && apiLock == (old(apiLock) || ok)
    {
      ok := !apiLock && inTime;
      if ok {
        apiLock := true;
      }
    }

    // UnlockVpu.
    method Unlock()
      modifies this`apiLock
      ensures !apiLock
    {
      apiLock := false;
    }

    ghost predicate Usable(h: int)
      requires pool.Length == MAX_NUM_INSTANCE
      reads pool
    {
      0 <= h < MAX_NUM_INSTANCE && pool[h].inUse
    }

    ghost predicate Full()
      requires pool.Length == MAX_NUM_INSTANCE
      reads pool
    {
      forall i :: 0 <= i < MAX_NUM_INSTANCE ==> pool[i].inUse
    }

    // CheckDecInstanceValidity: a pool slot that is in use.
    method CheckValid(h: int) returns (ok: bool)
      requires pool.Length == MAX_NUM_INSTANCE
      ensures ok <==> Usable(h)
    {
      var i := 0;
      while i < MAX_NUM_INSTANCE
        invariant 0 <= i <= MAX_NUM_INSTANCE
        invariant !(0 <= h < i)
      {
        if i == h {
          return pool[i].inUse;
        }
        i := i + 1;
      }
      return false;
    }

    // GetCodecInstance: the first free slot, cleared.
    method GetCodecInstance() returns (h: int)
      requires pool.Length == MAX_NUM_INSTANCE && forall i :: 0 <= i < MAX_NUM_INSTANCE ==> pool[i].instIndex == i
      modifies pool
      ensures h == NONE <==> old(Full())
      ensures h != NONE ==> 0 <= h < MAX_NUM_INSTANCE && !old(pool[h].inUse) && pool[h] == Cleared(h)
      ensures h != NONE ==> forall i :: 0 <= i < h ==> old(pool[i].inUse)
      ensures forall i :: 0 <= i < MAX_NUM_INSTANCE && i != h ==> pool[i] == old(pool[i])
    {
      var i := 0;
      while i < MAX_NUM_INSTANCE && pool[i].inUse
        invariant 0 <= i <= MAX_NUM_INSTANCE
        invariant forall j :: 0 <= j < i ==> pool[j].inUse
      {
        i := i + 1;
      }
      if i == MAX_NUM_INSTANCE {
        return NONE;
      }
      pool[i] := Cleared(pool[i].instIndex);
      h := i;
    }

    // Only the lock and the pending pointer may differ.
    twostate predicate Untouched()
      reads this, pool, flags
    {
      pool[..] == old(pool[..]) && flags[..] == old(flags[..]) && live == old(live) && leaked == old(leaked)
    }

    // vpu_DecOpen.  It takes the lock twice; failing the second time leaves the
    // slot in use.
    method DecOpen(avc: bool, initialized: bool, paramOk: bool, first: bool, second: bool) returns (rc: RetCode, h: int)
      requires Valid()
      modifies this`apiLock, this`live, this`leaked, pool, flags
      ensures Valid()
      ensures rc == if !initialized then NotInitialized
                    else if !paramOk then InvalidParam
                    else if old(pending) != NONE || !first then Timeout
                    else if old(Full()) then Failure
                    else if !second then Timeout
                    else Success
      ensures rc == Success ==>
                && h !in old(live) && h !in old(leaked) && live == old(live) + {h} && leaked == old(leaked)
                && pool[h] == Cleared(h).(mode := if avc then AvcDec else Mp4Dec) && flags[h] == {}
                && forall i :: 0 <= i < MAX_NUM_INSTANCE && i != h ==> pool[i] == old(pool[i]) && flags[i] == old(flags[i])
      ensures rc != Success ==> live == old(live) && old(leaked) <= leaked
      ensures leaked != old(leaked) ==>
                && rc == Timeout && 0 <= h < MAX_NUM_INSTANCE && leaked == old(leaked) + {h} && pool[h].inUse && !old(pool[h].inUse)
                && (forall i :: 0 <= i < h ==> old(pool[i].inUse))
                && forall i :: 0 <= i < MAX_NUM_INSTANCE && i != h ==> pool[i] == old(pool[i])
      ensures leaked != old(leaked) <==> initialized && paramOk && old(pending) == NONE && first && !old(Full()) && !second
    {
      hide Full;
      h := NONE;
      if !initialized {
        return NotInitialized, h;
      }
      if !paramOk {
        return InvalidParam, h;
      }
      var ok := Lock(first);
      if !ok {
        return Timeout, h;
      }
      h := GetCodecInstance();
      if h == NONE {
        Unlock();
        return Failure, h;
      }
      Unlock();
      pool[h] := pool[h].(mode := if avc then AvcDec else Mp4Dec);
      ok := Lock(second);
      if !ok {
        leaked := leaked + {h};
        return Timeout, h;
      }
      flags[pool[h].instIndex] := {};
      Unlock();
      live := live + {h};
      return Success, h;
    }

    // vpu_DecClose: closing with a frame abandoned gives its lock back first.
    method DecClose(h: int, inTime: bool) returns (rc: RetCode)
      requires Valid()
      modifies this, pool
      ensures Valid()
      ensures !old(Usable(h)) ==> rc == InvalidHandle && pending == old(pending) && Untouched()
      ensures rc == Success <==> old(Usable(h)) && (old(pending) == NONE || old(pending) == h) && inTime
      ensures rc == Success ==>
                && live == old(live) - {h} && leaked == old(leaked) - {h} && !Usable(h)
                && forall i :: 0 <= i < MAX_NUM_INSTANCE && i != h ==> pool[i] == old(pool[i])
      ensures rc != Success ==> Untouched()
      ensures pending == if old(Usable(h)) && old(pending) == h then NONE else old(pending)
    {
      var ok := CheckValid(h);
      if !ok {
        return InvalidHandle;
      }
      if pending == h {
        pending := NONE;
        Unlock();
      }
      ok := Lock(inTime);
      if !ok {
        return Timeout;
      }
      pool[h] := pool[h].(inUse := false);
      live, leaked := live - {h}, leaked - {h};
      Unlock();
      return Success;
    }

    // vpu_DecSetEscSeqInit.
    method SetEscSeqInit(h: int, inTime: bool) returns (rc: RetCode)
      requires Valid()
      modifies this`apiLock
      ensures Valid()
      ensures rc == if !Usable(h) then InvalidHandle else if pending != NONE || !inTime then Timeout else Success
    {
      var ok := CheckValid(h);
      if !ok {
        return InvalidHandle;
      }
      ok := Lock(inTime);
      if !ok {
        return Timeout;
      }
      Unlock();
      return Success;
    }

    // vpu_DecGetInitialInfo.
    method GetInitialInfo(h: int, infoOk: bool, header: Header, inTime: bool) returns (rc: RetCode)
      requires Valid()
      modifies this`apiLock, pool
      ensures Valid()
      ensures rc == if !Usable(h) then InvalidHandle
                    else if !infoOk then InvalidParam
                    else if old(pool[h].obtained) then CalledBefore
                    else if pending != NONE || !inTime then Timeout
                    else if header.Empty? then WrongCallSequence
                    else if header.Parsed? && header.width >= 64 && header.height >= 64 then Success
                    else Failure
      ensures forall i :: 0 <= i < MAX_NUM_INSTANCE ==>
                pool[i] == if rc == Success && i == h
                           then old(pool[i]).(obtained := true, minFrames := header.minFrames, picWidth := header.width)
                           else old(pool[i])
    {
      var ok := CheckValid(h);
      if !ok {
        return InvalidHandle;
      }
      if !infoOk {
        return InvalidParam;
      }
      if pool[h].obtained {
        return CalledBefore;
      }
      ok := Lock(inTime);
      if !ok {
        return Timeout;
      }
      match header
      case Empty =>
        Unlock();
        return WrongCallSequence;
      case NoMemory =>
        Unlock();
        return Failure;
      case Unreadable =>
        Unlock();
        return Failure;
      case Parsed(width, height, minFrames) =>
        if width < 64 || height < 64 {
          Unlock();
          return Failure;
        }
        Unlock();
        pool[h] := pool[h].(obtained := true, minFrames := minFrames, picWidth := width);
        return Success;
    }

    // vpu_DecRegisterFrameBuffer: the buffers are recorded before the lock is
    // taken, so a timeout leaves them recorded without the codec knowing.
    method RegisterFrameBuffer(h: int, buffersOk: bool, num: nat, stride: nat, inTime: bool) returns (rc: RetCode)
      requires Valid()
      modifies this`apiLock, pool
      ensures Valid()
      ensures rc == if !Usable(h) then InvalidHandle
                    else if old(pool[h].registered) then CalledBefore
                    else if !old(pool[h].obtained) then WrongCallSequence
                    else if !buffersOk then InvalidFrameBuffer
                    else if num < old(pool[h].minFrames) then InsufficientFrameBuffers
                    else if stride < old(pool[h].picWidth) || stride % 8 != 0 then InvalidStride
                    else if pending != NONE || !inTime then Timeout
                    else Success
      ensures forall i :: 0 <= i < MAX_NUM_INSTANCE ==>
                pool[i] == if i == h && (rc == Success || rc == Timeout)
                           then old(pool[i]).(registered := true, numFrames := num, told := rc == Success)
                           else old(pool[i])
    {
      var ok := CheckValid(h);
      if !ok {
        return InvalidHandle;
      }
      if pool[h].registered {
        return CalledBefore;
      }
      if !pool[h].obtained {
        return WrongCallSequence;
      }
      if !buffersOk {
        return InvalidFrameBuffer;
      }
      if num < pool[h].minFrames {
        return InsufficientFrameBuffers;
      }
      if stride < pool[h].picWidth || stride % 8 != 0 {
        return InvalidStride;
      }
      pool[h] := pool[h].(registered := true, numFrames := num);
      ok := Lock(inTime);
      if !ok {
        return Timeout;
      }
      pool[h] := pool[h].(told := true);
      Unlock();
      return Success;
    }

    // vpu_DecStartOneFrame: on success the lock stays held.  `memory` is false when
    // a report buffer is wanted and cannot be had.
    method StartOneFrame(h: int, memory: bool, inTime: bool) returns (rc: RetCode)
      requires Valid()
      modifies this`apiLock, this`pending
      ensures Valid()
      ensures rc == if !Usable(h) then InvalidHandle
                    else if !pool[h].registered then WrongCallSequence
                    else if old(pending) != NONE || !inTime then Timeout
                    else if !memory then Failure
                    else Success
      ensures pending == if rc == Success then h else old(pending)
    {
      var ok := CheckValid(h);
      if !ok {
        return InvalidHandle;
      }
      if !pool[h].registered {
        return WrongCallSequence;
      }
      ok := Lock(inTime);
      if !ok {
        return Timeout;
      }
      if !memory {
        Unlock();
        return Failure;
      }
      pending := h;
      return Success;
    }

    // vpu_DecGetOutputInfo.  While decoding the codec has set display flags.
    method GetOutputInfo(h: int, infoOk: bool, shown: set<nat>) returns (rc: RetCode)
      requires Valid()
      modifies this`apiLock, this`pending, flags
      ensures Valid()
      ensures rc == if !Usable(h) then InvalidHandle
                    else if !infoOk then InvalidParam
                    else if old(pending) == NONE then WrongCallSequence
                    else if old(pending) != h then InvalidHandle
                    else Success
      ensures pending == if rc == Success then NONE else old(pending)
      ensures forall i :: 0 <= i < MAX_NUM_INSTANCE ==>
                flags[i] == if rc == Success && i == h then old(flags[i]) + shown else old(flags[i])
    {
      var ok := CheckValid(h);
      if !ok {
        return InvalidHandle;
      }
      if !infoOk {
        return InvalidParam;
      }
      if pending == NONE {
        return WrongCallSequence;
      }
      if h != pending {
        return InvalidHandle;
      }
      flags[pool[h].instIndex] := flags[pool[h].instIndex] + shown;
      pending := NONE;
      Unlock();
      return Success;
    }

    // vpu_DecBitBufferFlush.
    method BitBufferFlush(h: int, inTime: bool) returns (rc: RetCode)
      requires Valid()
      modifies this`apiLock
      ensures Valid()
      ensures rc == if !Usable(h) then InvalidHandle
                    else if !pool[h].registered then WrongCallSequence
                    else if pending != NONE || !inTime then Timeout
                    else Success
    {
      var ok := CheckValid(h);
      if !ok {
        return InvalidHandle;
      }
      if !pool[h].registered {
        return WrongCallSequence;
      }
      ok := Lock(inTime);
      if !ok {
        return Timeout;
      }
      Unlock();
      return Success;
    }

    // vpu_DecClrDispFlag: with a frame in flight the lock is held and nothing is
    // cleared.
    method ClrDispFlag(h: int, index: int, inTime: bool) returns (rc: RetCode)
      requires Valid()
      modifies this`apiLock, flags
      ensures Valid()
      ensures rc == if !Usable(h) then InvalidHandle
                    else if !pool[h].registered then WrongCallSequence
                    else if index < 0 || index > pool[h].numFrames - 1 then InvalidParam
                    else if pending != NONE || !inTime then Timeout
                    else Success
      ensures forall i :: 0 <= i < MAX_NUM_INSTANCE ==>
                flags[i] == if rc == Success && i == h then old(flags[i]) - {index} else old(flags[i])
    {
      var ok := CheckValid(h);
      if !ok {
        return InvalidHandle;
      }
      if !pool[h].registered {
        return WrongCallSequence;
      }
      if index < 0 || index > pool[h].numFrames - 1 {
        return InvalidParam;
      }
      ok := Lock(inTime);
      if !ok {
        return Timeout;
      }
      flags[pool[h].instIndex] := flags[pool[h].instIndex] - {index};
      Unlock();
      return Success;
    }

    // vpu_DecGiveCommand: of its commands only the SPS download takes the lock.
    method GiveCommand(h: int, cmd: Command, paramOk: bool, inTime: bool) returns (rc: RetCode)
      requires Valid()
      modifies this`apiLock
      ensures Valid()
      ensures rc == if !Usable(h) then InvalidHandle
                    else match cmd
                      case SetDeblockOutput => NotSupported
                      case SetSps =>
                        if pool[h].mode != AvcDec then InvalidCommand
                        else if !paramOk then InvalidParam
                        else if pending != NONE || !inTime then Timeout
                        else Success
                      case SetPps =>
                        if pool[h].mode != AvcDec then InvalidCommand else if !paramOk then InvalidParam else Success
                      case Setting(result) => result
    {
      var ok := CheckValid(h);
      if !ok {
        return InvalidHandle;
      }
      match cmd
      case SetDeblockOutput =>
        return NotSupported;
      case Setting(result) =>
        return result;
      case SetPps =>
        if pool[h].mode != AvcDec {
          return InvalidCommand;
        }
        return if paramOk then Success else InvalidParam;
      case SetSps =>
        if pool[h].mode != AvcDec {
          return InvalidCommand;
        }
        if !paramOk {
          return InvalidParam;
        }
        ok := Lock(inTime);
        if !ok {
          return Timeout;
        }
        Unlock();
        return Success;
    }
  }

  // One decoder call, with what its environment does.
  datatype Call =
    | Open(avc: bool, initialized: bool, paramOk: bool, first: bool, second: bool)
    | Close(h: int, inTime: bool)
    | Escape(h: int, inTime: bool)
    | InitialInfo(h: int, infoOk: bool, header: Header, inTime: bool)
    | Register(h: int, buffersOk: bool, num: nat, stride: nat, inTime: bool)
    | Start(h: int, memory: bool, inTime: bool)
    | Output(h: int, infoOk: bool, shown: set<nat>)
    | Flush(h: int, inTime: bool)
    | ClearFlag(h: int, index: int, inTime: bool)
    | Give(h: int, cmd: Command, paramOk: bool, inTime: bool)

  // Any client whatever: after every call of every session the lock is held
  // exactly while an instance is pending, and only an open that fails its second
  // lock makes a slot leak.
  method AnyClient(lib: Library, session: seq<Call>)
    requires lib.Valid()
    modifies lib, lib.pool, lib.flags
    ensures lib.Valid()
    ensures (forall k :: 0 <= k < |session| && session[k].Open? ==> session[k].second) ==> lib.leaked <= old(lib.leaked)
  {
    var k := 0;
    while k < |session|
      invariant 0 <= k <= |session| && lib.Valid()
      invariant (forall k :: 0 <= k < |session| && session[k].Open? ==> session[k].second) ==> lib.leaked <= old(lib.leaked)
    {
      OneCall(lib, session[k]);
      k := k + 1;
    }
  }

  method OneCall(lib: Library, call: Call)
    requires lib.Valid()
    modifies lib, lib.pool, lib.flags
    ensures lib.Valid()
    ensures (call.Open? && !call.second) || lib.leaked <= old(lib.leaked)
  {
    var rc: RetCode;
    match call
    case Open(avc, initialized, paramOk, first, second) =>
      var h;
      rc, h := lib.DecOpen(avc, initialized, paramOk, first, second);
    case Close(h, inTime) => rc := lib.DecClose(h, inTime);
    case Escape(h, inTime) => rc := lib.SetEscSeqInit(h, inTime);
    case InitialInfo(h, infoOk, header, inTime) => rc := lib.GetInitialInfo(h, infoOk, header, inTime);
    case Register(h, buffersOk, num, stride, inTime) => rc := lib.RegisterFrameBuffer(h, buffersOk, num, stride, inTime);
    case Start(h, memory, inTime) => rc := lib.StartOneFrame(h, memory, inTime);
    case Output(h, infoOk, shown) => rc := lib.GetOutputInfo(h, infoOk, shown);
    case Flush(h, inTime) => rc := lib.BitBufferFlush(h, inTime);
    case ClearFlag(h, index, inTime) => rc := lib.ClrDispFlag(h, index, inTime);
    case Give(h, cmd, paramOk, inTime) => rc := lib.GiveCommand(h, cmd, paramOk, inTime);
  }

  // The life of a new handle, whatever was in its slot before: no frame and no buffers
  // before there has been a sequence header; then the header once, the buffers once,
  // and frames.
  method NewHandle(lib: Library, avc: bool, width: nat, height: nat, minFrames: nat, num: nat, stride: nat)
    returns (h: int, opening: seq<RetCode>, early: seq<RetCode>, header: seq<RetCode>, buffers: seq<RetCode>, frame: seq<RetCode>)
    requires lib.Valid() && lib.pending == NONE && !lib.Full()
    requires width >= 64 && height >= 64 && num >= minFrames && stride >= width && stride % 8 == 0
    modifies lib, lib.pool, lib.flags
    ensures lib.Valid() && lib.Usable(h) && lib.pending == NONE
    ensures opening == [Success, if avc then Success else InvalidCommand]
    ensures early == [WrongCallSequence, WrongCallSequence, WrongCallSequence, WrongCallSequence]
    ensures header == [WrongCallSequence, Success, CalledBefore, WrongCallSequence]
    ensures buffers == [Success, CalledBefore, if num > 0 then Success else InvalidParam, InvalidParam]
    ensures frame == [Success, Timeout, Success, WrongCallSequence]
  {
    var rc;
    rc, h := lib.DecOpen(avc, true, true, true, true);
    assert !lib.pool[h].obtained && !lib.pool[h].registered && lib.pool[h].inUse;
    var sps := lib.GiveCommand(h, SetSps, true, true);
    opening := [rc, sps];
    early := BeforeHeader(lib, h, num, stride);
    header := FirstHeader(lib, h, width, height, minFrames);
    buffers := FirstBuffers(lib, h, num, stride);
    frame := OneFrame(lib, h);
  }

  // A handle that is idle, with or without a sequence header and buffers.
  ghost predicate Idle(lib: Library, h: int, obtained: bool, registered: bool)
    reads lib, lib.pool, lib.flags
  {
    lib.Valid() && lib.Usable(h) && lib.pending == NONE && lib.pool[h].obtained == obtained && lib.pool[h].registered == registered
  }

  method BeforeHeader(lib: Library, h: int, num: nat, stride: nat) returns (rcs: seq<RetCode>)
    requires Idle(lib, h, false, false)
    modifies lib`apiLock, lib`pending, lib.pool, lib.flags
    ensures Idle(lib, h, false, false)
    ensures rcs == [WrongCallSequence, WrongCallSequence, WrongCallSequence, WrongCallSequence]
  {
    var start := lib.StartOneFrame(h, true, true);
    var register := lib.RegisterFrameBuffer(h, true, num, stride, true);
    var flush := lib.BitBufferFlush(h, true);
    var clear := lib.ClrDispFlag(h, 0, true);
    rcs := [start, register, flush, clear];
  }

  method FirstHeader(lib: Library, h: int, width: nat, height: nat, minFrames: nat) returns (rcs: seq<RetCode>)
    requires Idle(lib, h, false, false) && width >= 64 && height >= 64
    modifies lib`apiLock, lib`pending, lib.pool
    ensures Idle(lib, h, true, false) && lib.pool[h].minFrames == minFrames && lib.pool[h].picWidth == width
    ensures rcs == [WrongCallSequence, Success, CalledBefore, WrongCallSequence]
  {
    var empty := lib.GetInitialInfo(h, true, Empty, true);
    var first := lib.GetInitialInfo(h, true, Parsed(width, height, minFrames), true);
    var again := lib.GetInitialInfo(h, true, Parsed(width, height, minFrames), true);
    var start := lib.StartOneFrame(h, true, true);
    rcs := [empty, first, again, start];
  }

  method FirstBuffers(lib: Library, h: int, num: nat, stride: nat) returns (rcs: seq<RetCode>)
    requires Idle(lib, h, true, false)
    requires num >= lib.pool[h].minFrames && stride >= lib.pool[h].picWidth && stride % 8 == 0
    modifies lib`apiLock, lib.pool, lib.flags
    ensures Idle(lib, h, true, true)
    ensures rcs == [Success, CalledBefore, if num > 0 then Success else InvalidParam, InvalidParam]
  {
    var first := lib.RegisterFrameBuffer(h, true, num, stride, true);
    var again := lib.RegisterFrameBuffer(h, true, num, stride, true);
    var last := lib.ClrDispFlag(h, num - 1, true);
    var past := lib.ClrDispFlag(h, num, true);
    rcs := [first, again, last, past];
  }

  method OneFrame(lib: Library, h: int) returns (rcs: seq<RetCode>)
    requires Idle(lib, h, true, true)
    modifies lib`apiLock, lib`pending, lib.flags
    ensures Idle(lib, h, true, true)
    ensures rcs == [Success, Timeout, Success, WrongCallSequence]
  {
    var start := lib.StartOneFrame(h, true, true);
    var again := lib.StartOneFrame(h, true, true);
    var output := lib.GetOutputInfo(h, true, {});
    var more := lib.GetOutputInfo(h, true, {});
    rcs := [start, again, output, more];
  }

  // A session that ends in mid-frame does not stand in the way of the next one.
  method NextSession(lib: Library, h: int) returns (closed: RetCode, reopened: RetCode, next: int)
    requires lib.Valid() && lib.Usable(h) && lib.pending == h
    modifies lib, lib.pool, lib.flags
    ensures lib.Valid() && closed == Success && reopened == Success && lib.pending == NONE
  {
    closed := lib.DecClose(h, true);
    assert !lib.pool[h].inUse;
    reopened, next := lib.DecOpen(true, true, true, true, true);
  }

  // Four opens that fail their second lock use the pool up with no handle open.
  method PoolLost() returns (lib: Library, rc: RetCode)
    ensures lib.Valid() && lib.live == {} && rc == Failure
  {
    lib := new Library();
    var k := 0;
    while k < MAX_NUM_INSTANCE
      invariant 0 <= k <= MAX_NUM_INSTANCE && lib.Valid() && lib.pending == NONE && lib.live == {}
      invariant fresh(lib) && fresh(lib.pool) && fresh(lib.flags)
      invariant forall i :: 0 <= i < MAX_NUM_INSTANCE ==> (lib.pool[i].inUse <==> i < k)
    {
      var h;
      assert !lib.pool[k].inUse;
      rc, h := lib.DecOpen(true, true, true, true, false);
      k := k + 1;
    }
    var h;
    rc, h := lib.DecOpen(true, true, true, true, true);
  }

  // Open handles are different slots with different registers.
  lemma DistinctHandles(lib: Library, h: int, k: int)
    requires lib.Valid() && h in lib.live && k in lib.live && h != k
    ensures lib.Usable(h) && lib.Usable(k) && lib.pool[h].instIndex != lib.pool[k].instIndex
  {
  }
}
