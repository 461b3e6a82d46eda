/** `Updater` (src/Updater.cpp): the object that writes a firmware or SPIFFS image from a stream
    into a partition, block by block. Its methods change its fields and the environment in place;
    `StartUpdate` is proved to do exactly what `UpdaterSpec.StartUpdate` describes. */
module UpdaterClass {
  import opened Types
  import opened Platform
  import opened UpdaterSpec

  /** Two runs where the first makes `a` before the second. */
  lemma ThenThen(a: seq<Call>, b: seq<Call>, r: Run)
    ensures Then(a, Then(b, r)) == Then(a + b, r)
  {
    Assoc(a, b, r.calls);
  }

  /** The retry loop as the method runs it, carrying the calls `made` so far along. */
  ghost function ReadFrom(o: Oracle, cur: Cursor, n: nat, tries: nat, made: seq<Call>): Block
    requires tries < READ_TRIES
    decreases READ_TRIES - tries
  {
    var rd := StreamRead(o, cur, n);
    if |rd.data| != 0 || tries + 1 == READ_TRIES then Block(rd.data, rd.cur, made + [rd.call])
    else ReadFrom(o, rd.cur, n, tries + 1, made + [rd.call])
  }

  lemma {:induction false} ReadFromTries(o: Oracle, cur: Cursor, n: nat, tries: nat, made: seq<Call>)
    requires tries < READ_TRIES
    decreases READ_TRIES - tries
    ensures var b := ReadTries(o, cur, n, tries); ReadFrom(o, cur, n, tries, made) == Block(b.data, b.cur, made + b.calls)
  {
    var rd := StreamRead(o, cur, n);
    if |rd.data| == 0 && tries + 1 < READ_TRIES {
      ReadFromTries(o, rd.cur, n, tries + 1, made + [rd.call]);
      Assoc(made, [rd.call], ReadTries(o, rd.cur, n, tries + 1).calls);
    }
  }

  /** The transfer loop from `Head(0)` at `cur0` has made `made` and reached phase `p` at `at`. */
  ghost predicate At(c: Ctx, cur0: Cursor, made: seq<Call>, p: Phase, at: Cursor) {
    PhaseOK(c, p) && Loop(c, Head(0), cur0) == Then(made, Loop(c, p, at))
  }

  /** A block read that delivers something, seen from the start of the loop: the loop reaches
      `Erasing` with the block. */
  lemma ReadDone(c: Ctx, cur0: Cursor, made: seq<Call>, w: nat, at: Cursor)
    requires At(c, cur0, made, Head(w), at) && w < c.len
    requires |ReadTries(c.o, at, BlockLength(c.len, w, BLOCK_SIZE_P), 0).data| != 0
    ensures var b := ReadTries(c.o, at, BlockLength(c.len, w, BLOCK_SIZE_P), 0);
      At(c, cur0, made + b.calls, Erasing(w, b.data), b.cur)
  {
    var b := ReadTries(c.o, at, BlockLength(c.len, w, BLOCK_SIZE_P), 0);
    ThenThen(made, b.calls, Loop(c, Erasing(w, b.data), b.cur));
  }

  /** A block read that delivers nothing, seen from the start of the loop: it ends with
      `READ_FAILED`. */
  lemma ReadLost(c: Ctx, cur0: Cursor, made: seq<Call>, w: nat, at: Cursor)
    requires At(c, cur0, made, Head(w), at) && w < c.len
    requires |ReadTries(c.o, at, BlockLength(c.len, w, BLOCK_SIZE_P), 0).data| == 0
    ensures var b := ReadTries(c.o, at, BlockLength(c.len, w, BLOCK_SIZE_P), 0);
      Loop(c, Head(0), cur0) == Run(READ_FAILED, b.cur, made + b.calls + CallOnError(c.cb, READ_FAILED))
  {
    var b := ReadTries(c.o, at, BlockLength(c.len, w, BLOCK_SIZE_P), 0);
    Assoc(made, b.calls, CallOnError(c.cb, READ_FAILED));
  }

  /** The erase of the block's range fails: the loop ends with `UNKNOWN`. */
  lemma EraseFails(c: Ctx, cur0: Cursor, made: seq<Call>, w: nat, data: seq<byte>, at: Cursor, e: Flash)
    requires At(c, cur0, made, Erasing(w, data), at) && e == Erase(c.o, at, c.part, w, BLOCK_SIZE_P) && !e.ok
    ensures Loop(c, Head(0), cur0) == Run(UNKNOWN, e.cur, made + [e.call] + CallOnError(c.cb, UNKNOWN))
  {
    Assoc(made, [e.call], CallOnError(c.cb, UNKNOWN));
  }

  /** The erase of the block's range succeeds and the look-ahead erase comes next. */
  lemma EraseThenAhead(c: Ctx, cur0: Cursor, made: seq<Call>, w: nat, data: seq<byte>, at: Cursor, e: Flash)
    requires At(c, cur0, made, Erasing(w, data), at) && e == Erase(c.o, at, c.part, w, BLOCK_SIZE_P) && e.ok
    requires LookAhead(c, w)
    ensures At(c, cur0, made + [e.call], ErasingAhead(w, data), e.cur)
  {
    ThenThen(made, [e.call], Loop(c, ErasingAhead(w, data), e.cur));
  }

  /** The erase of the block's range succeeds and the write comes next. */
  lemma EraseThenWrite(c: Ctx, cur0: Cursor, made: seq<Call>, w: nat, data: seq<byte>, at: Cursor, e: Flash)
    requires At(c, cur0, made, Erasing(w, data), at) && e == Erase(c.o, at, c.part, w, BLOCK_SIZE_P) && e.ok
    requires !LookAhead(c, w)
    ensures At(c, cur0, made + [e.call], Writing(w, data), e.cur)
  {
    ThenThen(made, [e.call], Loop(c, Writing(w, data), e.cur));
  }

  /** The look-ahead erase of the next block fails: the loop ends with `UNKNOWN`. */
  lemma AheadFails(c: Ctx, cur0: Cursor, made: seq<Call>, w: nat, data: seq<byte>, at: Cursor, e: Flash)
    requires At(c, cur0, made, ErasingAhead(w, data), at) && e == Erase(c.o, at, c.part, w + BLOCK_SIZE_P, BLOCK_SIZE_P)
    requires !e.ok
    ensures Loop(c, Head(0), cur0) == Run(UNKNOWN, e.cur, made + [e.call] + CallOnError(c.cb, UNKNOWN))
  {
    Assoc(made, [e.call], CallOnError(c.cb, UNKNOWN));
  }

  /** The look-ahead erase of the next block succeeds and the write comes next. */
  lemma AheadThenWrite(c: Ctx, cur0: Cursor, made: seq<Call>, w: nat, data: seq<byte>, at: Cursor, e: Flash)
    requires At(c, cur0, made, ErasingAhead(w, data), at) && e == Erase(c.o, at, c.part, w + BLOCK_SIZE_P, BLOCK_SIZE_P)
    requires e.ok
    ensures At(c, cur0, made + [e.call], Writing(w, data), e.cur)
  {
    ThenThen(made, [e.call], Loop(c, Writing(w, data), e.cur));
  }

  /** The write of the block fails: the loop ends with `PARTITION_WRITE_FAILED`. */
  lemma WriteFails(c: Ctx, cur0: Cursor, made: seq<Call>, w: nat, data: seq<byte>, at: Cursor, f: Flash)
    requires At(c, cur0, made, Writing(w, data), at) && f == WriteAt(c.o, at, c.part, w, data) && !f.ok
    ensures Loop(c, Head(0), cur0) ==
              Run(PARTITION_WRITE_FAILED, f.cur, made + [f.call] + CallOnError(c.cb, PARTITION_WRITE_FAILED))
  {
    Assoc(made, [f.call], CallOnError(c.cb, PARTITION_WRITE_FAILED));
  }

  /** The write of the block succeeds; after the progress report the loop is back at its test. */
  lemma WriteThenHead(c: Ctx, cur0: Cursor, made: seq<Call>, w: nat, data: seq<byte>, at: Cursor, f: Flash, w': nat)
    requires At(c, cur0, made, Writing(w, data), at) && f == WriteAt(c.o, at, c.part, w, data) && f.ok
    requires w' == w + |data|
    ensures At(c, cur0, made + [f.call] + CallOnProgress(c.cb, ToInt32(w'), c.streamLength), Head(w'), f.cur)
  {
    var progress := CallOnProgress(c.cb, ToInt32(w'), c.streamLength);
    var r := Loop(c, Head(w'), f.cur);
    assert Loop(c, Writing(w, data), at) == Then([f.call] + progress, r);
    ThenThen(made, [f.call] + progress, r);
    Assoc(made, [f.call], progress);
  }

  /** The loop test fails at `written == len`: the loop ends with `OK` after `made`. */
  lemma LoopDone(c: Ctx, cur0: Cursor, made: seq<Call>, at: Cursor)
    requires At(c, cur0, made, Head(c.len), at)
    ensures Loop(c, Head(0), cur0) == Run(OK, at, made)
  {
    assert made + [] == made;
  }

  /** The space check of `startUpdate` fails. */
  lemma NoSpace(o: Oracle, cb: Callbacks, sl: int32, kind: UpdaterType, cur: Cursor, partition: Option<Partition>)
    requires ToUint32(sl) > MaxSketchSpace(o.freeSketchSpace)
    ensures StartUpdate(o, cb, sl, kind, cur, partition) ==
              Outcome(NO_ENOUGH_SPACE, partition, cur, CallOnError(cb, NO_ENOUGH_SPACE))
  {
  }

  /** `startUpdate` is given a type it does not know. */
  lemma NoKind(o: Oracle, cb: Callbacks, sl: int32, kind: UpdaterType, cur: Cursor, partition: Option<Partition>)
    requires ToUint32(sl) <= MaxSketchSpace(o.freeSketchSpace) && kind.Unlisted?
    ensures StartUpdate(o, cb, sl, kind, cur, partition) == Outcome(UNKNOWN, partition, cur, CallOnError(cb, UNKNOWN))
  {
  }

  /** The partition table has no partition of the requested type. */
  lemma NoPartition(o: Oracle, cb: Callbacks, sl: int32, kind: UpdaterType, cur: Cursor, partition: Option<Partition>,
                    log0: seq<Call>)
    requires ToUint32(sl) <= MaxSketchSpace(o.freeSketchSpace) && !kind.Unlisted? && Found(o, kind).None?
    ensures var out := StartUpdate(o, cb, sl, kind, cur, partition);
      out.result == NO_PARTITION_AVAILABLE && out.partition == None && out.cur == cur &&
      log0 + [LookupCall(o, kind)] + CallOnError(cb, NO_PARTITION_AVAILABLE) == log0 + out.calls
  {
    Assoc(log0, [LookupCall(o, kind)], CallOnError(cb, NO_PARTITION_AVAILABLE));
  }

  /** `startUpdate` has passed its checks and its transfer loop has ended with `e` at `now` after
      making `made`. */
  ghost predicate LoopEnded(o: Oracle, cb: Callbacks, sl: int32, kind: UpdaterType, cur: Cursor, made: seq<Call>,
                            e: UpdaterError, now: Cursor)
  {
    ToUint32(sl) <= MaxSketchSpace(o.freeSketchSpace) && !kind.Unlisted? && Found(o, kind).Some? &&
    Loop(LoopCtx(o, cb, sl, Found(o, kind).value), Head(0), cur) == Run(e, now, made)
  }

  /** The calls of `startUpdate` up to the end of its loop, as its log receives them. */
  function Upto(o: Oracle, cb: Callbacks, sl: int32, kind: UpdaterType, log0: seq<Call>, made: seq<Call>): seq<Call> {
    log0 + [LookupCall(o, kind)] + CallOnStart(cb) + CallOnProgress(cb, 0, sl) + made
  }

  /** The transfer loop fails: `startUpdate` returns its error. */
  lemma TransferFails(o: Oracle, cb: Callbacks, sl: int32, kind: UpdaterType, cur: Cursor, partition: Option<Partition>,
                      log0: seq<Call>, made: seq<Call>, e: UpdaterError, now: Cursor)
    requires LoopEnded(o, cb, sl, kind, cur, made, e, now) && e != OK
    ensures var out := StartUpdate(o, cb, sl, kind, cur, partition);
      out.result == e && out.partition == Found(o, kind) && out.cur == now &&
      Upto(o, cb, sl, kind, log0, made) == log0 + out.calls
  {
    Reassociate(log0, [LookupCall(o, kind)], CallOnStart(cb), CallOnProgress(cb, 0, sl), made);
  }

  /** The transfer loop succeeds and the boot partition is switched (or fails to). */
  lemma TransferBoots(o: Oracle, cb: Callbacks, sl: int32, kind: UpdaterType, cur: Cursor, partition: Option<Partition>,
                      log0: seq<Call>, made: seq<Call>, now: Cursor)
    requires LoopEnded(o, cb, sl, kind, cur, made, OK, now) && kind == FIRMWARE
    ensures var out := StartUpdate(o, cb, sl, kind, cur, partition);
      var b := SetBoot(o, now, Found(o, kind).value);
      out.partition == Found(o, kind) && out.cur == b.cur &&
      (b.ok ==> out.result == OK && Upto(o, cb, sl, kind, log0, made) + [b.call] + CallOnEnd(cb) == log0 + out.calls) &&
      (!b.ok ==>
         out.result == CHANGE_BOOT_PARTITION_FAILED &&
         Upto(o, cb, sl, kind, log0, made) + [b.call] + CallOnError(cb, CHANGE_BOOT_PARTITION_FAILED) == log0 + out.calls)
  {
    var b := SetBoot(o, now, Found(o, kind).value);
    var pre := [LookupCall(o, kind)] + CallOnStart(cb) + CallOnProgress(cb, 0, sl);
    var fin := if b.ok then CallOnEnd(cb) else CallOnError(cb, CHANGE_BOOT_PARTITION_FAILED);
    Reassociate(log0, [LookupCall(o, kind)], CallOnStart(cb), CallOnProgress(cb, 0, sl), made);
    assert log0 + (pre + made + [b.call] + fin) == log0 + (pre + made) + [b.call] + fin;
  }

  /** The transfer loop of a SPIFFS update succeeds. */
  lemma TransferEnds(o: Oracle, cb: Callbacks, sl: int32, kind: UpdaterType, cur: Cursor, partition: Option<Partition>,
                     log0: seq<Call>, made: seq<Call>, now: Cursor)
    requires LoopEnded(o, cb, sl, kind, cur, made, OK, now) && kind == SPIFFS
    ensures var out := StartUpdate(o, cb, sl, kind, cur, partition);
      out.result == OK && out.partition == Found(o, kind) && out.cur == now &&
      Upto(o, cb, sl, kind, log0, made) + CallOnEnd(cb) == log0 + out.calls
  {
    var pre := [LookupCall(o, kind)] + CallOnStart(cb) + CallOnProgress(cb, 0, sl);
    Reassociate(log0, [LookupCall(o, kind)], CallOnStart(cb), CallOnProgress(cb, 0, sl), made);
    assert log0 + (pre + made + CallOnEnd(cb)) == log0 + (pre + made) + CallOnEnd(cb);
  }

  lemma Reassociate(l: seq<Call>, a: seq<Call>, b: seq<Call>, c: seq<Call>, m: seq<Call>)
    ensures l + a + b + c + m == l + (a + b + c + m)
  {
  }

  class Updater {
    /** What the device's environment answers: the stream's pace, the flash results, the free
        sketch space and the partition table. */
    const env: Oracle
    /** How much of the environment has been used: the stream's unread bytes and the calls made. */
    var world: Cursor
    /** Every call the object has made, in order. */
    var log: seq<Call>

    var cb: Callbacks
    var streamLength: int32
    var newPartition: Option<Partition>
    /** `_buffer[BLOCK_SIZE_P]`. */
    const buffer: array<byte>

    ghost predicate Valid()
      reads this
    {
      buffer.Length == BLOCK_SIZE_P
    }

    /** `Updater(pin, ledOnHigh)`: no callbacks and no partition. The LED pin is not modelled;
        `_streamLength` and the buffer's bytes are left undetermined by the source. */
    constructor (env: Oracle, world: Cursor)
      ensures Valid() && fresh(buffer)
      ensures this.env == env && this.world == world && log == []
      ensures cb == Callbacks(Null, Null, Null, Null) && newPartition == None
    {
      this.env := env;
      this.world := world;
      log := [];
      cb := Callbacks(Null, Null, Null, Null);
      streamLength := 0;
      newPartition := None;
      buffer := new byte[BLOCK_SIZE_P];
    }

    method SetOnStartFunc(f: Callback)
      modifies this`cb
      ensures cb == old(cb).(onStart := f)
    {
      cb := cb.(onStart := f);
    }

    method SetOnProgressFunc(f: Callback)
      modifies this`cb
      ensures cb == old(cb).(onProgress := f)
    {
      cb := cb.(onProgress := f);
    }

    method SetOnEndFunc(f: Callback)
      modifies this`cb
      ensures cb == old(cb).(onEnd := f)
    {
      cb := cb.(onEnd := f);
    }

    method SetOnErrorFunc(f: Callback)
      modifies this`cb
      ensures cb == old(cb).(onError := f)
    {
      cb := cb.(onError := f);
    }

    method CallOnStart()
      modifies this`log
      ensures log == old(log) + UpdaterSpec.CallOnStart(cb)
    {
      if cb.onStart.Fn? {
        log := log + [OnStart];
      }
    }

    method CallOnProgress(written: int, length: int)
      modifies this`log
      ensures log == old(log) + UpdaterSpec.CallOnProgress(cb, written, length)
    {
      if cb.onProgress.Fn? {
        log := log + [OnProgress(written, length)];
      }
    }

    method CallOnEnd()
      modifies this`log
      ensures log == old(log) + UpdaterSpec.CallOnEnd(cb)
    {
      if cb.onEnd.Fn? {
        log := log + [OnEnd];
      }
    }

    method CallOnError(code: int)
      modifies this`log
      ensures log == old(log) + (if cb.onError.Fn? then [OnError(code)] else [])
    {
      if cb.onError.Fn? {
        log := log + [OnError(code)];
      }
    }

    /** `_abort(error)`: reports the error's code and returns it. */
    method Abort(error: UpdaterError) returns (r: UpdaterError)
      modifies this`log
      ensures r == error && log == old(log) + UpdaterSpec.CallOnError(cb, error)
    {
      CallOnError(Code(error));
      r := error;
    }

    /** `resetBuffer(length)`: zeroes the first `length` bytes of the buffer. */
    method ResetBuffer(length: nat)
      requires length <= buffer.Length
      modifies buffer
      ensures forall i :: 0 <= i < length ==> buffer[i] == 0
      ensures forall i :: length <= i < buffer.Length ==> buffer[i] == old(buffer[i])
    {
      var i := 0;
      while i < length
        invariant i <= length
        invariant forall k :: 0 <= k < i ==> buffer[k] == 0
        invariant forall k :: i <= k < buffer.Length ==> buffer[k] == old(buffer[k])
      {
        buffer[i] := 0;
        i := i + 1;
      }
    }

    /** `_streamData->readBytes(_buffer, n)`: the bytes that arrive land at the front of the buffer. */
    method ReadBytes(n: nat) returns (got: nat)
      requires n <= buffer.Length
      modifies this`world, this`log, buffer
      ensures var r := StreamRead(env, old(world), n);
        got == |r.data| && world == r.cur && log == old(log) + [r.call] &&
        buffer[..got] == r.data && buffer[got..] == old(buffer[got..])
    {
      var r := StreamRead(env, world, n);
      got := |r.data|;
      forall i | 0 <= i < got {
        buffer[i] := r.data[i];
      }
      world := r.cur;
      log := log + [r.call];
    }

    /** `readBlockFirmwareToBuffer(offset, length)`: asks for `min(length, len - offset)` bytes,
        up to 30 times while nothing arrives, and returns what the last call delivered, which is
        at the front of the buffer. */
    method ReadBlockFirmwareToBuffer(offset: nat, length: nat) returns (readed: nat)
      requires Valid() && length == BLOCK_SIZE_P && offset < ToUint32(streamLength)
      modifies this`world, this`log, buffer
      ensures var b := ReadTries(env, old(world), BlockLength(ToUint32(streamLength), offset, length), 0);
        readed == |b.data| && buffer[..readed] == b.data && buffer[readed..] == old(buffer[readed..]) &&
        world == b.cur && log == old(log) + b.calls
    {
      var n := length;
      if ToUint32(streamLength) < offset + length {
        n := ToUint32(streamLength) - offset;
      }
      assert n == BlockLength(ToUint32(streamLength), offset, length);
      ghost var w0 := world;
      ghost var whole := ReadFrom(env, w0, n, 0, log);
      ghost var rd := StreamRead(env, w0, n);
      readed := ReadBytes(n);
      ghost var data := rd.data;
      var retry: nat := 1;
      while readed == 0 && retry < 30
        invariant 1 <= retry <= READ_TRIES && readed == |data| && readed <= n
        invariant buffer[..readed] == data && buffer[readed..] == old(buffer[readed..])
        invariant readed == 0 && retry < READ_TRIES ==> ReadFrom(env, world, n, retry, log) == whole
        invariant readed != 0 || retry == READ_TRIES ==> whole == Block(data, world, log)
        decreases READ_TRIES - retry
      {
        rd := StreamRead(env, world, n);
        readed := ReadBytes(n);
        data := rd.data;
        retry := retry + 1;
      }
      ReadFromTries(env, w0, n, 0, old(log));
    }

    /** `resetPartitionRange(offset, length)`: erases the range; a failure reads as `UNKNOWN`. */
    method ResetPartitionRange(offset: nat, length: nat) returns (err: UpdaterError)
      requires newPartition.Some?
      modifies this`world, this`log
      ensures var e := Erase(env, old(world), newPartition.value, offset, length);
        world == e.cur && log == old(log) + [e.call] && err == (if e.ok then OK else UNKNOWN)
    {
      var e := Erase(env, world, newPartition.value, offset, length);
      world := e.cur;
      log := log + [e.call];
      err := if e.ok then OK else UNKNOWN;
    }

    /** `writeBlockBufferToPartition(offset, length)`: writes the first `length` bytes of the
        buffer at `offset`; a failure reads as `PARTITION_WRITE_FAILED`. */
    method WriteBlockBufferToPartition(offset: nat, length: nat) returns (err: UpdaterError)
      requires newPartition.Some? && length <= buffer.Length
      modifies this`world, this`log
      ensures var f := WriteAt(env, old(world), newPartition.value, offset, buffer[..length]);
        world == f.cur && log == old(log) + [f.call] && err == (if f.ok then OK else PARTITION_WRITE_FAILED)
    {
      var f := WriteAt(env, world, newPartition.value, offset, buffer[..length]);
      world := f.cur;
      log := log + [f.call];
      err := if f.ok then OK else PARTITION_WRITE_FAILED;
    }

    /** `changeBootPartition()`: makes the new partition the boot partition. */
    method ChangeBootPartition() returns (err: UpdaterError)
      requires newPartition.Some?
      modifies this`world, this`log
      ensures var b := SetBoot(env, old(world), newPartition.value);
        world == b.cur && log == old(log) + [b.call] && err == (if b.ok then OK else CHANGE_BOOT_PARTITION_FAILED)
    {
      var b := SetBoot(env, world, newPartition.value);
      world := b.cur;
      log := log + [b.call];
      err := if b.ok then OK else CHANGE_BOOT_PARTITION_FAILED;
    }

    /** `getAPPUpdatePartition()`: the next OTA partition, or `NO_PARTITION_AVAILABLE`. */
    method GetAPPUpdatePartition() returns (err: UpdaterError)
      modifies this`newPartition, this`log
      ensures newPartition == env.nextUpdatePartition && log == old(log) + [NextUpdatePartition(newPartition)]
      ensures err == (if newPartition.Some? then OK else NO_PARTITION_AVAILABLE)
    {
      newPartition := env.nextUpdatePartition;
      log := log + [NextUpdatePartition(newPartition)];
      err := if newPartition.Some? then OK else NO_PARTITION_AVAILABLE;
    }

    /** `getSPIFFSPartition()`: the first SPIFFS data partition, or `NO_PARTITION_AVAILABLE`. */
    method GetSPIFFSPartition() returns (err: UpdaterError)
      modifies this`newPartition, this`log
      ensures newPartition == env.spiffsPartition && log == old(log) + [FindSpiffsPartition(newPartition)]
      ensures err == (if newPartition.Some? then OK else NO_PARTITION_AVAILABLE)
    {
      newPartition := env.spiffsPartition;
      log := log + [FindSpiffsPartition(newPartition)];
      err := if newPartition.Some? then OK else NO_PARTITION_AVAILABLE;
    }

    /** What the transfer loop's fixed data `c` says about the object: its oracle, callbacks,
        stream length, space bound and partition. */
    ghost predicate Serves(c: Ctx, maxSketchSpace: uint32)
      reads this
    {
      Valid() && newPartition == Some(c.part) && maxSketchSpace == c.maxSketch &&
      c.o == env && c.cb == cb && c.streamLength == streamLength && c.len == ToUint32(streamLength)
    }

    /** The look-ahead erase of the next block's range (src/Updater.cpp:113-119). It ends with
        `OK` ready to write the block, or with the loop's error. */
    method EraseAhead(written: nat, maxSketchSpace: uint32, ghost data: seq<byte>, ghost c: Ctx, ghost cur0: Cursor,
                      ghost pre: seq<Call>, ghost made: seq<Call>) returns (err: UpdaterError, ghost made': seq<Call>)
      requires Serves(c, maxSketchSpace) && log == pre + made && At(c, cur0, made, ErasingAhead(written, data), world)
      modifies this`world, this`log
      ensures log == pre + made'
      ensures err == OK ==> At(c, cur0, made', Writing(written, data), world)
      ensures err != OK ==> Loop(c, Head(0), cur0) == Run(err, world, made')
    {
      ghost var at := world;
      ghost var a := Erase(env, at, c.part, written + BLOCK_SIZE_P, BLOCK_SIZE_P);
      err := ResetPartitionRange(written + BLOCK_SIZE_P, BLOCK_SIZE_P);
      Assoc(pre, made, [a.call]);
      made' := made + [a.call];
      if err != OK {
        AheadFails(c, cur0, made, written, data, at, a);
        err := Abort(err);
        Assoc(pre, made', UpdaterSpec.CallOnError(cb, UNKNOWN));
        made' := made' + UpdaterSpec.CallOnError(cb, UNKNOWN);
        return;
      }
      AheadThenWrite(c, cur0, made, written, data, at, a);
    }

    /** The erases of a pass of the loop of `startUpdate` (src/Updater.cpp:108-118): the block's
        range, and the next block's when the look-ahead condition holds. It ends with `OK` ready to
        write the block, or with the loop's error. */
    method EraseRanges(written: nat, maxSketchSpace: uint32, ghost data: seq<byte>, ghost c: Ctx, ghost cur0: Cursor,
                       ghost pre: seq<Call>, ghost made: seq<Call>) returns (err: UpdaterError, ghost made': seq<Call>)
      requires Serves(c, maxSketchSpace) && log == pre + made && At(c, cur0, made, Erasing(written, data), world)
      modifies this`world, this`log
      ensures log == pre + made'
      ensures err == OK ==> At(c, cur0, made', Writing(written, data), world)
      ensures err != OK ==> Loop(c, Head(0), cur0) == Run(err, world, made')
    {
      ghost var at := world;
      ghost var e := Erase(env, at, c.part, written, BLOCK_SIZE_P);
      err := ResetPartitionRange(written, BLOCK_SIZE_P);
      Assoc(pre, made, [e.call]);
      made' := made + [e.call];
      if err != OK {
        EraseFails(c, cur0, made, written, data, at, e);
        err := Abort(err);
        Assoc(pre, made', UpdaterSpec.CallOnError(cb, UNKNOWN));
        made' := made' + UpdaterSpec.CallOnError(cb, UNKNOWN);
        return;
      }
      if ToUint32(streamLength) == written + BLOCK_SIZE_P && ToUint32(streamLength) < SubUint32(maxSketchSpace, BLOCK_SIZE_P) {
        EraseThenAhead(c, cur0, made, written, data, at, e);
        err, made' := EraseAhead(written, maxSketchSpace, data, c, cur0, pre, made');
      } else {
        EraseThenWrite(c, cur0, made, written, data, at, e);
      }
    }

    /** The write of a block whose ranges are erased, then the progress report
        (src/Updater.cpp:121-127). It ends with `OK` back at the loop test, or with the loop's
        error. */
    method WriteBlock(written: nat, toWrite: nat, maxSketchSpace: uint32, ghost c: Ctx, ghost cur0: Cursor,
                      ghost pre: seq<Call>, ghost made: seq<Call>) returns (err: UpdaterError, ghost made': seq<Call>)
      requires Serves(c, maxSketchSpace) && toWrite <= BLOCK_SIZE_P && log == pre + made
      requires At(c, cur0, made, Writing(written, buffer[..toWrite]), world)
      modifies this`world, this`log
      ensures log == pre + made'
      ensures err == OK ==> At(c, cur0, made', Head(written + toWrite), world)
      ensures err != OK ==> Loop(c, Head(0), cur0) == Run(err, world, made')
    {
      ghost var data := buffer[..toWrite];
      ghost var at := world;
      ghost var f := WriteAt(env, at, c.part, written, data);
      var w': uint32 := written + toWrite;
      ghost var failure := UpdaterSpec.CallOnError(c.cb, PARTITION_WRITE_FAILED);
      if f.ok {
        WriteThenHead(c, cur0, made, written, data, at, f, w');
      } else {
        WriteFails(c, cur0, made, written, data, at, f);
      }
      err := WriteBlockBufferToPartition(written, toWrite);
      Assoc(pre, made, [f.call]);
      made' := made + [f.call];
      if err != OK {
        err := Abort(err);
        Assoc(pre, made', failure);
        made' := made' + failure;
        return;
      }
      made' := ReportProgress(w', maxSketchSpace, c, cur0, pre, made');
    }

    /** The progress report that ends a pass of the loop of `startUpdate`
        (src/Updater.cpp:126-127), back at the loop test. */
    method ReportProgress(w': uint32, maxSketchSpace: uint32, ghost c: Ctx, ghost cur0: Cursor, ghost pre: seq<Call>,
                          ghost made: seq<Call>) returns (ghost made': seq<Call>)
      requires Serves(c, maxSketchSpace) && log == pre + made
      requires At(c, cur0, made + UpdaterSpec.CallOnProgress(c.cb, ToInt32(w'), c.streamLength), Head(w'), world)
      modifies this`log
      ensures log == pre + made' && At(c, cur0, made', Head(w'), world)
    {
      ghost var progress := UpdaterSpec.CallOnProgress(c.cb, ToInt32(w'), c.streamLength);
      CallOnProgress(ToInt32(w'), streamLength);
      Assoc(pre, made, progress);
      made' := made + progress;
    }

    /** The part of a pass of the loop of `startUpdate` that follows a successful read of a block
        of `toWrite` bytes (src/Updater.cpp:108-127): the erases, then the write of the block and
        the progress report. It ends with `OK` back at the loop test, or with the loop's error. */
    method PlaceBlock(written: nat, toWrite: nat, maxSketchSpace: uint32, ghost c: Ctx, ghost cur0: Cursor,
                      ghost pre: seq<Call>, ghost made: seq<Call>) returns (err: UpdaterError, ghost made': seq<Call>)
      requires Serves(c, maxSketchSpace) && toWrite <= BLOCK_SIZE_P && log == pre + made
      requires At(c, cur0, made, Erasing(written, buffer[..toWrite]), world)
      modifies this`world, this`log
      ensures log == pre + made'
      ensures err == OK ==> At(c, cur0, made', Head(written + toWrite), world)
      ensures err != OK ==> Loop(c, Head(0), cur0) == Run(err, world, made')
    {
      ghost var m;
      err, m := EraseRanges(written, maxSketchSpace, buffer[..toWrite], c, cur0, pre, made);
      if err != OK {
        made' := m;
        return;
      }
      err, made' := WriteBlock(written, toWrite, maxSketchSpace, c, cur0, pre, m);
    }

    /** The start of a pass of the loop of `startUpdate` (src/Updater.cpp:91-106): the cleared
        buffer and the block read into it. Either the loop goes on to erase for the block, or the
        read failed and the loop is about to end with `READ_FAILED`. */
    method NextBlock(written: nat, maxSketchSpace: uint32, ghost c: Ctx, ghost cur0: Cursor,
                     ghost pre: seq<Call>, ghost made: seq<Call>) returns (toWrite: nat, ghost made': seq<Call>)
      requires Serves(c, maxSketchSpace) && written < c.len && log == pre + made
      requires At(c, cur0, made, Head(written), world)
      modifies this`world, this`log, buffer
      ensures Serves(c, maxSketchSpace) && log == pre + made' && toWrite <= BLOCK_SIZE_P
      ensures forall k :: toWrite <= k < BLOCK_SIZE_P ==> buffer[k] == 0
      ensures toWrite != 0 ==> At(c, cur0, made', Erasing(written, buffer[..toWrite]), world)
      ensures toWrite == 0 ==> Loop(c, Head(0), cur0) == Run(READ_FAILED, world, made' + UpdaterSpec.CallOnError(cb, READ_FAILED))
    {
      ghost var at := world;
      assert c.len == ToUint32(streamLength) && c.o == env;
      ghost var b := ReadTries(c.o, at, BlockLength(c.len, written, BLOCK_SIZE_P), 0);
      ResetBuffer(BLOCK_SIZE_P);
      toWrite := ReadBlockFirmwareToBuffer(written, BLOCK_SIZE_P);
      assert toWrite == |b.data| && buffer[..toWrite] == b.data && world == b.cur && log == pre + made + b.calls;
      Assoc(pre, made, b.calls);
      made' := made + b.calls;
      if toWrite == 0 {
        ReadLost(c, cur0, made, written, at);
      } else {
        ReadDone(c, cur0, made, written, at);
      }
    }

    /** One pass of the loop of `startUpdate` (src/Updater.cpp:91-127): the block read, its
        erases, its write and the report. It ends with `OK` back at the loop test past the
        `toWrite` bytes of the block, or with the loop's error after `_abort`. */
    method Pass(written: nat, maxSketchSpace: uint32, ghost c: Ctx, ghost cur0: Cursor,
                ghost pre: seq<Call>, ghost made: seq<Call>) returns (err: UpdaterError, toWrite: nat, ghost made': seq<Call>)
      requires Serves(c, maxSketchSpace) && written < c.len && log == pre + made
      requires At(c, cur0, made, Head(written), world)
      modifies this`world, this`log, buffer
      ensures Serves(c, maxSketchSpace) && log == pre + made'
      ensures err == OK ==> At(c, cur0, made', Head(written + toWrite), world) && 1 <= toWrite
      ensures err != OK ==> Loop(c, Head(0), cur0) == Run(err, world, made')
    {
      toWrite, made' := NextBlock(written, maxSketchSpace, c, cur0, pre, made);
      if toWrite == 0 {
        err := Abort(READ_FAILED);
        Assoc(pre, made', UpdaterSpec.CallOnError(cb, READ_FAILED));
        made' := made' + UpdaterSpec.CallOnError(cb, READ_FAILED);
        return;
      }
      err, made' := PlaceBlock(written, toWrite, maxSketchSpace, c, cur0, pre, made');
    }

    /** The `while (written < _streamLength)` loop of `startUpdate` (src/Updater.cpp:89-128), with
        its early returns through `_abort`: it runs `UpdaterSpec.Loop` from `Head(0)`. */
    method TransferLoop(maxSketchSpace: uint32, ghost c: Ctx) returns (err: UpdaterError, ghost made: seq<Call>)
      requires Serves(c, maxSketchSpace)
      modifies this`world, this`log, buffer
      ensures Loop(c, Head(0), old(world)) == Run(err, world, made) && log == old(log) + made
    {
      ghost var cur := world;
      ghost var pre := log;
      made := [];
      assert At(c, cur, made, Head(0), world);
      var written: nat := 0;
      var toWrite: nat := 0;
      while written < ToUint32(streamLength)
        invariant Serves(c, maxSketchSpace) && written <= c.len && log == pre + made
        invariant At(c, cur, made, Head(written), world)
        decreases c.len - written
      {
        err, toWrite, made := Pass(written, maxSketchSpace, c, cur, pre, made);
        if err != OK {
          return;
        }
        written := written + toWrite;
      }
      LoopDone(c, cur, made, world);
      err := OK;
    }

    /** `startUpdate(streamData, streamLength, type)` (src/Updater.cpp:62-140), with `stream` the
        bytes `streamData` will deliver. */
    method StartUpdate(stream: seq<byte>, streamLength: int32, kind: UpdaterType) returns (err: UpdaterError)
      requires Valid()
      modifies this`world, this`log, this`streamLength, this`newPartition, buffer
      ensures var out := UpdaterSpec.StartUpdate(env, cb, streamLength, kind, old(world).(rest := stream), old(newPartition));
        err == out.result && newPartition == out.partition && world == out.cur && log == old(log) + out.calls
      ensures this.streamLength == streamLength
    {
      world := world.(rest := stream);
      this.streamLength := streamLength;
      ghost var cur := world;
      var maxSketchSpace := MaxSketchSpace(env.freeSketchSpace);
      if ToUint32(streamLength) > maxSketchSpace {
        NoSpace(env, cb, streamLength, kind, cur, old(newPartition));
        err := Abort(NO_ENOUGH_SPACE);
        return;
      }
      if kind == FIRMWARE {
        err := GetAPPUpdatePartition();
      } else if kind == SPIFFS {
        err := GetSPIFFSPartition();
      } else {
        err := UNKNOWN;
      }
      if err != OK {
        if kind.Unlisted? {
          NoKind(env, cb, streamLength, kind, cur, old(newPartition));
        } else {
          NoPartition(env, cb, streamLength, kind, cur, old(newPartition), old(log));
        }
        err := Abort(err);
        return;
      }
      CallOnStart();
      CallOnProgress(0, streamLength);
      ghost var c := LoopCtx(env, cb, streamLength, newPartition.value);
      ghost var made;
      err, made := TransferLoop(maxSketchSpace, c);
      assert LoopEnded(env, cb, streamLength, kind, cur, made, err, world);
      if err != OK {
        TransferFails(env, cb, streamLength, kind, cur, old(newPartition), old(log), made, err, world);
        return;
      }
      if kind == FIRMWARE {
        TransferBoots(env, cb, streamLength, kind, cur, old(newPartition), old(log), made, world);
        err := ChangeBootPartition();
      } else {
        TransferEnds(env, cb, streamLength, kind, cur, old(newPartition), old(log), made, world);
      }
      if err != OK {
        err := Abort(err);
        return;
      }
      CallOnEnd();
      err := OK;
    }
  }
}
