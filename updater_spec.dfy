/** What `Updater::startUpdate` (src/Updater.cpp) does, as functions of the environment's answers:
    the result it returns, the partition it leaves selected, and the calls it makes, in order.
    The class in module Updater is proved to behave exactly like these functions; the lemmas in
    module UpdaterProperties state what the source promises about them. */
module UpdaterSpec {
  import opened Types
  import opened Platform

  /** `UPDATER_ERROR`, in declaration order. */
  datatype UpdaterError =
    | OK
    | NO_PARTITION_AVAILABLE
    | CHANGE_BOOT_PARTITION_FAILED
    | PARTITION_WRITE_FAILED
    | READ_FAILED
    | NO_ENOUGH_SPACE
    | UNKNOWN

  /** `(int)error`, the value `_abort` hands to the error callback. */
  function Code(e: UpdaterError): (c: int)
    ensures 0 <= c <= 6 && (c == 0 <==> e == OK)
  {
    match e
    case OK => 0
    case NO_PARTITION_AVAILABLE => 1
    case CHANGE_BOOT_PARTITION_FAILED => 2
    case PARTITION_WRITE_FAILED => 3
    case READ_FAILED => 4
    case NO_ENOUGH_SPACE => 5
    case UNKNOWN => 6
  }

  /** `UPDATER_TYPE`; `Unlisted` stands for any other value a cast can put in the enum. */
  datatype UpdaterType = FIRMWARE | SPIFFS | Unlisted(value: int)

  /** A callback as the caller registers it: null, or some function of the caller's. */
  datatype Callback = Null | Fn(id: nat)

  /** `_onStart_cb`, `_onProgress_cb`, `_onEnd_cb`, `_onError_cb`. */
  datatype Callbacks = Callbacks(onStart: Callback, onProgress: Callback, onEnd: Callback, onError: Callback)

  /** How many times `readBlockFirmwareToBuffer` calls `readBytes` before giving up. */
  const READ_TRIES: nat := 30

  /** `callOnStart`, `callOnProgress`, `callOnEnd`, `callOnError`: a null callback is a no-op. */
  function CallOnStart(cb: Callbacks): seq<Call> {
    if cb.onStart.Fn? then [OnStart] else []
  }

  function CallOnProgress(cb: Callbacks, written: int, total: int): seq<Call> {
    if cb.onProgress.Fn? then [OnProgress(written, total)] else []
  }

  function CallOnEnd(cb: Callbacks): seq<Call> {
    if cb.onEnd.Fn? then [OnEnd] else []
  }

  function CallOnError(cb: Callbacks, e: UpdaterError): seq<Call> {
    if cb.onError.Fn? then [OnError(Code(e))] else []
  }

  /** The clamp of `readBlockFirmwareToBuffer`: the last block asks only for what is left. */
  function BlockLength(len: nat, offset: nat, length: nat): (n: nat)
    requires offset <= len
    ensures n == Min(length, len - offset)
  {
    if len < offset + length then len - offset else length
  }

  /** What stays fixed during the transfer loop: the oracle, the callbacks, `_streamLength`, its
      unsigned view `len` (the loop compares it with `size_t` values), `maxSketchSpace`, and the
      selected partition. */
  datatype Ctx = Ctx(o: Oracle, cb: Callbacks, streamLength: int32, len: uint32, maxSketch: uint32, part: Partition)

  /** The condition of the look-ahead erase, with `maxSketchSpace - BLOCK_SIZE_P` in `uint32_t`. */
  predicate LookAhead(c: Ctx, written: nat) {
    c.len == written + BLOCK_SIZE_P && c.len < SubUint32(c.maxSketch, BLOCK_SIZE_P)
  }

  /** What a block read gives: the bytes the last `readBytes` call delivered, the environment
      after it, and the calls made. */
  datatype Block = Block(data: seq<byte>, cur: Cursor, calls: seq<Call>)

  /** The retry loop of `readBlockFirmwareToBuffer` asking for `n` bytes, once `tries` calls
      delivered nothing: one more call, and another while nothing arrives and fewer than
      `READ_TRIES` calls were made. Only the call that delivers something fills the buffer. */
  function ReadTries(o: Oracle, cur: Cursor, n: nat, tries: nat): (b: Block)
    requires tries < READ_TRIES
    decreases READ_TRIES - tries
    ensures |b.data| <= n && 1 <= |b.calls| <= READ_TRIES - tries
  {
    var rd := StreamRead(o, cur, n);
    if |rd.data| != 0 || tries + 1 == READ_TRIES then Block(rd.data, rd.cur, [rd.call])
    else var b := ReadTries(o, rd.cur, n, tries + 1); Block(b.data, b.cur, [rd.call] + b.calls)
  }

  /** Where the transfer loop is: at the loop test with `written` bytes done, or with a block
      `data` read and about to erase its range, erase the range after it, or write it. */
  datatype Phase =
    | Head(written: nat)
    | Erasing(written: nat, data: seq<byte>)
    | ErasingAhead(written: nat, data: seq<byte>)
    | Writing(written: nat, data: seq<byte>)

  /** The phases the loop can reach: never past `len`, and a block holds at least one byte. */
  predicate PhaseOK(c: Ctx, p: Phase) {
    match p
    case Head(w) => w <= c.len
    case Erasing(w, data) => 1 <= |data| && w + |data| <= c.len
    case ErasingAhead(w, data) => 1 <= |data| && w + |data| <= c.len && LookAhead(c, w)
    case Writing(w, data) => 1 <= |data| && w + |data| <= c.len
  }

  /** Order of the phases within one pass. */
  function Rank(p: Phase): nat {
    match p
    case Head(_) => 3
    case Erasing(_, _) => 2
    case ErasingAhead(_, _) => 1
    case Writing(_, _) => 0
  }

  datatype Run = Run(result: UpdaterError, cur: Cursor, calls: seq<Call>)

  /** `r` with `pre` made before it. */
  function Then(pre: seq<Call>, r: Run): Run {
    Run(r.result, r.cur, pre + r.calls)
  }

  /** The `while (written < _streamLength)` loop of `startUpdate` from phase `p` to its end: `OK`
      means it ran to `written == len`. A block read asks for `min(BLOCK_SIZE_P, len - written)`
      bytes; a read that delivered nothing ends the loop with `READ_FAILED`. */
  function Loop(c: Ctx, p: Phase, cur: Cursor): (r: Run)
    requires PhaseOK(c, p)
    decreases c.len - p.written, Rank(p)
  {
    match p
    case Head(w) =>
      if w < c.len then
        var b := ReadTries(c.o, cur, BlockLength(c.len, w, BLOCK_SIZE_P), 0);
        if |b.data| != 0 then Then(b.calls, Loop(c, Erasing(w, b.data), b.cur))
        else Run(READ_FAILED, b.cur, b.calls + CallOnError(c.cb, READ_FAILED))
      else Run(OK, cur, [])
    case Erasing(w, data) =>
      var e := Erase(c.o, cur, c.part, w, BLOCK_SIZE_P);
      if !e.ok then Run(UNKNOWN, e.cur, [e.call] + CallOnError(c.cb, UNKNOWN))
      else if LookAhead(c, w) then Then([e.call], Loop(c, ErasingAhead(w, data), e.cur))
      else Then([e.call], Loop(c, Writing(w, data), e.cur))
    case ErasingAhead(w, data) =>
      var e := Erase(c.o, cur, c.part, w + BLOCK_SIZE_P, BLOCK_SIZE_P);
      if !e.ok then Run(UNKNOWN, e.cur, [e.call] + CallOnError(c.cb, UNKNOWN))
      else Then([e.call], Loop(c, Writing(w, data), e.cur))
    case Writing(w, data) =>
      var wr := WriteAt(c.o, cur, c.part, w, data);
      if !wr.ok then Run(PARTITION_WRITE_FAILED, wr.cur, [wr.call] + CallOnError(c.cb, PARTITION_WRITE_FAILED))
      else Then([wr.call] + CallOnProgress(c.cb, ToInt32(w + |data|), c.streamLength), Loop(c, Head(w + |data|), wr.cur))
  }

  /** The result of `startUpdate`, the value it leaves in `_newPartition`, the cursor and the calls. */
  datatype Outcome = Outcome(result: UpdaterError, partition: Option<Partition>, cur: Cursor, calls: seq<Call>)

  /** The partition `getAPPUpdatePartition` or `getSPIFFSPartition` obtains, and that lookup's call. */
  function Found(o: Oracle, kind: UpdaterType): Option<Partition> {
    if kind == FIRMWARE then o.nextUpdatePartition else o.spiffsPartition
  }

  function LookupCall(o: Oracle, kind: UpdaterType): Call {
    if kind == FIRMWARE then NextUpdatePartition(o.nextUpdatePartition) else FindSpiffsPartition(o.spiffsPartition)
  }

  /** The loop's fixed data once the space check and the partition lookup have passed. */
  function LoopCtx(o: Oracle, cb: Callbacks, streamLength: int32, part: Partition): Ctx {
    Ctx(o, cb, streamLength, ToUint32(streamLength), MaxSketchSpace(o.freeSketchSpace), part)
  }

  /** `Updater::startUpdate(streamData, streamLength, type)` with `_newPartition == partition` before. */
  function StartUpdate(o: Oracle, cb: Callbacks, streamLength: int32, kind: UpdaterType, cur: Cursor,
                       partition: Option<Partition>): Outcome
  {
    if ToUint32(streamLength) > MaxSketchSpace(o.freeSketchSpace) then
      Outcome(NO_ENOUGH_SPACE, partition, cur, CallOnError(cb, NO_ENOUGH_SPACE))
    else if kind.Unlisted? then
      Outcome(UNKNOWN, partition, cur, CallOnError(cb, UNKNOWN))
    else
      var found := Found(o, kind);
      if found.None? then
        Outcome(NO_PARTITION_AVAILABLE, found, cur, [LookupCall(o, kind)] + CallOnError(cb, NO_PARTITION_AVAILABLE))
      else
        var pre := [LookupCall(o, kind)] + CallOnStart(cb) + CallOnProgress(cb, 0, streamLength);
        var t := Loop(LoopCtx(o, cb, streamLength, found.value), Head(0), cur);
        if t.result != OK then
          Outcome(t.result, found, t.cur, pre + t.calls)
        else if kind == FIRMWARE then
          var b := SetBoot(o, t.cur, found.value);
          if !b.ok then
            Outcome(CHANGE_BOOT_PARTITION_FAILED, found, b.cur,
                    pre + t.calls + [b.call] + CallOnError(cb, CHANGE_BOOT_PARTITION_FAILED))
          else
            Outcome(OK, found, b.cur, pre + t.calls + [b.call] + CallOnEnd(cb))
        else
          Outcome(OK, found, t.cur, pre + t.calls + CallOnEnd(cb))
  }
}
