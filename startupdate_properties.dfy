/** What `Updater::startUpdate` (src/Updater.cpp) promises as a whole, proved about
    `UpdaterSpec.StartUpdate` from the properties of its transfer loop. */
module StartUpdateProperties {
  import opened Types
  import opened Platform
  import opened UpdaterSpec
  import opened UpdaterProperties

  /** The space check and the partition lookup both passed: the update starts. */
  predicate Started(o: Oracle, sl: int32, kind: UpdaterType) {
    ToUint32(sl) <= MaxSketchSpace(o.freeSketchSpace) && !kind.Unlisted? && Found(o, kind).Some?
  }

  /** The transfer loop of an update that started. */
  function Transfer(o: Oracle, cb: Callbacks, sl: int32, kind: UpdaterType, cur: Cursor): Run
    requires Started(o, sl, kind)
  {
    Loop(LoopCtx(o, cb, sl, Found(o, kind).value), Head(0), cur)
  }

  /** The update started and its transfer loop wrote the whole stream. */
  predicate Transferred(o: Oracle, cb: Callbacks, sl: int32, kind: UpdaterType, cur: Cursor) {
    Started(o, sl, kind) && Transfer(o, cb, sl, kind, cur).result == OK
  }

  /** The calls before the loop: the partition lookup, `callOnStart` and `callOnProgress(0, len)`. */
  function Prelude(o: Oracle, cb: Callbacks, sl: int32, kind: UpdaterType): seq<Call> {
    [LookupCall(o, kind)] + CallOnStart(cb) + CallOnProgress(cb, 0, sl)
  }

  /** The calls after the loop: nothing after a failure (the loop has called `onError`); otherwise
      the boot switch for firmware, then `onEnd`, or `onError` when the switch failed. */
  function Finale(o: Oracle, cb: Callbacks, kind: UpdaterType, t: Run, part: Partition): seq<Call> {
    if t.result != OK then []
    else if kind == FIRMWARE then
      [SetBootPartition(part)] +
      (if o.bootOk(t.cur.bootCalls) then CallOnEnd(cb) else CallOnError(cb, CHANGE_BOOT_PARTITION_FAILED))
    else CallOnEnd(cb)
  }

  /** An update that started makes its prelude, the loop's calls and its finale, in this order. */
  lemma StartedCalls(o: Oracle, cb: Callbacks, sl: int32, kind: UpdaterType, cur: Cursor, partition: Option<Partition>)
    requires Started(o, sl, kind)
    ensures var out := StartUpdate(o, cb, sl, kind, cur, partition);
      var t := Transfer(o, cb, sl, kind, cur);
      out.calls == Prelude(o, cb, sl, kind) + t.calls + Finale(o, cb, kind, t, Found(o, kind).value) &&
      out.partition == Found(o, kind) && out.cur.rest == t.cur.rest && (out.result == OK ==> t.result == OK)
  {
    var t := Transfer(o, cb, sl, kind, cur);
    var pre := Prelude(o, cb, sl, kind);
    if t.result == OK && kind == FIRMWARE {
      var post := Finale(o, cb, kind, t, Found(o, kind).value);
      assert pre + t.calls + post == pre + t.calls + [SetBootPartition(Found(o, kind).value)] + post[1..];
    } else if t.result != OK {
      assert pre + t.calls + [] == pre + t.calls;
    }
  }

  // ---------------------------------------------------------------------------------------------
  // Early exits

  /** Each early exit returns its error through `_abort` before `onStart` and before any flash
      call: too little space (checked first, before any lookup), an unlisted update type (no
      lookup either), and a lookup that found no partition. */
  lemma EarlyExits(o: Oracle, cb: Callbacks, sl: int32, kind: UpdaterType, cur: Cursor, partition: Option<Partition>)
    ensures var out := StartUpdate(o, cb, sl, kind, cur, partition);
      (ToUint32(sl) > MaxSketchSpace(o.freeSketchSpace) ==>
         out.result == NO_ENOUGH_SPACE && out.calls == CallOnError(cb, NO_ENOUGH_SPACE) &&
         out.cur == cur && out.partition == partition) &&
      (ToUint32(sl) <= MaxSketchSpace(o.freeSketchSpace) && kind.Unlisted? ==>
         out.result == UNKNOWN && out.calls == CallOnError(cb, UNKNOWN) &&
         out.cur == cur && out.partition == partition) &&
      (ToUint32(sl) <= MaxSketchSpace(o.freeSketchSpace) && !kind.Unlisted? && Found(o, kind).None? ==>
         out.result == NO_PARTITION_AVAILABLE && out.calls == [LookupCall(o, kind)] + CallOnError(cb, NO_PARTITION_AVAILABLE) &&
         out.cur == cur && out.partition == None) &&
      (!Started(o, sl, kind) ==> NoFlashCalls(out.calls) && OnStart !in out.calls)
  {
    var out := StartUpdate(o, cb, sl, kind, cur, partition);
    if !Started(o, sl, kind) {
      assert forall i :: 0 <= i < |out.calls| ==> out.calls[i].OnError? || out.calls[i] == LookupCall(o, kind);
    }
  }

  // ---------------------------------------------------------------------------------------------
  // Callbacks

  /** No call of the log is an end or error callback. */
  predicate NoFinalCallback(calls: seq<Call>) {
    forall i :: 0 <= i < |calls| ==> !calls[i].OnError? && !calls[i].OnEnd?
  }

  /** `calls` ends with `tail`, and no end or error callback comes before it. */
  predicate EndsWith(calls: seq<Call>, tail: seq<Call>) {
    |tail| <= |calls| && calls[|calls| - |tail|..] == tail && NoFinalCallback(calls[..|calls| - |tail|])
  }

  lemma EndsWithAppend(a: seq<Call>, b: seq<Call>, tail: seq<Call>)
    requires NoFinalCallback(a) && EndsWith(b, tail)
    ensures EndsWith(a + b, tail)
  {
    assert (a + b)[|a + b| - |tail|..] == b[|b| - |tail|..];
    assert (a + b)[..|a + b| - |tail|] == a + b[..|b| - |tail|];
  }

  lemma NoFinalCallbackAppend(a: seq<Call>, b: seq<Call>)
    requires NoFinalCallback(a) && NoFinalCallback(b)
    ensures NoFinalCallback(a + b)
  {
    assert forall i :: |a| <= i < |a + b| ==> (a + b)[i] == b[i - |a|];
  }

  /** The loop's own calls are neither end nor error callbacks. */
  lemma LoopNoFinalCallback(calls: seq<Call>, tail: seq<Call>)
    requires LoopThen(calls, tail)
    ensures EndsWith(calls, tail)
  {
    assert calls[..|calls| - |tail|] + tail == calls;
    assert forall i :: 0 <= i < |calls| - |tail| ==> calls[..|calls| - |tail|][i] == calls[i];
  }

  /** A failed update calls `onError` once, with its code, as its last call and never calls
      `onEnd`; a successful one calls `onEnd` once, as its last call, and never `onError`. A
      callback that is not set is not called. */
  lemma CallbacksAtEnd(o: Oracle, cb: Callbacks, sl: int32, kind: UpdaterType, cur: Cursor, partition: Option<Partition>)
    ensures var out := StartUpdate(o, cb, sl, kind, cur, partition);
      (out.result != OK ==> EndsWith(out.calls, CallOnError(cb, out.result))) &&
      (out.result == OK ==> EndsWith(out.calls, CallOnEnd(cb)))
  {
    var out := StartUpdate(o, cb, sl, kind, cur, partition);
    if !Started(o, sl, kind) {
      if ToUint32(sl) <= MaxSketchSpace(o.freeSketchSpace) && !kind.Unlisted? {
        assert out.calls[..|out.calls| - |CallOnError(cb, out.result)|] == [LookupCall(o, kind)];
      }
    } else {
      StartedCallbacksAtEnd(o, cb, sl, kind, cur, partition);
    }
  }

  /** The started case of `CallbacksAtEnd`. */
  lemma StartedCallbacksAtEnd(o: Oracle, cb: Callbacks, sl: int32, kind: UpdaterType, cur: Cursor, partition: Option<Partition>)
    requires Started(o, sl, kind)
    ensures var out := StartUpdate(o, cb, sl, kind, cur, partition);
      (out.result != OK ==> EndsWith(out.calls, CallOnError(cb, out.result))) &&
      (out.result == OK ==> EndsWith(out.calls, CallOnEnd(cb)))
  {
    var out := StartUpdate(o, cb, sl, kind, cur, partition);
    var t := Transfer(o, cb, sl, kind, cur);
    var c := LoopCtx(o, cb, sl, Found(o, kind).value);
    var pre := Prelude(o, cb, sl, kind);
    var post := Finale(o, cb, kind, t, Found(o, kind).value);
    StartedCalls(o, cb, sl, kind, cur, partition);
    LoopShape(c, 0, cur);
    assert NoFinalCallback(pre);
    if t.result != OK {
      LoopNoFinalCallback(t.calls, ErrorTail(cb, t.result));
      EndsWithAppend(pre, t.calls, ErrorTail(cb, t.result));
      assert pre + t.calls + post == pre + t.calls;
    } else {
      LoopNoFinalCallback(t.calls, []);
      NoFinalCallbackAppend(pre, t.calls);
      var tail := if out.result == OK then CallOnEnd(cb) else CallOnError(cb, out.result);
      if kind == FIRMWARE {
        assert post == [SetBootPartition(Found(o, kind).value)] + tail;
        assert EndsWith(post, tail);
      } else {
        assert post == tail;
        assert EndsWith(post, tail);
      }
      EndsWithAppend(pre + t.calls, post, tail);
    }
  }

  // ---------------------------------------------------------------------------------------------
  // The boot switch

  /** How many times the log switches the boot partition. */
  function Boots(calls: seq<Call>): nat {
    if calls == [] then 0 else (if calls[0].SetBootPartition? then 1 else 0) + Boots(calls[1..])
  }

  lemma {:induction false} BootsAppend(a: seq<Call>, b: seq<Call>)
    ensures Boots(a + b) == Boots(a) + Boots(b)
  {
    if a == [] {
      assert a + b == b;
    } else {
      assert (a + b)[1..] == a[1..] + b;
      BootsAppend(a[1..], b);
    }
  }

  lemma {:induction false} BootsNone(calls: seq<Call>)
    requires forall i :: 0 <= i < |calls| ==> !calls[i].SetBootPartition?
    ensures Boots(calls) == 0
  {
    if calls != [] {
      BootsNone(calls[1..]);
    }
  }

  /** A started update whose loop made no boot switch switches once after a successful loop of
      a firmware update, and never otherwise. */
  lemma BootsOfStarted(o: Oracle, cb: Callbacks, sl: int32, kind: UpdaterType, t: Run, part: Partition)
    requires forall i :: 0 <= i < |t.calls| ==> !t.calls[i].SetBootPartition?
    ensures Boots(Prelude(o, cb, sl, kind) + t.calls + Finale(o, cb, kind, t, part)) ==
            (if t.result == OK && kind == FIRMWARE then 1 else 0)
  {
    var pre := Prelude(o, cb, sl, kind);
    var post := Finale(o, cb, kind, t, part);
    BootsNone(pre);
    BootsNone(t.calls);
    BootsAppend(pre, t.calls);
    BootsAppend(pre + t.calls, post);
    if t.result == OK && kind == FIRMWARE {
      BootsAppend([SetBootPartition(part)], post[1..]);
      assert [SetBootPartition(part)] + post[1..] == post;
      BootsNone(post[1..]);
      assert Boots([SetBootPartition(part)]) == 1;
    } else {
      BootsNone(post);
    }
  }

  /** The boot partition is switched exactly once when a firmware update has transferred the
      whole stream, and never otherwise (never for SPIFFS); the oracle's answer to that one call
      decides between `OK` and `CHANGE_BOOT_PARTITION_FAILED`. */
  lemma BootSwitch(o: Oracle, cb: Callbacks, sl: int32, kind: UpdaterType, cur: Cursor, partition: Option<Partition>)
    ensures var out := StartUpdate(o, cb, sl, kind, cur, partition);
      Boots(out.calls) == (if kind == FIRMWARE && Transferred(o, cb, sl, kind, cur) then 1 else 0) &&
      out.cur.bootCalls == cur.bootCalls + Boots(out.calls) &&
      (out.result == CHANGE_BOOT_PARTITION_FAILED <==>
         kind == FIRMWARE && Transferred(o, cb, sl, kind, cur) && !o.bootOk(cur.bootCalls)) &&
      (out.result == OK <==>
         Transferred(o, cb, sl, kind, cur) && (kind == SPIFFS || o.bootOk(cur.bootCalls)))
  {
    var out := StartUpdate(o, cb, sl, kind, cur, partition);
    if !Started(o, sl, kind) {
      BootsNone(out.calls);
    } else {
      var t := Transfer(o, cb, sl, kind, cur);
      var c := LoopCtx(o, cb, sl, Found(o, kind).value);
      StartedCalls(o, cb, sl, kind, cur, partition);
      LoopShape(c, 0, cur);
      LoopFlashAnswers(c, 0, cur);
      assert forall i :: 0 <= i < |t.calls| ==> !t.calls[i].SetBootPartition? by {
        LoopNoBoot(t.calls, ErrorTail(cb, t.result));
      }
      BootsOfStarted(o, cb, sl, kind, t, Found(o, kind).value);
    }
  }

  /** The loop's log, its own calls followed by its error callback, never switches the boot partition. */
  lemma LoopNoBoot(calls: seq<Call>, tail: seq<Call>)
    requires LoopThen(calls, tail) && forall i :: 0 <= i < |tail| ==> tail[i].OnError?
    ensures forall i :: 0 <= i < |calls| ==> !calls[i].SetBootPartition?
  {
    assert forall i :: |calls| - |tail| <= i < |calls| ==> calls[i] == tail[i - (|calls| - |tail|)];
  }

  // ---------------------------------------------------------------------------------------------
  // What reaches the flash

  lemma WrittenBytesNone(calls: seq<Call>)
    requires forall i :: 0 <= i < |calls| ==> !calls[i].Write?
    ensures WrittenBytes(calls) == []
  {
    NoFlashCallsNoBytes(calls);
  }

  /** A successful update wrote exactly the first `len` bytes of the stream, in order, and left
      the stream just past them. */
  lemma StreamDelivered(o: Oracle, cb: Callbacks, sl: int32, kind: UpdaterType, cur: Cursor, partition: Option<Partition>)
    ensures var out := StartUpdate(o, cb, sl, kind, cur, partition); var len := ToUint32(sl);
      out.result == OK ==>
        len <= |cur.rest| && WrittenBytes(out.calls) == cur.rest[..len] && out.cur.rest == cur.rest[len..]
  {
    var out := StartUpdate(o, cb, sl, kind, cur, partition);
    if out.result == OK {
      assert Started(o, sl, kind);
      var t := Transfer(o, cb, sl, kind, cur);
      StartedCalls(o, cb, sl, kind, cur, partition);
      assert t.result == OK;
      var c := LoopCtx(o, cb, sl, Found(o, kind).value);
      var pre := Prelude(o, cb, sl, kind);
      var post := Finale(o, cb, kind, t, Found(o, kind).value);
      LoopDelivers(c, 0, cur);
      WrittenBytesNone(pre);
      WrittenBytesNone(post);
      WrittenBytesAppend(pre, t.calls);
      WrittenBytesAppend(pre + t.calls, post);
    }
  }

  /** A zero-length stream neither erases nor writes anything. */
  lemma EmptyStreamNoFlash(o: Oracle, cb: Callbacks, kind: UpdaterType, cur: Cursor, partition: Option<Partition>)
    ensures var out := StartUpdate(o, cb, 0, kind, cur, partition);
      forall i :: 0 <= i < |out.calls| ==> !out.calls[i].EraseRange? && !out.calls[i].Write?
  {
    var out := StartUpdate(o, cb, 0, kind, cur, partition);
    if Started(o, 0, kind) {
      StartedCalls(o, cb, 0, kind, cur, partition);
      var t := Transfer(o, cb, 0, kind, cur);
      assert t.calls == [];
    }
  }

  /** Every write of an update comes after the erase of the block it lands in. */
  lemma ErasedFirst(o: Oracle, cb: Callbacks, sl: int32, kind: UpdaterType, cur: Cursor, partition: Option<Partition>)
    ensures ErasedBeforeWritten(StartUpdate(o, cb, sl, kind, cur, partition).calls)
  {
    var out := StartUpdate(o, cb, sl, kind, cur, partition);
    if Started(o, sl, kind) {
      var t := Transfer(o, cb, sl, kind, cur);
      var c := LoopCtx(o, cb, sl, Found(o, kind).value);
      var pre := Prelude(o, cb, sl, kind);
      var post := Finale(o, cb, kind, t, Found(o, kind).value);
      StartedCalls(o, cb, sl, kind, cur, partition);
      assert ErasedBeforeWritten(pre);
      LoopErasesFirstFrom(c, 0, cur, pre);
      ErasedBeforeWrittenNoWrites(pre + t.calls, post);
    } else {
      assert forall i :: 0 <= i < |out.calls| ==> !out.calls[i].Write?;
    }
  }

  /** When none of the 30 reads of the first block delivers a byte, the update fails with
      `READ_FAILED` after exactly those reads, and nothing is erased or written. */
  lemma FirstBlockLost(o: Oracle, cb: Callbacks, sl: int32, kind: UpdaterType, cur: Cursor, partition: Option<Partition>)
    requires Started(o, sl, kind) && 0 < ToUint32(sl) && NothingArrives(o, cur, READ_TRIES)
    ensures var out := StartUpdate(o, cb, sl, kind, cur, partition);
      out.result == READ_FAILED &&
      out.calls == Prelude(o, cb, sl, kind) + EmptyReads(READ_TRIES, Min(BLOCK_SIZE_P, ToUint32(sl))) +
                   CallOnError(cb, READ_FAILED)
  {
    var c := LoopCtx(o, cb, sl, Found(o, kind).value);
    var t := Transfer(o, cb, sl, kind, cur);
    assert t == Loop(c, Head(0), cur);
    var n := BlockLength(c.len, 0, BLOCK_SIZE_P);
    assert n == Min(BLOCK_SIZE_P, ToUint32(sl));
    var pre := Prelude(o, cb, sl, kind);
    ReadFailure(c, 0, cur);
    StartedCalls(o, cb, sl, kind, cur, partition);
    assert pre + t.calls + [] == pre + t.calls;
    Assoc(pre, EmptyReads(READ_TRIES, n), CallOnError(cb, READ_FAILED));
  }

  // ---------------------------------------------------------------------------------------------
  // Progress

  lemma ReportsOfPrelude(o: Oracle, cb: Callbacks, sl: int32, kind: UpdaterType)
    requires cb.onProgress.Fn?
    ensures Reports(Prelude(o, cb, sl, kind)) == [0]
  {
    var head := [LookupCall(o, kind)] + CallOnStart(cb);
    ReportsAppend(head, [OnProgress(0, sl)]);
    ReportsNone(head);
    assert Reports([OnProgress(0, sl)]) == [0];
  }

  /** The reports of a started update: `0` from the prelude, then the loop's. */
  lemma ReportsOfStarted(o: Oracle, cb: Callbacks, sl: int32, kind: UpdaterType, t: Run, part: Partition)
    requires cb.onProgress.Fn?
    ensures Reports(Prelude(o, cb, sl, kind) + t.calls + Finale(o, cb, kind, t, part)) == [0] + Reports(t.calls)
  {
    var pre := Prelude(o, cb, sl, kind);
    var post := Finale(o, cb, kind, t, part);
    ReportsOfPrelude(o, cb, sl, kind);
    ReportsAppend(pre, t.calls);
    ReportsAppend(pre + t.calls, post);
    ReportsNone(post);
  }

  /** `0` in front of reports that rise within `(0, len]` and end with `len` when `finished`. */
  lemma ReportsFromZero(rs: seq<int>, len: int, finished: bool)
    requires 0 <= len && ReportsOK(rs, 0, len, finished && 0 < len)
    requires finished && len == 0 ==> rs == []
    ensures var all := [0] + rs;
      Increasing(all) && (forall k :: 0 <= k < |all| ==> 0 <= all[k] <= len) &&
      (finished ==> all[|all| - 1] == len)
  {
    IncreasingCons(0, rs);
  }

  /** Progress reports (with a progress callback set) begin with `0`, rise strictly, stay within
      `[0, len]` and, when the update succeeds, end with `len`; an update that does not start
      reports nothing. Holds for a `streamLength` that is not negative. */
  lemma ProgressFromZero(o: Oracle, cb: Callbacks, sl: int32, kind: UpdaterType, cur: Cursor, partition: Option<Partition>)
    requires 0 <= sl && cb.onProgress.Fn?
    ensures var out := StartUpdate(o, cb, sl, kind, cur, partition); var rs := Reports(out.calls);
      (Started(o, sl, kind) ==>
         rs != [] && rs[0] == 0 && Increasing(rs) && (forall k :: 0 <= k < |rs| ==> 0 <= rs[k] <= sl) &&
         (out.result == OK ==> rs[|rs| - 1] == sl)) &&
      (!Started(o, sl, kind) ==> rs == [])
  {
    var out := StartUpdate(o, cb, sl, kind, cur, partition);
    if Started(o, sl, kind) {
      var t := Transfer(o, cb, sl, kind, cur);
      var c := LoopCtx(o, cb, sl, Found(o, kind).value);
      StartedCalls(o, cb, sl, kind, cur, partition);
      LoopProgress(c, 0, cur);
      ReportsOfStarted(o, cb, sl, kind, t, Found(o, kind).value);
      if sl == 0 {
        assert t.calls == [];
      }
      ReportsFromZero(Reports(t.calls), sl, out.result == OK);
    } else {
      ReportsNone(out.calls);
    }
  }
}
