/** What the two `UpdateOTA` copies promise, proved about the functions of OtaSpec that both classes
    are proved to run. */
module OtaProperties {
  import opened Types
  import opened Platform
  import opened CString
  import opened OtaSpec
  import UpdaterSpec

  // ---------------------------------------------------------------------------------------------
  // The status switch and the message table

  /** A failed connection makes `HTTPClient::GET` return a negative code; stored in the `uint16_t`
      `_httpCode` it wraps to a large value, which the switch maps to `UNKNOWN`. */
  lemma ConnectionErrorsUnknown(status: int)
    requires -0x8000 <= status < 0
    ensures ToUint16(status) == status + UINT16_LIMIT
    ensures RequestError(ToUint16(status)) == UNKNOWN
  {
  }

  /** Each error has its own message. */
  lemma MessagesDistinct(a: UpdateOTAError, b: UpdateOTAError)
    ensures Message(a) == Message(b) <==> a == b
  {
  }

  /** In a buffer of at least 50 characters the copied message is terminated: the buffer holds
      exactly the message. */
  lemma MessageTerminated(e: UpdateOTAError, before: seq<char>, n: nat)
    requires MIN_MESSAGE_BUFFER <= n <= |before|
    ensures Contents(StrNCpy(before, Message(e), n)) == Message(e)
  {
    StrNCpyTerminates(before, Message(e), n);
  }

  /** Without the size check of the lib copy, a buffer no longer than the message gets no
      terminator: its string is the cut message run on into what the buffer held after it. */
  lemma ShortBufferUnterminated(e: UpdateOTAError, before: seq<char>, n: nat)
    requires n <= |Message(e)| && n <= |before|
    ensures Contents(StrNCpy(before, Message(e), n)) == Message(e)[..n] + Contents(before[n..])
    ensures Contents(StrNCpy(before, Message(e), n)) != Message(e) || Contents(before[n..]) == Message(e)[n..]
  {
    StrNCpyNoTerminator(before, Message(e), n);
    var c := Contents(StrNCpy(before, Message(e), n));
    if c == Message(e) {
      assert Message(e) == Message(e)[..n] + Message(e)[n..];
    }
  }

  // ---------------------------------------------------------------------------------------------
  // The progress percentage of src/UpdateOTA.cpp

  /** Multiplying by `d` keeps the order. */
  lemma {:induction false} MulLe(d: nat, x: nat, y: nat)
    requires x <= y
    decreases y - x
    ensures d * x <= d * y
  {
    if x < y {
      MulLe(d, x, y - 1);
      assert d * y == d * (y - 1) + d;
    }
  }

  /** A quotient does not decrease with its dividend. */
  lemma DivMonotone(a: nat, b: nat, d: nat)
    requires a <= b && 0 < d
    ensures a / d <= b / d
  {
    var qa, qb := a / d, b / d;
    assert a == d * qa + a % d;
    assert b == d * qb + b % d;
    if qa > qb {
      MulLe(d, qb + 1, qa);
    }
  }

  /** While `written <= total` and `100 * total` fits in `size_t`, the percentage lies between 0
      and 100, grows with `written`, and is 100 at the end. */
  lemma PercentBounded(a: nat, b: nat, total: nat)
    requires a <= b <= total && 100 * total < UINT32_LIMIT
    ensures Percent(a, total) <= Percent(b, total) <= 100
    ensures Percent(total, total) == 100
  {
    if total > 0 {
      assert (100 * a) % UINT32_LIMIT == 100 * a;
      assert (100 * b) % UINT32_LIMIT == 100 * b;
      assert (100 * total) % UINT32_LIMIT == 100 * total;
      DivMonotone(100 * a, 100 * b, total);
      DivMonotone(100 * b, 100 * total, total);
      assert (100 * total) / total == 100;
    }
  }

  /** The progress print of an empty download: a response of length 0 leaves the loop at once, and
      the print after it computes `(100 * 0) / 0`. */
  lemma EmptyUpdateDividesByZero(o: Oracle, isFirmware: bool, part: Partition, cur: Cursor)
    requires o.contentLength == 0
    ensures Install(o, isFirmware, part, cur).calls[0] == PrintProgress(0, 0)
    ensures PercentAsWritten(0, 0) == None && Percent(0, 0) == 100
  {
  }

  // ---------------------------------------------------------------------------------------------
  // The transfer loop of `updateFirmware`

  /** The loop never goes past `len`; it ends at `len`, or stalls short of it with every read the
      stream will answer already made. */
  lemma {:induction false} LoopEnds(o: Oracle, part: Partition, len: nat, w: nat, cur: Cursor)
    requires w <= len
    decreases |o.supply| - cur.readCalls
    ensures var t := Loop(o, part, len, w, cur);
      w <= t.written <= len && (t.stalled <==> t.written < len) &&
      (t.stalled ==> |o.supply| <= t.cur.readCalls)
  {
    if w < len && cur.readCalls < |o.supply| {
      var s := Step(o, part, len, w, cur);
      LoopEnds(o, part, len, s.written, s.cur);
    }
  }

  /** One pass writes exactly the bytes its read took off the front of the stream. */
  lemma StepDelivers(o: Oracle, part: Partition, len: nat, w: nat, cur: Cursor)
    requires w < len
    ensures var s := Step(o, part, len, w, cur);
      WrittenBytes(s.calls) + s.cur.rest == cur.rest && |WrittenBytes(s.calls)| == s.written - w
  {
    var n := UpdaterSpec.BlockLength(len, w, BLOCK_SIZE_P);
    var rd := StreamRead(o, cur, n);
    var e := Erase(o, rd.cur, part, w, BLOCK_SIZE_P);
    var wr := WriteAt(o, e.cur, part, w, rd.data);
    StreamReadConsumes(o, cur, n);
    var head := [PrintProgress(w, len), rd.call, e.call];
    assert Step(o, part, len, w, cur) == Pass(w + |rd.data|, wr.cur, head + [wr.call]);
    NoFlashCallsNoBytes(head);
    assert WrittenBytes([wr.call]) == rd.data + WrittenBytes([]);
    WrittenBytesAppend(head, [wr.call]);
  }

  /** The bytes the loop writes, in order, are the bytes it read off the stream: followed by what
      is left of the stream they make up the stream as it was, and there are `written - w` of
      them. */
  lemma {:induction false} LoopDelivers(o: Oracle, part: Partition, len: nat, w: nat, cur: Cursor)
    requires w <= len
    decreases |o.supply| - cur.readCalls
    ensures var t := Loop(o, part, len, w, cur);
      WrittenBytes(t.calls) + t.cur.rest == cur.rest && |WrittenBytes(t.calls)| == t.written - w
  {
    if w < len && cur.readCalls < |o.supply| {
      var s := Step(o, part, len, w, cur);
      var t := Loop(o, part, len, s.written, s.cur);
      assert Loop(o, part, len, w, cur) == After(s.calls, t);
      StepDelivers(o, part, len, w, cur);
      LoopDelivers(o, part, len, s.written, s.cur);
      WrittenBytesAppend(s.calls, t.calls);
      Assoc(WrittenBytes(s.calls), WrittenBytes(t.calls), t.cur.rest);
    }
  }

  /** The calls of the loop from `w`, pass by pass, as the source orders them: the progress print,
      the read of `min(BLOCK_SIZE_P, len - w)` bytes, the erase of the block at `w`, then the write
      at `w` of what the read delivered, which never reaches past `len`. */
  ghost predicate Passes(calls: seq<Call>, part: Partition, len: nat, w: nat)
    decreases |calls|
  {
    if calls == [] then true
    else
      4 <= |calls| && w < len &&
      calls[0] == PrintProgress(w, len) &&
      calls[1].ReadBytes? && calls[1].requested == Min(BLOCK_SIZE_P, len - w) && w + calls[1].got <= len &&
      calls[2] == EraseRange(part, w, BLOCK_SIZE_P) &&
      calls[3].Write? && calls[3].part == part && calls[3].offset == w && |calls[3].data| == calls[1].got &&
      Passes(calls[4..], part, len, w + calls[1].got)
  }

  lemma {:induction false} LoopShape(o: Oracle, part: Partition, len: nat, w: nat, cur: Cursor)
    requires w <= len
    decreases |o.supply| - cur.readCalls
    ensures Passes(Loop(o, part, len, w, cur).calls, part, len, w)
  {
    if w < len && cur.readCalls < |o.supply| {
      var s := Step(o, part, len, w, cur);
      var t := Loop(o, part, len, s.written, s.cur);
      LoopShape(o, part, len, s.written, s.cur);
      var calls := s.calls + t.calls;
      assert calls[4..] == t.calls;
      assert calls[..4] == s.calls;
    }
  }

  /** With no read left that the stream will answer, a pass reads nothing, writes nothing and leaves
      `written` where it was, and the next pass starts in the same situation: the loop, which has no
      bound on its retries, never exits. */
  lemma StallSpins(o: Oracle, part: Partition, len: nat, w: nat, cur: Cursor)
    requires w < len && |o.supply| <= cur.readCalls
    ensures var s := Step(o, part, len, w, cur);
      s.written == w && |o.supply| <= s.cur.readCalls && WrittenBytes(s.calls) == []
  {
    StepDelivers(o, part, len, w, cur);
  }

  /** A loop over an empty stream makes no call at all: nothing is erased or written. */
  lemma EmptyLoop(o: Oracle, part: Partition, cur: Cursor)
    ensures Loop(o, part, 0, 0, cur) == Transfer(0, false, cur, [])
  {
  }

  // ---------------------------------------------------------------------------------------------
  // `startUpdate`

  /** Every stage before the transfer passes and the transfer does not stall. */
  ghost predicate Reaches(o: Oracle, isFirmware: bool, cur: Cursor) {
    o.wifiConnected && ToUint16(o.httpStatus) == HTTP_CODE_OK &&
    0 <= o.contentLength <= MaxSketchSpace(o.freeSketchSpace) &&
    UpdaterSpec.Found(o, Kind(isFirmware)).Some? &&
    !Loop(o, UpdaterSpec.Found(o, Kind(isFirmware)).value, o.contentLength, 0, cur).stalled
  }

  /** How `Install` ends once the loop has not stalled: the length check never fails, so a SPIFFS
      update succeeds and a firmware update restarts or reports the failed boot switch. */
  lemma InstallEnds(o: Oracle, isFirmware: bool, part: Partition, cur: Cursor)
    requires 0 <= o.contentLength && !Loop(o, part, o.contentLength, 0, cur).stalled
    ensures var i := Install(o, isFirmware, part, cur);
      (!isFirmware ==> i.end == Returned(SUCCESS)) &&
      (isFirmware ==> i.end in {Restarted, Returned(PARTITION_NOT_BOOTABLE)})
  {
    LoopEnds(o, part, o.contentLength, 0, cur);
  }

  /** The results of `startUpdate`: `UPDATE_PROGRESS_ERROR` is never returned; `SUCCESS` exactly
      when every stage passed for a SPIFFS update; a restart only for firmware, after every stage
      passed. */
  lemma StartUpdateEnds(o: Oracle, isFirmware: bool, cur: Cursor, partition: Option<Partition>)
    ensures var out := StartUpdate(o, isFirmware, cur, partition);
      out.end != Returned(UPDATE_PROGRESS_ERROR) &&
      (out.end == Returned(SUCCESS) <==> Reaches(o, isFirmware, cur) && !isFirmware) &&
      (out.end == Restarted ==> Reaches(o, isFirmware, cur) && isFirmware) &&
      (Reaches(o, isFirmware, cur) && isFirmware ==> out.end in {Restarted, Returned(PARTITION_NOT_BOOTABLE)})
  {
    var found := UpdaterSpec.Found(o, Kind(isFirmware));
    if o.wifiConnected && ToUint16(o.httpStatus) == HTTP_CODE_OK && ToUint64(o.contentLength) <= MaxSketchSpace(o.freeSketchSpace) && found.Some? {
      LoopEnds(o, found.value, o.contentLength, 0, cur);
      if !Loop(o, found.value, o.contentLength, 0, cur).stalled {
        InstallEnds(o, isFirmware, found.value, cur);
      }
    }
  }

  /** The stops before the transfer touch no flash, and without WiFi nothing is called at all, not
      even the allocation of the clients. */
  lemma EarlyStopsTouchNoFlash(o: Oracle, isFirmware: bool, cur: Cursor, partition: Option<Partition>)
    ensures var out := StartUpdate(o, isFirmware, cur, partition);
      (out.end == Returned(NO_INTERNET) ==> out.calls == []) &&
      (out.end.Returned? && out.end.error in {NO_INTERNET, BAD_REQUEST, UNAUTHORIZED, PAGE_NOT_FOUND, UNKNOWN,
                                                NO_ENOUGH_SPACE, NO_PARTITION_AVAILABLE} ==>
         NoFlashCalls(out.calls) && |out.calls| <= 3)
  {
    var found := UpdaterSpec.Found(o, Kind(isFirmware));
    if o.wifiConnected && ToUint16(o.httpStatus) == HTTP_CODE_OK && ToUint64(o.contentLength) <= MaxSketchSpace(o.freeSketchSpace) && found.Some? {
      LoopEnds(o, found.value, o.contentLength, 0, cur);
      if !Loop(o, found.value, o.contentLength, 0, cur).stalled {
        InstallEnds(o, isFirmware, found.value, cur);
      }
    }
  }

  /** `w` is the front of `c` that `w + r` shows. */
  lemma FrontOf(w: seq<byte>, r: seq<byte>, c: seq<byte>)
    requires w + r == c
    ensures |w| <= |c| && w == c[..|w|]
  {
    assert c[..|w|] == (w + r)[..|w|];
  }

  /** An `Install` whose loop completes writes the first `getSize()` bytes of the stream. */
  lemma InstallWritesBody(o: Oracle, isFirmware: bool, part: Partition, cur: Cursor)
    requires 0 <= o.contentLength && !Loop(o, part, o.contentLength, 0, cur).stalled
    ensures o.contentLength <= |cur.rest|
    ensures WrittenBytes(Install(o, isFirmware, part, cur).calls) == cur.rest[..o.contentLength]
  {
    var len := o.contentLength;
    var t := Loop(o, part, len, 0, cur);
    LoopEnds(o, part, len, 0, cur);
    LoopDelivers(o, part, len, 0, cur);
    FrontOf(WrittenBytes(t.calls), t.cur.rest, cur.rest);
    var calls := Install(o, isFirmware, part, cur).calls;
    var tail := calls[|t.calls|..];
    assert calls == t.calls + tail;
    NoFlashCallsNoBytes(tail);
    WrittenBytesAppend(t.calls, tail);
  }

  /** The same for the stages after the GET: the lookup before `Install` writes nothing. */
  lemma CheckedWritesBody(o: Oracle, isFirmware: bool, cur: Cursor, partition: Option<Partition>)
    requires Reaches(o, isFirmware, cur)
    ensures o.contentLength <= |cur.rest|
    ensures WrittenBytes(Checked(o, isFirmware, cur, partition).calls) == cur.rest[..o.contentLength]
  {
    var part := UpdaterSpec.Found(o, Kind(isFirmware)).value;
    var i := Install(o, isFirmware, part, cur);
    InstallWritesBody(o, isFirmware, part, cur);
    var lookup := [UpdaterSpec.LookupCall(o, Kind(isFirmware))];
    NoFlashCallsNoBytes(lookup);
    WrittenBytesAppend(lookup, i.calls);
  }

  /** A transfer that completes writes into the partition exactly the first `getSize()` bytes of the
      response body, in order. */
  lemma StartUpdateWritesBody(o: Oracle, isFirmware: bool, cur: Cursor, partition: Option<Partition>)
    requires Reaches(o, isFirmware, cur)
    ensures o.contentLength <= |cur.rest|
    ensures WrittenBytes(StartUpdate(o, isFirmware, cur, partition).calls) == cur.rest[..o.contentLength]
  {
    var c := Checked(o, isFirmware, cur, partition);
    CheckedWritesBody(o, isFirmware, cur, partition);
    var get := [OpenClients, HttpGet(o.httpStatus)];
    NoFlashCallsNoBytes(get);
    WrittenBytesAppend(get, c.calls);
  }

  // ---------------------------------------------------------------------------------------------
  // `getVersionNumber`

  /** `getVersionNumber` succeeds exactly when WiFi is up, the server answers 200 and the size fits
      below the buffer's; then it reads at most `size` bytes. */
  lemma VersionOutcome(o: Oracle, cur: Cursor, bufferSize: uint8)
    ensures var v := VersionNumber(o, cur, bufferSize);
      (v.result == SUCCESS <==> o.wifiConnected && ToUint16(o.httpStatus) == HTTP_CODE_OK && 0 <= o.contentLength < bufferSize) &&
      (!o.wifiConnected ==> v.result == NO_INTERNET && v.calls == []) &&
      (v.result == SUCCESS ==> |v.data| <= o.contentLength && OpenClients in v.calls) &&
      (v.result != SUCCESS ==> v.data == [])
  {
    var v := VersionNumber(o, cur, bufferSize);
    if v.result == SUCCESS {
      assert v.calls[0] == OpenClients;
    }
  }

  /** The buffer keeps its size and holds a terminator at `size`, inside it; when all `size` bytes
      arrived and none is zero, the buffer's string is exactly those bytes. */
  lemma VersionTerminated(before: seq<char>, data: seq<byte>, size: nat)
    requires |data| <= size < |before|
    ensures var buf := VersionBuffer(before, data, size);
      |buf| == |before| && buf[size] == NUL && StrLen(buf) <= size &&
      (|data| == size && (forall i :: 0 <= i < |data| ==> data[i] != 0) ==> Contents(buf) == Chars(data))
  {
    var buf := VersionBuffer(before, data, size);
    assert buf[size] == NUL;
    if |data| == size && (forall i :: 0 <= i < |data| ==> data[i] != 0) {
      var c := Chars(data);
      assert IsCString(c);
      assert buf == c + ([NUL] + before[size + 1..]);
      StrLenAppend(c, [NUL] + before[size + 1..]);
    }
  }

  /** The guard as written lets a size equal to the buffer's through, and a negative size (a
      response without a length): the terminator then goes at `buffer[bufferSize]` or
      `buffer[-1]`, outside the buffer, as the corrected guard `VersionFits` shows. */
  lemma VersionGuardOverruns(bufferSize: uint8)
    ensures VersionGuardAsWritten(bufferSize, bufferSize) && !VersionFits(bufferSize, bufferSize)
    ensures VersionGuardAsWritten(-1, bufferSize) && !VersionFits(-1, bufferSize)
  {
  }

  /** The corrected guard refuses exactly those two kinds of size more than the one as written. */
  lemma VersionGuardsDiffer(size: int32, bufferSize: uint8)
    ensures VersionFits(size, bufferSize) ==> VersionGuardAsWritten(size, bufferSize)
    ensures VersionGuardAsWritten(size, bufferSize) && !VersionFits(size, bufferSize) <==> size == bufferSize || size < 0
  {
  }

  /** On every size the corrected guard admits, `getVersionNumber` as written behaves as the
      corrected one: the two differ only where the source writes outside the buffer. */
  lemma VersionAsWrittenAgrees(o: Oracle, cur: Cursor, bufferSize: uint8)
    requires VersionFits(o.contentLength, bufferSize)
    ensures VersionNumberAsWritten(o, cur, bufferSize) == VersionNumber(o, cur, bufferSize)
  {
  }

  /** When the server answers 200 with a Content-Length equal to `bufferSize`, or with none
      (`-1`), `getVersionNumber` as written returns `SUCCESS` after writing its terminator at
      index `bufferSize` or `-1`, outside a buffer of `bufferSize` characters; the corrected
      version refuses both with `NO_ENOUGH_SPACE` before reading. */
  lemma VersionAsWrittenOverruns(o: Oracle, cur: Cursor, bufferSize: uint8)
    requires o.wifiConnected && ToUint16(o.httpStatus) == HTTP_CODE_OK
    requires o.contentLength == bufferSize || o.contentLength == -1
    ensures VersionNumberAsWritten(o, cur, bufferSize).result == SUCCESS
    ensures VersionNumber(o, cur, bufferSize).result == NO_ENOUGH_SPACE
    ensures VersionNumber(o, cur, bufferSize).data == []
  {
    VersionGuardOverruns(bufferSize);
  }
}
