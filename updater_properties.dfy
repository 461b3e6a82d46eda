/** What the transfer loop of `Updater::startUpdate` promises, proved about `UpdaterSpec.Loop`.

    Every property is proved phase by phase: one lemma per phase of `Loop`, each calling the lemma
    of the phase that comes next, so that each proof sees one step of the loop. The lemma for the
    `Head` phase is the one the rest of the model uses. */
module UpdaterProperties {
  import opened Types
  import opened Platform
  import opened UpdaterSpec

  // ---------------------------------------------------------------------------------------------
  // Block reads

  /** Calls that are all reads asking for `n` bytes, each getting at most that. */
  predicate ReadsOf(calls: seq<Call>, n: nat) {
    forall i :: 0 <= i < |calls| ==> calls[i].ReadBytes? && calls[i].requested == n && calls[i].got <= n
  }

  /** A block read makes only reads of `n` bytes, delivers the next bytes of the stream, and leaves
      the erase, write and boot answers where they were. */
  lemma {:induction false} ReadTriesFacts(o: Oracle, cur: Cursor, n: nat, tries: nat)
    requires tries < READ_TRIES
    decreases READ_TRIES - tries
    ensures var b := ReadTries(o, cur, n, tries);
      ReadsOf(b.calls, n) && cur.rest == b.data + b.cur.rest &&
      b.cur.eraseCalls == cur.eraseCalls && b.cur.writeCalls == cur.writeCalls && b.cur.bootCalls == cur.bootCalls
  {
    var rd := StreamRead(o, cur, n);
    StreamReadConsumes(o, cur, n);
    if |rd.data| == 0 && tries + 1 < READ_TRIES {
      var b := ReadTries(o, rd.cur, n, tries + 1);
      assert ReadTries(o, cur, n, tries) == Block(b.data, b.cur, [rd.call] + b.calls);
      ReadTriesFacts(o, rd.cur, n, tries + 1);
      ReadsOfCons(rd.call, b.calls, n);
    } else {
      assert ReadTries(o, cur, n, tries) == Block(rd.data, rd.cur, [rd.call]);
      ReadsOfCons(rd.call, [], n);
    }
  }

  lemma ReadsOfCons(call: Call, calls: seq<Call>, n: nat)
    requires call.ReadBytes? && call.requested == n && call.got <= n && ReadsOf(calls, n)
    ensures ReadsOf([call] + calls, n)
  {
    assert forall i :: 1 <= i < |[call] + calls| ==> ([call] + calls)[i] == calls[i - 1];
  }

  /** `k` reads that delivered nothing, each asking for `n` bytes. */
  function EmptyReads(k: nat, n: nat): (s: seq<Call>)
    ensures |s| == k && forall i :: 0 <= i < k ==> s[i] == ReadBytes(n, 0)
  {
    if k == 0 then [] else [ReadBytes(n, 0)] + EmptyReads(k - 1, n)
  }

  /** None of the next `k` reads can deliver a byte: the stream is used up, or none of those calls
      has any supply. */
  predicate NothingArrives(o: Oracle, cur: Cursor, k: nat) {
    cur.rest == [] || forall j :: cur.readCalls <= j < cur.readCalls + k ==> SupplyAt(o, j) == 0
  }

  lemma NothingArrivesNext(o: Oracle, cur: Cursor, next: Cursor, k: nat)
    requires next.rest == cur.rest && next.readCalls == cur.readCalls + 1
    requires cur.rest == [] || SupplyAt(o, cur.readCalls) == 0
    ensures NothingArrives(o, cur, k + 1) <==> NothingArrives(o, next, k)
  {
  }

  /** When none of the remaining calls can deliver anything, a block read makes all of them,
      each asking for `n` bytes, and delivers nothing. */
  lemma {:induction false} NothingRead(o: Oracle, cur: Cursor, n: nat, tries: nat)
    requires tries < READ_TRIES && NothingArrives(o, cur, READ_TRIES - tries)
    decreases READ_TRIES - tries
    ensures var b := ReadTries(o, cur, n, tries); b.data == [] && b.calls == EmptyReads(READ_TRIES - tries, n)
  {
    var rd := StreamRead(o, cur, n);
    assert rd.data == [] && rd.call == ReadBytes(n, 0);
    if tries + 1 < READ_TRIES {
      StreamReadConsumes(o, cur, n);
      NothingArrivesNext(o, cur, rd.cur, READ_TRIES - tries - 1);
      NothingRead(o, rd.cur, n, tries + 1);
      assert EmptyReads(READ_TRIES - tries, n) == [ReadBytes(n, 0)] + EmptyReads(READ_TRIES - tries - 1, n);
    } else {
      assert EmptyReads(1, n) == [ReadBytes(n, 0)] + [];
    }
  }

  /** When one of the remaining calls can deliver something, a block read of at least one byte
      delivers something. */
  lemma {:induction false} SomethingRead(o: Oracle, cur: Cursor, n: nat, tries: nat)
    requires tries < READ_TRIES && 1 <= n && !NothingArrives(o, cur, READ_TRIES - tries)
    decreases READ_TRIES - tries
    ensures |ReadTries(o, cur, n, tries).data| != 0
  {
    var rd := StreamRead(o, cur, n);
    if |rd.data| == 0 {
      StreamReadConsumes(o, cur, n);
      assert rd.cur.rest == cur.rest && SupplyAt(o, cur.readCalls) == 0;
      NothingArrivesNext(o, cur, rd.cur, READ_TRIES - tries - 1);
      assert tries + 1 < READ_TRIES;
      SomethingRead(o, rd.cur, n, tries + 1);
      assert ReadTries(o, cur, n, tries).data == ReadTries(o, rd.cur, n, tries + 1).data;
    } else {
      assert ReadTries(o, cur, n, tries).data == rd.data;
    }
  }

  /** A block read that delivered nothing ends the loop with `READ_FAILED` after its calls, none
      of which touches the flash. When none of the 30 calls can deliver anything, those calls are
      exactly 30 reads of `min(4096, len - written)` bytes. */
  lemma ReadFailure(c: Ctx, w: nat, cur: Cursor)
    requires w < c.len && NothingArrives(c.o, cur, READ_TRIES)
    ensures var r := Loop(c, Head(w), cur);
      r.result == READ_FAILED &&
      r.calls == EmptyReads(READ_TRIES, BlockLength(c.len, w, BLOCK_SIZE_P)) + CallOnError(c.cb, READ_FAILED)
  {
    var n := BlockLength(c.len, w, BLOCK_SIZE_P);
    var b := ReadTries(c.o, cur, n, 0);
    NothingRead(c.o, cur, n, 0);
    assert |b.data| == 0;
    assert Loop(c, Head(w), cur) == Run(READ_FAILED, b.cur, b.calls + CallOnError(c.cb, READ_FAILED));
  }

  /** When one of the 30 calls of a block read can deliver something, the block's range is
      erased: the loop goes on past the read. */
  lemma ReadArrives(c: Ctx, w: nat, cur: Cursor)
    requires w < c.len && !NothingArrives(c.o, cur, READ_TRIES)
    ensures EraseRange(c.part, w, BLOCK_SIZE_P) in Loop(c, Head(w), cur).calls
  {
    var n := BlockLength(c.len, w, BLOCK_SIZE_P);
    var b := ReadTries(c.o, cur, n, 0);
    SomethingRead(c.o, cur, n, 0);
    var r := Loop(c, Erasing(w, b.data), b.cur);
    ErasingStartsWithErase(c, w, b.data, b.cur);
    assert (b.calls + r.calls)[|b.calls|] == r.calls[0];
  }

  /** The first thing done with a block that arrived is the erase of its range. */
  lemma ErasingStartsWithErase(c: Ctx, w: nat, data: seq<byte>, cur: Cursor)
    requires PhaseOK(c, Erasing(w, data))
    ensures var r := Loop(c, Erasing(w, data), cur); |r.calls| >= 1 && r.calls[0] == EraseRange(c.part, w, BLOCK_SIZE_P)
  {
  }

  // ---------------------------------------------------------------------------------------------
  // The shape of the loop's log and its result

  /** The calls the loop body makes: reads, erases, writes and progress reports. */
  predicate LoopCall(call: Call) {
    call.ReadBytes? || call.EraseRange? || call.Write? || call.OnProgress?
  }

  /** The results the loop can end with. */
  predicate LoopResult(e: UpdaterError) {
    e == OK || e == READ_FAILED || e == UNKNOWN || e == PARTITION_WRITE_FAILED
  }

  /** The error callback a result calls for: none on `OK`. */
  function ErrorTail(cb: Callbacks, e: UpdaterError): seq<Call> {
    if e == OK then [] else CallOnError(cb, e)
  }

  /** `calls` is loop-body calls followed by `tail`. */
  predicate LoopThen(calls: seq<Call>, tail: seq<Call>) {
    |tail| <= |calls| && calls[|calls| - |tail|..] == tail &&
    forall i :: 0 <= i < |calls| - |tail| ==> LoopCall(calls[i])
  }

  lemma LoopThenAppend(a: seq<Call>, b: seq<Call>, tail: seq<Call>)
    requires LoopThen(a, []) && LoopThen(b, tail)
    ensures LoopThen(a + b, tail)
  {
    assert (a + b)[|a + b| - |tail|..] == b[|b| - |tail|..];
    forall i | 0 <= i < |a + b| - |tail| ensures LoopCall((a + b)[i]) {
      if i >= |a| { assert (a + b)[i] == b[i - |a|]; }
    }
  }

  lemma LoopThenTail(a: seq<Call>, tail: seq<Call>)
    requires LoopThen(a, [])
    ensures LoopThen(a + tail, tail)
  {
    assert (a + tail)[|a|..] == tail;
    assert forall i :: 0 <= i < |a| ==> (a + tail)[i] == a[i];
  }

  /** The loop stopped with one of its own errors; until then it made only reads, erases, writes
      and progress reports, and the error callback comes last. */
  predicate ShapeOK(c: Ctx, r: Run) {
    LoopResult(r.result) && LoopThen(r.calls, ErrorTail(c.cb, r.result))
  }

  /** The loop stops at the first failure with one of the three loop errors; until then it makes
      only reads, erases, writes and progress reports, and the error callback comes last. */
  lemma {:induction false} LoopShape(c: Ctx, w: nat, cur: Cursor)
    requires w <= c.len
    ensures ShapeOK(c, Loop(c, Head(w), cur))
    decreases c.len - w, Rank(Head(w))
  {
    if w < c.len {
      var n := BlockLength(c.len, w, BLOCK_SIZE_P);
      var b := ReadTries(c.o, cur, n, 0);
      ReadTriesFacts(c.o, cur, n, 0);
      assert LoopThen(b.calls, []);
      if |b.data| != 0 {
        ShapeErasing(c, w, b.data, b.cur);
        ShapeThen(c, b.calls, Loop(c, Erasing(w, b.data), b.cur));
      } else {
        ShapeStop(c, b.calls, READ_FAILED, b.cur);
      }
    }
  }

  /** A loop-body call before a run of the right shape keeps the shape. */
  lemma ShapeThen(c: Ctx, pre: seq<Call>, r: Run)
    requires LoopThen(pre, []) && ShapeOK(c, r)
    ensures ShapeOK(c, Then(pre, r))
  {
    LoopThenAppend(pre, r.calls, ErrorTail(c.cb, r.result));
  }

  /** Loop-body calls followed by the error callback of a loop error are of the right shape. */
  lemma ShapeStop(c: Ctx, pre: seq<Call>, e: UpdaterError, cur: Cursor)
    requires LoopThen(pre, []) && LoopResult(e) && e != OK
    ensures ShapeOK(c, Run(e, cur, pre + CallOnError(c.cb, e)))
  {
    LoopThenTail(pre, CallOnError(c.cb, e));
  }

  lemma {:induction false} ShapeErasing(c: Ctx, w: nat, data: seq<byte>, cur: Cursor)
    requires PhaseOK(c, Erasing(w, data))
    ensures ShapeOK(c, Loop(c, Erasing(w, data), cur))
    decreases c.len - w, Rank(Erasing(w, data))
  {
    var e := Erase(c.o, cur, c.part, w, BLOCK_SIZE_P);
    assert LoopThen([e.call], []);
    if !e.ok {
      ShapeStop(c, [e.call], UNKNOWN, e.cur);
    } else if LookAhead(c, w) {
      ShapeAhead(c, w, data, e.cur);
      ShapeThen(c, [e.call], Loop(c, ErasingAhead(w, data), e.cur));
    } else {
      ShapeWriting(c, w, data, e.cur);
      ShapeThen(c, [e.call], Loop(c, Writing(w, data), e.cur));
    }
  }

  lemma {:induction false} ShapeAhead(c: Ctx, w: nat, data: seq<byte>, cur: Cursor)
    requires PhaseOK(c, ErasingAhead(w, data))
    ensures ShapeOK(c, Loop(c, ErasingAhead(w, data), cur))
    decreases c.len - w, Rank(ErasingAhead(w, data))
  {
    var e := Erase(c.o, cur, c.part, w + BLOCK_SIZE_P, BLOCK_SIZE_P);
    assert LoopThen([e.call], []);
    if !e.ok {
      ShapeStop(c, [e.call], UNKNOWN, e.cur);
    } else {
      ShapeWriting(c, w, data, e.cur);
      ShapeThen(c, [e.call], Loop(c, Writing(w, data), e.cur));
    }
  }

  lemma {:induction false} ShapeWriting(c: Ctx, w: nat, data: seq<byte>, cur: Cursor)
    requires PhaseOK(c, Writing(w, data))
    ensures ShapeOK(c, Loop(c, Writing(w, data), cur))
    decreases c.len - w, Rank(Writing(w, data))
  {
    var wr := WriteAt(c.o, cur, c.part, w, data);
    if !wr.ok {
      assert LoopThen([wr.call], []);
      ShapeStop(c, [wr.call], PARTITION_WRITE_FAILED, wr.cur);
    } else {
      var pre := [wr.call] + CallOnProgress(c.cb, ToInt32(w + |data|), c.streamLength);
      assert LoopThen(pre, []);
      LoopShape(c, w + |data|, wr.cur);
      ShapeThen(c, pre, Loop(c, Head(w + |data|), wr.cur));
    }
  }

  // ---------------------------------------------------------------------------------------------
  // Flash results

  /** Every erase and write the loop made succeeded, except the last one when the result is the
      matching error: `UNKNOWN` for an erase, `PARTITION_WRITE_FAILED` for a write. */
  predicate FlashAnswers(o: Oracle, before: Cursor, after: Cursor, result: UpdaterError) {
    before.eraseCalls <= after.eraseCalls && before.writeCalls <= after.writeCalls &&
    (result == UNKNOWN ==> before.eraseCalls < after.eraseCalls) &&
    (result == PARTITION_WRITE_FAILED ==> before.writeCalls < after.writeCalls) &&
    (forall k :: before.eraseCalls <= k < after.eraseCalls ==>
       (o.eraseOk(k) <==> !(result == UNKNOWN && k == after.eraseCalls - 1))) &&
    (forall k :: before.writeCalls <= k < after.writeCalls ==>
       (o.writeOk(k) <==> !(result == PARTITION_WRITE_FAILED && k == after.writeCalls - 1)))
  }

  lemma FlashAnswersCompose(o: Oracle, a: Cursor, b: Cursor, d: Cursor, result: UpdaterError)
    requires FlashAnswers(o, a, b, OK) && FlashAnswers(o, b, d, result)
    ensures FlashAnswers(o, a, d, result)
  {
  }

  /** Only the erases and writes moved, as `FlashAnswers` says; the boot partition was not touched. */
  predicate FlashOK(c: Ctx, cur: Cursor, r: Run) {
    FlashAnswers(c.o, cur, r.cur, r.result) && r.cur.bootCalls == cur.bootCalls
  }

  /** An erase failure ends the loop with `UNKNOWN` and a write failure with
      `PARTITION_WRITE_FAILED`, each at once; all other erases and writes succeeded; the boot
      partition is never touched. */
  lemma {:induction false} LoopFlashAnswers(c: Ctx, w: nat, cur: Cursor)
    requires w <= c.len
    ensures FlashOK(c, cur, Loop(c, Head(w), cur))
    decreases c.len - w, Rank(Head(w))
  {
    if w < c.len {
      var n := BlockLength(c.len, w, BLOCK_SIZE_P);
      var b := ReadTries(c.o, cur, n, 0);
      ReadTriesFacts(c.o, cur, n, 0);
      if |b.data| != 0 {
        FlashErasing(c, w, b.data, b.cur);
        var r := Loop(c, Erasing(w, b.data), b.cur);
        FlashAnswersCompose(c.o, cur, b.cur, r.cur, r.result);
      }
    }
  }

  lemma {:induction false} FlashErasing(c: Ctx, w: nat, data: seq<byte>, cur: Cursor)
    requires PhaseOK(c, Erasing(w, data))
    ensures FlashOK(c, cur, Loop(c, Erasing(w, data), cur))
    decreases c.len - w, Rank(Erasing(w, data))
  {
    var e := Erase(c.o, cur, c.part, w, BLOCK_SIZE_P);
    if e.ok && LookAhead(c, w) {
      FlashAhead(c, w, data, e.cur);
      var r := Loop(c, ErasingAhead(w, data), e.cur);
      FlashAnswersCompose(c.o, cur, e.cur, r.cur, r.result);
    } else if e.ok {
      FlashWriting(c, w, data, e.cur);
      var r := Loop(c, Writing(w, data), e.cur);
      FlashAnswersCompose(c.o, cur, e.cur, r.cur, r.result);
    }
  }

  lemma {:induction false} FlashAhead(c: Ctx, w: nat, data: seq<byte>, cur: Cursor)
    requires PhaseOK(c, ErasingAhead(w, data))
    ensures FlashOK(c, cur, Loop(c, ErasingAhead(w, data), cur))
    decreases c.len - w, Rank(ErasingAhead(w, data))
  {
    var e := Erase(c.o, cur, c.part, w + BLOCK_SIZE_P, BLOCK_SIZE_P);
    if e.ok {
      FlashWriting(c, w, data, e.cur);
      var r := Loop(c, Writing(w, data), e.cur);
      FlashAnswersCompose(c.o, cur, e.cur, r.cur, r.result);
    }
  }

  lemma {:induction false} FlashWriting(c: Ctx, w: nat, data: seq<byte>, cur: Cursor)
    requires PhaseOK(c, Writing(w, data))
    ensures FlashOK(c, cur, Loop(c, Writing(w, data), cur))
    decreases c.len - w, Rank(Writing(w, data))
  {
    var wr := WriteAt(c.o, cur, c.part, w, data);
    if wr.ok {
      var w' := w + |data|;
      var r := Loop(c, Head(w'), wr.cur);
      assert Loop(c, Writing(w, data), cur).result == r.result && Loop(c, Writing(w, data), cur).cur == r.cur;
      LoopFlashAnswers(c, w', wr.cur);
      FlashAnswersCompose(c.o, cur, wr.cur, r.cur, r.result);
    }
  }

  // ---------------------------------------------------------------------------------------------
  // Offsets and lengths, replayed over the log

  /** Where the loop is after a call: a write moves it past the bytes written. */
  function Advance(call: Call, w: int): int {
    if call.Write? then w + |call.data| else w
  }

  /** What each kind of call of the loop looks like when `w` bytes have been written so far: a read
      asks for `min(4096, len - w)` bytes and gets no more; an erase clears the block at `w`, or the
      next one under the look-ahead condition; a write puts at least one byte at `w` without passing
      `len`; a progress report gives `w` and `_streamLength`. */
  predicate LogStep(c: Ctx, call: Call, w: int) {
    match call
    case ReadBytes(n, got) => 0 <= w < c.len && n == Min(BLOCK_SIZE_P, c.len - w) && got <= n
    case EraseRange(part, off, n) =>
      part == c.part && n == BLOCK_SIZE_P && 0 <= w < c.len &&
      (off == w || (off == w + BLOCK_SIZE_P && LookAhead(c, w)))
    case Write(part, off, data) => part == c.part && 0 <= w && off == w && 1 <= |data| && w + |data| <= c.len
    case OnProgress(x, total) => 0 <= w <= c.len && x == ToInt32(w) && total == c.streamLength
    case _ => true
  }

  /** Every call of the log, replayed from `w` written bytes, is a `LogStep`. */
  predicate Logged(c: Ctx, calls: seq<Call>, w: int)
    decreases |calls|
  {
    calls == [] || (LogStep(c, calls[0], w) && Logged(c, calls[1..], Advance(calls[0], w)))
  }

  lemma {:induction false} LoggedAppend(c: Ctx, a: seq<Call>, b: seq<Call>, w: int)
    ensures Logged(c, a + b, w) <==> Logged(c, a, w) && Logged(c, b, w + |WrittenBytes(a)|)
    decreases |a|
  {
    if a == [] {
      assert a + b == b;
    } else {
      assert (a + b)[0] == a[0];
      assert (a + b)[1..] == a[1..] + b;
      LoggedAppend(c, a[1..], b, Advance(a[0], w));
    }
  }

  lemma LoggedOne(c: Ctx, call: Call, w: int)
    requires LogStep(c, call, w)
    ensures Logged(c, [call], w) && WrittenBytes([call]) == (if call.Write? then call.data else [])
  {
    assert [call][1..] == [];
  }

  /** A call logged in front of a replay that starts where it leaves off. */
  lemma LoggedCons(c: Ctx, call: Call, rest: seq<Call>, w: int)
    requires LogStep(c, call, w) && Logged(c, rest, Advance(call, w))
    ensures Logged(c, [call] + rest, w)
  {
    LoggedOne(c, call, w);
    LoggedAppend(c, [call], rest, w);
  }

  /** The error callback is a replay from anywhere. */
  lemma LoggedErrors(c: Ctx, e: UpdaterError, w: int)
    ensures Logged(c, CallOnError(c.cb, e), w)
  {
    if c.cb.onError.Fn? {
      LoggedOne(c, OnError(Code(e)), w);
    }
  }

  /** A callback at the end of the loop keeps the log a replay. */
  lemma LoggedErrorTail(c: Ctx, call: Call, e: UpdaterError, w: int)
    requires LogStep(c, call, w)
    ensures Logged(c, [call] + CallOnError(c.cb, e), w)
  {
    LoggedErrors(c, e, Advance(call, w));
    LoggedCons(c, call, CallOnError(c.cb, e), w);
  }

  /** The reads of a block read are a replay that writes nothing. */
  lemma {:induction false} LoggedReads(c: Ctx, calls: seq<Call>, w: nat)
    requires w < c.len && ReadsOf(calls, BlockLength(c.len, w, BLOCK_SIZE_P))
    ensures Logged(c, calls, w) && WrittenBytes(calls) == []
    decreases |calls|
  {
    if calls != [] {
      assert ReadsOf(calls[1..], BlockLength(c.len, w, BLOCK_SIZE_P));
      LoggedReads(c, calls[1..], w);
      assert calls == [calls[0]] + calls[1..];
      WrittenBytesAppend([calls[0]], calls[1..]);
      LoggedCons(c, calls[0], calls[1..], w);
    }
  }

  /** The reads of a block read in front of a replay from the same offset. */
  lemma LoggedAfterReads(c: Ctx, w: nat, cur: Cursor, rest: seq<Call>)
    requires w < c.len && Logged(c, rest, w)
    ensures Logged(c, ReadTries(c.o, cur, BlockLength(c.len, w, BLOCK_SIZE_P), 0).calls + rest, w)
  {
    var n := BlockLength(c.len, w, BLOCK_SIZE_P);
    ReadTriesFacts(c.o, cur, n, 0);
    var calls := ReadTries(c.o, cur, n, 0).calls;
    LoggedReads(c, calls, w);
    LoggedSilentAppend(c, calls, rest, w);
  }

  /** A replay that writes nothing in front of a replay from the same offset. */
  lemma LoggedSilentAppend(c: Ctx, a: seq<Call>, b: seq<Call>, w: int)
    requires Logged(c, a, w) && WrittenBytes(a) == [] && Logged(c, b, w)
    ensures Logged(c, a + b, w)
  {
    LoggedAppend(c, a, b, w);
  }

  /** Every call of the loop is a `LogStep` at the offset it has reached: each read asks for exactly
      `min(4096, len - written)` bytes, each write lands at `written`, each erase is the block at
      `written` or the look-ahead one, each report gives `written`. */
  lemma {:induction false} LoopLogged(c: Ctx, w: nat, cur: Cursor)
    requires w <= c.len
    ensures Logged(c, Loop(c, Head(w), cur).calls, w)
    decreases c.len - w, Rank(Head(w))
  {
    if w < c.len {
      var n := BlockLength(c.len, w, BLOCK_SIZE_P);
      var b := ReadTries(c.o, cur, n, 0);
      if |b.data| != 0 {
        var r := Loop(c, Erasing(w, b.data), b.cur);
        assert Loop(c, Head(w), cur).calls == b.calls + r.calls;
        LoggedErasing(c, w, b.data, b.cur);
        LoggedAfterReads(c, w, cur, r.calls);
      } else {
        assert Loop(c, Head(w), cur).calls == b.calls + CallOnError(c.cb, READ_FAILED);
        LoggedErrors(c, READ_FAILED, w);
        LoggedAfterReads(c, w, cur, CallOnError(c.cb, READ_FAILED));
      }
    }
  }

  lemma {:induction false} LoggedErasing(c: Ctx, w: nat, data: seq<byte>, cur: Cursor)
    requires PhaseOK(c, Erasing(w, data))
    ensures Logged(c, Loop(c, Erasing(w, data), cur).calls, w)
    decreases c.len - w, Rank(Erasing(w, data))
  {
    var e := Erase(c.o, cur, c.part, w, BLOCK_SIZE_P);
    LoggedErrorTail(c, e.call, UNKNOWN, w);
    if e.ok && LookAhead(c, w) {
      LoggedAhead(c, w, data, e.cur);
      LoggedCons(c, e.call, Loop(c, ErasingAhead(w, data), e.cur).calls, w);
    } else if e.ok {
      LoggedWriting(c, w, data, e.cur);
      LoggedCons(c, e.call, Loop(c, Writing(w, data), e.cur).calls, w);
    }
  }

  lemma {:induction false} LoggedAhead(c: Ctx, w: nat, data: seq<byte>, cur: Cursor)
    requires PhaseOK(c, ErasingAhead(w, data))
    ensures Logged(c, Loop(c, ErasingAhead(w, data), cur).calls, w)
    decreases c.len - w, Rank(ErasingAhead(w, data))
  {
    var e := Erase(c.o, cur, c.part, w + BLOCK_SIZE_P, BLOCK_SIZE_P);
    LoggedErrorTail(c, e.call, UNKNOWN, w);
    if e.ok {
      LoggedWriting(c, w, data, e.cur);
      LoggedCons(c, e.call, Loop(c, Writing(w, data), e.cur).calls, w);
    }
  }

  /** A progress report of the offset reached in front of a replay from there. */
  lemma LoggedReport(c: Ctx, w: nat, rest: seq<Call>)
    requires w <= c.len && Logged(c, rest, w)
    ensures Logged(c, CallOnProgress(c.cb, ToInt32(w), c.streamLength) + rest, w)
  {
    if c.cb.onProgress.Fn? {
      LoggedCons(c, OnProgress(ToInt32(w), c.streamLength), rest, w);
    } else {
      assert CallOnProgress(c.cb, ToInt32(w), c.streamLength) + rest == rest;
    }
  }

  /** A write of a block, the report of the offset it reaches, and a replay from there. */
  lemma LoggedWrite(c: Ctx, w: nat, data: seq<byte>, rest: seq<Call>)
    requires 1 <= |data| && w + |data| <= c.len && Logged(c, rest, w + |data|)
    ensures Logged(c, [Write(c.part, w, data)] + CallOnProgress(c.cb, ToInt32(w + |data|), c.streamLength) + rest, w)
  {
    var progress := CallOnProgress(c.cb, ToInt32(w + |data|), c.streamLength);
    LoggedReport(c, w + |data|, rest);
    LoggedCons(c, Write(c.part, w, data), progress + rest, w);
    Assoc([Write(c.part, w, data)], progress, rest);
  }

  lemma {:induction false} LoggedWriting(c: Ctx, w: nat, data: seq<byte>, cur: Cursor)
    requires PhaseOK(c, Writing(w, data))
    ensures Logged(c, Loop(c, Writing(w, data), cur).calls, w)
    decreases c.len - w, Rank(Writing(w, data))
  {
    var wr := WriteAt(c.o, cur, c.part, w, data);
    if !wr.ok {
      LoggedErrorTail(c, wr.call, PARTITION_WRITE_FAILED, w);
    } else {
      var w' := w + |data|;
      var r := Loop(c, Head(w'), wr.cur);
      assert Loop(c, Writing(w, data), cur).calls ==
             [wr.call] + CallOnProgress(c.cb, ToInt32(w'), c.streamLength) + r.calls;
      LoopLogged(c, w', wr.cur);
      LoggedWrite(c, w, data, r.calls);
    }
  }

  // ---------------------------------------------------------------------------------------------
  // The bytes written

  /** A loop that ran to the end wrote `pending` and then the next `k` bytes of the stream, in
      order, where `k` brings the total to `len`, and left the stream just past them. */
  predicate DeliversOK(c: Ctx, w: nat, pending: seq<byte>, cur: Cursor, r: Run) {
    var k := c.len - w - |pending|;
    r.result == OK ==>
      0 <= k <= |cur.rest| && WrittenBytes(r.calls) == pending + cur.rest[..k] && r.cur.rest == cur.rest[k..]
  }

  /** Calls that write nothing in front of a log leave its written bytes as they are. */
  lemma WrittenBytesCons(call: Call, rest: seq<Call>)
    requires !call.Write?
    ensures WrittenBytes([call] + rest) == WrittenBytes(rest)
  {
    WrittenBytesAppend([call], rest);
    assert [call][1..] == [];
  }

  /** Reads that take `data` off the stream, then a run that writes `data` and the rest. */
  lemma DeliversRead(c: Ctx, w: nat, data: seq<byte>, cur: Cursor, next: Cursor, pre: seq<Call>, r: Run)
    requires WrittenBytes(pre) == [] && cur.rest == data + next.rest && DeliversOK(c, w, data, next, r)
    ensures DeliversOK(c, w, [], cur, Then(pre, r))
  {
    WrittenBytesAppend(pre, r.calls);
    if r.result == OK {
      var k := c.len - w - |data|;
      assert cur.rest[..c.len - w] == data + next.rest[..k];
      assert cur.rest[c.len - w..] == next.rest[k..];
    }
  }

  /** A call that neither reads nor writes in front of a run. */
  lemma DeliversCons(c: Ctx, w: nat, data: seq<byte>, cur: Cursor, next: Cursor, call: Call, r: Run)
    requires !call.Write? && cur.rest == next.rest && DeliversOK(c, w, data, next, r)
    ensures DeliversOK(c, w, data, cur, Then([call], r))
  {
    WrittenBytesCons(call, r.calls);
  }

  /** The write of the pending block, then the report, then a run from the new offset. */
  lemma DeliversWrite(c: Ctx, w: nat, data: seq<byte>, cur: Cursor, next: Cursor, pre: seq<Call>, r: Run)
    requires w + |data| <= c.len && WrittenBytes(pre) == data && cur.rest == next.rest
    requires DeliversOK(c, w + |data|, [], next, r)
    ensures DeliversOK(c, w, data, cur, Then(pre, r))
  {
    WrittenBytesAppend(pre, r.calls);
  }

  /** A loop that runs to the end from `written` bytes writes exactly the next `len - written` bytes
      of the stream, in order, and leaves the stream just past them. */
  lemma {:induction false} LoopDelivers(c: Ctx, w: nat, cur: Cursor)
    requires w <= c.len
    ensures DeliversOK(c, w, [], cur, Loop(c, Head(w), cur))
    decreases c.len - w, Rank(Head(w))
  {
    if w < c.len {
      var n := BlockLength(c.len, w, BLOCK_SIZE_P);
      var b := ReadTries(c.o, cur, n, 0);
      ReadTriesFacts(c.o, cur, n, 0);
      if |b.data| != 0 {
        NoFlashCallsNoBytes(b.calls);
        DeliversErasing(c, w, b.data, b.cur);
        DeliversRead(c, w, b.data, cur, b.cur, b.calls, Loop(c, Erasing(w, b.data), b.cur));
      }
    }
  }

  lemma {:induction false} DeliversErasing(c: Ctx, w: nat, data: seq<byte>, cur: Cursor)
    requires PhaseOK(c, Erasing(w, data))
    ensures DeliversOK(c, w, data, cur, Loop(c, Erasing(w, data), cur))
    decreases c.len - w, Rank(Erasing(w, data))
  {
    var e := Erase(c.o, cur, c.part, w, BLOCK_SIZE_P);
    if e.ok && LookAhead(c, w) {
      DeliversAhead(c, w, data, e.cur);
      DeliversCons(c, w, data, cur, e.cur, e.call, Loop(c, ErasingAhead(w, data), e.cur));
    } else if e.ok {
      DeliversWriting(c, w, data, e.cur);
      DeliversCons(c, w, data, cur, e.cur, e.call, Loop(c, Writing(w, data), e.cur));
    }
  }

  lemma {:induction false} DeliversAhead(c: Ctx, w: nat, data: seq<byte>, cur: Cursor)
    requires PhaseOK(c, ErasingAhead(w, data))
    ensures DeliversOK(c, w, data, cur, Loop(c, ErasingAhead(w, data), cur))
    decreases c.len - w, Rank(ErasingAhead(w, data))
  {
    var e := Erase(c.o, cur, c.part, w + BLOCK_SIZE_P, BLOCK_SIZE_P);
    if e.ok {
      DeliversWriting(c, w, data, e.cur);
      DeliversCons(c, w, data, cur, e.cur, e.call, Loop(c, Writing(w, data), e.cur));
    }
  }

  lemma {:induction false} DeliversWriting(c: Ctx, w: nat, data: seq<byte>, cur: Cursor)
    requires PhaseOK(c, Writing(w, data))
    ensures DeliversOK(c, w, data, cur, Loop(c, Writing(w, data), cur))
    decreases c.len - w, Rank(Writing(w, data))
  {
    var wr := WriteAt(c.o, cur, c.part, w, data);
    if wr.ok {
      var pre := [wr.call] + CallOnProgress(c.cb, ToInt32(w + |data|), c.streamLength);
      LoopDelivers(c, w + |data|, wr.cur);
      LoggedOne(c, wr.call, w);
      WrittenBytesAppend([wr.call], CallOnProgress(c.cb, ToInt32(w + |data|), c.streamLength));
      DeliversWrite(c, w, data, cur, wr.cur, pre, Loop(c, Head(w + |data|), wr.cur));
    }
  }

  // ---------------------------------------------------------------------------------------------
  // Erase before write

  /** Every write of the log comes after an erase of the 4096-byte block at its offset. */
  predicate ErasedBeforeWritten(calls: seq<Call>) {
    forall i :: 0 <= i < |calls| && calls[i].Write? ==>
      exists j :: 0 <= j < i && calls[j] == EraseRange(calls[i].part, calls[i].offset, BLOCK_SIZE_P)
  }

  lemma ErasedBeforeWrittenNoWrites(a: seq<Call>, xs: seq<Call>)
    requires ErasedBeforeWritten(a) && forall i :: 0 <= i < |xs| ==> !xs[i].Write?
    ensures ErasedBeforeWritten(a + xs)
  {
    assert forall k :: |a| <= k < |a + xs| ==> (a + xs)[k] == xs[k - |a|];
    forall i | 0 <= i < |a + xs| && (a + xs)[i].Write?
      ensures exists j :: 0 <= j < i && (a + xs)[j] == EraseRange((a + xs)[i].part, (a + xs)[i].offset, BLOCK_SIZE_P)
    {
      var j :| 0 <= j < i && a[j] == EraseRange(a[i].part, a[i].offset, BLOCK_SIZE_P);
      assert (a + xs)[j] == a[j];
    }
  }

  lemma ErasedBeforeWrittenSnoc(a: seq<Call>, call: Call)
    requires call.Write? && ErasedBeforeWritten(a) && EraseRange(call.part, call.offset, BLOCK_SIZE_P) in a
    ensures ErasedBeforeWritten(a + [call])
  {
    forall i | 0 <= i < |a + [call]| && (a + [call])[i].Write?
      ensures exists j :: 0 <= j < i && (a + [call])[j] == EraseRange((a + [call])[i].part, (a + [call])[i].offset, BLOCK_SIZE_P)
    {
      if i < |a| {
        var j :| 0 <= j < i && a[j] == EraseRange(a[i].part, a[i].offset, BLOCK_SIZE_P);
        assert (a + [call])[j] == a[j];
      } else {
        var j :| 0 <= j < |a| && a[j] == EraseRange(call.part, call.offset, BLOCK_SIZE_P);
        assert (a + [call])[j] == a[j];
      }
    }
  }

  /** The loop's calls keep every write after the erase of its block, after any log `pre` that
      does so. */
  lemma {:induction false} LoopErasesFirstFrom(c: Ctx, w: nat, cur: Cursor, pre: seq<Call>)
    requires w <= c.len && ErasedBeforeWritten(pre)
    ensures ErasedBeforeWritten(pre + Loop(c, Head(w), cur).calls)
    decreases c.len - w, Rank(Head(w))
  {
    if w < c.len {
      var n := BlockLength(c.len, w, BLOCK_SIZE_P);
      var b := ReadTries(c.o, cur, n, 0);
      ReadTriesFacts(c.o, cur, n, 0);
      ErasedBeforeWrittenNoWrites(pre, b.calls);
      if |b.data| != 0 {
        var r := Loop(c, Erasing(w, b.data), b.cur);
        assert Loop(c, Head(w), cur).calls == b.calls + r.calls;
        ErasesFirstErasing(c, w, b.data, b.cur, pre + b.calls);
        Assoc(pre, b.calls, r.calls);
      } else {
        assert Loop(c, Head(w), cur).calls == b.calls + CallOnError(c.cb, READ_FAILED);
        ErasedBeforeWrittenNoWrites(pre + b.calls, CallOnError(c.cb, READ_FAILED));
        Assoc(pre, b.calls, CallOnError(c.cb, READ_FAILED));
      }
    } else {
      assert pre + Loop(c, Head(w), cur).calls == pre;
    }
  }

  lemma {:induction false} ErasesFirstErasing(c: Ctx, w: nat, data: seq<byte>, cur: Cursor, pre: seq<Call>)
    requires PhaseOK(c, Erasing(w, data)) && ErasedBeforeWritten(pre)
    ensures ErasedBeforeWritten(pre + Loop(c, Erasing(w, data), cur).calls)
    decreases c.len - w, Rank(Erasing(w, data))
  {
    var r := Loop(c, Erasing(w, data), cur);
    var e := Erase(c.o, cur, c.part, w, BLOCK_SIZE_P);
    ErasedBeforeWrittenNoWrites(pre, [e.call]);
    assert e.call in pre + [e.call];
    if !e.ok {
      ErasedBeforeWrittenNoWrites(pre + [e.call], CallOnError(c.cb, UNKNOWN));
      Assoc(pre, [e.call], CallOnError(c.cb, UNKNOWN));
    } else if LookAhead(c, w) {
      ErasesFirstAhead(c, w, data, e.cur, pre + [e.call]);
      Assoc(pre, [e.call], Loop(c, ErasingAhead(w, data), e.cur).calls);
    } else {
      ErasesFirstWriting(c, w, data, e.cur, pre + [e.call]);
      Assoc(pre, [e.call], Loop(c, Writing(w, data), e.cur).calls);
    }
  }

  lemma {:induction false} ErasesFirstAhead(c: Ctx, w: nat, data: seq<byte>, cur: Cursor, pre: seq<Call>)
    requires PhaseOK(c, ErasingAhead(w, data)) && ErasedBeforeWritten(pre)
    requires EraseRange(c.part, w, BLOCK_SIZE_P) in pre
    ensures ErasedBeforeWritten(pre + Loop(c, ErasingAhead(w, data), cur).calls)
    decreases c.len - w, Rank(ErasingAhead(w, data))
  {
    var r := Loop(c, ErasingAhead(w, data), cur);
    var e := Erase(c.o, cur, c.part, w + BLOCK_SIZE_P, BLOCK_SIZE_P);
    ErasedBeforeWrittenNoWrites(pre, [e.call]);
    assert EraseRange(c.part, w, BLOCK_SIZE_P) in pre + [e.call];
    if !e.ok {
      ErasedBeforeWrittenNoWrites(pre + [e.call], CallOnError(c.cb, UNKNOWN));
      Assoc(pre, [e.call], CallOnError(c.cb, UNKNOWN));
    } else {
      ErasesFirstWriting(c, w, data, e.cur, pre + [e.call]);
      Assoc(pre, [e.call], Loop(c, Writing(w, data), e.cur).calls);
    }
  }

  lemma {:induction false} ErasesFirstWriting(c: Ctx, w: nat, data: seq<byte>, cur: Cursor, pre: seq<Call>)
    requires PhaseOK(c, Writing(w, data)) && ErasedBeforeWritten(pre)
    requires EraseRange(c.part, w, BLOCK_SIZE_P) in pre
    ensures ErasedBeforeWritten(pre + Loop(c, Writing(w, data), cur).calls)
    decreases c.len - w, Rank(Writing(w, data))
  {
    var r := Loop(c, Writing(w, data), cur);
    var wr := WriteAt(c.o, cur, c.part, w, data);
    ErasedBeforeWrittenSnoc(pre, wr.call);
    if !wr.ok {
      ErasedBeforeWrittenNoWrites(pre + [wr.call], CallOnError(c.cb, PARTITION_WRITE_FAILED));
      Assoc(pre, [wr.call], CallOnError(c.cb, PARTITION_WRITE_FAILED));
    } else {
      var progress := CallOnProgress(c.cb, ToInt32(w + |data|), c.streamLength);
      ErasedBeforeWrittenNoWrites(pre + [wr.call], progress);
      LoopErasesFirstFrom(c, w + |data|, wr.cur, pre + [wr.call] + progress);
      Assoc(pre, [wr.call], progress);
      Assoc(pre, [wr.call] + progress, Loop(c, Head(w + |data|), wr.cur).calls);
    }
  }

  /** In every pass of the loop the erase of the block at `written` comes before its write. */
  lemma LoopErasesFirst(c: Ctx, written: nat, cur: Cursor)
    requires written <= c.len
    ensures ErasedBeforeWritten(Loop(c, Head(written), cur).calls)
  {
    LoopErasesFirstFrom(c, written, cur, []);
    assert [] + Loop(c, Head(written), cur).calls == Loop(c, Head(written), cur).calls;
  }

  // ---------------------------------------------------------------------------------------------
  // Progress reports

  /** The `written` values of the progress reports of a log, in order. */
  function Reports(calls: seq<Call>): seq<int> {
    if calls == [] then []
    else (if calls[0].OnProgress? then [calls[0].written] else []) + Reports(calls[1..])
  }

  lemma {:induction false} ReportsAppend(a: seq<Call>, b: seq<Call>)
    ensures Reports(a + b) == Reports(a) + Reports(b)
  {
    if a == [] {
      assert a + b == b;
    } else {
      var x := if a[0].OnProgress? then [a[0].written] else [];
      assert (a + b)[0] == a[0];
      assert (a + b)[1..] == a[1..] + b;
      ReportsAppend(a[1..], b);
      Assoc(x, Reports(a[1..]), Reports(b));
    }
  }

  /** A call that is not a report in front of a log leaves its reports as they are. */
  lemma ReportsCons(call: Call, rest: seq<Call>)
    requires !call.OnProgress?
    ensures Reports([call] + rest) == Reports(rest)
  {
    assert ([call] + rest)[1..] == rest;
  }

  lemma ReportsNone(calls: seq<Call>)
    requires forall i :: 0 <= i < |calls| ==> !calls[i].OnProgress?
    ensures Reports(calls) == []
  {
    if calls != [] {
      ReportsNone(calls[1..]);
    }
  }

  predicate Increasing(s: seq<int>) {
    forall i, j :: 0 <= i < j < |s| ==> s[i] < s[j]
  }

  /** The progress reports rise strictly and stay in `(w, len]`; when the loop ran to the end from
      below `len` with a progress callback, the last one is `len`. */
  predicate ProgressOK(c: Ctx, w: nat, r: Run) {
    ReportsOK(Reports(r.calls), w, c.len, r.result == OK && w < c.len && c.cb.onProgress.Fn?)
  }

  /** `rs` rises strictly within `(w, len]` and, when `finished`, ends at `len`. */
  predicate ReportsOK(rs: seq<int>, w: int, len: int, finished: bool) {
    Increasing(rs) && (forall k :: 0 <= k < |rs| ==> w < rs[k] <= len) &&
    (finished ==> rs != [] && rs[|rs| - 1] == len)
  }

  /** A report of `w'` in front of reports from `w'` on. */
  lemma ReportsOKCons(rs: seq<int>, w: int, w': int, len: int, finished: bool)
    requires w < w' <= len && ReportsOK(rs, w', len, finished && w' < len)
    requires w' == len ==> rs == []
    ensures ReportsOK([w'] + rs, w, len, finished)
  {
    IncreasingCons(w', rs);
  }

  /** Calls that are not reports in front of a run. */
  lemma ProgressCons(c: Ctx, w: nat, pre: seq<Call>, r: Run)
    requires (forall i :: 0 <= i < |pre| ==> !pre[i].OnProgress?) && ProgressOK(c, w, r)
    ensures ProgressOK(c, w, Then(pre, r))
  {
    ReportsNone(pre);
    ReportsAppend(pre, r.calls);
  }

  /** A run that ends in an error with only such calls and the error callback reports nothing. */
  lemma ProgressFailure(c: Ctx, w: nat, pre: seq<Call>, e: UpdaterError, cur: Cursor)
    requires (forall i :: 0 <= i < |pre| ==> !pre[i].OnProgress?) && e != OK
    ensures ProgressOK(c, w, Run(e, cur, pre + CallOnError(c.cb, e)))
  {
    ReportsNone(pre);
    ReportsNone(CallOnError(c.cb, e));
    ReportsAppend(pre, CallOnError(c.cb, e));
  }

  /** The reports of a write, its progress callback and a log after them. */
  lemma ReportsOfWrite(cb: Callbacks, call: Call, x: int32, total: int32, rest: seq<Call>)
    requires !call.OnProgress?
    ensures Reports([call] + CallOnProgress(cb, x, total) + rest) ==
            (if cb.onProgress.Fn? then [x] else []) + Reports(rest)
  {
    var progress := CallOnProgress(cb, x, total);
    assert [call] + progress + rest == [call] + (progress + rest);
    ReportsCons(call, progress + rest);
    if cb.onProgress.Fn? {
      assert progress + rest == [progress[0]] + rest;
      assert ([progress[0]] + rest)[1..] == rest;
    } else {
      assert progress + rest == rest;
    }
  }

  /** A write, the report of the new offset `w'`, then a run from `w'`. */
  lemma ProgressWrite(c: Ctx, w: nat, w': nat, call: Call, r: Run)
    requires w < w' <= c.len <= INT32_MAX && !call.OnProgress? && ProgressOK(c, w', r)
    requires w' == c.len ==> r.calls == []
    ensures ProgressOK(c, w, Then([call] + CallOnProgress(c.cb, ToInt32(w'), c.streamLength), r))
  {
    ReportsOfWrite(c.cb, call, ToInt32(w'), c.streamLength, r.calls);
    if c.cb.onProgress.Fn? {
      ReportsOKCons(Reports(r.calls), w, w', c.len, r.result == OK);
    }
  }

  lemma IncreasingCons(x: int, rs: seq<int>)
    requires Increasing(rs) && forall k :: 0 <= k < |rs| ==> x < rs[k]
    ensures Increasing([x] + rs)
  {
    assert forall k :: 1 <= k < |[x] + rs| ==> ([x] + rs)[k] == rs[k - 1];
  }

  /** With `len` within `int`, the loop's progress reports rise strictly, stay in
      `(written, len]`, and the last one is `len` when the loop ran to the end. */
  lemma {:induction false} LoopProgress(c: Ctx, w: nat, cur: Cursor)
    requires w <= c.len <= INT32_MAX
    ensures ProgressOK(c, w, Loop(c, Head(w), cur))
    decreases c.len - w, Rank(Head(w))
  {
    if w < c.len {
      var n := BlockLength(c.len, w, BLOCK_SIZE_P);
      var b := ReadTries(c.o, cur, n, 0);
      ReadTriesFacts(c.o, cur, n, 0);
      if |b.data| != 0 {
        ProgressErasing(c, w, b.data, b.cur);
        ProgressCons(c, w, b.calls, Loop(c, Erasing(w, b.data), b.cur));
      } else {
        ProgressFailure(c, w, b.calls, READ_FAILED, b.cur);
      }
    }
  }

  lemma {:induction false} ProgressErasing(c: Ctx, w: nat, data: seq<byte>, cur: Cursor)
    requires PhaseOK(c, Erasing(w, data)) && c.len <= INT32_MAX
    ensures ProgressOK(c, w, Loop(c, Erasing(w, data), cur))
    decreases c.len - w, Rank(Erasing(w, data))
  {
    var e := Erase(c.o, cur, c.part, w, BLOCK_SIZE_P);
    if !e.ok {
      ProgressFailure(c, w, [e.call], UNKNOWN, e.cur);
    } else if LookAhead(c, w) {
      ProgressAhead(c, w, data, e.cur);
      ProgressCons(c, w, [e.call], Loop(c, ErasingAhead(w, data), e.cur));
    } else {
      ProgressWriting(c, w, data, e.cur);
      ProgressCons(c, w, [e.call], Loop(c, Writing(w, data), e.cur));
    }
  }

  lemma {:induction false} ProgressAhead(c: Ctx, w: nat, data: seq<byte>, cur: Cursor)
    requires PhaseOK(c, ErasingAhead(w, data)) && c.len <= INT32_MAX
    ensures ProgressOK(c, w, Loop(c, ErasingAhead(w, data), cur))
    decreases c.len - w, Rank(ErasingAhead(w, data))
  {
    var e := Erase(c.o, cur, c.part, w + BLOCK_SIZE_P, BLOCK_SIZE_P);
    if !e.ok {
      ProgressFailure(c, w, [e.call], UNKNOWN, e.cur);
    } else {
      ProgressWriting(c, w, data, e.cur);
      ProgressCons(c, w, [e.call], Loop(c, Writing(w, data), e.cur));
    }
  }

  lemma {:induction false} ProgressWriting(c: Ctx, w: nat, data: seq<byte>, cur: Cursor)
    requires PhaseOK(c, Writing(w, data)) && c.len <= INT32_MAX
    ensures ProgressOK(c, w, Loop(c, Writing(w, data), cur))
    decreases c.len - w, Rank(Writing(w, data))
  {
    var wr := WriteAt(c.o, cur, c.part, w, data);
    if !wr.ok {
      ProgressFailure(c, w, [wr.call], PARTITION_WRITE_FAILED, wr.cur);
    } else {
      var w' := w + |data|;
      var r := Loop(c, Head(w'), wr.cur);
      assert Loop(c, Writing(w, data), cur) ==
             Then([wr.call] + CallOnProgress(c.cb, ToInt32(w'), c.streamLength), r);
      LoopProgress(c, w', wr.cur);
      assert w' == c.len ==> r.calls == [];
      ProgressWrite(c, w, w', wr.call, r);
    }
  }

  /** The look-ahead erase ends below `maxSketchSpace`: its block `[written + 4096, written + 8192)`
      lies inside the free space whenever the space check has passed. */
  lemma LookAheadWithinSketch(c: Ctx, written: nat)
    requires LookAhead(c, written) && c.len <= c.maxSketch
    ensures written + 2 * BLOCK_SIZE_P < c.maxSketch
  {
  }
}
