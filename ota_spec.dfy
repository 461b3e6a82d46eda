/** What the self-contained `UpdateOTA` class does, as functions of the environment's answers. The
    class exists in two near-identical copies, lib/UpdateOTA/src/UpdateOTA.cpp and the older
    src/UpdateOTA.cpp; both run the same stages, the same status switch, the same message table and
    the same unchecked transfer loop, so both are proved against the functions of this module. */
module OtaSpec {
  import opened Types
  import opened Platform
  import opened CString
  import UpdaterSpec

  /** `UpdateOTAError`, in declaration order. */
  datatype UpdateOTAError =
    | SUCCESS
    | NO_INTERNET
    | BAD_REQUEST
    | UNAUTHORIZED
    | PAGE_NOT_FOUND
    | NO_PARTITION_AVAILABLE
    | PARTITION_NOT_BOOTABLE
    | UPDATE_PROGRESS_ERROR
    | NO_ENOUGH_SPACE
    | UNKNOWN

  /** The status codes `processGetRequest` tells apart (section 15 of RFC 9110). */
  const HTTP_CODE_OK: int := 200
  const HTTP_CODE_BAD_REQUEST: int := 400
  const HTTP_CODE_UNAUTHORIZED: int := 401
  const HTTP_CODE_NOT_FOUND: int := 404

  /** The `switch (_httpCode)` of `processGetRequest`: four statuses have their own error, every
      other value of the `uint16_t` is `UNKNOWN`. */
  function RequestError(code: uint16): (e: UpdateOTAError)
    ensures e == SUCCESS <==> code == HTTP_CODE_OK
    ensures e == PAGE_NOT_FOUND <==> code == HTTP_CODE_NOT_FOUND
    ensures e == UNAUTHORIZED <==> code == HTTP_CODE_UNAUTHORIZED
    ensures e == BAD_REQUEST <==> code == HTTP_CODE_BAD_REQUEST
    ensures e in {SUCCESS, PAGE_NOT_FOUND, UNAUTHORIZED, BAD_REQUEST, UNKNOWN}
  {
    if code == HTTP_CODE_OK then SUCCESS
    else if code == HTTP_CODE_NOT_FOUND then PAGE_NOT_FOUND
    else if code == HTTP_CODE_UNAUTHORIZED then UNAUTHORIZED
    else if code == HTTP_CODE_BAD_REQUEST then BAD_REQUEST
    else UNKNOWN
  }

  /** The texts of `errorToString`: string literals, so no terminator inside. */
  const MSG_SUCCESS: seq<CChar> := "No error occurred."
  const MSG_NO_INTERNET: seq<CChar> := "No internet connection."
  const MSG_BAD_REQUEST: seq<CChar> := "Bad request received."
  const MSG_UNAUTHORIZED: seq<CChar> := "Unauthorized access."
  const MSG_PAGE_NOT_FOUND: seq<CChar> := "Page(URL) not found."
  const MSG_NO_PARTITION_AVAILABLE: seq<CChar> := "No partition available for update."
  const MSG_PARTITION_NOT_BOOTABLE: seq<CChar> := "Selected partition is not bootable."
  const MSG_UPDATE_PROGRESS_ERROR: seq<CChar> := "Error in update progress."
  const MSG_NO_ENOUGH_SPACE: seq<CChar> := "Insufficient space for update."
  const MSG_DEFAULT: seq<CChar> := "Unknown error."

  /** The message `errorToString` copies for an error; `UNKNOWN` has no case of its own and takes
      the default. Each message is a C string short enough for the 50-character minimum of the
      lib copy. */
  function Message(e: UpdateOTAError): (m: string)
    ensures IsCString(m) && 0 < |m| < MIN_MESSAGE_BUFFER
  {
    match e
    case SUCCESS => MSG_SUCCESS
    case NO_INTERNET => MSG_NO_INTERNET
    case BAD_REQUEST => MSG_BAD_REQUEST
    case UNAUTHORIZED => MSG_UNAUTHORIZED
    case PAGE_NOT_FOUND => MSG_PAGE_NOT_FOUND
    case NO_PARTITION_AVAILABLE => MSG_NO_PARTITION_AVAILABLE
    case PARTITION_NOT_BOOTABLE => MSG_PARTITION_NOT_BOOTABLE
    case UPDATE_PROGRESS_ERROR => MSG_UPDATE_PROGRESS_ERROR
    case NO_ENOUGH_SPACE => MSG_NO_ENOUGH_SPACE
    case UNKNOWN => MSG_DEFAULT
  }

  /** The smallest buffer the lib copy of `errorToString` writes into. */
  const MIN_MESSAGE_BUFFER: nat := 50

  /** The percentage `printProgress` of src/UpdateOTA.cpp prints, `(100 * written) / total` in
      `size_t`, as written: the product wraps at 2^32, and a zero `total` divides by zero (`None`). */
  function PercentAsWritten(written: nat, total: nat): Option<nat> {
    if total == 0 then None else Some((100 * written) % UINT32_LIMIT / total)
  }

  /** The same percentage with the zero-length case reported as complete. */
  function Percent(written: nat, total: nat): nat {
    if total == 0 then 100 else (100 * written) % UINT32_LIMIT / total
  }

  /** The guard of `getVersionNumber` as written: `getSize() > bufferSize` compares an `int` with a
      `uint8_t` promoted to `int`, so a negative size passes, and a size equal to the buffer's
      passes although the terminator then goes at `buffer[size]`. */
  predicate VersionGuardAsWritten(size: int32, bufferSize: uint8) {
    !(size > bufferSize)
  }

  /** The guard that keeps the `size` bytes and the terminator after them inside the buffer. */
  predicate VersionFits(size: int32, bufferSize: uint8) {
    0 <= size < bufferSize
  }

  /** The bytes of the stream as the `char`s `readBytes` stores. */
  function Chars(data: seq<byte>): (c: seq<char>)
    ensures |c| == |data| && forall i :: 0 <= i < |data| ==> c[i] == data[i] as char
  {
    if data == [] then [] else [data[0] as char] + Chars(data[1..])
  }

  /** The caller's buffer after a successful `getVersionNumber`: the bytes that arrived, then what
      the buffer held up to `size`, then the terminator; the rest is untouched. */
  function VersionBuffer(before: seq<char>, data: seq<byte>, size: nat): seq<char>
    requires |data| <= size < |before|
  {
    Chars(data) + before[|data|..size] + [NUL] + before[size + 1..]
  }

  /** What `getVersionNumber` returns, the environment after it, its calls and the bytes it read. */
  datatype Version = Version(result: UpdateOTAError, cur: Cursor, calls: seq<Call>, data: seq<byte>)

  /** `getVersionNumber(uRL, buffer, bufferSize)` with the guard corrected to `VersionFits`. */
  function VersionNumber(o: Oracle, cur: Cursor, bufferSize: uint8): Version {
    if !o.wifiConnected then Version(NO_INTERNET, cur, [], [])
    else
      var get := [OpenClients, HttpGet(o.httpStatus)];
      var e := RequestError(ToUint16(o.httpStatus));
      if e != SUCCESS then Version(e, cur, get, [])
      else if !VersionFits(o.contentLength, bufferSize) then Version(NO_ENOUGH_SPACE, cur, get, [])
      else
        var rd := StreamRead(o, cur, o.contentLength);
        Version(SUCCESS, rd.cur, get + [rd.call], rd.data)
  }

  /** `getVersionNumber` with the guard as written, `VersionGuardAsWritten`. The read asks for
      `getSize()` converted to the `size_t` parameter of `readBytes`; the terminator then goes at
      index `o.contentLength`, which this function leaves to its callers to compare with the
      buffer. */
  function VersionNumberAsWritten(o: Oracle, cur: Cursor, bufferSize: uint8): Version {
    if !o.wifiConnected then Version(NO_INTERNET, cur, [], [])
    else
      var get := [OpenClients, HttpGet(o.httpStatus)];
      var e := RequestError(ToUint16(o.httpStatus));
      if e != SUCCESS then Version(e, cur, get, [])
      else if !VersionGuardAsWritten(o.contentLength, bufferSize) then Version(NO_ENOUGH_SPACE, cur, get, [])
      else
        var rd := StreamRead(o, cur, ToUint32(o.contentLength));
        Version(SUCCESS, rd.cur, get + [rd.call], rd.data)
  }

  /** One pass of the `while (written < _streamLength)` loop of `updateFirmware`, from `written`:
      the progress print, the read of `min(BLOCK_SIZE_P, len - written)` bytes into the zeroed
      buffer, the erase of `[written, written + BLOCK_SIZE_P)` and the write of what was read.
      Neither result is looked at. */
  datatype Pass = Pass(written: nat, cur: Cursor, calls: seq<Call>)

  function Step(o: Oracle, part: Partition, len: nat, written: nat, cur: Cursor): (s: Pass)
    requires written < len
    ensures written <= s.written <= len && s.cur.readCalls == cur.readCalls + 1
  {
    var rd := StreamRead(o, cur, UpdaterSpec.BlockLength(len, written, BLOCK_SIZE_P));
    var e := Erase(o, rd.cur, part, written, BLOCK_SIZE_P);
    var wr := WriteAt(o, e.cur, part, written, rd.data);
    Pass(written + |rd.data|, wr.cur, [PrintProgress(written, len), rd.call, e.call, wr.call])
  }

  /** Where the loop ends: with `written == len`, or `stalled` once every read the stream will ever
      answer has been made; from there on the loop spins without end, since nothing bounds its
      retries (see `OtaProperties.StallSpins`). */
  datatype Transfer = Transfer(written: nat, stalled: bool, cur: Cursor, calls: seq<Call>)

  function Loop(o: Oracle, part: Partition, len: nat, written: nat, cur: Cursor): Transfer
    requires written <= len
    decreases |o.supply| - cur.readCalls
  {
    if written == len then Transfer(written, false, cur, [])
    else if |o.supply| <= cur.readCalls then Transfer(written, true, cur, [])
    else
      var s := Step(o, part, len, written, cur);
      var t := Loop(o, part, len, s.written, s.cur);
      Transfer(t.written, t.stalled, t.cur, s.calls + t.calls)
  }

  /** `t` with `pre` made before it. */
  function After(pre: seq<Call>, t: Transfer): Transfer {
    Transfer(t.written, t.stalled, t.cur, pre + t.calls)
  }

  /** `Loop` from `written` on is the loop from the start with `made` already done. */
  ghost predicate Between(o: Oracle, part: Partition, len: nat, cur0: Cursor, made: seq<Call>, written: nat, at: Cursor) {
    written <= len && Loop(o, part, len, 0, cur0) == After(made, Loop(o, part, len, written, at))
  }

  /** A pass the method makes: one more `Step`, and the loop not yet at its end has reads left. */
  lemma PassOn(o: Oracle, part: Partition, len: nat, cur0: Cursor, made: seq<Call>, written: nat, at: Cursor)
    requires Between(o, part, len, cur0, made, written, at) && written < len
    requires !Loop(o, part, len, 0, cur0).stalled
    ensures at.readCalls < |o.supply|
    ensures var s := Step(o, part, len, written, at);
      Between(o, part, len, cur0, made + s.calls, s.written, s.cur)
  {
    var s := Step(o, part, len, written, at);
    var t := Loop(o, part, len, s.written, s.cur);
    assert at.readCalls < |o.supply|;
    assert Loop(o, part, len, written, at) == After(s.calls, t);
    Assoc(made, s.calls, t.calls);
  }

  /** The loop test failing: the whole loop is what was made. */
  lemma PassesDone(o: Oracle, part: Partition, len: nat, cur0: Cursor, made: seq<Call>, at: Cursor)
    requires Between(o, part, len, cur0, made, len, at)
    ensures Loop(o, part, len, 0, cur0) == Transfer(len, false, at, made)
  {
  }

  /** How `startUpdate` ends: the error it returns, the restart from which nothing returns, or the
      transfer loop spinning without end. */
  datatype End = Returned(error: UpdateOTAError) | Restarted | Hung

  /** The result, the value left in `_newPartition`, the environment after and the calls made. */
  datatype Outcome = Outcome(end: End, partition: Option<Partition>, cur: Cursor, calls: seq<Call>)

  /** The partition kind an `isFirmware` flag selects. */
  function Kind(isFirmware: bool): UpdaterSpec.UpdaterType {
    if isFirmware then UpdaterSpec.FIRMWARE else UpdaterSpec.SPIFFS
  }

  /** The stages of `startUpdate` once `part` is selected: `updateFirmware`, then for firmware the
      boot switch and the restart. */
  function Install(o: Oracle, isFirmware: bool, part: Partition, cur: Cursor): Outcome
    requires 0 <= o.contentLength
  {
    var len := o.contentLength;
    var t := Loop(o, part, len, 0, cur);
    if t.stalled then Outcome(Hung, Some(part), t.cur, t.calls)
    else
      var done := t.calls + [PrintProgress(t.written, len)];
      if len != t.written then Outcome(Returned(UPDATE_PROGRESS_ERROR), Some(part), t.cur, done)
      else if !isFirmware then Outcome(Returned(SUCCESS), Some(part), t.cur, done)
      else
        var b := SetBoot(o, t.cur, part);
        if !b.ok then Outcome(Returned(PARTITION_NOT_BOOTABLE), Some(part), b.cur, done + [b.call])
        else Outcome(Restarted, Some(part), b.cur, done + [b.call, Restart])
  }

  /** The stages of `startUpdate` after a successful GET: the space check against the rounded free
      sketch space (an `int` size compared as a `uint64_t`), the partition lookup and `Install`. */
  function Checked(o: Oracle, isFirmware: bool, cur: Cursor, partition: Option<Partition>): Outcome {
    if ToUint64(o.contentLength) > MaxSketchSpace(o.freeSketchSpace) then
      Outcome(Returned(NO_ENOUGH_SPACE), partition, cur, [])
    else
      var found := UpdaterSpec.Found(o, Kind(isFirmware));
      var lookup := UpdaterSpec.LookupCall(o, Kind(isFirmware));
      if found.None? then Outcome(Returned(NO_PARTITION_AVAILABLE), found, cur, [lookup])
      else
        var i := Install(o, isFirmware, found.value, cur);
        Outcome(i.end, i.partition, i.cur, [lookup] + i.calls)
  }

  /** `startUpdate(uRL, isFirmware)` with `_newPartition == partition` before: its stages in order,
      each stopping the update at its first failure. */
  function StartUpdate(o: Oracle, isFirmware: bool, cur: Cursor, partition: Option<Partition>): Outcome {
    if !o.wifiConnected then Outcome(Returned(NO_INTERNET), partition, cur, [])
    else
      var get := [OpenClients, HttpGet(o.httpStatus)];
      var e := RequestError(ToUint16(o.httpStatus));
      if e != SUCCESS then Outcome(Returned(e), partition, cur, get)
      else
        var c := Checked(o, isFirmware, cur, partition);
        Outcome(c.end, c.partition, c.cur, get + c.calls)
  }
}
