/** The `UpdateOTA` class of src/UpdateOTA.cpp, the older copy of the one in lib/UpdateOTA: the same
    stages and transfer loop, a status pin for the LED instead of a relay module, an integer
    progress percentage, and an `errorToString` without any check of the caller's buffer. */
module SrcUpdateOta {
  import opened Types
  import opened Platform
  import opened CString
  import opened OtaSpec
  import UpdaterSpec

  class UpdateOTA {
    /** What the environment answers. */
    const env: Oracle
    /** How much of it has been consumed. */
    var world: Cursor
    /** The calls made so far. */
    var log: seq<Call>

    /** `_uRL` (null until a call stores one), `_isFirmware`, `_pinStatus`, `_httpCode`. */
    var uRL: Option<string>
    var isFirmware: bool
    var pinStatus: uint8
    var httpCode: uint16
    /** Whether `_wifiClientSecure` and `_httpClient` have been allocated. */
    var clients: bool
    /** `_newPartition`. */
    var newPartition: Option<Partition>
    /** `_buffer[BLOCK_SIZE_P]`. */
    const buffer: array<byte>

    ghost predicate Valid()
      reads this
    {
      buffer.Length == BLOCK_SIZE_P
    }

    /** `UpdateOTA(logger)`: no partition, no URL, no clients, pin 0, status 0. */
    constructor (env: Oracle, world: Cursor)
      ensures Valid() && fresh(buffer)
      ensures this.env == env && this.world == world && log == []
      ensures uRL == None && !isFirmware && pinStatus == 0 && httpCode == 0 && !clients && newPartition == None
    {
      this.env := env;
      this.world := world;
      log := [];
      uRL := None;
      isFirmware := false;
      pinStatus := 0;
      httpCode := 0;
      clients := false;
      newPartition := None;
      buffer := new byte[BLOCK_SIZE_P];
    }

    /** `processGetRequest()`: the GET on the allocated clients; its status is kept in the
        `uint16_t` `_httpCode` and mapped to an error. */
    method ProcessGetRequest() returns (err: UpdateOTAError)
      requires clients
      modifies this`log, this`httpCode
      ensures httpCode == ToUint16(env.httpStatus) && err == RequestError(httpCode)
      ensures log == old(log) + [HttpGet(env.httpStatus)]
    {
      log := log + [HttpGet(env.httpStatus)];
      httpCode := ToUint16(env.httpStatus);
      err := RequestError(httpCode);
    }

    /** `resetBuffer()`: zeroes all of `_buffer`. */
    method ResetBuffer()
      requires Valid()
      modifies buffer
      ensures forall i :: 0 <= i < buffer.Length ==> buffer[i] == 0
    {
      for i := 0 to BLOCK_SIZE_P
        invariant forall k :: 0 <= k < i ==> buffer[k] == 0
      {
        buffer[i] := 0;
      }
    }

    /** `_wifiClientSecure->readBytes(_buffer, n)`: what arrives lands at the front of the buffer. */
    method ReadBytes(n: nat) returns (got: nat)
      requires n <= buffer.Length
      modifies this`world, this`log, buffer
      ensures var r := StreamRead(env, old(world), n);
        got == |r.data| && world == r.cur && log == old(log) + [r.call] &&
        buffer[..got] == r.data && buffer[got..] == old(buffer[got..])
    {
      var r := StreamRead(env, world, n);
      got := |r.data|;
      forall i | 0 <= i < got {
        buffer[i] := r.data[i];
      }
      world := r.cur;
      log := log + [r.call];
    }

    /** `readBlockFromClientToBuffer(offset, length)`: asks once for `min(length, size - offset)`
        bytes and returns how many arrived. */
    method ReadBlockFromClientToBuffer(offset: nat, length: nat) returns (readed: nat)
      requires Valid() && 0 <= env.contentLength && offset < env.contentLength && length <= BLOCK_SIZE_P
      modifies this`world, this`log, buffer
      ensures var r := StreamRead(env, old(world), UpdaterSpec.BlockLength(env.contentLength, offset, length));
        readed == |r.data| && world == r.cur && log == old(log) + [r.call] &&
        buffer[..readed] == r.data && buffer[readed..] == old(buffer[readed..])
    {
      var n := length;
      if env.contentLength < offset + length {
        n := env.contentLength - offset;
      }
      readed := ReadBytes(n);
    }

    /** `resetPartitionRange(offset, length)`: erases the range of `_newPartition`; the result is
        not looked at. */
    method ResetPartitionRange(offset: nat, length: nat)
      requires newPartition.Some?
      modifies this`world, this`log
      ensures var e := Erase(env, old(world), newPartition.value, offset, length);
        world == e.cur && log == old(log) + [e.call]
    {
      var e := Erase(env, world, newPartition.value, offset, length);
      world := e.cur;
      log := log + [e.call];
    }

    /** `writeBlockBufferToPartition(offset, length)`: writes the front of the buffer at `offset`;
        the result is not looked at. */
    method WriteBlockBufferToPartition(offset: nat, length: nat)
      requires newPartition.Some? && length <= buffer.Length
      modifies this`world, this`log
      ensures var f := WriteAt(env, old(world), newPartition.value, offset, buffer[..length]);
        world == f.cur && log == old(log) + [f.call]
    {
      var f := WriteAt(env, world, newPartition.value, offset, buffer[..length]);
      world := f.cur;
      log := log + [f.call];
    }

    /** `printProgress(written, total)`: a log line showing `OtaSpec.Percent(written, total)`, which
        `OtaProperties.PercentBounded` keeps within 100; as written, the percentage divides by
        `total` even when it is zero (`OtaSpec.PercentAsWritten`). */
    method PrintProgress(written: nat, total: nat) returns (percent: nat)
      modifies this`log
      ensures percent == Percent(written, total)
      ensures log == old(log) + [Call.PrintProgress(written, total)]
    {
      percent := Percent(written, total);
      log := log + [Call.PrintProgress(written, total)];
    }

    /** One pass of the loop of `updateFirmware`: `OtaSpec.Step` from `written`. */
    method Pass(written: nat, len: nat) returns (toWrite: nat)
      requires Valid() && newPartition.Some? && len == env.contentLength && written < len
      modifies this`world, this`log, buffer
      ensures var s := Step(env, newPartition.value, len, written, old(world));
        written + toWrite == s.written && world == s.cur && log == old(log) + s.calls
    {
      ghost var s := Step(env, newPartition.value, len, written, world);
      var _ := PrintProgress(written, len);
      ResetBuffer();
      toWrite := ReadBlockFromClientToBuffer(written, BLOCK_SIZE_P);
      ResetPartitionRange(written, BLOCK_SIZE_P);
      WriteBlockBufferToPartition(written, toWrite);
    }

    /** `updateFirmware()`: the transfer loop, then the last progress print and the length check.
        The loop runs `OtaSpec.Loop`, which must not stall: a stalled loop never returns. */
    method UpdateFirmware() returns (err: UpdateOTAError)
      requires Valid() && newPartition.Some? && 0 <= env.contentLength
      requires !Loop(env, newPartition.value, env.contentLength, 0, world).stalled
      modifies this`world, this`log, buffer
      ensures var t := Loop(env, newPartition.value, env.contentLength, 0, old(world));
        world == t.cur && log == old(log) + t.calls + [Call.PrintProgress(t.written, env.contentLength)] &&
        err == (if env.contentLength != t.written then UPDATE_PROGRESS_ERROR else SUCCESS)
    {
      ghost var part := newPartition.value;
      ghost var cur0 := world;
      ghost var pre := log;
      ghost var made: seq<Call> := [];
      var written: nat := 0;
      var toWrite: nat := 0;
      var streamLength: nat := env.contentLength;
      assert Between(env, part, streamLength, cur0, made, written, world);
      while written < streamLength
        invariant newPartition == Some(part) && log == pre + made
        invariant Between(env, part, streamLength, cur0, made, written, world)
        decreases |env.supply| - world.readCalls
      {
        PassOn(env, part, streamLength, cur0, made, written, world);
        ghost var s := Step(env, part, streamLength, written, world);
        ghost var next := made + s.calls;
        assert Between(env, part, streamLength, cur0, next, s.written, s.cur);
        toWrite := Pass(written, streamLength);
        written := written + toWrite;
        assert written == s.written && world == s.cur;
        Assoc(pre, made, s.calls);
        made := next;
      }
      PassesDone(env, part, streamLength, cur0, made, world);
      var _ := PrintProgress(written, streamLength);
      if streamLength != written {
        // The loop leaves `written == _streamLength`: this return is never taken.
        assert false;
      }
      err := SUCCESS;
    }

    /** `selectPartition()`: the next OTA app partition for firmware, the first SPIFFS data
        partition otherwise, stored in `_newPartition` even when there is none. */
    method SelectPartition() returns (err: UpdateOTAError)
      modifies this`newPartition, this`log
      ensures newPartition == UpdaterSpec.Found(env, Kind(isFirmware))
      ensures log == old(log) + [UpdaterSpec.LookupCall(env, Kind(isFirmware))]
      ensures err == (if newPartition.None? then NO_PARTITION_AVAILABLE else SUCCESS)
    {
      if isFirmware {
        newPartition := env.nextUpdatePartition;
        log := log + [NextUpdatePartition(newPartition)];
      } else {
        newPartition := env.spiffsPartition;
        log := log + [FindSpiffsPartition(newPartition)];
      }
      if newPartition.None? {
        return NO_PARTITION_AVAILABLE;
      }
      return SUCCESS;
    }

    /** `changeBootPartition()`: makes `_newPartition` the boot partition. */
    method ChangeBootPartition() returns (err: UpdateOTAError)
      requires newPartition.Some?
      modifies this`world, this`log
      ensures var b := SetBoot(env, old(world), newPartition.value);
        world == b.cur && log == old(log) + [b.call] && err == (if b.ok then SUCCESS else PARTITION_NOT_BOOTABLE)
    {
      var b := SetBoot(env, world, newPartition.value);
      world := b.cur;
      log := log + [b.call];
      err := if b.ok then SUCCESS else PARTITION_NOT_BOOTABLE;
    }

    /** The stages of `startUpdate` after `selectPartition` succeeded: `OtaSpec.Install`. */
    method Install() returns (end: End)
      requires Valid() && newPartition.Some? && 0 <= env.contentLength
      requires OtaSpec.Install(env, isFirmware, newPartition.value, world).end != Hung
      modifies this`world, this`log, buffer
      ensures var i := OtaSpec.Install(env, isFirmware, old(newPartition).value, old(world));
        end == i.end && world == i.cur && log == old(log) + i.calls
    {
      var err := UpdateFirmware();
      if err != SUCCESS {
        return Returned(err);
      }
      if !isFirmware {
        return Returned(SUCCESS);
      }
      err := ChangeBootPartition();
      if err != SUCCESS {
        return Returned(err);
      }
      log := log + [Restart];
      return Restarted;
    }

    /** The stages of `startUpdate` after a successful GET: `OtaSpec.Checked`. */
    method CheckAndInstall() returns (end: End)
      requires Valid() && OtaSpec.Checked(env, isFirmware, world, newPartition).end != Hung
      modifies this`world, this`log, this`newPartition, buffer
      ensures var c := OtaSpec.Checked(env, isFirmware, old(world), old(newPartition));
        end == c.end && newPartition == c.partition && world == c.cur && log == old(log) + c.calls
    {
      var maxSketchSpace := MaxSketchSpace(env.freeSketchSpace);
      if ToUint64(env.contentLength) > maxSketchSpace {
        return Returned(NO_ENOUGH_SPACE);
      }
      var err := SelectPartition();
      if err != SUCCESS {
        return Returned(err);
      }
      ghost var chosen := log;
      end := Install();
      Assoc(old(log), chosen[|old(log)|..], log[|chosen|..]);
    }

    /** The stages of `startUpdate` before the download: the WiFi check, the allocation of the
        clients and the GET request. */
    method Connect() returns (err: UpdateOTAError)
      modifies this`log, this`httpCode, this`clients
      ensures err == if env.wifiConnected then RequestError(ToUint16(env.httpStatus)) else NO_INTERNET
      ensures log == old(log) + if env.wifiConnected then [OpenClients, HttpGet(env.httpStatus)] else []
      ensures clients == (old(clients) || env.wifiConnected)
      ensures httpCode == if env.wifiConnected then ToUint16(env.httpStatus) else old(httpCode)
    {
      if !env.wifiConnected {
        return NO_INTERNET;
      }
      clients := true;
      log := log + [OpenClients];
      err := ProcessGetRequest();
    }

    /** `startUpdate(uRL, isFirmware)`, with `body` the bytes the GET's response will deliver. It
        runs `OtaSpec.StartUpdate`, which must not hang: a stalled transfer never returns. */
    method StartUpdate(uRL: string, isFirmware: bool, pinStatus: uint8, body: seq<byte>) returns (end: End)
      requires Valid()
      requires OtaSpec.StartUpdate(env, isFirmware, world.(rest := body), newPartition).end != Hung
      modifies this`world, this`log, this`uRL, this`isFirmware, this`pinStatus, this`httpCode, this`clients,
        this`newPartition, buffer
      ensures var out := OtaSpec.StartUpdate(env, isFirmware, old(world).(rest := body), old(newPartition));
        end == out.end && newPartition == out.partition && world == out.cur && log == old(log) + out.calls
      ensures this.uRL == Some(uRL) && this.isFirmware == isFirmware && this.pinStatus == pinStatus
      ensures clients == (old(clients) || env.wifiConnected)
      ensures httpCode == if env.wifiConnected then ToUint16(env.httpStatus) else old(httpCode)
    {
      this.uRL := Some(uRL);
      this.isFirmware := isFirmware;
      this.pinStatus := pinStatus;
      world := world.(rest := body);
      var err := Connect();
      if err != SUCCESS {
        return Returned(err);
      }
      ghost var got := log;
      end := CheckAndInstall();
      Assoc(old(log), got[|old(log)|..], log[|got|..]);
    }

    /** `readBytes(buffer, size)` into the caller's buffer, then `buffer[size] = '\0'`. */
    method ReadVersion(dest: array<char>, size: nat)
      requires size < dest.Length
      modifies this`world, this`log, dest
      ensures var r := StreamRead(env, old(world), size);
        world == r.cur && log == old(log) + [r.call] && dest[..] == VersionBuffer(old(dest[..]), r.data, size)
    {
      ghost var before := dest[..];
      var r := StreamRead(env, world, size);
      forall i | 0 <= i < |r.data| {
        dest[i] := r.data[i] as char;
      }
      world := r.cur;
      log := log + [r.call];
      dest[size] := NUL;
      assert dest[..] == VersionBuffer(before, r.data, size);
    }

    /** `getVersionNumber(uRL, buffer, bufferSize)` with `buffer` the caller's `dest` and the size
        check corrected to `VersionFits`: the `size` bytes are read into the caller's buffer and
        terminated at `buffer[size]`. */
    method GetVersionNumber(uRL: string, dest: array<char>, bufferSize: uint8, body: seq<byte>) returns (err: UpdateOTAError)
      requires bufferSize <= dest.Length
      modifies this`world, this`log, this`uRL, this`httpCode, this`clients, dest
      ensures var v := VersionNumber(env, old(world).(rest := body), bufferSize);
        err == v.result && world == v.cur && log == old(log) + v.calls &&
        (err == SUCCESS ==> dest[..] == VersionBuffer(old(dest[..]), v.data, env.contentLength)) &&
        (err != SUCCESS ==> dest[..] == old(dest[..]))
      ensures env.wifiConnected ==> this.uRL == Some(uRL) && clients && httpCode == ToUint16(env.httpStatus)
      ensures !env.wifiConnected ==> this.uRL == old(this.uRL) && clients == old(clients) && httpCode == old(httpCode)
    {
      world := world.(rest := body);
      if !env.wifiConnected {
        return NO_INTERNET;
      }
      this.uRL := Some(uRL);
      clients := true;
      log := log + [OpenClients];
      err := ProcessGetRequest();
      if err != SUCCESS {
        return err;
      }
      if !VersionFits(env.contentLength, bufferSize) {
        return NO_ENOUGH_SPACE;
      }
      ReadVersion(dest, env.contentLength);
      err := SUCCESS;
    }

    /** `errorToString(error, buffer, bufferSize)` with `buffer` the caller's `dest`: `strncpy` of
        the message, whatever the buffer's size; a buffer no longer than the message is left without
        a terminator (`OtaProperties.ShortBufferUnterminated`). */
    method ErrorToString(error: UpdateOTAError, dest: array<char>, bufferSize: uint8)
      requires bufferSize <= dest.Length
      modifies dest
      ensures dest[..] == StrNCpy(old(dest[..]), Message(error), bufferSize)
    {
      StrNCpyInto(dest, Message(error), bufferSize);
    }
  }
}
