/** The world the firmware talks to, reduced to oracles: the byte stream of the download, the flash
    and OTA calls of ESP-IDF, the free sketch space, WiFi and the HTTP answer. Each call the code makes
    is recorded as a `Call`, so that what the code does can be stated over the log of its calls. */
module Platform {
  import opened Types

  /** `BLOCK_SIZE_P`: the flash sector size and the size of every transfer buffer. */
  const BLOCK_SIZE_P: nat := 4096

  /** A partition handle (`const esp_partition_t *`) as the partition table returns it. */
  datatype Partition = Partition(name: string)

  /** What the environment answers during one operation.
      - `supply[k]` bounds what the k-th `readBytes` call delivers (the network's pace); a call past
        the end of `supply` delivers nothing, as a connection that has gone silent does. The bytes
        themselves are the stream's, held by the `Cursor`.
      - the k-th erase, write and set-boot call succeeds iff `eraseOk(k)`, `writeOk(k)`, `bootOk(k)`.
      - `nextUpdatePartition` and `spiffsPartition` are what the two partition lookups return.
      - `wifiConnected`, `httpStatus` and `contentLength` are `WiFi.status() == WL_CONNECTED`, the value
        `HTTPClient::GET` returns and `HTTPClient::getSize` (-1 when the server sent no length). */
  datatype Oracle = Oracle(
    supply: seq<nat>,
    freeSketchSpace: uint32,
    nextUpdatePartition: Option<Partition>,
    spiffsPartition: Option<Partition>,
    eraseOk: nat -> bool,
    writeOk: nat -> bool,
    bootOk: nat -> bool,
    wifiConnected: bool,
    httpStatus: int,
    contentLength: int32)

  /** How far the environment has been consumed: the bytes the stream has not delivered yet and the
      number of calls of each kind made so far (which selects the oracle's next answer). */
  datatype Cursor = Cursor(rest: seq<byte>, readCalls: nat, eraseCalls: nat, writeCalls: nat, bootCalls: nat)

  /** The environment before any call, with `stream` still to be read. */
  function Start(stream: seq<byte>): Cursor {
    Cursor(stream, 0, 0, 0, 0)
  }

  /** One observable call, in the order the code makes them. */
  datatype Call =
    | NextUpdatePartition(found: Option<Partition>)
    | FindSpiffsPartition(found: Option<Partition>)
    | ReadBytes(requested: nat, got: nat)
    | EraseRange(part: Partition, offset: nat, length: nat)
    | Write(part: Partition, offset: nat, data: seq<byte>)
    | SetBootPartition(part: Partition)
    | OnStart
    | OnProgress(written: int, total: int)
    | OnEnd
    | OnError(code: int)
    | OpenClients
    | HttpGet(status: int)
    | PrintProgress(done: nat, size: nat)
    | Restart

  /** `ESP.getFreeSketchSpace()` rounded down to whole blocks, as every space check computes it. */
  function MaxSketchSpace(free: uint32): (m: uint32)
    ensures m % BLOCK_SIZE_P == 0
    ensures m <= free < m + BLOCK_SIZE_P
  {
    free - free % BLOCK_SIZE_P
  }

  function SupplyAt(o: Oracle, k: nat): nat {
    if k < |o.supply| then o.supply[k] else 0
  }

  datatype Read = Read(cur: Cursor, data: seq<byte>, call: Call)

  /** `Stream::readBytes(buffer, n)`: delivers the next bytes of the stream, at most `n`, no more than
      this call's supply and no more than the stream still holds. */
  function StreamRead(o: Oracle, cur: Cursor, n: nat): (r: Read)
    ensures |r.data| <= n && |r.data| <= SupplyAt(o, cur.readCalls) && |r.data| <= |cur.rest|
    ensures r.data == [] ==> SupplyAt(o, cur.readCalls) == 0 || n == 0 || cur.rest == []
  {
    var got := Min(Min(SupplyAt(o, cur.readCalls), n), |cur.rest|);
    Read(cur.(rest := cur.rest[got..], readCalls := cur.readCalls + 1), cur.rest[..got], ReadBytes(n, got))
  }

  /** The bytes a read delivers are the ones it takes off the front of the stream. */
  lemma StreamReadConsumes(o: Oracle, cur: Cursor, n: nat)
    ensures var r := StreamRead(o, cur, n); cur.rest == r.data + r.cur.rest
  {
    var r := StreamRead(o, cur, n);
    assert cur.rest == cur.rest[..|r.data|] + cur.rest[|r.data|..];
  }

  datatype Flash = Flash(cur: Cursor, ok: bool, call: Call)

  /** `esp_partition_erase_range(part, offset, length) == ESP_OK`. */
  function Erase(o: Oracle, cur: Cursor, part: Partition, offset: nat, length: nat): Flash {
    Flash(cur.(eraseCalls := cur.eraseCalls + 1), o.eraseOk(cur.eraseCalls), EraseRange(part, offset, length))
  }

  /** `esp_partition_write(part, offset, buffer, |data|) == ESP_OK`. */
  function WriteAt(o: Oracle, cur: Cursor, part: Partition, offset: nat, data: seq<byte>): Flash {
    Flash(cur.(writeCalls := cur.writeCalls + 1), o.writeOk(cur.writeCalls), Write(part, offset, data))
  }

  /** `esp_ota_set_boot_partition(part) == ESP_OK`. */
  function SetBoot(o: Oracle, cur: Cursor, part: Partition): Flash {
    Flash(cur.(bootCalls := cur.bootCalls + 1), o.bootOk(cur.bootCalls), SetBootPartition(part))
  }

  /** The calls of a log that write to flash, and the bytes they write, in order. */
  function WrittenBytes(calls: seq<Call>): seq<byte> {
    if calls == [] then []
    else (if calls[0].Write? then calls[0].data else []) + WrittenBytes(calls[1..])
  }

  lemma {:induction false} WrittenBytesAppend(a: seq<Call>, b: seq<Call>)
    ensures WrittenBytes(a + b) == WrittenBytes(a) + WrittenBytes(b)
  {
    if a == [] {
      assert a + b == b;
    } else {
      var x := if a[0].Write? then a[0].data else [];
      assert (a + b)[0] == a[0];
      assert (a + b)[1..] == a[1..] + b;
      WrittenBytesAppend(a[1..], b);
      Assoc(x, WrittenBytes(a[1..]), WrittenBytes(b));
    }
  }

  /** No call of the log touches the flash (erases, writes or switches the boot partition). */
  predicate NoFlashCalls(calls: seq<Call>) {
    forall i :: 0 <= i < |calls| ==> !calls[i].EraseRange? && !calls[i].Write? && !calls[i].SetBootPartition?
  }

  lemma NoFlashCallsNoBytes(calls: seq<Call>)
    requires forall i :: 0 <= i < |calls| ==> !calls[i].Write?
    ensures WrittenBytes(calls) == []
  {
    if calls != [] {
      NoFlashCallsNoBytes(calls[1..]);
    }
  }
}
