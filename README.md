# UpdateOTA in Dafny

This project models the over-the-air update core of UpdateOTA, an ESP32 library, and proves properties of that model. The library fetches a firmware or SPIFFS image and copies it block by block into a flash partition. The model has three parts:

- **The block-transfer engine, `Updater` (src/Updater.cpp).** `startUpdate` checks the stream length against the free sketch space, rounded down to 4096-byte blocks. It then looks up the partition for the update type and reports start and progress. Its loop clears the buffer, reads `min(4096, remaining)` bytes with up to 30 tries, erases the block, then writes. It also erases the block after it when exactly 4096 bytes remain at the start of the pass and the stream length is below `maxSketchSpace - 4096`; a last block shorter than 4096 bytes, or one at the sketch limit, gets no such look-ahead erase. At the end it switches the boot partition for firmware and calls the end or error callback.
- **The configuration state of `Downloader` (src/Downloader.cpp).** It holds the timeout, two URLs in 257-character buffers and a CA certificate in a 4097-character buffer. The model covers the argument checks and the early exits of `download` and `getVersion`.
- **The self-contained `UpdateOTA` class, in its two copies.** One is lib/UpdateOTA/src/UpdateOTA.cpp; the other is the older src/UpdateOTA.cpp, whose `startUpdate` also takes `pinStatus`. The model covers:
  - the HTTP status switch;
  - the message table of `errorToString`;
  - the unchecked transfer loop of `updateFirmware`;
  - the size guard of `getVersionNumber`;
  - the partition choice;
  - the order of the stages of `startUpdate`.

## How the environment is modelled

Everything outside the code is an oracle, `Platform.Oracle`:

- **The stream.**
  - `supply[k]` bounds what the k-th `readBytes` call delivers.
  - A call past the end of `supply` delivers nothing, as a silent connection does.
  - The bytes themselves come from the front of the cursor's `rest`.
- **Flash and OTA calls.** The k-th erase, write or set-boot call succeeds iff `eraseOk(k)`, `writeOk(k)` or `bootOk(k)` holds.
- **Partition lookups.** Each lookup returns a handle or none.
- **HTTP and device state.** The oracle fixes the free sketch space, whether WiFi is connected, the status `GET` returns and the Content-Length.

A `Platform.Cursor` counts how much of the environment has been consumed. Each class keeps a log (`seq<Platform.Call>`) of the calls it makes:

- reads, erases, writes and the boot switch;
- callbacks;
- the HTTP request and the progress prints;
- the restart.

The properties are stated over this log.

Each imperative method is proved equal to a function of the oracle and the old state: `UpdaterSpec.StartUpdate`, `OtaSpec.StartUpdate` or `OtaSpec.VersionNumber`. The lemmas then state what the source promises about those functions.

C integer behaviour is written out wherever it matters:

- In the Updater's space check, the `int` stream length is compared as a `uint32_t` (`Types.ToUint32`).
- `maxSketchSpace - BLOCK_SIZE_P` is computed in `uint32_t` (`Types.SubUint32`).
- The `size_t` offset reaches `callOnProgress` as an `int` (`Types.ToInt32`).
- `_httpCode` is a `uint16_t` (`Types.ToUint16`).
- The legacy space check compares an `int` with a `uint64_t` (`Types.ToUint64`).
- The version guard compares an `int` with a `uint8_t`.

Predicates used in the table:

- `UpdaterProperties.ShapeOK`: the loop ends `OK`, or with `READ_FAILED`, `UNKNOWN` or `PARTITION_WRITE_FAILED`. Before that it made only reads, erases, writes and progress reports, and on an error the error callback comes last.
- `UpdaterProperties.FlashOK`: every erase and write succeeded except a failing last one that ends the loop, and the boot partition was not touched.
- `UpdaterProperties.Logged`: the log, replayed from `w` written bytes, passes a `LogStep` test at every call:
  - each read asks for `min(4096, len - w)` bytes;
  - each erase is at `w`, or at `w + 4096` when the look-ahead condition holds;
  - each write lands at `w`, holds at least one byte and does not pass `len`;
  - each progress report is `(ToInt32(w), streamLength)`.
- `UpdaterProperties.DeliversOK`: a loop that ran to its end wrote exactly the next bytes of the stream.
- `UpdaterProperties.ErasedBeforeWritten`: each write comes after the erase of the 4096-byte block at its offset.
- `UpdaterProperties.ProgressOK`: the reports rise strictly within `(w, len]` and end at `len` when the loop finished.
- `OtaProperties.Passes`: the legacy loop's log is blocks of four calls: the progress print, the read of `min(4096, len - w)` bytes, the erase at `w` and the write of what was read at `w`.
- `OtaProperties.Reaches`: the legacy `startUpdate` gets to its transfer loop and the loop ends:
  - WiFi is connected and the status is 200;
  - `0 <= Content-Length <= maxSketchSpace`;
  - a partition is found;
  - the loop does not stall.

## Model

| member | source | states |
|---|---|---|
| `Types.ToUint32` | src/Updater.cpp:69 | the `uint32_t` value is congruent to the `int` modulo 2^32, and equals it when it is non-negative |
| `Types.ToUint64` | lib/UpdateOTA/src/UpdateOTA.cpp:63-64 | the `uint64_t` value is below 2^64 and congruent to the `int` Content-Length modulo 2^64, and equals it when it is non-negative |
| `Types.ToUint16` | lib/UpdateOTA/src/UpdateOTA.cpp:200 | `_httpCode` keeps the `GET` result modulo 2^16, and keeps it unchanged when it is in range |
| `Types.SubUint32` | src/Updater.cpp:114 | `maxSketchSpace - BLOCK_SIZE_P` in `uint32_t` is congruent to the mathematical difference modulo 2^32, and equals it when it is not negative |
| `Types.ToInt32` | src/Updater.cpp:127 | the `int` the `size_t` offset becomes is an `int32` congruent to it modulo 2^32, and equals it up to `INT32_MAX` |
| `Platform.MaxSketchSpace` | src/Updater.cpp:68 | the free space rounded down is a multiple of 4096, at most the free space and less than 4096 below it |
| `Platform.StreamRead` | src/Updater.cpp:194 | a read delivers at most the bytes asked, at most this call's supply, at most what the stream holds, and nothing only when one of the three is zero |
| `Platform.StreamReadConsumes` | src/Updater.cpp:194 | the bytes a read delivers are the ones it takes off the front of the stream |
| `CString.StrLen` | src/Downloader.cpp:148 | `strlen` is the index of the first NUL, or the buffer's length when it has none |
| `CString.Contents` | src/Downloader.cpp:148 | the C string a buffer holds is its prefix before the first NUL |
| `CString.StrNCpyInto` | src/Downloader.cpp:146 | `strncpy(dest, src, n)` on an array changes exactly the first `n` characters: the source's characters, then NULs |
| `CString.StrNCpyTerminates` | lib/UpdateOTA/src/UpdateOTA.cpp:156 | a source shorter than `n` leaves exactly that string in the buffer |
| `CString.StrNCpyNoTerminator` | src/Downloader.cpp:146 | with `n` at most the source's length, `strncpy` writes no terminator and the string read back runs into the old contents |
| `UpdaterSpec.Code` | src/Updater.cpp:297 | the code `_abort` hands to the error callback is the enum's ordinal in 0..6, and 0 only for `OK` |
| `UpdaterSpec.BlockLength` | src/Updater.cpp:185-188 | the length asked for is `min(length, streamLength - offset)` |
| `UpdaterSpec.ReadTries` | src/Updater.cpp:190-210 | a block read makes between 1 and 30 `readBytes` calls and returns at most the bytes asked |
| `UpdaterClass.Updater.constructor` | src/Updater.cpp:17-36 | all four callbacks are null, no partition is selected, nothing has been called |
| `UpdaterClass.Updater.SetOnStartFunc` | src/Updater.cpp:39-42 | replaces the start callback only |
| `UpdaterClass.Updater.SetOnProgressFunc` | src/Updater.cpp:45-48 | replaces the progress callback only |
| `UpdaterClass.Updater.SetOnEndFunc` | src/Updater.cpp:51-54 | replaces the end callback only |
| `UpdaterClass.Updater.SetOnErrorFunc` | src/Updater.cpp:57-60 | replaces the error callback only |
| `UpdaterClass.Updater.CallOnStart` | src/Updater.cpp:143-151 | calls `onStart` iff it is set; a null callback is a no-op |
| `UpdaterClass.Updater.CallOnProgress` | src/Updater.cpp:154-161 | calls `onProgress(written, length)` iff it is set |
| `UpdaterClass.Updater.CallOnEnd` | src/Updater.cpp:164-171 | calls `onEnd` iff it is set |
| `UpdaterClass.Updater.CallOnError` | src/Updater.cpp:174-180 | calls `onError(code)` iff it is set |
| `UpdaterClass.Updater.Abort` | src/Updater.cpp:295-299 | returns its error and calls the error callback with that error's code, and nothing else |
| `UpdaterClass.Updater.ResetBuffer` | src/Updater.cpp:247-253 | zeroes the first `length` bytes of the buffer and leaves the rest as it was |
| `UpdaterClass.Updater.ReadBytes` | src/Updater.cpp:194 | one `readBytes` call: what arrives lands at the front of the buffer, the rest of the buffer is unchanged |
| `UpdaterClass.Updater.ReadBlockFirmwareToBuffer` | src/Updater.cpp:182-211 | makes exactly the calls of `ReadTries` for the clamped length, leaves the delivered bytes at the front of the buffer and returns their count |
| `UpdaterClass.Updater.ResetPartitionRange` | src/Updater.cpp:256-266 | one erase of the range; `UNKNOWN` iff it failed |
| `UpdaterClass.Updater.WriteBlockBufferToPartition` | src/Updater.cpp:213-222 | one write of the first `length` bytes of the buffer at `offset`; `PARTITION_WRITE_FAILED` iff it failed |
| `UpdaterClass.Updater.ChangeBootPartition` | src/Updater.cpp:225-235 | one set-boot of the selected partition; `CHANGE_BOOT_PARTITION_FAILED` iff it failed |
| `UpdaterClass.Updater.GetAPPUpdatePartition` | src/Updater.cpp:269-279 | selects the next OTA app partition; `NO_PARTITION_AVAILABLE` iff there is none |
| `UpdaterClass.Updater.GetSPIFFSPartition` | src/Updater.cpp:282-292 | selects the first SPIFFS data partition; `NO_PARTITION_AVAILABLE` iff there is none |
| `UpdaterClass.Updater.NextBlock` | src/Updater.cpp:94-104 | reads a block into the cleared buffer, whose bytes past the block stay zero; a read of nothing is the loop's `READ_FAILED` end with the error callback |
| `UpdaterClass.Updater.EraseAhead` | src/Updater.cpp:113-119 | the look-ahead erase of the next block; its failure is the loop's `UNKNOWN` end |
| `UpdaterClass.Updater.EraseRanges` | src/Updater.cpp:108-119 | erases the block at `written`, then the next one under the look-ahead condition; each failure ends the loop as `UpdaterSpec.Loop` says |
| `UpdaterClass.Updater.ReportProgress` | src/Updater.cpp:127 | the progress report of the new offset, as the loop function makes it |
| `UpdaterClass.Updater.WriteBlock` | src/Updater.cpp:121-127 | writes the block, advances `written` by its length and reports; a failed write is the loop's `PARTITION_WRITE_FAILED` end |
| `UpdaterClass.Updater.PlaceBlock` | src/Updater.cpp:108-127 | the erases and the write of a block that arrived, as the loop function makes them |
| `UpdaterClass.Updater.Pass` | src/Updater.cpp:94-127 | one iteration: at least one byte written and the loop's state advanced, or the loop's end with its error |
| `UpdaterClass.Updater.TransferLoop` | src/Updater.cpp:92-128 | the `while` loop makes exactly the calls of `UpdaterSpec.Loop` from offset 0 and returns its result |
| `UpdaterClass.Updater.StartUpdate` | src/Updater.cpp:62-140 | result, selected partition, environment and call log are exactly those of `UpdaterSpec.StartUpdate`; `_streamLength` is stored |
| `UpdaterProperties.ReadTriesFacts` | src/Updater.cpp:190-210 | a block read makes only reads asking for the same length, delivers the next bytes of the stream and touches no flash |
| `UpdaterProperties.NothingRead` | src/Updater.cpp:198-208 | when no remaining try can deliver a byte, all 30 tries are made and the block read returns nothing |
| `UpdaterProperties.SomethingRead` | src/Updater.cpp:198-210 | when one of the tries can deliver a byte, the block read returns at least one byte |
| `UpdaterProperties.ReadFailure` | src/Updater.cpp:99-104 | 30 empty reads end the loop with `READ_FAILED`: the log is those reads and the error callback, and the block is neither erased nor written |
| `UpdaterProperties.ReadArrives` | src/Updater.cpp:99-111 | when a block arrives, its range is erased |
| `UpdaterProperties.LoopShape` | src/Updater.cpp:92-128 | the loop stops at the first failure with one of its three errors, or ends `OK`; only reads, erases, writes and reports come before, and the error callback last (`ShapeOK`) |
| `UpdaterProperties.LoopFlashAnswers` | src/Updater.cpp:109-124 | an erase failure ends the loop with `UNKNOWN` and a write failure with `PARTITION_WRITE_FAILED`; every earlier erase and write succeeded, and the loop never switches the boot partition (`FlashOK`) |
| `UpdaterProperties.LoopLogged` | src/Updater.cpp:92-127 | each read asks for `min(4096, streamLength - written)` bytes, erases and writes land at `written`, `written` never passes the length, and each report is the new offset (`Logged`) |
| `UpdaterProperties.LoopDelivers` | src/Updater.cpp:92-127 | a loop that ends `OK` from `written` wrote exactly the next `len - written` bytes of the stream, in order, and consumed them (`DeliversOK`) |
| `UpdaterProperties.LoopErasesFirst` | src/Updater.cpp:108-124 | every write comes after the erase of the block it lands in |
| `UpdaterProperties.LoopProgress` | src/Updater.cpp:126-127 | with the length within `int`, the reports rise strictly, stay within `(written, len]` and end at `len` when the loop ends `OK` |
| `UpdaterProperties.LookAheadWithinSketch` | src/Updater.cpp:113-119 | the look-ahead erase ends below `maxSketchSpace` |
| `StartUpdateProperties.StartedCalls` | src/Updater.cpp:86-140 | an update that passed both checks makes the lookup, `onStart` and progress `(0, len)`, then the loop's calls; after a loop failure nothing more, otherwise the boot switch for firmware only, then `onEnd`, or `onError` when the switch failed |
| `StartUpdateProperties.EarlyExits` | src/Updater.cpp:67-84 | too long a stream gives `NO_ENOUGH_SPACE` and an unknown type `UNKNOWN`, each through the error callback alone with the partition as it was; a failed lookup gives `NO_PARTITION_AVAILABLE` after the lookup, leaving no partition; an update that does not start never calls `onStart` nor touches the flash |
| `StartUpdateProperties.CallbacksAtEnd` | src/Updater.cpp:130-139 | a failed update ends with `onError(code)` and calls no end or error callback before; a successful one ends with `onEnd` and none before |
| `StartUpdateProperties.BootSwitch` | src/Updater.cpp:130-136 | the boot partition is switched exactly once when a firmware update transferred the whole stream, never otherwise; `CHANGE_BOOT_PARTITION_FAILED` iff that switch failed; `OK` iff the transfer succeeded and, for firmware, the switch did too |
| `StartUpdateProperties.StreamDelivered` | src/Updater.cpp:92-128 | a successful update wrote exactly the first `len` bytes of the stream, in order, and consumed exactly them |
| `StartUpdateProperties.EmptyStreamNoFlash` | src/Updater.cpp:92 | a zero-length stream neither erases nor writes; its one progress report is `callOnProgress(0, 0)` (src/Updater.cpp:87), whose unmodelled log line divides by zero, see "## Left out" |
| `StartUpdateProperties.ErasedFirst` | src/Updater.cpp:108-124 | in every update, each write comes after the erase of its block |
| `StartUpdateProperties.FirstBlockLost` | src/Updater.cpp:99-104 | when none of the 30 reads of the first block delivers a byte, the update fails with `READ_FAILED` after the prelude, 30 empty reads and the error callback |
| `StartUpdateProperties.ProgressFromZero` | src/Updater.cpp:87-127 | with a progress callback, an update that started reports 0 first, then rising values within `[0, len]`, ending at `len` on success; one that did not start reports nothing |
| `DownloaderClass.Downloader.constructor` | src/Downloader.cpp:10-20 | timeout 8000, both URLs and the CA empty, no clients, stream size 0 |
| `DownloaderClass.Downloader.SetTimeout` | src/Downloader.cpp:205-217 | succeeds and stores `t` iff `50 <= t <= 60000`; otherwise `INVALID_ARGUMENT` with the timeout unchanged |
| `DownloaderClass.Downloader.SetURLForBin` | src/Downloader.cpp:159-180 | a null URL gives `INVALID_ARGUMENT` and changes nothing; otherwise the first `min(len, 256)` characters are stored, terminated, and the result is `OK` iff the URL is not empty |
| `DownloaderClass.Downloader.SetURLForVersion` | src/Downloader.cpp:182-203 | the same for the version URL |
| `DownloaderClass.Downloader.CopyURL` | src/Downloader.cpp:167-169 | in `setURLForBin`, and in the same three lines of `setURLForVersion`, the URL buffer becomes the first `min(strlen(url), 256)` characters, a NUL and its old tail after that, so the stored string is exactly that clamped prefix |
| `DownloaderClass.Downloader.SetCA` | src/Downloader.cpp:137-157 | a null certificate or one of 4096 characters or more changes nothing and gives `INVALID_ARGUMENT`; otherwise its characters overwrite the front of the stored buffer without a terminator (`StoredCA`), and the result is `OK` iff the certificate is not empty or one was stored before |
| `DownloaderClass.StoredCA` | src/Downloader.cpp:145-146 | the buffer after the copy keeps its length: the new characters, then the old tail |
| `DownloaderClass.Downloader.CreateWifiClient` | src/Downloader.cpp:234-243 | the WiFi client is secure iff a CA certificate is stored |
| `DownloaderClass.Downloader.CreateHttpClient` | src/Downloader.cpp:245-262 | an HTTP client exists afterwards; `UNKNOWN` iff `begin` refused the URL |
| `DownloaderClass.Fetch` | src/Downloader.cpp:57-72 | `UNKNOWN` iff `begin` failed, `SERVER_ERROR` iff the status is not 200, `DOWNLOAD_FAILED` iff the size is at most 0, `OK` otherwise |
| `DownloaderClass.Downloader.Request` | src/Downloader.cpp:54-72 | creates both clients, returns `Fetch`, and stores the size only when the GET answered 200 |
| `DownloaderClass.DownloadResult` | src/Downloader.cpp:42-77 | `NO_URL_PROVIDED` iff the bin URL is empty; the other results as the request answers, in that order; never `INVALID_ARGUMENT` |
| `DownloaderClass.Downloader.Download` | src/Downloader.cpp:42-77 | returns `DownloadResult`; an empty URL creates no client; with a URL both clients exist afterwards and the WiFi client is the secure one iff a CA is stored; the size is stored iff `GET` answered 200; on `OK` `getStreamPtr` returns the WiFi client and the size is positive |
| `DownloaderClass.Line` | src/Downloader.cpp:123 | `readBytesUntil('\n', buf, maxLen)` reads the body's longest prefix with no newline, up to `maxLen` characters; it stops only at a newline, at `maxLen` or at the body's end |
| `DownloaderClass.ReadBytesUntil` | src/Downloader.cpp:123 | copies that line to the buffer's front and leaves the rest of the buffer unchanged |
| `DownloaderClass.VersionResult` | src/Downloader.cpp:79-129 | `INVALID_ARGUMENT` iff the buffer is null or `maxLen <= 0`; then `NO_URL_PROVIDED`, the request's errors, and `OK` iff the line read is not empty |
| `DownloaderClass.Downloader.GetVersion` | src/Downloader.cpp:79-135 | returns `VersionResult`; after a rejected argument the buffer is untouched; otherwise the first `maxLen` characters are zeroed and then hold the line read; an empty URL creates no client; once the request is made both clients exist, the WiFi client is secure iff a CA is stored, and the size is stored iff `GET` answered 200 |
| `DownloaderClass.VersionTerminated` | src/Downloader.cpp:123-129 | a version line shorter than the buffer leaves exactly that line as the buffer's string |
| `DownloaderClass.VersionUnterminated` | src/Downloader.cpp:123-129 | a line that fills `maxLen` leaves no NUL in the buffer, so `strlen` runs to its end |
| `DownloaderClass.Downloader.StreamPtr` | src/Downloader.cpp:219-227 | null iff the stream size is 0 or either client is missing; otherwise the WiFi client |
| `DownloaderClass.Downloader.StreamSize` | src/Downloader.cpp:229-232 | the last size stored |
| `OtaSpec.RequestError` | lib/UpdateOTA/src/UpdateOTA.cpp:204-221 | 200 gives `SUCCESS`, 404 `PAGE_NOT_FOUND`, 401 `UNAUTHORIZED`, 400 `BAD_REQUEST`, each as an iff, and every other code gives `UNKNOWN` (the switch of src/UpdateOTA.cpp:166-179 is the same) |
| `OtaSpec.Message` | lib/UpdateOTA/src/UpdateOTA.cpp:153-185 | each message is a non-empty C string shorter than 50 characters |
| `OtaSpec.Step` | lib/UpdateOTA/src/UpdateOTA.cpp:237-251 | one pass of the legacy loop never moves `written` past the length and makes exactly one read |
| `OtaProperties.ConnectionErrorsUnknown` | lib/UpdateOTA/src/UpdateOTA.cpp:200-221 | the negative codes `GET` returns on connection failures become `status + 65536` in the `uint16_t` and map to `UNKNOWN` |
| `OtaProperties.MessagesDistinct` | lib/UpdateOTA/src/UpdateOTA.cpp:153-185 | two errors have the same message iff they are the same error |
| `OtaProperties.MessageTerminated` | lib/UpdateOTA/src/UpdateOTA.cpp:145-186 | with at least 50 characters, the buffer holds exactly the error's message, terminated |
| `OtaProperties.ShortBufferUnterminated` | src/UpdateOTA.cpp:114-150 | without the size check of the lib copy, a buffer size up to the message's length writes the message's first characters with no terminator, so the string read back runs into the old contents |
| `OtaProperties.PercentBounded` | src/UpdateOTA.cpp:285-289 | the printed percentage never decreases as `written` grows, stays within 100 and is 100 at the end |
| `OtaProperties.EmptyUpdateDividesByZero` | src/UpdateOTA.cpp:213 | with Content-Length 0, the first call of the install is `printProgress(0, 0)`, whose percentage as written divides by zero |
| `OtaProperties.LoopEnds` | lib/UpdateOTA/src/UpdateOTA.cpp:235-261 | the loop keeps `written <= streamLength`; it stops short only by stalling, once every read the stream will answer is spent; otherwise `written == streamLength` |
| `OtaProperties.StepDelivers` | lib/UpdateOTA/src/UpdateOTA.cpp:239-251 | a pass writes exactly the bytes it took off the stream, and `written` advances by their number |
| `OtaProperties.LoopDelivers` | lib/UpdateOTA/src/UpdateOTA.cpp:235-252 | the loop writes exactly the bytes it consumed, in order, and their number is `written`'s advance |
| `OtaProperties.LoopShape` | lib/UpdateOTA/src/UpdateOTA.cpp:235-252 | every pass prints, reads `min(4096, len - written)` bytes, erases `[written, written + 4096)` and writes what was read at `written`, in this order and whatever the results (`Passes`) |
| `OtaProperties.StallSpins` | lib/UpdateOTA/src/UpdateOTA.cpp:235-252 | once the stream delivers nothing more, a pass writes nothing and leaves `written` and the stall as they were, so the unbounded loop spins |
| `OtaProperties.EmptyLoop` | lib/UpdateOTA/src/UpdateOTA.cpp:235 | a zero-length stream makes no pass |
| `OtaProperties.InstallEnds` | lib/UpdateOTA/src/UpdateOTA.cpp:76-99 | after a loop that ends, a non-firmware update returns `SUCCESS` with no boot switch, and a firmware update restarts or returns `PARTITION_NOT_BOOTABLE` |
| `OtaProperties.StartUpdateEnds` | lib/UpdateOTA/src/UpdateOTA.cpp:34-103 | `UPDATE_PROGRESS_ERROR` is never returned; `SUCCESS` iff the update reaches a loop that ends and is not firmware; a restart only for firmware that got there |
| `OtaProperties.EarlyStopsTouchNoFlash` | lib/UpdateOTA/src/UpdateOTA.cpp:42-73 | `NO_INTERNET` makes no call (no client is allocated); every stop before the loop makes at most the GET and the lookup, and no erase, write or boot switch |
| `OtaProperties.StartUpdateWritesBody` | lib/UpdateOTA/src/UpdateOTA.cpp:34-103 | an update that reaches a loop that ends writes exactly the first Content-Length bytes of the body |
| `OtaProperties.VersionOutcome` | lib/UpdateOTA/src/UpdateOTA.cpp:105-143 | with the corrected guard, `SUCCESS` iff WiFi, status 200 and `0 <= size < bufferSize`; no WiFi means `NO_INTERNET` with no call; only a success reads any bytes |
| `OtaProperties.VersionTerminated` | lib/UpdateOTA/src/UpdateOTA.cpp:137-139 | the terminator lands at `buffer[size]` inside the buffer; a complete read of non-zero bytes leaves exactly those characters as the string |
| `OtaProperties.VersionGuardOverruns` | lib/UpdateOTA/src/UpdateOTA.cpp:131-139 | the guard as written lets `size == bufferSize` and `size == -1` through, for which `buffer[size]` is outside the buffer |
| `OtaProperties.VersionGuardsDiffer` | src/UpdateOTA.cpp:102-109 | the corrected guard refuses exactly those sizes more than the one as written: `bufferSize` and the negative ones |
| `OtaProperties.VersionAsWrittenAgrees` | lib/UpdateOTA/src/UpdateOTA.cpp:105-143 | on every size the corrected guard admits, `getVersionNumber` as written (`OtaSpec.VersionNumberAsWritten`) gives the same result, calls and bytes as the corrected one |
| `OtaProperties.VersionAsWrittenOverruns` | src/UpdateOTA.cpp:85-112 | with WiFi, status 200 and a Content-Length of `bufferSize` or `-1`, `getVersionNumber` as written returns `SUCCESS` and so writes the terminator outside the buffer, where the corrected one returns `NO_ENOUGH_SPACE` having read nothing |
| `LibUpdateOta.UpdateOTA.constructor` | lib/UpdateOTA/src/UpdateOTA.cpp:3-15 | no partition, no URL, not firmware, status 0, no clients, nothing called |
| `LibUpdateOta.UpdateOTA.ProcessGetRequest` | lib/UpdateOTA/src/UpdateOTA.cpp:188-222 | one GET; `_httpCode` is its `uint16_t` value and the result is `RequestError` of it |
| `LibUpdateOta.UpdateOTA.ResetBuffer` | lib/UpdateOTA/src/UpdateOTA.cpp:266-273 | all 4096 bytes of the buffer are zero |
| `LibUpdateOta.UpdateOTA.ReadBytes` | lib/UpdateOTA/src/UpdateOTA.cpp:296 | what arrives lands at the front of the buffer; the rest is unchanged |
| `LibUpdateOta.UpdateOTA.ReadBlockFromClientToBuffer` | lib/UpdateOTA/src/UpdateOTA.cpp:287-299 | one read of `min(length, size - offset)` bytes, returning how many arrived |
| `LibUpdateOta.UpdateOTA.ResetPartitionRange` | lib/UpdateOTA/src/UpdateOTA.cpp:275-279 | one erase of the range; its result is dropped |
| `LibUpdateOta.UpdateOTA.WriteBlockBufferToPartition` | lib/UpdateOTA/src/UpdateOTA.cpp:281-285 | one write of the buffer's first `length` bytes; its result is dropped |
| `LibUpdateOta.UpdateOTA.PrintProgress` | lib/UpdateOTA/src/UpdateOTA.cpp:339-344 | one progress print of `(written, total)` |
| `LibUpdateOta.UpdateOTA.Pass` | lib/UpdateOTA/src/UpdateOTA.cpp:237-251 | one iteration: exactly `OtaSpec.Step` |
| `LibUpdateOta.UpdateOTA.UpdateFirmware` | lib/UpdateOTA/src/UpdateOTA.cpp:224-264 | the loop's calls, then the final print; `UPDATE_PROGRESS_ERROR` iff `written != streamLength`, which `LoopEnds` rules out |
| `LibUpdateOta.UpdateOTA.SelectPartition` | lib/UpdateOTA/src/UpdateOTA.cpp:314-337 | firmware takes the next OTA app partition, otherwise the first SPIFFS data partition; `NO_PARTITION_AVAILABLE` iff there is none |
| `LibUpdateOta.UpdateOTA.ChangeBootPartition` | lib/UpdateOTA/src/UpdateOTA.cpp:301-312 | one set-boot; `PARTITION_NOT_BOOTABLE` iff it failed |
| `LibUpdateOta.UpdateOTA.Install` | lib/UpdateOTA/src/UpdateOTA.cpp:76-102 | the stages from `updateFirmware` on behave exactly as `OtaSpec.Install` |
| `LibUpdateOta.UpdateOTA.CheckAndInstall` | lib/UpdateOTA/src/UpdateOTA.cpp:62-102 | the stages from the space check on behave exactly as `OtaSpec.Checked` |
| `LibUpdateOta.UpdateOTA.Connect` | lib/UpdateOTA/src/UpdateOTA.cpp:42-60 | no WiFi gives `NO_INTERNET` with no call and no client; otherwise both clients are allocated and the GET's error is returned |
| `LibUpdateOta.UpdateOTA.StartUpdate` | lib/UpdateOTA/src/UpdateOTA.cpp:34-103 | result, partition, environment and calls are exactly those of `OtaSpec.StartUpdate`; the URL and `isFirmware` are stored before the WiFi check |
| `LibUpdateOta.UpdateOTA.ReadVersion` | lib/UpdateOTA/src/UpdateOTA.cpp:138-139 | reads up to `size` bytes into the caller's buffer and puts the terminator at `buffer[size]` |
| `LibUpdateOta.UpdateOTA.GetVersionNumber` | lib/UpdateOTA/src/UpdateOTA.cpp:105-143 | behaves as `OtaSpec.VersionNumber` with the corrected guard; the buffer changes only on success; the URL is stored only after the WiFi check |
| `LibUpdateOta.UpdateOTA.ErrorToString` | lib/UpdateOTA/src/UpdateOTA.cpp:145-186 | a null buffer or a size under 50 leaves the buffer unchanged; otherwise it holds the error's message, terminated |
| `SrcUpdateOta.UpdateOTA.constructor` | src/UpdateOTA.cpp:3-14 | as the lib copy, with `_pinStatus == 0` |
| `SrcUpdateOta.UpdateOTA.ProcessGetRequest` | src/UpdateOTA.cpp:152-180 | one GET; `_httpCode` is its `uint16_t` value and the result is `RequestError` of it |
| `SrcUpdateOta.UpdateOTA.ResetBuffer` | src/UpdateOTA.cpp:224-231 | all 4096 bytes of the buffer are zero |
| `SrcUpdateOta.UpdateOTA.ReadBytes` | src/UpdateOTA.cpp:254 | what arrives lands at the front of the buffer; the rest is unchanged |
| `SrcUpdateOta.UpdateOTA.ReadBlockFromClientToBuffer` | src/UpdateOTA.cpp:245-257 | one read of `min(length, size - offset)` bytes: the last block is clamped |
| `SrcUpdateOta.UpdateOTA.ResetPartitionRange` | src/UpdateOTA.cpp:233-237 | one erase of the range; its result is dropped |
| `SrcUpdateOta.UpdateOTA.WriteBlockBufferToPartition` | src/UpdateOTA.cpp:239-243 | one write of the buffer's first `length` bytes; its result is dropped |
| `SrcUpdateOta.UpdateOTA.PrintProgress` | src/UpdateOTA.cpp:285-289 | one progress print; the integer percentage is the corrected `OtaSpec.Percent`, which is 100 for a zero total |
| `SrcUpdateOta.UpdateOTA.Pass` | src/UpdateOTA.cpp:196-210 | one iteration: exactly `OtaSpec.Step` |
| `SrcUpdateOta.UpdateOTA.UpdateFirmware` | src/UpdateOTA.cpp:182-222 | the loop's calls, then the final print; `UPDATE_PROGRESS_ERROR` iff `written != streamLength`, which `LoopEnds` rules out |
| `SrcUpdateOta.UpdateOTA.SelectPartition` | src/UpdateOTA.cpp:267-283 | the firmware or SPIFFS partition; `NO_PARTITION_AVAILABLE` iff there is none |
| `SrcUpdateOta.UpdateOTA.ChangeBootPartition` | src/UpdateOTA.cpp:259-265 | one set-boot; `PARTITION_NOT_BOOTABLE` iff it failed |
| `SrcUpdateOta.UpdateOTA.Install` | src/UpdateOTA.cpp:64-82 | the stages from `updateFirmware` on behave exactly as `OtaSpec.Install` |
| `SrcUpdateOta.UpdateOTA.CheckAndInstall` | src/UpdateOTA.cpp:54-82 | the stages from the space check on behave exactly as `OtaSpec.Checked` |
| `SrcUpdateOta.UpdateOTA.Connect` | src/UpdateOTA.cpp:40-52 | no WiFi gives `NO_INTERNET` with no call and no client; otherwise both clients are allocated and the GET's error is returned |
| `SrcUpdateOta.UpdateOTA.StartUpdate` | src/UpdateOTA.cpp:33-83 | result, partition, environment and calls are exactly those of `OtaSpec.StartUpdate`; the URL, `isFirmware` and `pinStatus` are stored first |
| `SrcUpdateOta.UpdateOTA.ReadVersion` | src/UpdateOTA.cpp:107-109 | reads up to `size` bytes into the caller's buffer and puts the terminator at `buffer[size]` |
| `SrcUpdateOta.UpdateOTA.GetVersionNumber` | src/UpdateOTA.cpp:85-112 | behaves as `OtaSpec.VersionNumber` with the corrected guard; the buffer changes only on success |
| `SrcUpdateOta.UpdateOTA.ErrorToString` | src/UpdateOTA.cpp:114-150 | the buffer after it is `strncpy` of the error's message with the caller's size, with no check of the size |

## Left out

- Transport: HTTP, TLS and the WiFi clients are reduced to the oracle's answers. Headers, redirects, the user agent, client timeouts and the CA blob are not modelled. The CA blob sits in lib/UpdateOTA/include/UpdateOTA.hpp and is data.
- Hardware: the LED, GPIO and relay calls are not modelled. These are `toggleLed`, the `pinMode`/`digitalWrite` calls and the relay module's `setState`. `_pinStatus` is stored but has no effect in the model.
- Logging: the log lines are not modelled.
  - The lib copy's floating-point progress is not modelled.
  - The percentage in `callOnProgress`'s log line (src/Updater.cpp:156) is not modelled. Like `printProgress`, it divides by the length, which is 0 for an empty stream: the run of `StartUpdateProperties.EmptyStreamNoFlash` first calls `callOnProgress(0, 0)` (src/Updater.cpp:87), whose log line computes `(0 * 100) / 0`. This is the defect of the Findings row for src/UpdateOTA.cpp:213 again. It gets no Findings row here because the model has no log lines, so no member can show it.
- Timing: `millis`, `delay` and the update timer are not modelled.
- Memory: allocation and deallocation are not modelled. This covers the destructors, the `new` calls that leak on every `startUpdate` and `getVersionNumber`, and the clients existing only as booleans.
- Restart: `ESP.restart()` is the terminal outcome `Restarted`.
- `newerVersion`: declared in include/UpdateOTA.hpp, but its body is not part of this model.
- Flash alignment: erase alignment and the flash's own behaviour are reduced to the ok/fail oracle.
- The C string functions work on `char`, with NUL as the terminator; there is no encoding.
- `LibUpdateOta.UpdateOTA.StartUpdate`: requires that the run does not end `Hung`, i.e. that the transfer loop ends. The loop has no retry bound, so on a silent connection it spins forever (`OtaProperties.StallSpins`). A method cannot return from that case, so it is stated about `OtaSpec.StartUpdate` instead.
- `SrcUpdateOta.UpdateOTA.StartUpdate`: the same requirement, for the same reason.
- `LibUpdateOta.UpdateOTA.UpdateFirmware`: requires that the loop does not stall, for the same reason.
- `SrcUpdateOta.UpdateOTA.UpdateFirmware`: likewise.
- `LibUpdateOta.UpdateOTA.Install`: likewise. So do `LibUpdateOta.UpdateOTA.CheckAndInstall`, `SrcUpdateOta.UpdateOTA.Install` and `SrcUpdateOta.UpdateOTA.CheckAndInstall`.
- `UpdaterClass.Updater.ReadBlockFirmwareToBuffer`: modelled only for `length == 4096`, the one value `startUpdate` passes.
- `LibUpdateOta.UpdateOTA.ReadBlockFromClientToBuffer`: modelled only for `length <= 4096` and `offset` below a non-negative size. Those are the values `updateFirmware` passes.
- `SrcUpdateOta.UpdateOTA.ReadBlockFromClientToBuffer`: likewise.
- `StartUpdateProperties.ProgressFromZero`: stated for a non-negative stream length. A negative one fails the space check unless the free space exceeds 2^31.
- `UpdaterProperties.LoopProgress`: stated for a length within `INT32_MAX`, where the `int` reports do not wrap.
- `OtaProperties.PercentBounded`: requires `100 * total < 2^32`. Above that, `100 * written` wraps in `size_t`, so the percentage is not monotone for images over about 42 MB.
- `LibUpdateOta.UpdateOTA.ErrorToString`: the model requires `bufferSize` to fit the caller's array when the buffer is not null. The source takes `bufferSize` as the buffer's size and cannot check it, so a larger value makes `strncpy` write past the array.
- `SrcUpdateOta.UpdateOTA.ErrorToString`: the null buffer is not modelled (the source dereferences it), and the model requires `bufferSize` to fit the caller's array. The source has no check for either, so a null or smaller buffer makes `strncpy` write outside it.
- `LibUpdateOta.UpdateOTA.GetVersionNumber`: the source has `buffer` and `bufferSize` apart, and a size larger than the array overruns it. The model requires `bufferSize <= dest.Length`. The method uses the corrected guard `0 <= size < bufferSize` (`OtaSpec.VersionFits`), so for a Content-Length of `bufferSize` or `-1` it returns `NO_ENOUGH_SPACE` where the source returns `SUCCESS` after writing outside the buffer. The source's guard `size > bufferSize` is `OtaSpec.VersionGuardAsWritten`, and the function as written is `OtaSpec.VersionNumberAsWritten` (see Findings).
- `SrcUpdateOta.UpdateOTA.GetVersionNumber`: likewise, both for the array size and for the corrected guard.
- `DownloaderClass.Downloader.GetVersion`: requires `maxLen` to fit the caller's array, for the same reason, and a caller buffer distinct from the object's own fields.
- The helper methods split stages of one source function so that each proof stays small. They are `UpdaterClass.Updater.NextBlock`, `EraseAhead`, `EraseRanges`, `WriteBlock`, `ReportProgress`, `PlaceBlock` and `Pass`, plus the `Connect`, `Install`, `CheckAndInstall`, `ReadVersion` and `Pass` methods of both `UpdateOTA` classes. Their calls happen in the source's order, but the source has no such functions.
- `_streamData`, the `streamLength` and `stream` parameters: the stream is the bytes of the cursor. `startUpdate`'s stream argument is modelled as the `stream` (Updater) or `body` (UpdateOTA) sequence installed in it.

## Findings

| source | as written | input that shows it | evidently intended | confidence | as-written member | corrected member |
|---|---|---|---|---|---|---|
| lib/UpdateOTA/src/UpdateOTA.cpp:131-139 | the guard refuses only `getSize() > bufferSize`, then writes `'\0'` at `buffer[getSize()]` | Content-Length equal to `bufferSize` (say 16 for a 16-byte buffer) writes one byte past the buffer; a response without Content-Length (`getSize() == -1`) passes and writes `buffer[-1]` | accept only `0 <= size < bufferSize` | not executed | `OtaProperties.VersionGuardOverruns` (on `OtaSpec.VersionGuardAsWritten`) and `OtaProperties.VersionAsWrittenOverruns` (on `OtaSpec.VersionNumberAsWritten`) | `OtaSpec.VersionFits`, used by `OtaSpec.VersionNumber`; proved in `OtaProperties.VersionOutcome` and `OtaProperties.VersionTerminated` |
| src/UpdateOTA.cpp:102-109 | the same guard and terminator in the older copy | the same two sizes | accept only `0 <= size < bufferSize` | not executed | `OtaProperties.VersionGuardsDiffer` (on `OtaSpec.VersionGuardAsWritten`) and `OtaProperties.VersionAsWrittenOverruns` (on `OtaSpec.VersionNumberAsWritten`) | `OtaSpec.VersionFits`, used by `SrcUpdateOta.UpdateOTA.GetVersionNumber` through `OtaSpec.VersionNumber` |
| src/UpdateOTA.cpp:213 | after the loop, `printProgress(written, _streamLength)` computes `(100 * written) / total` | a response with Content-Length 0: the loop makes no pass and `printProgress(0, 0)` divides by zero | report an empty transfer as complete | not executed | `OtaProperties.EmptyUpdateDividesByZero` (on `OtaSpec.PercentAsWritten`) | `OtaSpec.Percent`, used by `SrcUpdateOta.UpdateOTA.PrintProgress`; proved in `OtaProperties.PercentBounded` |
