/** `Downloader` (src/Downloader.cpp): the configuration a download needs (timeout, the URLs of the
    firmware image and of the version file, a CA certificate) held in fixed `char` buffers, and the
    checks `download` and `getVersion` make before and after the HTTP request. The network is
    reduced to what one request answers (`Http`); the WiFi and HTTP clients to whether they exist. */
module DownloaderClass {
  import opened Types
  import opened CString

  /** `URL_MAX_LENGTH` and `CA_MAX_LENGTH` (include/DownloaderInterface.hpp). */
  const URL_MAX_LENGTH: nat := 256
  const CA_MAX_LENGTH: nat := 4096

  /** `HTTP_CODE_OK`. */
  const HTTP_CODE_OK: int := 200

  /** The default of `_timeOut`, in milliseconds, and the range `setTimeout` accepts. */
  const DEFAULT_TIMEOUT: uint16 := 8000
  const MIN_TIMEOUT: int := 50
  const MAX_TIMEOUT: int := 60000

  /** `DOWNLOADER_ERROR`, in declaration order. */
  datatype DownloaderError = OK | NO_URL_PROVIDED | INVALID_ARGUMENT | DOWNLOAD_FAILED | SERVER_ERROR | UNKNOWN

  /** What one request answers: whether `HTTPClient::begin` accepts the URL, the value `GET`
      returns, `getSize()` (the Content-Length, -1 when the server sends none), and the body. */
  datatype Http = Http(beginOk: bool, status: int, size: int32, body: seq<char>)

  /** The WiFi client `CreateWifiClient` makes: secure when a CA certificate is stored. */
  datatype WifiClient = Plain | Secure

  /** The stages `download` and `getVersion` share once a URL is there: the client's `begin`, the
      status of `GET`, the Content-Length. */
  function Fetch(net: Http): (e: DownloaderError)
    ensures e == OK <==> net.beginOk && net.status == HTTP_CODE_OK && net.size > 0
    ensures e == UNKNOWN <==> !net.beginOk
    ensures e == SERVER_ERROR <==> net.beginOk && net.status != HTTP_CODE_OK
    ensures e == DOWNLOAD_FAILED <==> net.beginOk && net.status == HTTP_CODE_OK && net.size <= 0
  {
    if !net.beginOk then UNKNOWN
    else if net.status != HTTP_CODE_OK then SERVER_ERROR
    else if net.size <= 0 then DOWNLOAD_FAILED
    else OK
  }

  /** Whether a request's answers get as far as `getSize`, which stores the stream size. */
  predicate SizeRead(net: Http) {
    net.beginOk && net.status == HTTP_CODE_OK
  }

  /** What `readBytesUntil('\n', buf, maxLen)` takes from the stream: the characters before the
      first newline, at most `maxLen` of them; the newline itself is not stored. */
  function Line(body: seq<char>, maxLen: nat): (l: seq<char>)
    ensures |l| <= maxLen && |l| <= |body| && l == body[..|l|]
    ensures forall i :: 0 <= i < |l| ==> l[i] != '\n'
    ensures |l| < maxLen && |l| < |body| ==> body[|l|] == '\n'
  {
    if maxLen == 0 || body == [] || body[0] == '\n' then []
    else [body[0]] + Line(body[1..], maxLen - 1)
  }

  /** The result of `getVersion(buf, maxLen)` with `buf` null or not, the version URL empty or not,
      and the request's answers. */
  function VersionResult(bufNull: bool, maxLen: int, urlEmpty: bool, net: Http): (e: DownloaderError)
    ensures e == INVALID_ARGUMENT <==> bufNull || maxLen <= 0
    ensures e == NO_URL_PROVIDED <==> !bufNull && maxLen > 0 && urlEmpty
    ensures e == SERVER_ERROR <==> !bufNull && maxLen > 0 && !urlEmpty && net.beginOk && net.status != HTTP_CODE_OK
    ensures e == OK <==> !bufNull && maxLen > 0 && !urlEmpty && Fetch(net) == OK &&
                         Line(net.body, maxLen) != [] && Line(net.body, maxLen)[0] != NUL
  {
    if bufNull || maxLen <= 0 then INVALID_ARGUMENT
    else if urlEmpty then NO_URL_PROVIDED
    else if Fetch(net) != OK then Fetch(net)
    else if Line(net.body, maxLen) == [] || Line(net.body, maxLen)[0] == NUL then DOWNLOAD_FAILED
    else OK
  }

  /** What `getVersion` leaves in the first `maxLen` places of the caller's buffer once the
      arguments are valid: NULs, then the line over them when it was read. */
  function VersionBuffer(maxLen: nat, urlEmpty: bool, net: Http): seq<char> {
    if !urlEmpty && Fetch(net) == OK then
      Line(net.body, maxLen) + Nuls(maxLen - |Line(net.body, maxLen)|)
    else Nuls(maxLen)
  }

  class Downloader {
    var timeOut: uint16
    const uRLForBinFile: array<char>
    const uRLForVersionFile: array<char>
    const cACertificate: array<char>
    var wifiClient: Option<WifiClient>
    var hasHttpClient: bool
    var streamSize: int32

    /** The buffers have the sizes of their declarations and are distinct. */
    ghost predicate Valid()
      reads this
    {
      uRLForBinFile.Length == URL_MAX_LENGTH + 1 && uRLForVersionFile.Length == URL_MAX_LENGTH + 1 &&
      cACertificate.Length == CA_MAX_LENGTH + 1 &&
      uRLForBinFile != uRLForVersionFile && uRLForBinFile != cACertificate && uRLForVersionFile != cACertificate
    }

    /** `Downloader()` (src/Downloader.cpp:10-20): the default timeout, three empty strings, no
        clients and a zero stream size. The rest of each buffer is left as it was allocated. */
    constructor()
      ensures Valid() && timeOut == DEFAULT_TIMEOUT && streamSize == 0
      ensures Contents(uRLForBinFile[..]) == [] && Contents(uRLForVersionFile[..]) == [] && Contents(cACertificate[..]) == []
      ensures wifiClient.None? && !hasHttpClient
      ensures fresh(uRLForBinFile) && fresh(uRLForVersionFile) && fresh(cACertificate)
    {
      timeOut := DEFAULT_TIMEOUT;
      uRLForBinFile := new char[URL_MAX_LENGTH + 1];
      uRLForVersionFile := new char[URL_MAX_LENGTH + 1];
      cACertificate := new char[CA_MAX_LENGTH + 1];
      wifiClient := None;
      hasHttpClient := false;
      streamSize := 0;
      new;
      uRLForBinFile[0] := NUL;
      uRLForVersionFile[0] := NUL;
      cACertificate[0] := NUL;
    }

    /** `setTimeout(timeOut)` (src/Downloader.cpp:205-217): stores a timeout of 50 to 60000 ms;
        any other value is refused and the timeout kept. */
    method SetTimeout(t: uint16) returns (err: DownloaderError)
      modifies this`timeOut
      ensures err == OK <==> MIN_TIMEOUT <= t <= MAX_TIMEOUT
      ensures err != OK ==> err == INVALID_ARGUMENT
      ensures timeOut == if err == OK then t else old(timeOut)
    {
      if t < MIN_TIMEOUT || t > MAX_TIMEOUT {
        return INVALID_ARGUMENT;
      }
      timeOut := t;
      err := OK;
    }

    /** The copy `setURLForBin` and `setURLForVersion` make (src/Downloader.cpp:167-169, 190-192):
        at most `URL_MAX_LENGTH` characters and a terminator after them. */
    static method CopyURL(dest: array<char>, url: seq<char>)
      requires dest.Length == URL_MAX_LENGTH + 1 && IsCString(url)
      modifies dest
      ensures var n := Min(|url|, URL_MAX_LENGTH);
        dest[..] == url[..n] + [NUL] + old(dest[n + 1..])
      ensures Contents(dest[..]) == url[..Min(|url|, URL_MAX_LENGTH)]
    {
      var n := Min(|url|, URL_MAX_LENGTH);
      StrNCpyInto(dest, url, n);
      dest[n] := NUL;
      assert dest[..] == url[..n] + [NUL] + old(dest[n + 1..]);
      StrLenAppend(url[..n], [NUL] + old(dest[n + 1..]));
    }

    /** `setURLForBin(url)` (src/Downloader.cpp:159-180): a null URL is refused; any other is
        stored up to `URL_MAX_LENGTH` characters, and an empty one is refused after it is stored. */
    method SetURLForBin(url: Option<seq<char>>) returns (err: DownloaderError)
      requires Valid() && (url.Some? ==> IsCString(url.value))
      modifies uRLForBinFile
      ensures url.None? ==> err == INVALID_ARGUMENT && uRLForBinFile[..] == old(uRLForBinFile[..])
      ensures url.Some? ==> Contents(uRLForBinFile[..]) == url.value[..Min(|url.value|, URL_MAX_LENGTH)]
      ensures url.Some? ==> (err == OK <==> url.value != []) && (err != OK ==> err == INVALID_ARGUMENT)
    {
      if url.None? {
        return INVALID_ARGUMENT;
      }
      CopyURL(uRLForBinFile, url.value);
      if StrLen(uRLForBinFile[..]) == 0 {
        return INVALID_ARGUMENT;
      }
      err := OK;
    }

    /** `setURLForVersion(url)` (src/Downloader.cpp:182-203): as `setURLForBin`, for the URL of
        the version file. */
    method SetURLForVersion(url: Option<seq<char>>) returns (err: DownloaderError)
      requires Valid() && (url.Some? ==> IsCString(url.value))
      modifies uRLForVersionFile
      ensures url.None? ==> err == INVALID_ARGUMENT && uRLForVersionFile[..] == old(uRLForVersionFile[..])
      ensures url.Some? ==> Contents(uRLForVersionFile[..]) == url.value[..Min(|url.value|, URL_MAX_LENGTH)]
      ensures url.Some? ==> (err == OK <==> url.value != []) && (err != OK ==> err == INVALID_ARGUMENT)
    {
      if url.None? {
        return INVALID_ARGUMENT;
      }
      CopyURL(uRLForVersionFile, url.value);
      if StrLen(uRLForVersionFile[..]) == 0 {
        return INVALID_ARGUMENT;
      }
      err := OK;
    }

    /** `setCA(cert)` (src/Downloader.cpp:137-157): a null certificate, or one of `CA_MAX_LENGTH`
        characters or more, is refused with nothing stored. Any other is copied by `strncpy` with
        a count of exactly its length, so no terminator is written: the stored string is the
        certificate followed by whatever the buffer held after it. The emptiness check reads the
        stored buffer, so an empty certificate is accepted when one was stored before. */
    method SetCA(cert: Option<seq<char>>) returns (err: DownloaderError)
      requires Valid() && (cert.Some? ==> IsCString(cert.value))
      modifies cACertificate
      ensures cert.None? || |cert.value| >= CA_MAX_LENGTH ==>
        err == INVALID_ARGUMENT && cACertificate[..] == old(cACertificate[..])
      ensures cert.Some? && |cert.value| < CA_MAX_LENGTH ==>
        cACertificate[..] == StoredCA(old(cACertificate[..]), cert.value) &&
        (err == OK <==> cert.value != [] || old(cACertificate[0]) != NUL) &&
        (err != OK ==> err == INVALID_ARGUMENT)
    {
      if cert.None? || |cert.value| >= CA_MAX_LENGTH {
        return INVALID_ARGUMENT;
      }
      var caLength := Min(|cert.value|, CA_MAX_LENGTH);
      StrNCpyInto(cACertificate, cert.value, caLength);
      if StrLen(cACertificate[..]) == 0 {
        return INVALID_ARGUMENT;
      }
      err := OK;
    }

    /** `CreateWifiClient()` (src/Downloader.cpp:234-243). */
    method CreateWifiClient()
      requires Valid()
      modifies this`wifiClient
      ensures wifiClient == Some(if cACertificate[0] != NUL then Secure else Plain)
    {
      if StrLen(cACertificate[..]) > 0 {
        wifiClient := Some(Secure);
      } else {
        wifiClient := Some(Plain);
      }
    }

    /** `CreateHttpClient(url)` (src/Downloader.cpp:245-262): the client exists afterwards, even
        when `begin` refuses the URL. */
    method CreateHttpClient(net: Http) returns (err: DownloaderError)
      modifies this`hasHttpClient
      ensures hasHttpClient && err == (if net.beginOk then OK else UNKNOWN)
    {
      hasHttpClient := true;
      if !net.beginOk {
        return UNKNOWN;
      }
      err := OK;
    }

    /** The request both `download` and `getVersion` make for `url` once it is known to be
        non-empty (src/Downloader.cpp:54-72, 103-121): the clients, `GET`, and the size. The
        stream size is stored once `GET` has answered 200, whatever it is. */
    method Request(net: Http) returns (err: DownloaderError)
      requires Valid()
      modifies this`wifiClient, this`hasHttpClient, this`streamSize
      ensures err == Fetch(net)
      ensures wifiClient == Some(if cACertificate[0] != NUL then Secure else Plain) && hasHttpClient
      ensures streamSize == if SizeRead(net) then net.size else old(streamSize)
    {
      CreateWifiClient();
      err := CreateHttpClient(net);
      if err != OK {
        return UNKNOWN;
      }
      if net.status != HTTP_CODE_OK {
        return SERVER_ERROR;
      }
      streamSize := net.size;
      if streamSize <= 0 {
        return DOWNLOAD_FAILED;
      }
      err := OK;
    }

    /** `download()` (src/Downloader.cpp:42-77): an empty firmware URL fails with
        `NO_URL_PROVIDED` before any client is made; then the request's stages, in order. */
    method Download(net: Http) returns (err: DownloaderError)
      requires Valid()
      modifies this`wifiClient, this`hasHttpClient, this`streamSize
      ensures err == DownloadResult(uRLForBinFile[0] == NUL, net)
      ensures uRLForBinFile[0] == NUL ==> wifiClient == old(wifiClient) && hasHttpClient == old(hasHttpClient)
      ensures uRLForBinFile[0] != NUL ==>
        wifiClient == Some(if cACertificate[0] != NUL then Secure else Plain) && hasHttpClient
      ensures streamSize == if uRLForBinFile[0] != NUL && SizeRead(net) then net.size else old(streamSize)
      ensures err == OK ==> StreamPtr().Some? && StreamSize() == net.size > 0
    {
      if StrLen(uRLForBinFile[..]) == 0 {
        return NO_URL_PROVIDED;
      }
      err := Request(net);
    }

    /** `getVersion(buf, maxLen)` (src/Downloader.cpp:79-135): refuses a null buffer or a length
        of zero or less without touching the buffer; otherwise it zeroes `maxLen` characters, then
        fails with `NO_URL_PROVIDED` on an empty version URL, then makes the request, reads the
        first line into the buffer and fails with `DOWNLOAD_FAILED` when it holds no character. */
    method GetVersion(buf: array?<char>, maxLen: int32, net: Http) returns (err: DownloaderError)
      requires Valid() && (buf != null ==> maxLen <= buf.Length)
      requires buf != uRLForBinFile && buf != uRLForVersionFile && buf != cACertificate
      modifies buf, this`wifiClient, this`hasHttpClient, this`streamSize
      ensures err == VersionResult(buf == null, maxLen, uRLForVersionFile[0] == NUL, net)
      ensures buf != null && maxLen <= 0 ==> buf[..] == old(buf[..])
      ensures buf != null && maxLen > 0 ==>
        buf[..maxLen] == VersionBuffer(maxLen, uRLForVersionFile[0] == NUL, net) &&
        buf[maxLen..] == old(buf[maxLen..])
      ensures buf == null || maxLen <= 0 || uRLForVersionFile[0] == NUL ==>
        wifiClient == old(wifiClient) && hasHttpClient == old(hasHttpClient) && streamSize == old(streamSize)
      ensures !(buf == null || maxLen <= 0 || uRLForVersionFile[0] == NUL) ==>
        streamSize == (if SizeRead(net) then net.size else old(streamSize)) &&
        wifiClient == Some(if cACertificate[0] != NUL then Secure else Plain) && hasHttpClient
    {
      if buf == null {
        return INVALID_ARGUMENT;
      }
      if maxLen <= 0 {
        return INVALID_ARGUMENT;
      }
      for i := 0 to maxLen
        modifies buf
        invariant forall k :: 0 <= k < i ==> buf[k] == NUL
        invariant buf[i..] == old(buf[i..])
      {
        buf[i] := NUL;
      }
      assert buf[..maxLen] == Nuls(maxLen);
      if StrLen(uRLForVersionFile[..]) == 0 {
        return NO_URL_PROVIDED;
      }
      err := Request(net);
      if err != OK {
        return;
      }
      ghost var zeroed := buf[..];
      var got := ReadBytesUntil(buf, net.body, maxLen);
      assert buf[got..maxLen] == zeroed[got..maxLen] == Nuls(maxLen - got);
      assert buf[..maxLen] == buf[..got] + buf[got..maxLen];
      if buf[0] == NUL {
        return DOWNLOAD_FAILED;
      }
      err := OK;
    }

    /** `getStreamPtr()` (src/Downloader.cpp:219-227): the WiFi client, or null when there is no
        stream size or a client is missing. */
    function StreamPtr(): (p: Option<WifiClient>)
      reads this
      ensures p.None? <==> streamSize == 0 || wifiClient.None? || !hasHttpClient
      ensures p.Some? ==> p == wifiClient
    {
      if streamSize == 0 || wifiClient.None? || !hasHttpClient then None else wifiClient
    }

    /** `getStreamSize()` (src/Downloader.cpp:229-232). */
    function StreamSize(): (n: int32)
      reads this
      ensures n == streamSize
    {
      streamSize
    }
  }

  /** What `setCA` stores for a certificate shorter than `CA_MAX_LENGTH`: its characters over the
      front of the old buffer, with the rest of the buffer as it was. */
  function StoredCA(before: seq<char>, cert: seq<char>): (s: seq<char>)
    requires |cert| <= |before|
    ensures |s| == |before|
  {
    cert + before[|cert|..]
  }

  /** `Stream::readBytesUntil('\n', buf, maxLen)`: the line of the body, copied into the buffer. */
  method ReadBytesUntil(buf: array<char>, body: seq<char>, maxLen: nat) returns (n: nat)
    requires maxLen <= buf.Length
    modifies buf
    ensures n == |Line(body, maxLen)| && buf[..n] == Line(body, maxLen) && buf[n..] == old(buf[n..])
  {
    var l := Line(body, maxLen);
    n := |l|;
    forall i | 0 <= i < n {
      buf[i] := l[i];
    }
  }

  /** The result of `download()` with the firmware URL empty or not and the request's answers. */
  function DownloadResult(urlEmpty: bool, net: Http): (e: DownloaderError)
    ensures e == NO_URL_PROVIDED <==> urlEmpty
    ensures e == UNKNOWN <==> !urlEmpty && !net.beginOk
    ensures e == SERVER_ERROR <==> !urlEmpty && net.beginOk && net.status != HTTP_CODE_OK
    ensures e == DOWNLOAD_FAILED <==> !urlEmpty && SizeRead(net) && net.size <= 0
    ensures e == OK <==> !urlEmpty && SizeRead(net) && net.size > 0
    ensures e != INVALID_ARGUMENT
  {
    if urlEmpty then NO_URL_PROVIDED else Fetch(net)
  }

  /** A version line shorter than the buffer leaves a terminated string in it: the line itself,
      when the line holds no NUL. */
  lemma VersionTerminated(maxLen: nat, net: Http)
    requires Fetch(net) == OK && |Line(net.body, maxLen)| < maxLen && IsCString(Line(net.body, maxLen))
    ensures Contents(VersionBuffer(maxLen, false, net)) == Line(net.body, maxLen)
  {
    var l := Line(net.body, maxLen);
    StrLenAppend(l, Nuls(maxLen - |l|));
    assert Nuls(maxLen - |l|)[0] == NUL;
  }

  /** A version line of `maxLen` characters or more fills the buffer: no NUL is left in it, so
      the string the caller (and the log message that follows the read) sees runs past the end. */
  lemma VersionUnterminated(maxLen: nat, net: Http)
    requires Fetch(net) == OK && |Line(net.body, maxLen)| == maxLen && IsCString(Line(net.body, maxLen))
    ensures IsCString(VersionBuffer(maxLen, false, net))
    ensures StrLen(VersionBuffer(maxLen, false, net)) == maxLen
  {
    assert VersionBuffer(maxLen, false, net) == Line(net.body, maxLen);
  }
}
