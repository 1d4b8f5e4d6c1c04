/**
 * The server action of src/app/actions.ts: render a file's digest as hex,
 * rewrite its extension after the detected content type, relay it to Discord,
 * and upload a batch of files one after another, stopping at the first failure.
 *
 * The three foreign pieces (the SHA-256 digest, `fileTypeFromBuffer` and
 * `uploadToDiscord` with the configured webhook) are fields of `Services`, so
 * every property below holds for whatever they compute.
 */
module Actions {
  import opened Common
  import opened DiscordService

  /** A SHA-256 digest: always 32 bytes. */
  type Digest = d: seq<byte> | |d| == 32 witness seq(32, _ => 0)

  datatype Services = Services(
    sha256: seq<byte> -> Digest,             // crypto.subtle.digest('SHA-256', data)
    fileType: seq<byte> -> Option<string>,   // (await fileTypeFromBuffer(buffer))?.ext
    discord: (seq<byte>, string) -> Reply)   // uploadToDiscord(buffer, name, DISCORD_WEBHOOK_URL)

  /** What `processBuffer` resolves with. */
  datatype Processed = Processed(file: string, hash: string, fileUrl: string)

  /** What `uploadFiles` resolves with: `{urls: string[]}`, `{urls: string, error}` or `{urls: null, error}`. */
  datatype BatchResult =
    | Urls(urls: seq<string>)
    | Failed(urlsText: string, error: string)
    | Aborted(error: string)

  // ---------------------------------------------------------------------------
  // Hex rendering of the digest

  const HexDigits := "0123456789abcdef"

  /** `b.toString(16)`: lower-case, and a byte below 16 gives ONE digit. */
  function HexByte(b: byte): string
  {
    if b < 16 then [HexDigits[b]] else [HexDigits[b / 16], HexDigits[b % 16]]
  }

  /** `hashArray.map(b => b.toString(16)).join('')`. */
  function HexDigest(bytes: seq<byte>): string
  {
    if |bytes| == 0 then "" else HexByte(bytes[0]) + HexDigest(bytes[1..])
  }

  /** The number of bytes that `toString(16)` renders with two digits. */
  function CountTwoDigit(bytes: seq<byte>): (n: nat)
    ensures n <= |bytes|
  {
    if |bytes| == 0 then 0 else (if bytes[0] >= 16 then 1 else 0) + CountTwoDigit(bytes[1..])
  }

  predicate IsLowerHex(s: string)
  {
    forall i :: 0 <= i < |s| ==> s[i] in HexDigits
  }

  lemma {:induction false} HexDigestLength(bytes: seq<byte>)
    ensures |HexDigest(bytes)| == |bytes| + CountTwoDigit(bytes)
  {
    if |bytes| > 0 {
      HexDigestLength(bytes[1..]);
    }
  }

  lemma {:induction false} HexDigestIsLowerHex(bytes: seq<byte>)
    ensures IsLowerHex(HexDigest(bytes))
  {
    if |bytes| > 0 {
      HexDigestIsLowerHex(bytes[1..]);
      var h, t := HexByte(bytes[0]), HexDigest(bytes[1..]);
      assert HexDigest(bytes) == h + t;
      forall i | 0 <= i < |h + t| ensures (h + t)[i] in HexDigits {
        if i >= |h| { assert (h + t)[i] == t[i - |h|]; }
      }
    }
  }

  /** Every byte counts as two digits only when it is 16 or more. */
  lemma {:induction false} CountTwoDigitAll(bytes: seq<byte>)
    ensures CountTwoDigit(bytes) == |bytes| <==> forall i :: 0 <= i < |bytes| ==> bytes[i] >= 16
  {
    if |bytes| > 0 {
      CountTwoDigitAll(bytes[1..]);
      if CountTwoDigit(bytes) == |bytes| {
        forall i | 0 <= i < |bytes| ensures bytes[i] >= 16 {
          if i > 0 { assert bytes[i] == bytes[1..][i - 1]; }
        }
      }
      if forall i :: 0 <= i < |bytes| ==> bytes[i] >= 16 {
        assert forall i :: 0 <= i < |bytes| - 1 ==> bytes[1..][i] == bytes[i + 1];
      }
    }
  }

  /**
   * The rendered SHA-256 digest is lower-case hex of 32 to 64 characters, and
   * it has the 64 characters of a full SHA-256 hex digest only when no byte of
   * the digest is below 16.
   */
  lemma Sha256HexShape(d: Digest)
    ensures IsLowerHex(HexDigest(d))
    ensures 32 <= |HexDigest(d)| <= 64
    ensures |HexDigest(d)| == 64 <==> forall i :: 0 <= i < 32 ==> d[i] >= 16
  {
    HexDigestIsLowerHex(d);
    HexDigestLength(d);
    CountTwoDigitAll(d);
  }

  lemma {:induction false} HexDigestAppend(a: seq<byte>, b: seq<byte>)
    ensures HexDigest(a + b) == HexDigest(a) + HexDigest(b)
  {
    if |a| > 0 {
      assert (a + b)[1..] == a[1..] + b;
      HexDigestAppend(a[1..], b);
    } else {
      assert a + b == b;
    }
  }

  /**
   * Without zero padding the rendering is ambiguous: digests that begin with
   * the bytes 0x01 0x23 and 0x12 0x03 and agree afterwards render the same.
   */
  lemma HexDigestCollision(rest: seq<byte>)
    ensures [1, 0x23] + rest != [0x12, 3] + rest
    ensures HexDigest([1, 0x23] + rest) == HexDigest([0x12, 3] + rest)
  {
    assert ([1, 0x23] + rest)[0] != ([0x12, 3] + rest)[0];
    HexDigestAppend([1, 0x23], rest);
    HexDigestAppend([0x12, 3], rest);
    assert HexDigest([0x23]) == "23" by { assert [0x23][1..] == []; }
    assert HexDigest([3]) == "3" by { assert [3][1..] == []; }
    assert HexDigest([1, 0x23]) == "1" + HexDigest([0x23]) by { assert [1, 0x23][1..] == [0x23]; }
    assert HexDigest([0x12, 3]) == "12" + HexDigest([3]) by { assert [0x12, 3][1..] == [3]; }
  }

  // ---------------------------------------------------------------------------
  // The upload filename

  /** The regular expression `/\.[^/.]+$/` matches `name` at position `p`. */
  ghost predicate ExtensionMatchAt(name: string, p: int)
  {
    0 <= p < |name| - 1 && name[p] == '.' &&
    forall j :: p < j < |name| ==> name[j] != '/' && name[j] != '.'
  }

  /** `name.replace(/\.[^/.]+$/, "")`. */
  function StripExtension(name: string): (r: string)
    ensures r <= name
  {
    var dot := LastIndexOf(name, '.');
    if 0 <= dot < |name| - 1 && '/' !in name[dot + 1..] then name[..dot] else name
  }

  /** `StripExtension` removes exactly the regular expression's match, and keeps a name it does not match. */
  lemma StripExtensionIsRegexReplace(name: string)
    ensures (forall p :: !ExtensionMatchAt(name, p)) ==> StripExtension(name) == name
    ensures forall p :: ExtensionMatchAt(name, p) ==> StripExtension(name) == name[..p]
  {
    var dot := LastIndexOf(name, '.');
    if 0 <= dot < |name| - 1 && '/' !in name[dot + 1..] {
      assert forall j :: dot < j < |name| ==> name[j] == name[dot + 1..][j - dot - 1];
      assert ExtensionMatchAt(name, dot);
    }
  }

  /**
   * The name `processBuffer` passes to Discord: the original when no type is
   * detected, otherwise the name without its extension, then "." and the
   * detected extension.
   */
  function UploadName(filename: string, detected: Option<string>): string
  {
    match detected
    case None => filename
    case Some(ext) => StripExtension(filename) + "." + ext
  }

  /**
   * Without a detected type the name is kept; with one, the name ends in "."
   * and the extension, and what comes before is a prefix of the original name.
   */
  lemma UploadNameShape(filename: string, detected: Option<string>)
    ensures detected.None? ==> UploadName(filename, detected) == filename
    ensures detected.Some? ==> EndsWith(UploadName(filename, detected), "." + detected.value)
    ensures detected.Some? ==>
      var r := UploadName(filename, detected);
      r[..|r| - |detected.value| - 1] <= filename
  {
    if detected.Some? {
      AppendExtension(StripExtension(filename), detected.value, filename);
    }
  }

  lemma AppendExtension(base: string, ext: string, filename: string)
    requires base <= filename
    ensures EndsWith(base + "." + ext, "." + ext)
    ensures (base + "." + ext)[..|base|] <= filename
  {
    var r := base + "." + ext;
    assert r[..|base|] == base;
    assert r[|base|..] == "." + ext;
  }

  /** Rewriting a name that already carries the detected extension changes nothing. */
  lemma UploadNameIdempotent(filename: string, ext: string)
    requires ext != [] && '.' !in ext && '/' !in ext
    ensures UploadName(UploadName(filename, Some(ext)), Some(ext)) == UploadName(filename, Some(ext))
  {
    var base := StripExtension(filename);
    var once := base + "." + ext;
    assert once[|base|] == '.';
    assert once[|base| + 1..] == ext;
    assert LastIndexOf(once, '.') == |base| by {
      assert '.' !in once[|base| + 1..];
    }
    assert once[..|base|] == base;
  }

  /** A name the regular expression does not match keeps all of its text and gets the extension appended. */
  lemma UploadNameWithoutExtension(filename: string, ext: string)
    requires forall p :: !ExtensionMatchAt(filename, p)
    ensures UploadName(filename, Some(ext)) == filename + "." + ext
  {
    StripExtensionIsRegexReplace(filename);
  }

  /** A name ending in "." and a name whose last "." lies before a "/" have no extension to strip. */
  lemma UploadNameExamples()
    ensures UploadName("file.", Some("png")) == "file..png"
    ensures UploadName("dir.d/x", Some("png")) == "dir.d/x.png"
  {
    assert LastIndexOf("file.", '.') == 4;
    assert LastIndexOf("dir.d/x", '.') == 3;
    assert "dir.d/x"[4..][1] == '/';
  }

  // ---------------------------------------------------------------------------
  // processBuffer and uploadFiles

  /** The message of the `Error` that `processBuffer` throws when `uploadToDiscord` throws. */
  function RethrownMessage(t: Thrown): string
  {
    match t
    case ErrorObject(m) => UploadFailedPrefix + m
    case NonErrorValue => UploadFailedPrefix + "An unknown error occurred."
  }

  /**
   * `processBuffer(buffer, filename)`: hash, sniff, relay. It resolves with the
   * ORIGINAL filename (not the rewritten one), the hex digest and the file URL;
   * a throw from the client is rethrown with the prefix "Discord upload
   * failed: ", and a reply without a file URL is its own error.
   */
  function ProcessBuffer(svc: Services, buffer: seq<byte>, filename: string): (r: Result<Processed>)
    ensures var reply := svc.discord(buffer, UploadName(filename, svc.fileType(buffer)));
      && (r.Ok? <==> reply.Uploaded? && reply.fileUrl != "")
      && (r.Ok? ==> r.value == Processed(filename, HexDigest(svc.sha256(buffer)), reply.fileUrl))
      && (reply.Threw? ==> StartsWith(r.message, UploadFailedPrefix))
      && (reply.Threw? && reply.thrown.ErrorObject? ==> r.message == UploadFailedPrefix + reply.thrown.message)
      && (reply.Uploaded? && reply.fileUrl == "" ==> r.message == MissingUrlMessage)
  {
    var hash := HexDigest(svc.sha256(buffer));
    var actualFilename := UploadName(filename, svc.fileType(buffer));
    match svc.discord(buffer, actualFilename)
    case Threw(t) => Err(RethrownMessage(t))
    case Uploaded(url) =>
      if url == "" then Err(MissingUrlMessage)
      else Ok(Processed(filename, hash, url))
  }

  /** `processFile(file)`: the file's bytes and name through `processBuffer`. */
  function ProcessFile(svc: Services, f: FileInput): Result<Processed>
  {
    ProcessBuffer(svc, f.bytes, f.name)
  }

  /**
   * With the modelled webhook client, a missing webhook fails every file with
   * the same message and the network's answer plays no part; any other
   * failure of the client carries the prefix "Discord upload failed: " twice.
   */
  lemma ProcessBufferWithClient(svc: Services, webhook: string, network: (seq<byte>, string) -> HttpOutcome,
                                buffer: seq<byte>, filename: string)
    requires forall b, n :: svc.discord(b, n) == UploadToDiscord(webhook, network(b, n))
    ensures webhook == "" ==> ProcessBuffer(svc, buffer, filename) == Err(UploadFailedPrefix + NotDefinedMessage)
    ensures webhook != "" && ProcessBuffer(svc, buffer, filename).Err? ==>
      StartsWith(ProcessBuffer(svc, buffer, filename).message, UploadFailedPrefix + UploadFailedPrefix)
  {
    var name := UploadName(filename, svc.fileType(buffer));
    var reply := svc.discord(buffer, name);
    assert reply == UploadToDiscord(webhook, network(buffer, name));
    if webhook != "" && reply.Threw? {
      StartsWithPrepend(UploadFailedPrefix, reply.thrown.message, UploadFailedPrefix);
    }
  }

  /** The string `uploadFiles` returns in `urls` when a file fails. */
  function FailureText(name: string, message: string): string
  {
    "Error processing file " + name + ": " + message
  }

  /** Files before `k` all went through `process` and file `k` is the first to fail. */
  ghost predicate FirstFailureAt(process: FileInput -> Result<Processed>, files: seq<FileInput>, k: int)
  {
    0 <= k < |files| && process(files[k]).Err? &&
    forall j :: 0 <= j < k ==> process(files[j]).Ok?
  }

  /**
   * The `for ... of` loop of `uploadFiles` with its inner `try`/`catch`, for
   * any per-file step `process`: the files one after another, in order. On
   * full success, one URL per file in the same order; at the first failure it
   * stops, discards the URLs gathered so far and returns the failing file's
   * name and message. `processed` is the files handed to `process`.
   */
  method UploadEach(process: FileInput -> Result<Processed>, files: seq<FileInput>)
    returns (r: BatchResult, ghost processed: seq<FileInput>)
    ensures !r.Aborted?
    ensures r.Urls? <==> forall i :: 0 <= i < |files| ==> process(files[i]).Ok?
    ensures r.Urls? ==> (|r.urls| == |files| &&
      forall i :: 0 <= i < |files| ==> r.urls[i] == process(files[i]).value.fileUrl)
    ensures r.Urls? ==> processed == files
    ensures r.Failed? ==> exists k :: (FirstFailureAt(process, files, k) &&
      r == Failed(FailureText(files[k].name, process(files[k]).message), process(files[k]).message) &&
      processed == files[..k + 1])
  {
    var results: seq<string> := [];
    processed := [];
    var i := 0;
    while i < |files|
      invariant 0 <= i <= |files| && |results| == i
      invariant forall j :: 0 <= j < i ==> process(files[j]).Ok?
      invariant forall j :: 0 <= j < i ==> results[j] == process(files[j]).value.fileUrl
      invariant processed == files[..i]
    {
      var result := process(files[i]);
      assert files[..i + 1] == files[..i] + [files[i]];
      processed := processed + [files[i]];
      if result.Err? {
        r := Failed(FailureText(files[i].name, result.message), result.message);
        assert FirstFailureAt(process, files, i);
        return;
      }
      results := results + [result.value.fileUrl];
      i := i + 1;
    }
    assert files[..|files|] == files;
    r := Urls(results);
  }

  /** `processFile` as the per-file step of `uploadFiles`. */
  function ProcessStep(svc: Services): FileInput -> Result<Processed>
  {
    f => ProcessFile(svc, f)
  }

  /**
   * `uploadFiles(selectedFiles)`: every file through `processFile`, stopping at
   * the first one that fails.
   */
  method UploadFiles(svc: Services, files: seq<FileInput>) returns (r: BatchResult, ghost processed: seq<FileInput>)
    ensures !r.Aborted?
    ensures r.Urls? <==> forall i :: 0 <= i < |files| ==> ProcessFile(svc, files[i]).Ok?
    ensures r.Urls? ==> (|r.urls| == |files| &&
      forall i :: 0 <= i < |files| ==> r.urls[i] == ProcessFile(svc, files[i]).value.fileUrl)
    ensures r.Urls? ==> processed == files
    ensures r.Failed? ==> exists k :: (FirstFailureAt(ProcessStep(svc), files, k) &&
      r == Failed(FailureText(files[k].name, ProcessFile(svc, files[k]).message), ProcessFile(svc, files[k]).message) &&
      processed == files[..k + 1])
  {
    r, processed := UploadEach(ProcessStep(svc), files);
  }
}
