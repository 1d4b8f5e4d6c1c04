/**
 * The upload queue of src/app/page.tsx: the list of selected files with their
 * upload status, the handlers that admit, upload, remove and clear them, the
 * values derived from the list, and the two pure helpers of that file
 * (`truncateFilename`, `getIcon`).
 *
 * Each asynchronous handler is one atomic step; what the server action
 * resolved with (or the error the call rejected with) is an input.
 */
module Page {
  import opened Common
  import opened Actions

  datatype Status = Pending | Uploading | Success | Error

  /** An `UploadFile` of the list. */
  datatype Entry = Entry(id: string, file: FileInput, status: Status, url: Option<string>, error: Option<string>)

  /** How the awaited call to the server action settled. */
  datatype ServerReply = Resolved(result: BatchResult) | Rejected(thrown: Thrown)

  /** 10 MiB: the largest size `handleFiles` admits. */
  const MaxFileSize := 10 * 1024 * 1024

  const MissingResponseMessage := "Upload failed or response missing."
  const InvalidResponseMessage := "Invalid server response."

  predicate UniqueIds(s: seq<Entry>)
  {
    forall i, j :: 0 <= i < j < |s| ==> s[i].id != s[j].id
  }

  /** No entry is in the middle of an upload: the state between the handlers' updates. */
  predicate NoneUploading(s: seq<Entry>)
  {
    forall i :: 0 <= i < |s| ==> s[i].status != Uploading
  }

  predicate HasId(s: seq<Entry>, id: string)
  {
    exists e :: e in s && e.id == id
  }

  /** Same position, same id and same file: only status, url and error may differ. */
  predicate SameFiles(a: seq<Entry>, b: seq<Entry>)
  {
    |a| == |b| && forall i :: 0 <= i < |a| ==> a[i].id == b[i].id && a[i].file == b[i].file
  }

  lemma SameFilesKeepUniqueIds(a: seq<Entry>, b: seq<Entry>)
    requires SameFiles(a, b) && UniqueIds(a)
    ensures UniqueIds(b)
  {
  }

  // ---------------------------------------------------------------------------
  // handleFiles

  /** The two files `handleFiles` and `uploadAllFiles` treat as the same file. */
  predicate SameNameAndSize(a: FileInput, b: FileInput)
  {
    a.name == b.name && a.Size() == b.Size()
  }

  predicate IsDuplicate(existing: seq<Entry>, f: FileInput)
  {
    exists e :: e in existing && SameNameAndSize(e.file, f)
  }

  /** Why a file is skipped; the duplicate check comes before the size check. */
  datatype Admission = Duplicate | TooLarge | Admitted

  function Admit(existing: seq<Entry>, f: FileInput): (a: Admission)
    ensures a == Admitted <==> !IsDuplicate(existing, f) && f.Size() <= MaxFileSize
    ensures a == Duplicate <==> IsDuplicate(existing, f)
  {
    if IsDuplicate(existing, f) then Duplicate
    else if f.Size() > MaxFileSize then TooLarge
    else Admitted
  }

  function PendingEntry(id: string, f: FileInput): Entry
  {
    Entry(id, f, Pending, None, None)
  }

  /**
   * The entries `handleFiles` appends: the incoming files that pass the
   * filter, in incoming order, each pending under its id. Duplicates are
   * looked for in the existing list only, not among the incoming files.
   */
  function NewEntries(existing: seq<Entry>, files: seq<FileInput>, ids: seq<string>): (r: seq<Entry>)
    requires |ids| == |files|
    ensures |r| <= |files|
    ensures forall e :: e in r ==> (e.status == Pending && e.url.None? && e.error.None? &&
      !IsDuplicate(existing, e.file) && e.file.Size() <= MaxFileSize)
  {
    if |files| == 0 then []
    else
      (if Admit(existing, files[0]) == Admitted then [PendingEntry(ids[0], files[0])] else [])
      + NewEntries(existing, files[1..], ids[1..])
  }

  /** An entry is appended exactly when its incoming file passes both checks. */
  lemma {:induction false} NewEntriesMembers(existing: seq<Entry>, files: seq<FileInput>, ids: seq<string>, e: Entry)
    requires |ids| == |files|
    ensures e in NewEntries(existing, files, ids) <==>
      exists i :: 0 <= i < |files| && Admit(existing, files[i]) == Admitted && e == PendingEntry(ids[i], files[i])
  {
    if |files| > 0 {
      NewEntriesMembers(existing, files[1..], ids[1..], e);
      if e in NewEntries(existing, files[1..], ids[1..]) {
        var i :| 0 <= i < |files| - 1 && Admit(existing, files[1..][i]) == Admitted && e == PendingEntry(ids[1..][i], files[1..][i]);
        assert files[i + 1] == files[1..][i] && ids[i + 1] == ids[1..][i];
      }
      if exists i :: 0 <= i < |files| && Admit(existing, files[i]) == Admitted && e == PendingEntry(ids[i], files[i]) {
        var i :| 0 <= i < |files| && Admit(existing, files[i]) == Admitted && e == PendingEntry(ids[i], files[i]);
        if i > 0 {
          assert files[1..][i - 1] == files[i] && ids[1..][i - 1] == ids[i];
        }
      }
    }
  }

  /** Admission keeps the incoming order: it distributes over concatenation. */
  lemma {:induction false} NewEntriesAppend(existing: seq<Entry>, f1: seq<FileInput>, i1: seq<string>, f2: seq<FileInput>, i2: seq<string>)
    requires |i1| == |f1| && |i2| == |f2|
    ensures NewEntries(existing, f1 + f2, i1 + i2) == NewEntries(existing, f1, i1) + NewEntries(existing, f2, i2)
  {
    if |f1| == 0 {
      assert f1 + f2 == f2 && i1 + i2 == i2;
    } else {
      var f, i := f1 + f2, i1 + i2;
      assert f[0] == f1[0] && i[0] == i1[0];
      assert f[1..] == f1[1..] + f2 && i[1..] == i1[1..] + i2;
      var head := if Admit(existing, f1[0]) == Admitted then [PendingEntry(i1[0], f1[0])] else [];
      assert NewEntries(existing, f, i) == head + NewEntries(existing, f1[1..] + f2, i1[1..] + i2);
      assert NewEntries(existing, f1, i1) == head + NewEntries(existing, f1[1..], i1[1..]);
      NewEntriesAppend(existing, f1[1..], i1[1..], f2, i2);
    }
  }

  /** The same small file twice in one batch is admitted twice. */
  lemma SameFileTwiceInOneBatch(existing: seq<Entry>, f: FileInput, id1: string, id2: string)
    requires !IsDuplicate(existing, f) && f.Size() <= MaxFileSize
    ensures NewEntries(existing, [f, f], [id1, id2]) == [PendingEntry(id1, f), PendingEntry(id2, f)]
  {
    assert [f, f][1..] == [f] && [id1, id2][1..] == [id2];
  }

  /** The ids `generateUniqueId` supplies: new to the list and distinct from each other. */
  predicate FreshIds(existing: seq<Entry>, ids: seq<string>)
  {
    (forall i :: 0 <= i < |ids| ==> !HasId(existing, ids[i])) &&
    (forall i, j :: 0 <= i < j < |ids| ==> ids[i] != ids[j])
  }

  /**
   * With fresh ids, the ids stay unique when the admitted entries are appended,
   * here to any list `acc` that already has unique ids none of which is fresh.
   */
  lemma {:induction false} NewEntriesKeepIdsUnique(acc: seq<Entry>, existing: seq<Entry>, files: seq<FileInput>, ids: seq<string>)
    requires |ids| == |files| && UniqueIds(acc) && FreshIds(acc, ids)
    ensures UniqueIds(acc + NewEntries(existing, files, ids))
    decreases |files|
  {
    if |files| == 0 {
      assert acc + NewEntries(existing, files, ids) == acc;
    } else {
      var head := if Admit(existing, files[0]) == Admitted then [PendingEntry(ids[0], files[0])] else [];
      var rest := NewEntries(existing, files[1..], ids[1..]);
      assert NewEntries(existing, files, ids) == head + rest;
      if head != [] {
        AppendFreshEntry(acc, head[0]);
        assert acc + head == acc + [head[0]];
      } else {
        assert acc + head == acc;
      }
      FreshIdsAfterHead(acc, head, ids);
      NewEntriesKeepIdsUnique(acc + head, existing, files[1..], ids[1..]);
      AppendAssociates(acc, head, rest);
    }
  }

  /** Concatenation regrouped; a separate step keeps the induction above cheap for the solver. */
  lemma AppendAssociates(a: seq<Entry>, b: seq<Entry>, c: seq<Entry>)
    ensures a + (b + c) == (a + b) + c
  {
  }

  /** Appending an entry under an id the list does not have keeps the ids unique. */
  lemma AppendFreshEntry(acc: seq<Entry>, e: Entry)
    requires UniqueIds(acc) && !HasId(acc, e.id)
    ensures UniqueIds(acc + [e])
  {
    forall i | 0 <= i < |acc| ensures acc[i].id != e.id {
      assert acc[i] in acc;
    }
  }

  /** After the first fresh id is used, the remaining ones are still fresh. */
  lemma FreshIdsAfterHead(acc: seq<Entry>, head: seq<Entry>, ids: seq<string>)
    requires |ids| >= 1 && FreshIds(acc, ids) && forall e :: e in head ==> e.id == ids[0]
    ensures FreshIds(acc + head, ids[1..])
  {
    forall i | 0 <= i < |ids| - 1 ensures !HasId(acc + head, ids[1..][i]) {
      assert ids[1..][i] == ids[i + 1] && ids[0] != ids[i + 1];
      assert !HasId(acc, ids[i + 1]);
    }
  }

  // ---------------------------------------------------------------------------
  // The derived values

  /** The statuses that `uploadAllFiles`, `canUpload` and the count take as not yet uploaded. */
  predicate Sendable(e: Entry)
  {
    e.status == Pending || e.status == Error
  }

  /** `selectedFiles.filter(f => f.status === "pending" || f.status === "error")`. */
  function ToUpload(s: seq<Entry>): (r: seq<Entry>)
    ensures |r| <= |s|
    ensures forall e :: e in r ==> e in s && Sendable(e)
    ensures forall e :: e in s && Sendable(e) ==> e in r
  {
    if |s| == 0 then []
    else (if Sendable(s[0]) then [s[0]] else []) + ToUpload(s[1..])
  }

  /** `canUpload`. */
  predicate CanUpload(s: seq<Entry>)
  {
    exists e :: e in s && Sendable(e)
  }

  /** `pendingFilesCount`. */
  function PendingFilesCount(s: seq<Entry>): nat
  {
    |ToUpload(s)|
  }

  lemma CanUploadIffPending(s: seq<Entry>)
    ensures CanUpload(s) <==> PendingFilesCount(s) > 0
  {
    if PendingFilesCount(s) > 0 {
      assert ToUpload(s)[0] in ToUpload(s);
    }
  }

  // ---------------------------------------------------------------------------
  // uploadAllFiles

  /** `filesToUpload.map(f => f.file)`. */
  function FilesOf(s: seq<Entry>): seq<FileInput>
  {
    seq(|s|, i requires 0 <= i < |s| => s[i].file)
  }

  /** Marking for upload: every entry whose id is among `sending` is uploading, with its error cleared. */
  function MarkUploading(s: seq<Entry>, sending: seq<Entry>): (r: seq<Entry>)
    ensures SameFiles(s, r)
  {
    seq(|s|, i requires 0 <= i < |s| =>
      if HasId(sending, s[i].id) then s[i].(status := Uploading, error := None) else s[i])
  }

  /** The entry that the `findIndex` of `uploadAllFiles` looks for. */
  predicate AwaitsUrl(e: Entry, f: FileInput)
  {
    e.status == Uploading && SameNameAndSize(e.file, f)
  }

  /** `updated.findIndex(...)`: the first uploading entry with the file's name and size, or -1. */
  function FindUploading(s: seq<Entry>, f: FileInput): (r: int)
    ensures -1 <= r < |s|
    ensures r == -1 ==> forall j :: 0 <= j < |s| ==> !AwaitsUrl(s[j], f)
    ensures r != -1 ==> AwaitsUrl(s[r], f) && forall j :: 0 <= j < r ==> !AwaitsUrl(s[j], f)
  {
    if |s| == 0 then -1
    else if AwaitsUrl(s[0], f) then 0
    else
      var k := FindUploading(s[1..], f);
      if k == -1 then -1 else k + 1
  }

  /** One step of the `forEach` over the returned URLs. */
  function ApplyUrl(s: seq<Entry>, f: FileInput, url: string): (r: seq<Entry>)
    ensures SameFiles(s, r)
  {
    var j := FindUploading(s, f);
    if j == -1 then s else s[j := s[j].(status := Success, url := Some(url))]
  }

  /** The whole `forEach`: the i-th URL goes to the first still-uploading entry that matches the i-th sent file. */
  function ApplyUrls(s: seq<Entry>, sent: seq<FileInput>, urls: seq<string>): (r: seq<Entry>)
    requires |urls| <= |sent|
    ensures SameFiles(s, r)
    decreases |urls|
  {
    if |urls| == 0 then s else ApplyUrls(ApplyUrl(s, sent[0], urls[0]), sent[1..], urls[1..])
  }

  /** The final `map`: whatever is still uploading becomes an error with `message`. */
  function FailUploading(s: seq<Entry>, message: string): (r: seq<Entry>)
    ensures SameFiles(s, r)
  {
    seq(|s|, i requires 0 <= i < |s| =>
      if s[i].status == Uploading then s[i].(status := Error, error := Some(message)) else s[i])
  }

  /** `error?.message || "Batch upload failed"`. */
  function BatchFailureMessage(t: Thrown): (m: string)
    ensures m != ""
  {
    if t.ErrorObject? && t.message != "" then t.message else "Batch upload failed"
  }

  /** An array reply carries at most one URL per sent file. */
  predicate FitsSent(sent: seq<FileInput>, reply: ServerReply)
  {
    reply.Resolved? && reply.result.Urls? ==> |reply.result.urls| <= |sent|
  }

  /** The list after the server replied to the files `sent` from the marked list `m`. */
  function Settle(m: seq<Entry>, sent: seq<FileInput>, reply: ServerReply): (r: seq<Entry>)
    requires FitsSent(sent, reply)
    ensures SameFiles(m, r)
  {
    match reply
    case Resolved(Urls(urls)) => FailUploading(ApplyUrls(m, sent, urls), MissingResponseMessage)
    case Resolved(_) => FailUploading(m, MissingResponseMessage)
    case Rejected(t) => FailUploading(m, BatchFailureMessage(t))
  }

  /** A URL only turns an uploading entry into a successful one with that URL; nothing else changes. */
  ghost predicate UrlsOnlyFinishUploads(m: seq<Entry>, r: seq<Entry>)
  {
    SameFiles(m, r) &&
    forall i :: 0 <= i < |m| ==>
      r[i] == m[i] ||
      (m[i].status == Uploading && r[i].status == Success && r[i].url.Some? &&
       r[i] == m[i].(status := Success, url := r[i].url))
  }

  lemma {:induction false} ApplyUrlsFrame(m: seq<Entry>, sent: seq<FileInput>, urls: seq<string>)
    requires |urls| <= |sent|
    ensures UrlsOnlyFinishUploads(m, ApplyUrls(m, sent, urls))
    decreases |urls|
  {
    if |urls| > 0 {
      var m1 := ApplyUrl(m, sent[0], urls[0]);
      ApplyUrlsFrame(m1, sent[1..], urls[1..]);
    }
  }

  /**
   * After `uploadAllFiles`, whatever the reply, no entry is left uploading;
   * every entry that was uploading ends as a success with a URL or as an
   * error with a message; every other entry is untouched.
   */
  lemma SettleFinishesEveryUpload(m: seq<Entry>, sent: seq<FileInput>, reply: ServerReply)
    requires FitsSent(sent, reply)
    ensures var r := Settle(m, sent, reply);
      && SameFiles(m, r)
      && (forall i :: 0 <= i < |r| ==> r[i].status != Uploading)
      && (forall i :: 0 <= i < |m| && m[i].status != Uploading ==> r[i] == m[i])
      && (forall i :: 0 <= i < |m| && m[i].status == Uploading ==>
            (r[i].status == Success && r[i].url.Some?) ||
            (r[i].status == Error && r[i].error.Some? && r[i].error.value != ""))
  {
    if reply.Resolved? && reply.result.Urls? {
      ApplyUrlsFrame(m, sent, reply.result.urls);
    }
  }

  /** A reply that is not an array (the string form, or no urls at all) fails every sent entry. */
  lemma NonArrayReplyFailsAll(m: seq<Entry>, sent: seq<FileInput>, result: BatchResult)
    requires !result.Urls?
    ensures var r := Settle(m, sent, Resolved(result));
      forall i :: 0 <= i < |m| ==>
        r[i] == if m[i].status == Uploading then m[i].(status := Error, error := Some(MissingResponseMessage)) else m[i]
  {
  }

  /** With unique ids, marking for upload marks exactly the pending and failed entries. */
  lemma MarkUploadingMarksSendable(s: seq<Entry>)
    requires UniqueIds(s)
    ensures var r := MarkUploading(s, ToUpload(s));
      forall i :: 0 <= i < |s| ==>
        r[i] == if Sendable(s[i]) then s[i].(status := Uploading, error := None) else s[i]
  {
    var r := MarkUploading(s, ToUpload(s));
    forall i | 0 <= i < |s|
      ensures r[i] == if Sendable(s[i]) then s[i].(status := Uploading, error := None) else s[i]
    {
      if Sendable(s[i]) {
        assert s[i] in ToUpload(s);
      } else {
        UnsendableIsNotSent(s, i);
      }
    }
  }

  /** With unique ids, an entry that is not sendable has no namesake among the entries sent. */
  lemma UnsendableIsNotSent(s: seq<Entry>, i: int)
    requires UniqueIds(s) && 0 <= i < |s| && !Sendable(s[i])
    ensures !HasId(ToUpload(s), s[i].id)
  {
    forall e | e in ToUpload(s) ensures e.id != s[i].id {
      var j :| 0 <= j < |s| && s[j] == e;
      assert j != i;
    }
  }

  /** With unique ids, an entry that had already succeeded comes out of `uploadAllFiles` untouched. */
  lemma UploadAllKeepsSucceeded(s: seq<Entry>, reply: ServerReply, i: int)
    requires UniqueIds(s) && FitsSent(FilesOf(ToUpload(s)), reply)
    requires 0 <= i < |s| && s[i].status == Success
    ensures Settle(MarkUploading(s, ToUpload(s)), FilesOf(ToUpload(s)), reply)[i] == s[i]
  {
    var m := MarkUploading(s, ToUpload(s));
    MarkUploadingMarksSendable(s);
    assert m[i] == s[i];
    SettleFinishesEveryUpload(m, FilesOf(ToUpload(s)), reply);
  }

  /** The list after a reply with one URL per sent file: the k-th sent entry succeeds with the k-th URL. */
  function AllSucceeded(s: seq<Entry>, urls: seq<string>): seq<Entry>
    requires |urls| == |ToUpload(s)|
  {
    if |s| == 0 then []
    else if Sendable(s[0]) then
      [s[0].(status := Success, url := Some(urls[0]), error := None)] + AllSucceeded(s[1..], urls[1..])
    else [s[0]] + AllSucceeded(s[1..], urls)
  }

  function MarkSendable(s: seq<Entry>): (r: seq<Entry>)
    ensures |r| == |s|
    ensures forall i :: 0 <= i < |s| ==>
      r[i] == if Sendable(s[i]) then s[i].(status := Uploading, error := None) else s[i]
  {
    if |s| == 0 then []
    else [if Sendable(s[0]) then s[0].(status := Uploading, error := None) else s[0]] + MarkSendable(s[1..])
  }

  lemma ApplyUrlSkipsHead(h: Entry, t: seq<Entry>, f: FileInput, url: string)
    requires h.status != Uploading
    ensures ApplyUrl([h] + t, f, url) == [h] + ApplyUrl(t, f, url)
  {
    assert ([h] + t)[1..] == t;
  }

  lemma {:induction false} ApplyUrlsSkipsHead(h: Entry, t: seq<Entry>, sent: seq<FileInput>, urls: seq<string>)
    requires h.status != Uploading && |urls| <= |sent|
    ensures ApplyUrls([h] + t, sent, urls) == [h] + ApplyUrls(t, sent, urls)
    decreases |urls|
  {
    if |urls| > 0 {
      ApplyUrlSkipsHead(h, t, sent[0], urls[0]);
      ApplyUrlsSkipsHead(h, ApplyUrl(t, sent[0], urls[0]), sent[1..], urls[1..]);
    }
  }

  function MarkOne(e: Entry): Entry
  {
    if Sendable(e) then e.(status := Uploading, error := None) else e
  }

  lemma MarkSendableCons(s: seq<Entry>)
    requires |s| > 0
    ensures MarkSendable(s) == [MarkOne(s[0])] + MarkSendable(s[1..])
  {
  }

  lemma NoneUploadingTail(s: seq<Entry>)
    requires |s| > 0 && forall i :: 0 <= i < |s| ==> s[i].status != Uploading
    ensures s[0].status != Uploading && forall i :: 0 <= i < |s| - 1 ==> s[1..][i].status != Uploading
  {
    assert forall i :: 0 <= i < |s| - 1 ==> s[1..][i] == s[i + 1];
  }

  lemma FilesOfCons(e: Entry, t: seq<Entry>)
    ensures FilesOf([e] + t) == [e.file] + FilesOf(t)
  {
    assert forall i :: 0 < i <= |t| ==> ([e] + t)[i] == t[i - 1];
  }

  lemma ToUploadCons(s: seq<Entry>)
    requires |s| > 0
    ensures FilesOf(ToUpload(s)) == if Sendable(s[0]) then [s[0].file] + FilesOf(ToUpload(s[1..])) else FilesOf(ToUpload(s[1..]))
  {
    if Sendable(s[0]) {
      assert ToUpload(s) == [s[0]] + ToUpload(s[1..]);
      FilesOfCons(s[0], ToUpload(s[1..]));
    } else {
      assert ToUpload(s) == ToUpload(s[1..]);
    }
  }

  /** The first URL goes to the marked head when the head was sent. */
  lemma ApplyFirstUrlToHead(h: Entry, mt: seq<Entry>, url: string)
    requires Sendable(h)
    ensures ApplyUrl([MarkOne(h)] + mt, h.file, url) ==
      [h.(status := Success, url := Some(url), error := None)] + mt
  {
    assert FindUploading([MarkOne(h)] + mt, h.file) == 0;
  }

  lemma {:induction false} ApplyUrlsToMarked(s: seq<Entry>, urls: seq<string>)
    requires forall i :: 0 <= i < |s| ==> s[i].status != Uploading
    requires |urls| == |ToUpload(s)|
    ensures ApplyUrls(MarkSendable(s), FilesOf(ToUpload(s)), urls) == AllSucceeded(s, urls)
  {
    if |s| > 0 {
      var h, t := s[0], s[1..];
      NoneUploadingTail(s);
      MarkSendableCons(s);
      ToUploadCons(s);
      var mt, ft := MarkSendable(t), FilesOf(ToUpload(t));
      if Sendable(h) {
        var hs := h.(status := Success, url := Some(urls[0]), error := None);
        ApplyFirstUrlToHead(h, mt, urls[0]);
        assert ([h.file] + ft)[1..] == ft;
        assert ApplyUrls(MarkSendable(s), FilesOf(ToUpload(s)), urls) == ApplyUrls([hs] + mt, ft, urls[1..]);
        ApplyUrlsSkipsHead(hs, mt, ft, urls[1..]);
        ApplyUrlsToMarked(t, urls[1..]);
      } else {
        ApplyUrlsSkipsHead(h, mt, ft, urls);
        ApplyUrlsToMarked(t, urls);
      }
    }
  }

  lemma {:induction false} AllSucceededFinished(s: seq<Entry>, urls: seq<string>)
    requires forall i :: 0 <= i < |s| ==> s[i].status != Uploading
    requires |urls| == |ToUpload(s)|
    ensures |AllSucceeded(s, urls)| == |s|
    ensures forall i :: 0 <= i < |s| ==> AllSucceeded(s, urls)[i].status != Uploading
  {
    if |s| > 0 {
      assert forall i :: 0 <= i < |s| - 1 ==> s[1..][i].status != Uploading by {
        forall i | 0 <= i < |s| - 1 ensures s[1..][i].status != Uploading { assert s[1..][i] == s[i + 1]; }
      }
      if Sendable(s[0]) {
        AllSucceededFinished(s[1..], urls[1..]);
      } else {
        AllSucceededFinished(s[1..], urls);
      }
    }
  }

  /**
   * When nothing was uploading, ids are unique and the server returned one URL
   * per sent file, `uploadAllFiles` turns the k-th pending or failed entry into
   * a success carrying the k-th URL, and leaves every other entry as it was.
   */
  lemma UploadAllWithFullReply(s: seq<Entry>, urls: seq<string>)
    requires UniqueIds(s)
    requires forall i :: 0 <= i < |s| ==> s[i].status != Uploading
    requires |urls| == |ToUpload(s)|
    ensures Settle(MarkUploading(s, ToUpload(s)), FilesOf(ToUpload(s)), Resolved(Urls(urls))) == AllSucceeded(s, urls)
  {
    MarkUploadingMarksSendable(s);
    assert MarkUploading(s, ToUpload(s)) == MarkSendable(s);
    ApplyUrlsToMarked(s, urls);
    AllSucceededFinished(s, urls);
    var a := AllSucceeded(s, urls);
    assert FailUploading(a, MissingResponseMessage) == a;
  }

  // ---------------------------------------------------------------------------
  // uploadIndividualFile and removeFile

  /** `selectedFiles.find(f => f.id === fileId)`. */
  function FindById(s: seq<Entry>, id: string): (r: Option<Entry>)
    ensures r.None? <==> !HasId(s, id)
    ensures r.Some? ==> r.value in s && r.value.id == id
  {
    if |s| == 0 then None
    else if s[0].id == id then Some(s[0])
    else FindById(s[1..], id)
  }

  /** `find` returns the first entry with the id: the one at the first position holding it. */
  lemma {:induction false} FindByIdFindsFirst(s: seq<Entry>, id: string, k: int)
    requires 0 <= k < |s| && s[k].id == id
    requires forall j :: 0 <= j < k ==> s[j].id != id
    ensures FindById(s, id) == Some(s[k])
    decreases k
  {
    if k > 0 {
      assert s[0].id != id;
      forall j | 0 <= j < k - 1 ensures s[1..][j].id != id {
        assert s[1..][j] == s[j + 1];
      }
      FindByIdFindsFirst(s[1..], id, k - 1);
    }
  }

  /** In a list with unique ids, looking up an entry's id finds that entry. */
  lemma FindByIdOfMember(s: seq<Entry>, i: int)
    requires UniqueIds(s) && 0 <= i < |s|
    ensures FindById(s, s[i].id) == Some(s[i])
  {
    FindByIdFindsFirst(s, s[i].id, i);
  }

  /**
   * What the single-file upload ends with: the URL it stores, or the error
   * message it stores. The guard rejects only a missing or empty `urls`, so
   * the string form of a failed batch passes it and its first character is
   * taken as the URL.
   */
  function IndividualOutcome(reply: ServerReply): (r: Result<string>)
    ensures r.Err? ==> r.message != ""
  {
    match reply
    case Rejected(t) => Err(if t.ErrorObject? && t.message != "" then t.message else "Upload failed")
    case Resolved(Urls(urls)) => if |urls| == 0 then Err(InvalidResponseMessage) else Ok(urls[0])
    case Resolved(Failed(text, _)) => if text == "" then Err(InvalidResponseMessage) else Ok(text[..1])
    case Resolved(Aborted(_)) => Err(InvalidResponseMessage)
  }

  /** A failed single-file upload is recorded as a success whose URL is the letter "E". */
  lemma FailedUploadStoredAsUrl(name: string, message: string)
    ensures IndividualOutcome(Resolved(Failed(FailureText(name, message), message))) == Ok("E")
  {
    var text := FailureText(name, message);
    assert text[0] == 'E';
    assert text[..1] == [text[0]];
  }

  /** The entry after the single-file upload: marked uploading, then settled with the outcome. */
  function SettleEntry(e: Entry, outcome: Result<string>): Entry
  {
    var marked := e.(status := Uploading, error := None);
    match outcome
    case Ok(url) => marked.(status := Success, url := Some(url))
    case Err(m) => marked.(status := Error, error := Some(m))
  }

  /** `prev.map(f => f.id === fileId ? ... : f)` applied with the outcome. */
  function SettleById(s: seq<Entry>, id: string, outcome: Result<string>): (r: seq<Entry>)
    ensures SameFiles(s, r)
  {
    seq(|s|, i requires 0 <= i < |s| => if s[i].id == id then SettleEntry(s[i], outcome) else s[i])
  }

  /**
   * The single-file upload changes only the entries with that id: each ends
   * as a success with the outcome's URL and no error, or as an error with the
   * outcome's message and its former URL.
   */
  lemma SettleByIdChangesOnlyThatEntry(s: seq<Entry>, id: string, reply: ServerReply)
    ensures var r := SettleById(s, id, IndividualOutcome(reply));
      && SameFiles(s, r)
      && (forall i :: 0 <= i < |s| && s[i].id != id ==> r[i] == s[i])
      && (forall i :: 0 <= i < |s| && s[i].id == id ==>
            match IndividualOutcome(reply)
            case Ok(url) => r[i].status == Success && r[i].url == Some(url) && r[i].error.None?
            case Err(m) => r[i].status == Error && r[i].error == Some(m) && r[i].url == s[i].url)
  {
  }

  /** `prev.filter(f => f.id !== fileId)`. */
  function RemoveById(s: seq<Entry>, id: string): (r: seq<Entry>)
    ensures |r| <= |s|
    ensures forall e :: e in r <==> e in s && e.id != id
  {
    if |s| == 0 then []
    else (if s[0].id != id then [s[0]] else []) + RemoveById(s[1..], id)
  }

  /** Removal keeps the order of what remains: it distributes over concatenation. */
  lemma {:induction false} RemoveByIdAppend(a: seq<Entry>, b: seq<Entry>, id: string)
    ensures RemoveById(a + b, id) == RemoveById(a, id) + RemoveById(b, id)
  {
    if |a| == 0 {
      assert a + b == b;
    } else {
      assert (a + b)[1..] == a[1..] + b;
      RemoveByIdAppend(a[1..], b, id);
    }
  }

  /** Removing an id that is not in the list changes nothing. */
  lemma {:induction false} RemoveAbsentId(s: seq<Entry>, id: string)
    requires !HasId(s, id)
    ensures RemoveById(s, id) == s
  {
    if |s| > 0 {
      assert s[0] in s;
      assert !HasId(s[1..], id) by {
        forall e | e in s[1..] ensures e.id != id { assert e in s; }
      }
      RemoveAbsentId(s[1..], id);
    }
  }

  /** Removal keeps the ids unique. */
  lemma {:induction false} RemoveKeepsIdsUnique(s: seq<Entry>, id: string)
    requires UniqueIds(s)
    ensures UniqueIds(RemoveById(s, id))
  {
    if |s| > 0 {
      assert UniqueIds(s[1..]) by {
        forall i, j | 0 <= i < j < |s| - 1 ensures s[1..][i].id != s[1..][j].id {
          assert s[1..][i] == s[i + 1] && s[1..][j] == s[j + 1];
        }
      }
      RemoveKeepsIdsUnique(s[1..], id);
      var rest := RemoveById(s[1..], id);
      forall e | e in rest ensures e.id != s[0].id {
        var j :| 0 <= j < |s| - 1 && s[1..][j] == e;
        assert s[j + 1] == e;
      }
    }
  }

  /** Appending pending entries leaves nothing uploading. */
  lemma AppendPendingNoneUploading(s: seq<Entry>, added: seq<Entry>)
    requires NoneUploading(s) && forall e :: e in added ==> e.status == Pending
    ensures NoneUploading(s + added)
  {
    forall i | |s| <= i < |s + added| ensures (s + added)[i].status != Uploading {
      assert (s + added)[i] == added[i - |s|];
      assert added[i - |s|] in added;
    }
  }

  /** Removal leaves nothing uploading when nothing was. */
  lemma RemoveKeepsNoneUploading(s: seq<Entry>, id: string)
    requires NoneUploading(s)
    ensures NoneUploading(RemoveById(s, id))
  {
    var r := RemoveById(s, id);
    forall i | 0 <= i < |r| ensures r[i].status != Uploading {
      assert r[i] in r;
      var j :| 0 <= j < |s| && s[j] == r[i];
    }
  }

  // ---------------------------------------------------------------------------
  // The list and its handlers

  class UploadQueue {
    var selectedFiles: seq<Entry>
    var isUploading: bool

    /**
     * Every entry has its own id, and between two handlers no entry is left
     * uploading: each handler that marks entries settles them before it returns.
     */
    ghost predicate Valid()
      reads this
    {
      UniqueIds(selectedFiles) && NoneUploading(selectedFiles)
    }

    constructor ()
      ensures Valid() && selectedFiles == [] && !isUploading
    {
      selectedFiles := [];
      isUploading := false;
    }

    /** `handleFiles(files)`, with the ids `generateUniqueId` would produce for them. */
    method HandleFiles(files: seq<FileInput>, ids: seq<string>)
      requires Valid()
      requires |ids| == |files| && FreshIds(selectedFiles, ids)
      modifies this
      ensures Valid()
      ensures selectedFiles == old(selectedFiles) + NewEntries(old(selectedFiles), files, ids)
      ensures isUploading == old(isUploading)
    {
      var newFiles := NewEntries(selectedFiles, files, ids);
      NewEntriesKeepIdsUnique(selectedFiles, selectedFiles, files, ids);
      AppendPendingNoneUploading(selectedFiles, newFiles);
      selectedFiles := selectedFiles + newFiles;
    }

    /** `uploadAllFiles()`, with the reply of the server action. */
    method UploadAllFiles(reply: ServerReply)
      requires Valid()
      requires FitsSent(FilesOf(ToUpload(selectedFiles)), reply)
      modifies this
      ensures Valid()
      ensures ToUpload(old(selectedFiles)) == [] ==>
        selectedFiles == old(selectedFiles) && isUploading == old(isUploading)
      ensures ToUpload(old(selectedFiles)) != [] ==> (!isUploading &&
        selectedFiles == Settle(MarkUploading(old(selectedFiles), ToUpload(old(selectedFiles))),
                                FilesOf(ToUpload(old(selectedFiles))), reply))
      ensures (ToUpload(old(selectedFiles)) != [] && reply.Resolved? && reply.result.Urls? &&
               |reply.result.urls| == |ToUpload(old(selectedFiles))|) ==>
        selectedFiles == AllSucceeded(old(selectedFiles), reply.result.urls)
    {
      var filesToUpload := ToUpload(selectedFiles);
      if |filesToUpload| == 0 {
        return;
      }
      isUploading := true;
      var marked := MarkUploading(selectedFiles, filesToUpload);
      selectedFiles := marked;
      var filesData := FilesOf(filesToUpload);
      match reply {
        case Resolved(Urls(urls)) =>
          var updated := selectedFiles;
          var i := 0;
          while i < |urls|
            invariant 0 <= i <= |urls| <= |filesData|
            invariant ApplyUrls(updated, filesData[i..], urls[i..]) == ApplyUrls(marked, filesData, urls)
          {
            assert filesData[i..][1..] == filesData[i + 1..] && urls[i..][1..] == urls[i + 1..];
            var j := FindUploading(updated, filesData[i]);
            if j != -1 {
              updated := updated[j := updated[j].(status := Success, url := Some(urls[i]))];
            }
            i := i + 1;
          }
          selectedFiles := FailUploading(updated, MissingResponseMessage);
        case Resolved(_) =>
          selectedFiles := FailUploading(selectedFiles, MissingResponseMessage);
        case Rejected(t) =>
          selectedFiles := FailUploading(selectedFiles, BatchFailureMessage(t));
      }
      isUploading := false;
      SettleFinishesEveryUpload(marked, filesData, reply);
      SameFilesKeepUniqueIds(old(selectedFiles), marked);
      if reply.Resolved? && reply.result.Urls? && |reply.result.urls| == |filesToUpload| {
        UploadAllWithFullReply(old(selectedFiles), reply.result.urls);
      }
    }

    /** `uploadIndividualFile(fileId)`, with the reply of the server action for that one file. */
    method UploadIndividualFile(fileId: string, reply: ServerReply)
      requires Valid()
      modifies this
      ensures Valid()
      ensures isUploading == old(isUploading)
      ensures var item := FindById(old(selectedFiles), fileId);
        if item.None? || !Sendable(item.value) then selectedFiles == old(selectedFiles)
        else selectedFiles == SettleById(old(selectedFiles), fileId, IndividualOutcome(reply))
    {
      var fileItem := FindById(selectedFiles, fileId);
      if fileItem.None? || fileItem.value.status == Success || fileItem.value.status == Uploading {
        return;
      }
      var outcome := IndividualOutcome(reply);
      SettleByIdChangesOnlyThatEntry(selectedFiles, fileId, reply);
      selectedFiles := SettleById(selectedFiles, fileId, outcome);
    }

    /** `removeFile(fileId)`. */
    method RemoveFile(fileId: string)
      requires Valid()
      modifies this
      ensures Valid()
      ensures selectedFiles == RemoveById(old(selectedFiles), fileId)
      ensures isUploading == old(isUploading)
    {
      RemoveKeepsIdsUnique(selectedFiles, fileId);
      RemoveKeepsNoneUploading(selectedFiles, fileId);
      selectedFiles := RemoveById(selectedFiles, fileId);
    }

    /** `clearAllFiles()`. */
    method ClearAllFiles()
      requires Valid()
      modifies this
      ensures Valid()
      ensures selectedFiles == [] && isUploading == old(isUploading)
    {
      selectedFiles := [];
    }
  }

  // ---------------------------------------------------------------------------
  // truncateFilename and getIcon

  const DefaultMaxChars := 30

  /** `truncateFilename(name, maxChars)`: shorten to `maxChars`, keeping a usable extension. */
  function TruncateFilename(name: string, maxChars: int): string
  {
    if |name| <= maxChars then name
    else
      var dot := LastIndexOf(name, '.');
      if dot == -1 || dot == 0 || dot == |name| - 1 then Prefix(name, maxChars - 3) + "..."
      else
        var extension := name[dot..];
        var baseName := name[..dot];
        var availableBaseLength := maxChars - |extension| - 3;
        if availableBaseLength < 1 then Prefix(name, maxChars - 3) + "..."
        else
          var truncatedBase := if |baseName| > availableBaseLength then baseName[..availableBaseLength] else baseName;
          truncatedBase + "..." + extension
  }

  /** A name that fits is returned unchanged; a longer one is cut to exactly `maxChars` (to "..." when `maxChars` is below 3). */
  lemma TruncateFilenameLength(name: string, maxChars: int)
    ensures |name| <= maxChars ==> TruncateFilename(name, maxChars) == name
    ensures |name| > maxChars ==> |TruncateFilename(name, maxChars)| == if maxChars < 3 then 3 else maxChars
  {
  }

  /**
   * When the name is too long and its last "." (at `dot`) is neither first nor last and
   * leaves room for at least one character of the base, the result is the
   * base cut to fit, "..." and the whole extension.
   */
  lemma TruncateFilenameKeepsExtension(name: string, maxChars: int, dot: int)
    requires 0 < dot < |name| - 1 && name[dot] == '.' && '.' !in name[dot + 1..]
    requires |name| > maxChars && maxChars - (|name| - dot) - 3 >= 1
    ensures TruncateFilename(name, maxChars) == name[..maxChars - (|name| - dot) - 3] + "..." + name[dot..]
  {
    LastIndexOfAt(name, '.', dot);
    TruncateFilenameSteps(name, maxChars, dot);
    CutBase(name, dot, maxChars - (|name| - dot) - 3);
  }

  /** `truncateFilename` past its first two guards, written over the position of the last '.'. */
  lemma TruncateFilenameSteps(name: string, maxChars: int, dot: int)
    requires |name| > maxChars && dot == LastIndexOf(name, '.') && 0 < dot < |name| - 1
    requires maxChars - (|name| - dot) - 3 >= 1
    ensures var available := maxChars - (|name| - dot) - 3;
      TruncateFilename(name, maxChars) ==
        (if |name[..dot]| > available then name[..dot][..available] else name[..dot]) + "..." + name[dot..]
  {
  }

  lemma CutBase(name: string, dot: int, available: int)
    requires 1 <= available < dot < |name|
    ensures (if |name[..dot]| > available then name[..dot][..available] else name[..dot]) == name[..available]
  {
  }

  datatype FileIcon = Code | Image | Film | Music | Book | Package | FileText

  const ImageExtensions := ["jpg", "jpeg", "png", "gif", "webp"]
  const FilmExtensions := ["mp4", "mov", "avi", "mkv"]
  const MusicExtensions := ["mp3", "wav", "ogg"]
  const BookExtensions := ["pdf"]
  const PackageExtensions := ["zip", "rar", "7z"]

  /** `/\.(e1|e2|...)$/i`. */
  predicate EndsWithExtensionIn(name: string, exts: seq<string>)
  {
    exists e :: e in exts && EndsWithIgnoringCase(name, "." + e)
  }

  /** `getIcon(name)`: the first rule that matches; the ".js"/".json" rules are case-sensitive. */
  function GetIcon(name: string): FileIcon
  {
    if EndsWith(name, ".js") then Code
    else if EndsWith(name, ".json") then Code
    else if EndsWithExtensionIn(name, ImageExtensions) then Image
    else if EndsWithExtensionIn(name, FilmExtensions) then Film
    else if EndsWithExtensionIn(name, MusicExtensions) then Music
    else if EndsWithExtensionIn(name, BookExtensions) then Book
    else if EndsWithExtensionIn(name, PackageExtensions) then Package
    else FileText
  }

  /** The icon for a lower-case extension, looked up in the extension tables. */
  function IconForExtension(ext: string): FileIcon
  {
    if ext in ImageExtensions then Image
    else if ext in FilmExtensions then Film
    else if ext in MusicExtensions then Music
    else if ext in BookExtensions then Book
    else if ext in PackageExtensions then Package
    else FileText
  }

  /** The text after the last ".", lower-cased; none when there is no ".". */
  function LastExtension(name: string): Option<string>
  {
    var dot := LastIndexOf(name, '.');
    if dot == -1 then None else Some(Lower(name[dot + 1..]))
  }

  lemma LowerCharIsDot(c: char)
    ensures LowerChar(c) == '.' <==> c == '.'
  {
  }

  /** For an extension without ".", the case-insensitive suffix test is a test of the last extension. */
  lemma EndsWithDotExtension(name: string, e: string)
    requires '.' !in e
    ensures EndsWithIgnoringCase(name, "." + e) <==> LastExtension(name) == Some(e)
  {
    if EndsWithIgnoringCase(name, "." + e) {
      SuffixMatchIsLastExtension(name, e);
    }
    if LastExtension(name) == Some(e) {
      LastExtensionIsSuffixMatch(name, e);
    }
  }

  lemma SuffixMatchIsLastExtension(name: string, e: string)
    requires '.' !in e && EndsWithIgnoringCase(name, "." + e)
    ensures LastExtension(name) == Some(e)
  {
    var p := |name| - |e| - 1;
    var tail := name[p..];
    var lowered := Lower(tail);
    assert lowered == "." + e;
    assert lowered[0] == LowerChar(name[p]);
    LowerCharIsDot(name[p]);
    forall j | p < j < |name| ensures name[j] != '.' {
      assert lowered[j - p] == LowerChar(name[j]);
      assert lowered[j - p] == e[j - p - 1];
      LowerCharIsDot(name[j]);
    }
    assert '.' !in name[p + 1..];
    LastIndexOfAt(name, '.', p);
    assert Lower(name[p + 1..]) == lowered[1..];
  }

  /** The last occurrence is at `p` when `s[p]` is `c` and `c` does not occur after it. */
  lemma {:induction false} LastIndexOfAt(s: string, c: char, p: int)
    requires 0 <= p < |s| && s[p] == c && c !in s[p + 1..]
    ensures LastIndexOf(s, c) == p
    decreases |s|
  {
    if p < |s| - 1 {
      assert s[|s| - 1] in s[p + 1..];
      var t := s[..|s| - 1];
      assert t[p + 1..] == s[p + 1..|s| - 1];
      assert c !in t[p + 1..];
      LastIndexOfAt(t, c, p);
    }
  }

  lemma LastExtensionIsSuffixMatch(name: string, e: string)
    requires LastExtension(name) == Some(e)
    ensures EndsWithIgnoringCase(name, "." + e)
  {
    DotThenLowered(name, LastIndexOf(name, '.'), e);
  }

  /** A '.' at `dot` followed by text that lower-cases to `e` ends the name with "." + `e`, ignoring case. */
  lemma DotThenLowered(name: string, dot: int, e: string)
    requires 0 <= dot < |name| && name[dot] == '.' && Lower(name[dot + 1..]) == e
    ensures EndsWithIgnoringCase(name, "." + e)
  {
    var tail, rest := name[dot..], name[dot + 1..];
    var lowered := Lower(tail);
    forall i | 0 <= i < |tail| ensures lowered[i] == ("." + e)[i] {
      if i > 0 {
        assert tail[i] == rest[i - 1];
        assert Lower(rest)[i - 1] == LowerChar(rest[i - 1]);
      }
    }
    assert lowered == "." + e;
  }

  lemma EndsWithExtensionInTable(name: string, exts: seq<string>)
    requires forall e :: e in exts ==> '.' !in e
    ensures EndsWithExtensionIn(name, exts) <==> LastExtension(name).Some? && LastExtension(name).value in exts
  {
    if EndsWithExtensionIn(name, exts) {
      var e :| e in exts && EndsWithIgnoringCase(name, "." + e);
      EndsWithDotExtension(name, e);
    }
    if LastExtension(name).Some? && LastExtension(name).value in exts {
      EndsWithDotExtension(name, LastExtension(name).value);
    }
  }

  /**
   * Apart from the case-sensitive ".js"/".json" rule, `getIcon` is a lookup of
   * the lower-cased text after the last "." in the extension tables.
   */
  lemma GetIconIsExtensionLookup(name: string)
    requires !EndsWith(name, ".js") && !EndsWith(name, ".json")
    ensures GetIcon(name) == match LastExtension(name) case None => FileText case Some(ext) => IconForExtension(ext)
  {
    EndsWithExtensionInTable(name, ImageExtensions);
    EndsWithExtensionInTable(name, FilmExtensions);
    EndsWithExtensionInTable(name, MusicExtensions);
    EndsWithExtensionInTable(name, BookExtensions);
    EndsWithExtensionInTable(name, PackageExtensions);
  }

  /** Only the lower-case ".js" is code: "APP.JS" is plain text. */
  lemma UpperCaseJsIsText()
    ensures GetIcon("APP.JS") == FileText
  {
    AppJsParts();
    assert IconForExtension("js") == FileText;
    GetIconIsExtensionLookup("APP.JS");
  }

  lemma AppJsParts()
    ensures !EndsWith("APP.JS", ".js") && !EndsWith("APP.JS", ".json")
    ensures LastExtension("APP.JS") == Some("js")
  {
    var name := "APP.JS";
    assert name[3..] == ".JS" && ".JS"[1] != ".js"[1];
    assert LastIndexOf(name, '.') == 3;
    assert name[4..] == "JS";
    assert Lower("JS") == "js";
  }

  /** The image suffixes match in any case: "photo.PNG" is an image. */
  lemma UpperCasePngIsImage()
    ensures GetIcon("photo.PNG") == Image
  {
    PhotoPngParts();
    assert IconForExtension("png") == Image;
    GetIconIsExtensionLookup("photo.PNG");
  }

  lemma PhotoPngParts()
    ensures !EndsWith("photo.PNG", ".js") && !EndsWith("photo.PNG", ".json")
    ensures LastExtension("photo.PNG") == Some("png")
  {
    var name := "photo.PNG";
    assert name[6..] == "PNG" && "PNG"[2] != ".js"[2];
    assert LastIndexOf(name, '.') == 5;
    assert Lower("PNG") == "png";
  }
}
