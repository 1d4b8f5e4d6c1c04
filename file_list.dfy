/**
 * The display logic of src/components/file-list.tsx: the shortened file name,
 * the status icon, and which buttons of the list are shown and enabled. The
 * markup and styling are not modelled.
 */
module FileList {
  import opened Common
  import opened Page

  // ---------------------------------------------------------------------------
  // getTruncatedFilename

  /** `s.split(c)`: the pieces between the occurrences of `c`, at least one. */
  function Split(s: string, c: char): (r: seq<string>)
    ensures |r| >= 1
    ensures forall k :: 0 <= k < |r| ==> c !in r[k]
    decreases |s|
  {
    var dot := LastIndexOf(s, c);
    if dot == -1 then [s] else Split(s[..dot], c) + [s[dot + 1..]]
  }

  /** `parts.join(c)`. */
  function Join(parts: seq<string>, c: char): string
    requires |parts| >= 1
  {
    if |parts| == 1 then parts[0] else Join(parts[..|parts| - 1], c) + [c] + parts[|parts| - 1]
  }

  /** Splitting and joining again gives back the string. */
  lemma {:induction false} JoinSplit(s: string, c: char)
    ensures Join(Split(s, c), c) == s
    decreases |s|
  {
    var dot := LastIndexOf(s, c);
    if dot != -1 {
      var pre := Split(s[..dot], c);
      var parts := pre + [s[dot + 1..]];
      assert Split(s, c) == parts;
      assert parts[..|parts| - 1] == pre && parts[|parts| - 1] == s[dot + 1..];
      assert Join(parts, c) == Join(pre, c) + [c] + s[dot + 1..];
      JoinSplit(s[..dot], c);
      assert s == s[..dot] + [c] + s[dot + 1..];
    }
  }

  /** `s.slice(0, end)`: a negative `end` counts back from the end of the string. */
  function SliceTo(s: string, end: int): (r: string)
    ensures r <= s
    ensures |r| == (var n := if end < 0 then |s| + end else end; if n < 0 then 0 else if n > |s| then |s| else n)
  {
    if end < 0 then Prefix(s, |s| + end) else Prefix(s, end)
  }

  const MaxNameLength := 20

  /** The `ext` of `getTruncatedFilename`: the last piece of `split('.')`. */
  function LastPiece(filename: string): string
  {
    var pieces := Split(filename, '.');
    pieces[|pieces| - 1]
  }

  /** The `name` of `getTruncatedFilename`: the text before the last '.'. */
  function BaseName(filename: string): string
  {
    SliceTo(filename, LastIndexOf(filename, '.'))
  }

  /** `getTruncatedFilename(filename)`. */
  function TruncatedFilename(filename: string): string
  {
    var ext := LastPiece(filename);
    var name := BaseName(filename);
    if |name| <= MaxNameLength then filename
    else name[..MaxNameLength] + "..." + (if ext != "" then "." + ext else "")
  }

  /** `getTruncatedFilename` in terms of its `ext` and `name`. */
  lemma TruncatedFilenameParts(filename: string)
    ensures var ext, name := LastPiece(filename), BaseName(filename);
      TruncatedFilename(filename) ==
        if |name| <= MaxNameLength then filename
        else name[..MaxNameLength] + "..." + (if ext != "" then "." + ext else "")
  {
  }

  /** With a '.', the extension is the text after the last '.' and the base the text before it. */
  lemma DottedNameParts(filename: string)
    requires '.' in filename
    ensures var dot := LastIndexOf(filename, '.');
      LastPiece(filename) == filename[dot + 1..] && BaseName(filename) == filename[..dot] &&
      filename == BaseName(filename) + "." + LastPiece(filename)
  {
    var dot := LastIndexOf(filename, '.');
    assert filename == filename[..dot] + "." + filename[dot + 1..];
  }

  /** Without a '.', the "extension" is the whole name and the base all but its last character. */
  lemma DotlessNameParts(filename: string)
    requires '.' !in filename
    ensures LastPiece(filename) == filename
    ensures BaseName(filename) == if filename == [] then [] else filename[..|filename| - 1]
  {
  }

  /**
   * A name whose base has at most 20 characters is shown unchanged; any other
   * is shown as the first 20 characters of its base, "..." and, when the
   * extension is not empty, "." and the extension.
   */
  lemma TruncatedFilenameShape(filename: string)
    ensures |BaseName(filename)| <= MaxNameLength ==> TruncatedFilename(filename) == filename
    ensures |BaseName(filename)| > MaxNameLength ==>
      var r := TruncatedFilename(filename);
      StartsWith(r, filename[..MaxNameLength] + "...") &&
      (LastPiece(filename) == "" ==> |r| == MaxNameLength + 3) &&
      (LastPiece(filename) != "" ==>
        (EndsWith(r, "." + LastPiece(filename)) && |r| == MaxNameLength + 4 + |LastPiece(filename)|))
  {
    var name := BaseName(filename);
    if |name| > MaxNameLength {
      assert name[..MaxNameLength] == filename[..MaxNameLength];
      var r := TruncatedFilename(filename);
      assert r[..MaxNameLength + 3] == filename[..MaxNameLength] + "...";
    }
  }

  /** A long name with a '.' keeps its extension: 20 characters, "...", "." and the text after the last '.'. */
  lemma TruncatedDottedName(filename: string)
    requires '.' in filename && LastIndexOf(filename, '.') > MaxNameLength
    ensures var dot := LastIndexOf(filename, '.');
      TruncatedFilename(filename) ==
        filename[..MaxNameLength] + "..." + (if dot == |filename| - 1 then "" else "." + filename[dot + 1..])
  {
    var dot := LastIndexOf(filename, '.');
    var ext, name := LastPiece(filename), BaseName(filename);
    assert ext == filename[dot + 1..] && name == filename[..dot] by {
      DottedNameParts(filename);
    }
    TruncatedFilenameParts(filename);
    LongDottedParts(filename, dot, ext, name);
  }

  lemma LongDottedParts(filename: string, dot: int, ext: string, name: string)
    requires MaxNameLength < dot < |filename| && ext == filename[dot + 1..] && name == filename[..dot]
    ensures name[..MaxNameLength] + "..." + (if ext != "" then "." + ext else "") ==
      filename[..MaxNameLength] + "..." + (if dot == |filename| - 1 then "" else "." + filename[dot + 1..])
  {
  }

  /** A long name without a '.' is shown as 20 characters, "...", "." and the whole name again. */
  lemma TruncatedDotlessName(filename: string)
    requires '.' !in filename && |filename| > MaxNameLength + 1
    ensures TruncatedFilename(filename) == filename[..MaxNameLength] + "..." + "." + filename
  {
    DotlessNameParts(filename);
  }

  // ---------------------------------------------------------------------------
  // getStatusIcon

  datatype StatusIcon = Check | AlertCircle | RotateCw | UploadArrow

  /** `getStatusIcon(status)`: pending falls to the default case. */
  function GetStatusIcon(status: Status): StatusIcon
  {
    match status
    case Success => Check
    case Error => AlertCircle
    case Uploading => RotateCw
    case _ => UploadArrow
  }

  /** Each status has its own icon, so the icon shows the status. */
  lemma StatusIconDeterminesStatus(a: Status, b: Status)
    ensures GetStatusIcon(a) == GetStatusIcon(b) <==> a == b
  {
  }

  // ---------------------------------------------------------------------------
  // Buttons

  /** The Upload All / Clear All bar is shown when the list is not empty. */
  predicate ShowButtonBar(files: seq<Entry>)
  {
    |files| > 0
  }

  /** `disabled={!canUpload || isUploading}` on Upload All. */
  predicate UploadAllDisabled(canUpload: bool, isUploading: bool)
  {
    !canUpload || isUploading
  }

  /** `disabled={isUploading}` on Clear All, on each per-file upload button and on each Remove. */
  predicate BusyDisabled(isUploading: bool)
  {
    isUploading
  }

  /** The per-file upload button is shown for pending and failed entries. */
  predicate ShowUploadButton(e: Entry)
  {
    e.status == Pending || e.status == Error
  }

  /** The preview button is shown when the declared MIME type starts with "image/". */
  predicate ShowPreview(e: Entry)
  {
    StartsWith(e.file.mime, "image/")
  }

  /**
   * Upload All is enabled exactly when nothing is uploading and the handler
   * has something to send, so an enabled button never does nothing.
   */
  lemma UploadAllEnabledIffWork(s: seq<Entry>, isUploading: bool)
    ensures !UploadAllDisabled(CanUpload(s), isUploading) <==> !isUploading && ToUpload(s) != []
  {
    CanUploadIffPending(s);
  }

  /**
   * The per-file upload button is shown on an entry exactly when
   * `uploadIndividualFile` with that entry's id would act on it.
   */
  lemma UploadButtonIffHandlerActs(s: seq<Entry>, i: int)
    requires UniqueIds(s) && 0 <= i < |s|
    ensures var item := FindById(s, s[i].id);
      ShowUploadButton(s[i]) <==> item.Some? && Sendable(item.value)
  {
    FindByIdOfMember(s, i);
  }
}
