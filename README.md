# Discord file uploader widget: a Dafny model

The widget is a Next.js page. It holds a queue of files, relays them one at a time to a Discord
webhook through a server action, and stores the attachment URL, or an error message, on each queue
entry. This project models that core in Dafny and proves properties about it.

- `common.dfy` (module `Common`): optional values and results, bytes, and what a JavaScript `throw`
  can carry. It also has the browser `File` and `Screen` values and the JavaScript string operations
  the widget relies on: `lastIndexOf`, a clamping `substring`, `startsWith`/`endsWith`, and ASCII
  case folding for `/i` patterns.
- `discord.dfy` (module `DiscordService`): `uploadToDiscord` (src/services/discord.ts), written as a
  function of the answer the network gave to its one POST.
- `actions.dfy` (module `Actions`): the server action (src/app/actions.ts). It covers the unpadded hex
  rendering of the digest, the regex rewrite of the file name after type sniffing, `processBuffer`,
  and the `uploadFiles` loop, which is proved against a specification of "stop at the first failing
  file".
- `page.dfy` (module `Page`): the page (src/app/page.tsx).
  - Class `UploadQueue` holds `selectedFiles` and `isUploading`. Its methods are the handlers
    `handleFiles`, `uploadAllFiles`, `uploadIndividualFile`, `removeFile` and `clearAllFiles`.
  - The module also has the derived values `canUpload` and `pendingFilesCount`, and the helpers
    `truncateFilename` and `getIcon`.
- `file_list.dfy` (module `FileList`): src/components/file-list.tsx. It covers the shortened name,
  the status icon, and when each button is shown or enabled.
- `background.dfy` (module `UseBackground`) and `orientation.dfy` (module `UseOrientation`): the two
  hooks. Class `Background` holds the hook state and the root element's inline style properties.
  Class `Orientation` holds `isLandscape`.

Each asynchronous handler is modelled as one atomic step. What the awaited call settled with is a
parameter of that step:

- `ServerReply` is what the server action resolved with, or what it threw.
- `HttpOutcome` is what the webhook POST produced.
- `Services` holds the digest and file-type libraries and the webhook client.

Page ids come from the caller. `FreshIds` states what `generateUniqueId` is relied on for: ids that
are new to the list and distinct from each other.

## Model

| member | source | states |
|---|---|---|
| Common.LastIndexOf | src/app/page.tsx:425 | `lastIndexOf` returns -1 exactly when the character is absent. Otherwise the character is at the returned position and does not occur after it. |
| Common.Prefix | src/app/page.tsx:431 | `substring(0, n)` clamps `n` into the string's length and returns a prefix of the string. |
| DiscordService.UploadToDiscord | src/services/discord.ts:23-77 | Details below the table. |
| DiscordService.StatusCodeInMessage | src/services/discord.ts:55-58 | A response that is not ok fails with a message that contains the decimal status code. |
| Actions.HexDigestLength | src/app/actions.ts:21-24 | The hex text has one character per byte, plus one more for every byte of 16 or above. |
| Actions.HexDigestIsLowerHex | src/app/actions.ts:24 | The hex text uses only the digits 0-9 and a-f. |
| Actions.CountTwoDigitAll | src/app/actions.ts:24 | Every byte renders as two digits exactly when every byte is at least 16. |
| Actions.HexDigestAppend | src/app/actions.ts:24 | Rendering distributes over concatenation: `map(...).join('')` renders each byte independently. |
| Actions.Sha256HexShape | src/app/actions.ts:13-25 | A 32-byte digest renders as lower-case hex of 32 to 64 characters. It has 64 characters exactly when no byte is below 16. |
| Actions.HexDigestCollision | src/app/actions.ts:24 | Two different digests can render to the same text, because `toString(16)` does not pad. Example: bytes 01 23 and 12 03 both give "123". |
| Actions.StripExtension | src/app/actions.ts:40 | Removing the `/\.[^/.]+$/` match leaves a prefix of the name. |
| Actions.StripExtensionIsRegexReplace | src/app/actions.ts:40 | With no match the name is unchanged. With a match the name is cut at the match's '.'. |
| Actions.UploadNameShape | src/app/actions.ts:36-41 | With no detected type the name is kept. With a detected type the name ends with "." and the extension, and the text before it is a prefix of the original name. |
| Actions.UploadNameIdempotent | src/app/actions.ts:39-41 | Renaming a second time with the same detected extension changes nothing. |
| Actions.UploadNameWithoutExtension | src/app/actions.ts:40 | A name without a strippable extension gets "." and the extension appended. |
| Actions.UploadNameExamples | src/app/actions.ts:40 | "file." becomes "file..png", because the pattern needs a character after the dot. "dir.d/x" becomes "dir.d/x.png", because the pattern excludes '/'. |
| Actions.ProcessBuffer | src/app/actions.ts:33-60 | Details below the table. |
| Actions.ProcessBufferWithClient | src/app/actions.ts:45-53 | With the modelled client, a missing webhook fails every file with "Discord upload failed: Discord webhook URL is not defined.". Any other client failure carries the prefix "Discord upload failed: " twice. |
| Actions.UploadEach | src/app/actions.ts:66-78 | Details below the table. |
| Actions.UploadFiles | src/app/actions.ts:62-78 | Details below the table. |
| Page.Admit | src/app/page.tsx:74-101 | A file is admitted exactly when it is not a duplicate by name and size of an entry already in the list and is at most 10 MiB. The duplicate check comes first. |
| Page.NewEntries | src/app/page.tsx:73-115 | Each appended entry is pending, without url or error, and its file passed both checks against the existing list. There are at most as many entries as incoming files. |
| Page.NewEntriesMembers | src/app/page.tsx:73-115 | An entry is appended exactly when some incoming file is admitted and the entry is that file, pending, under its id. |
| Page.NewEntriesAppend | src/app/page.tsx:73-115 | The filter and map keep the incoming order: admission distributes over concatenation. |
| Page.SameFileTwiceInOneBatch | src/app/page.tsx:75-77 | Duplicates are looked for only in the existing list, so the same file twice in one drop is admitted twice. |
| Page.NewEntriesKeepIdsUnique | src/app/page.tsx:102-117 | With fresh, distinct ids, the list keeps unique ids after the new entries are appended. |
| Page.ToUpload | src/app/page.tsx:129-131 | The files to upload are exactly the pending and failed entries of the list. |
| Page.CanUploadIffPending | src/app/page.tsx:330-334 | `canUpload` holds exactly when `pendingFilesCount` is positive. |
| Page.MarkUploading | src/app/page.tsx:137-143 | Marking entries as uploading keeps every entry's id and file in place. |
| Page.MarkUploadingMarksSendable | src/app/page.tsx:137-143 | With unique ids, exactly the pending and failed entries become uploading with their error cleared. The others are unchanged. |
| Page.FindUploading | src/app/page.tsx:154-159 | `findIndex` returns the first uploading entry with the sent file's name and size, or -1 when there is none. |
| Page.ApplyUrl | src/app/page.tsx:152-172 | One step of the `forEach` keeps every entry's id and file in place. |
| Page.ApplyUrls | src/app/page.tsx:151-174 | The whole `forEach` keeps every entry's id and file in place. |
| Page.ApplyUrlsFrame | src/app/page.tsx:151-174 | A URL only turns an uploading entry into a success carrying a URL. Nothing else about any entry changes. |
| Page.FailUploading | src/app/page.tsx:175-191 | The final `map` keeps every entry's id and file in place. |
| Page.BatchFailureMessage | src/app/page.tsx:213 | The message stored after a rejected batch (the error message, or "Batch upload failed" when that is empty) is never empty. |
| Page.Settle | src/app/page.tsx:146-218 | The list after the server's reply keeps every entry's id and file in place. |
| Page.SettleFinishesEveryUpload | src/app/page.tsx:146-228 | Details below the table. |
| Page.NonArrayReplyFailsAll | src/app/page.tsx:151-191 | A reply whose `urls` is not an array fails every uploading entry with "Upload failed or response missing." and leaves the others unchanged. |
| Page.UploadAllKeepsSucceeded | src/app/page.tsx:129-191 | With unique ids, an entry that had already succeeded comes out of `uploadAllFiles` unchanged. |
| Page.UploadAllWithFullReply | src/app/page.tsx:128-192 | With unique ids, nothing uploading, and one URL per sent file, the k-th pending or failed entry succeeds with the k-th URL. Every other entry is unchanged. |
| Page.FindById | src/app/page.tsx:232 | `find` by id returns nothing exactly when no entry has the id. Otherwise it returns an entry of the list with that id. |
| Page.FindByIdFindsFirst | src/app/page.tsx:232 | `find` returns the entry at the first position that holds the id. |
| Page.IndividualOutcome | src/app/page.tsx:245-266 | Any error outcome has a non-empty message. |
| Page.FailedUploadStoredAsUrl | src/app/page.tsx:247-252 | A failed batch reply passes the guard, because its `urls` is a non-empty string. The single-file upload then stores the letter "E" as the URL. |
| Page.SettleById | src/app/page.tsx:240-269 | Settling one id keeps every entry's id and file in place. |
| Page.SettleByIdChangesOnlyThatEntry | src/app/page.tsx:240-269 | Only entries with the id change. On success the entry holds the URL and no error. On failure it holds the message and keeps its former URL. |
| Page.RemoveById | src/app/page.tsx:282 | An entry survives removal exactly when it was in the list and has another id. |
| Page.RemoveByIdAppend | src/app/page.tsx:282 | The filter keeps the order of what remains. |
| Page.RemoveAbsentId | src/app/page.tsx:282 | Removing an id that is not in the list changes nothing. |
| Page.RemoveKeepsIdsUnique | src/app/page.tsx:282 | Removal keeps the ids unique. |
| Page.UploadQueue.constructor | src/app/page.tsx:47-48 | The list starts empty and nothing is uploading. |
| Page.UploadQueue.HandleFiles | src/app/page.tsx:71-126 | The admitted entries are appended after the old list. Ids stay unique and no entry is left uploading. `isUploading` is unchanged. |
| Page.UploadQueue.UploadAllFiles | src/app/page.tsx:128-229 | Details below the table. |
| Page.UploadQueue.UploadIndividualFile | src/app/page.tsx:231-278 | A missing, succeeded or uploading entry leaves the list unchanged. Otherwise the entries with the id are settled with the outcome of the reply. Ids stay unique and no entry is left uploading. |
| Page.UploadQueue.RemoveFile | src/app/page.tsx:280-292 | The list becomes the entries with another id. Ids stay unique and no entry is left uploading. |
| Page.UploadQueue.ClearAllFiles | src/app/page.tsx:294-302 | The list becomes empty. |
| Page.TruncateFilenameLength | src/app/page.tsx:422-448 | A name that fits is returned as is. A longer one comes out exactly `maxChars` long, or 3 long when `maxChars` is below 3. |
| Page.TruncateFilenameKeepsExtension | src/app/page.tsx:434-447 | Details below the table. |
| Page.EndsWithDotExtension | src/app/page.tsx:467-471 | The case-insensitive test for "." plus an extension holds exactly when the lower-cased text after the last '.' is that extension. |
| Page.EndsWithExtensionInTable | src/app/page.tsx:467-471 | A case-insensitive test for "." plus any extension of a table holds exactly when the lower-cased last extension is in the table. |
| Page.GetIconIsExtensionLookup | src/app/page.tsx:464-473 | Apart from the case-sensitive ".js" and ".json" rules, `getIcon` looks up the lower-cased last extension in the tables, and a name without '.' is plain text. |
| Page.UpperCaseJsIsText | src/app/page.tsx:465-466 | "APP.JS" is plain text, because the code rules are case-sensitive. |
| Page.UpperCasePngIsImage | src/app/page.tsx:467 | "photo.PNG" is an image, because the image rule ignores case. |
| FileList.Split | src/components/file-list.tsx:57 | `split('.')` gives at least one piece, and no piece contains '.'. |
| FileList.JoinSplit | src/components/file-list.tsx:57 | Joining the pieces with '.' gives the name back. |
| FileList.SliceTo | src/components/file-list.tsx:58 | `slice(0, end)` returns a prefix of the string. Its length is `end`, or the length plus `end` for a negative `end`, clamped to between 0 and the length. |
| FileList.DottedNameParts | src/components/file-list.tsx:57-58 | With a '.', `ext` is the text after the last '.', `name` is the text before it, and the two joined by '.' give the file name. |
| FileList.DotlessNameParts | src/components/file-list.tsx:57-58 | Without a '.', `ext` is the whole name and `name` is the name minus its last character. |
| FileList.TruncatedFilenameShape | src/components/file-list.tsx:55-63 | Details below the table. |
| FileList.TruncatedDottedName | src/components/file-list.tsx:55-63 | A long name with a '.' shows its first 20 characters, "...", and "." with the text after the last '.'. A trailing '.' leaves nothing after the "...". |
| FileList.TruncatedDotlessName | src/components/file-list.tsx:57-62 | A long name without '.' shows its first 20 characters, "...", ".", and then the whole name again. |
| FileList.StatusIconDeterminesStatus | src/components/file-list.tsx:42-53 | The four statuses get four different icons, so the icon shows the status. |
| FileList.UploadAllEnabledIffWork | src/components/file-list.tsx:73 | Upload All is enabled exactly when nothing is uploading and there is a pending or failed entry to send. |
| FileList.UploadButtonIffHandlerActs | src/components/file-list.tsx:179-189 | With unique ids, the per-file upload button is shown on an entry exactly when `uploadIndividualFile` with its id would act. |
| UseBackground.DetectOrientationByType | src/hooks/use-background.ts:11-13 | A non-empty orientation type gives landscape exactly when it starts with "landscape". |
| UseBackground.DetectOrientationBySize | src/hooks/use-background.ts:15 | Without a type, the result is landscape exactly when the viewport is wider than tall, so a square viewport is portrait. |
| UseBackground.ChooseImageNeverMixes | src/hooks/use-background.ts:22-31 | Details below the table. |
| UseBackground.CssUrlRoundTrip | src/hooks/use-background.ts:33 | An empty image gives no value. Any other image is wrapped as `url(...)`, and the argument of that value is the image again. |
| UseBackground.Background.constructor | src/hooks/use-background.ts:6 | The state starts as null and the style properties are left as they were. |
| UseBackground.Background.Apply | src/hooks/use-background.ts:35-41 | The state is set. The CSS variable is set to the same value, or removed when there is none. No other property changes. |
| UseBackground.Background.UpdateBackground | src/hooks/use-background.ts:19-42 | The state is the wrapped image for the detected orientation, and the CSS variable agrees with the state. |
| UseBackground.Background.SetBackground | src/hooks/use-background.ts:54-63 | A null or empty url clears the state and removes the variable. Any other url sets both to "url(" + url + ")". |
| UseOrientation.AgreesWithDetectOrientation | src/hooks/use-orientation.tsx:9-18 | `isLandscape` agrees with `detectOrientation` of the background hook for every screen. |
| UseOrientation.SquareViewportIsPortrait | src/hooks/use-orientation.tsx:14-17 | Without an orientation type, equal width and height count as portrait. |
| UseOrientation.Orientation.constructor | src/hooks/use-orientation.tsx:6 | The state starts as portrait. |
| UseOrientation.Orientation.UpdateOrientation | src/hooks/use-orientation.tsx:9-18 | The state becomes the orientation decision, which is the same as the background hook's. |

The longer contracts:

- **DiscordService.UploadToDiscord.**
  - An empty webhook throws "Discord webhook URL is not defined.".
  - The result is a file URL exactly when the response is ok, its JSON parsed, and it has a non-empty first attachment URL.
  - Every throw is an `Error`. Behind a configured webhook, its message starts with "Discord upload failed: ".
- **Actions.ProcessBuffer.**
  - It succeeds exactly when the client returns a non-empty URL.
  - It resolves with the original name, the hex digest and that URL.
  - When the client throws an `Error`, the message is prefixed with "Discord upload failed: ". An empty URL gives its own message.
- **Actions.UploadEach.** The loop of `uploadFiles` over any per-file step:
  - it never takes the outer catch;
  - it returns an array exactly when the step succeeds on every file, with one URL per file, in order, after handing every file to the step;
  - otherwise it stops at the first failing file, after handing the step the files up to and including that one. It returns "Error processing file <name>: <message>" together with the message.
- **Actions.UploadFiles.**
  - It never takes the outer catch.
  - It returns an array exactly when every file succeeds: one URL per file, in order.
  - Otherwise it stops at the first failing file and returns "Error processing file <name>: <message>" together with the message.
- **Page.SettleFinishesEveryUpload.** Whatever the reply:
  - no entry is left uploading;
  - every entry that was uploading ends as a success with a URL or as an error with a non-empty message;
  - every other entry is unchanged.
- **Page.UploadQueue.UploadAllFiles.**
  - With nothing to send, nothing changes.
  - Otherwise `isUploading` ends false and the list is the reply settled on the marked list.
  - With one URL per sent file, the k-th pending or failed entry succeeds with the k-th URL and every other entry is unchanged.
  - Ids stay unique, and no entry is left uploading.
- **Page.TruncateFilenameKeepsExtension.** Applies when the last '.' of the name (at `dot`) is neither the first nor the last character and leaves room for a base. The result is then the base cut to fit, "...", and the whole extension.
- **FileList.TruncatedFilenameShape.**
  - A name whose base has at most 20 characters is shown unchanged.
  - Any other name starts with its first 20 characters and "...". It then ends with "." and the extension when the extension is not empty, with the matching length.
- **UseBackground.ChooseImageNeverMixes.**
  - The image comes only from the two variables of the detected orientation, the local value first.
  - It is empty exactly when both of those are unset or empty.

## Left out

- The SHA-256 digest and the `file-type` sniffing library are not modelled. They are function-valued fields of `Actions.Services`, and the model takes them to always return rather than reject.
- The webhook client's multipart body, its payload, and the `fetch` itself are not modelled. What the POST produced is a parameter, `HttpOutcome`.
- `DISCORD_WEBHOOK_URL` and the `NEXT_PUBLIC_BG_*` variables are parameters.
- Actions.UploadFiles: the outer `catch` of `uploadFiles` (src/app/actions.ts:79-87) cannot be reached. Each file's failure is caught inside the loop, and the model's libraries do not throw, so the result is never `Aborted`. The page still handles an `Aborted` reply.
- Concurrency is not modelled. Each async handler runs as one atomic step on the current list. React's deferred state updates, stale `selectedFiles` closures, and handlers that overlap while a request is pending are not modelled.
- Toasts, `setTimeout`, `console.error` and the file input reset (src/app/page.tsx:118-123) are not modelled. They do not affect the list.
- `generateUniqueId` is not modelled, because it reads the clock and a random source. The ids are a parameter, and `FreshIds` states what the page relies on them for.
- `formatBytes` is not modelled, because it uses floating-point division and `toFixed`.
- `handleCopyClick`, `openPreview`, `closePreview`, the theme toggle and the dynamic icon import are not modelled. They use the clipboard, object URLs and the DOM.
- The page's and the file list's markup, styling and drawer are not modelled. The conditions that gate buttons are `FileList.ShowButtonBar`, `FileList.UploadAllDisabled`, `FileList.BusyDisabled`, `FileList.ShowUploadButton` and `FileList.ShowPreview`.
- Page.UploadQueue.UploadAllFiles: it requires an array reply to have at most one URL per sent file. The server action returns exactly one per file. An extra URL would make the state updater throw a `TypeError` outside the `try`, and that path is not modelled.
- Page.BatchFailureMessage: a rejection with a value that is not an `Error` is taken to give "Batch upload failed". The source reads `error?.message` of any value, so a non-`Error` object with a non-empty `message` would store that message instead; such values are not told apart from strings or `null`.
- Page.IndividualOutcome: a rejection with a value that is not an `Error` is taken to give "Upload failed". As above, a non-`Error` object with a non-empty `message` would store that message in the source. For `null` or `undefined`, the source's `error.message` would itself throw inside the `catch`, and that is not modelled.
- Page.TruncateFilenameLength: `truncateFilename` is never called by the page. It is modelled and proved on its own.
- `isFullUrl` in src/hooks/use-background.ts is never called and is not modelled.
- The hooks' `resize` and orientation `change` listeners, their registration and their removal are not modelled. Each listener call is one call of `UpdateBackground` or `UpdateOrientation`.
- Strings are sequences of characters, not UTF-16 code units. Case folding for `/i` is ASCII only.
- src/components/image-preview-modal.tsx, src/components/file-uploader.tsx, src/components/orientationImage.tsx and src/services/shorturl.ts are user-interface or unused code and are not part of this model.
