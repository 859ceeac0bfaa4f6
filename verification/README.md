# systray-queue-app core, in Dafny

The application is a system-tray task queue. Tasks are appended at the tail,
the head is shown, and the head can be skipped to the tail, completed
(removed), or moved to another position; the queue is saved as a JSON file
after every change. New tasks can take an attachment (an image or an audio
file) from the clipboard: a pasted image, a `data:` URL, or the path of a
local file, classified by extension or media type. The queue list shows each
task as a one-line summary, and a reorder dialog reads entries such as `5 1`
or `5->1`.

The model covers that core, all in `main.go`:

- `results.dfy` (`Results`): `Option` and `Result`.
- `gotext.dfy` (`GoText`): Go strings as byte sequences, plus the `strings`
  helpers the core calls (`HasPrefix`, `TrimPrefix`, `Contains`, ASCII
  `ToLower`, `TrimSpace` as `TrimAsciiSpace`, splitting at the first
  separator). `UpperAscii` is not called by the code; it only serves to
  state that classification ignores letter case.
- `tasks.dfy` (`Tasks`): `Task` and `AttachmentType`.
- `queue_order.dfy` (`QueueOrder`): the sequence transformations behind
  `skip` and `move`.
- `queue_store.dfy` (`QueueStore`): loading, and `enqueue`, `peek`, `skip`,
  `complete` and `move` on a store of memory plus file. Each operation
  returns the new store, whether it saved, and its report to the caller.
  Whether the save succeeds is a parameter. As in the code, memory is
  changed before the save and is not restored when the save fails.
- `queue_properties.dfy` (`QueueProperties`): properties across operations.
  They cover first-in first-out service, skip as a move, a full cycle of
  skips, undoing a move, memory/file agreement, and two sample runs.
- `reorder_input.dfy` (`ReorderInput`): `parseMove` and one entry of the
  reorder dialog, on the decoded code points of the entry.
- `attachments.dfy` (`Attachments`): `looksLikePath`, `filepath.Ext`, the
  extension table, the media-type switch and `decodeDataURLToFile`.
- `clipboard.dfy` (`Clipboard`): `tryClipboard`. The platform, external
  tools, file system and clock are its inputs.
- `task_summary.dfy` (`TaskSummary`): `summarizeTask`, with UTF-8
  well-formedness as section 4 of RFC 3629 defines it.

Three behaviours of the code are easy to misread, and the model keeps them
as written:

- A failed save does not roll back memory. `enqueue`, `skip`, `complete`
  and `move` change memory first and only then save, so after a failed save
  memory and file may disagree.
- `move` on an empty queue reports "queue is empty" (`QueueIsEmpty`) before
  it checks the indices.
- A data URL whose media type is neither image nor audio is still stored,
  as a `.bin` file with attachment type none, and `Clipboard.Resolve`
  returns that file.

Two operations contain a defect (see "## Findings"). For each, the model
has the operation as written and a corrected one:
`Attachments.DecodeDataUrl` and `TaskSummary.Summarize` follow the code,
while `Attachments.DecodeDataUrlCorrected` and
`TaskSummary.SummarizeCorrected` carry the fix. `Clipboard.Resolve` uses the
code's `DecodeDataUrl`.

## Model

| member | source | states |
|---|---|---|
| QueueStore.Open | main.go:65-98 | When the attachment directory cannot be created the queue is not opened and the file is not read. Otherwise a missing queue file gives an empty queue. Any other read error, or a document that does not decode, is an error. A decoded document gives exactly its tasks, with memory agreeing with the file. |
| QueueStore.Enqueue | main.go:110-115 | The queue grows by one. Every earlier task keeps its position and the new task is last. The save is always attempted. Success is reported exactly when the save succeeds, and memory is known to match the file exactly then. |
| QueueStore.Peek | main.go:126-133 | The head is returned exactly when the queue is non-empty. |
| QueueStore.Skip | main.go:135-144 | With at most one task: no change, no save, success. Otherwise the old head becomes last and the rest move up one place, in order. The length is unchanged. The save is attempted and success reported exactly when it succeeds. |
| QueueStore.Complete | main.go:146-158 | An empty queue: error, no change, no save. Otherwise memory loses its head whatever the save does. The head is returned exactly when the save succeeds; a failed save gives a write error and the file's content is unknown. |
| QueueStore.Move | main.go:729-752 | Empty queue: "queue is empty". An index outside [0, n): an out-of-range error carrying both indices and n-1. In both error cases nothing changes and nothing is saved. Equal indices: success without a save. A save happens exactly for valid, distinct indices. The length is kept, the moved task sits at `to`, and removing it leaves the other tasks in their old order. |
| QueueOrder.MoveItem | main.go:742-750 | Remove-then-insert, including the append branch when `to` reaches the shortened length. The length is kept, `s[from]` ends at `to`, and removing it from the result gives `s` without `s[from]`. |
| QueueOrder.MovePositions | main.go:742-750 | Where every element ends up after a move. Elements outside the span between the two indices stay put; those inside shift one place towards the vacated index. |
| QueueOrder.MoveItemPermutes | main.go:742-750 | A move keeps every element with its multiplicity. |
| QueueOrder.MoveUndo | main.go:742-750 | Moving from `to` back to `from` restores the sequence. |
| QueueOrder.HeadToTailIsMove | main.go:141-142 | The rotation skip applies equals moving index 0 to the last index. |
| QueueOrder.RotationsSplit | main.go:141-142 | After k rotations the first k elements sit, in order, behind the others. |
| QueueProperties.ServedInArrivalOrder | main.go:110-158 | First in, first out: tasks enqueued behind the current ones are served after them, in arrival order, and the queue then ends empty. |
| QueueProperties.EnqueueKeepsHead | main.go:110-133 | Enqueue changes the head only when the queue was empty. |
| QueueProperties.ReorderingKeepsTasks | main.go:135-144 | Skip (and move, main.go:742-750) never add, lose or duplicate a task. |
| QueueProperties.SkipIsMoveToTail | main.go:135-144 | With two or more tasks, skip behaves exactly as move(0, n-1): same queue, same save, same report. |
| QueueProperties.SkipCycleRestores | main.go:135-144 | n successful skips of an n-task queue bring back its original order. |
| QueueProperties.MoveBackRestores | main.go:729-752 | move(from, to) followed by move(to, from) restores the queue. |
| QueueProperties.SuccessfulWritesKeepConsistency | main.go:100-108 | From a state where memory matches the file, each of the four mutations with a successful save again leaves memory matching the file. |
| QueueProperties.ReopenAfterWrite | main.go:79-108 | At the level where the file holds the saved sequence of tasks: after a successful save, opening the queue again gives back the tasks that were in memory. |
| QueueProperties.FailedCompleteStillDropsHead | main.go:146-158 | A failed save during complete: the caller gets an error, the head is already gone from memory, and the file's content is unknown. |
| QueueProperties.SampleRun | main.go:110-158 | Enqueue A, peek, enqueue B, skip, complete: peek shows A, the skip gives [B, A], complete returns B and leaves [A]. |
| QueueProperties.SampleMoves | main.go:729-752 | move(2, 0) on [A, B, C] gives [C, A, B], and move(0, 0) changes nothing and saves nothing. |
| ReorderInput.Fields | main.go:832 | Fields are non-empty and free of white space, and together they hold exactly the non-space code points of the input, in order. |
| ReorderInput.FieldsOfWord | main.go:832 | A non-empty run of non-space code points is exactly one field. |
| ReorderInput.FieldsOfSpaces | main.go:832 | Text made only of white space has no fields. |
| ReorderInput.FieldsSplitAtSpace | main.go:832 | Fields split exactly at white space: the fields of x, a space, then y are the fields of x followed by those of y. |
| ReorderInput.TrimSpace | main.go:812 | The result is empty exactly when the entry is all white space; otherwise it neither starts nor ends with white space, and it is no longer than the entry. |
| ReorderInput.TrimSpaceDropsSurroundingSpace | main.go:812 | Trimming white space before and after a text that starts and ends with a non-space code point gives back exactly that text. |
| ReorderInput.ReplaceArrows | main.go:831 | No "->" is left in the result, which is no longer than the entry. |
| ReorderInput.ReplaceArrowsKeepsArrowFree | main.go:831 | An entry without "->" is left unchanged. |
| ReorderInput.ReplaceArrowsAtFirstArrow | main.go:831 | At the first "->" of an entry, the text before it is kept, the arrow becomes one space, and the replacement goes on in the rest. |
| ReorderInput.Atoi | main.go:836-837 | A result is a 64-bit int and is read from ASCII digits after an optional sign. Digits alone are read exactly when their decimal value is at most 2^63-1, giving that value. "+digits" behaves the same. "-digits" is read exactly when the value is at most 2^63, giving its negation. |
| ReorderInput.ParseMove | main.go:830-845 | Success exactly when the entry, with "->" replaced by a space, has two fields that both read as integers of at least 1. The result is then the two values Atoi reads from the fields, both in 1..2^63-1. A format error exactly when the field count is not two. The "must be >= 1" error exactly when both fields read as integers and one is not positive. |
| ReorderInput.AtoiDecimal | main.go:836-837 | Atoi reads back every decimal numeral in int range. |
| ReorderInput.ParseMoveReadsSpaceForm | main.go:830-845 | The entry "a b" parses to (a, b) for all positive a and b in range. |
| ReorderInput.ParseMoveReadsArrowForm | main.go:830-845 | The entry "a->b" parses to (a, b) for all positive a and b in range. |
| ReorderInput.ReorderEntry | main.go:812-826 | A blank entry ends the dialog. An entry that does not parse is rejected with parseMove's error. An entry that parses runs exactly move(a-1, b-1) on the store. That move succeeds exactly when both 1-based positions exist and the save (if any) succeeds; the task shown at position a is then shown at position b. |
| ReorderInput.EntryOfNumerals | main.go:812-826 | The entry "a b" runs move(a-1, b-1). |
| ReorderInput.ReverseEntryRestores | main.go:812-826 | The entry "b a" after "a b" puts every task back in its place, whether or not the saves succeed. |
| Attachments.PosixPathByLeadingBytes | main.go:612-618 | Off Windows, a text looks like a path exactly when it starts with "/", "./", "../" or "~". |
| Attachments.WindowsPathByLeadingBytes | main.go:612-618 | On Windows, a text looks like a path exactly when its second byte is ":" and its third a slash or backslash (the first byte is not checked), or it starts with two backslashes. |
| Attachments.LooksLikePath | main.go:612-618 | A text that looks like a path is non-empty. On Windows its second byte is ':' or `\`; elsewhere its first byte is '/', '.' or '~'. |
| Attachments.FinalElement | main.go:591 | The base name is a suffix of the path with no separator in it ('/', and also `\` on Windows). |
| Attachments.FinalElementFollowsSeparator | main.go:591 | The base name is the longest such suffix: when the path is longer, a separator stands right before it. |
| Attachments.Ext | main.go:594 | The extension is a suffix of the path. It is empty or starts with its only dot, and holds no separator. |
| Attachments.ExtEmptyIffNoDot | main.go:594 | The extension is empty exactly when the final path element has no dot. |
| Attachments.KindOfExtension | main.go:595-602 | The extension table: an image exactly for ".png", ".jpg" and ".jpeg", audio exactly for ".m4a" and ".mp3"; a recognised extension starts with '.' and has 4 or 5 bytes. |
| Attachments.KindOfFile | main.go:594-602 | A file whose name has no extension has no attachment kind; a file with a kind has an extension of 4 or 5 bytes. |
| Attachments.StoredCopyKeepsKind | main.go:591-602 | The copy "<stamp>_<base name>" is classified like the source path, for any dot-free stamp. |
| Attachments.KindOfDottedName | main.go:594-602 | A name ending in ".<tail>", where the tail has no dot or separator, is an image exactly when the lower-cased tail is png, jpg or jpeg. It is audio exactly when the tail is m4a or mp3. |
| Attachments.KindOfFileIgnoresCase | main.go:594-602 | Classification by extension ignores the letter case of the name. |
| Attachments.KindOfMediaType | main.go:650-663 | One result per arm of the switch, first match winning: image/png gives png and image, image/jpeg gives jpg and image, audio/mpeg gives mp3 and audio, audio/mp4 or audio/x-m4a gives m4a and audio, and anything else gives bin and none. The kind is image exactly for the two image prefixes, and audio exactly for the audio prefixes of a non-image. |
| Attachments.MediaTableAgreesWithExtensionTable | main.go:650-663 | The extension the media-type switch picks is classified by the extension table (main.go:594-602) as the kind the switch reports. |
| Attachments.MediaTypeAsWritten | main.go:651 | With a lower-case "data:" the result is the header before the first ';' without the scheme. Without it, the result is the whole header before the first ';', which is the whole header when it has no ';'. |
| Attachments.MediaType | main.go:651 | As above with the scheme recognised in any letter case. |
| Attachments.MediaTypeAgreesOnLowerScheme | main.go:651 | With a lower-case scheme the corrected extraction equals the code's. |
| Attachments.MediaTypeIgnoresSchemeCase | main.go:651 | The corrected extraction does not depend on the scheme's letter case. |
| Attachments.UpperCaseSchemeLosesMediaType | main.go:651 | For the header "DATA:image/png;base64", the code's extraction gives bin/none and the corrected one gives png/image. |
| Attachments.AcceptedHeader | main.go:631-648 | The gates that decide whether a file is stored: a header is accepted exactly when the URL parses with scheme data, has a comma, has ";base64" before it, and has a non-empty decodable payload whose write succeeds. The header is the text before the first comma. |
| Attachments.DecodeDataUrl | main.go:630-671 | A file is stored exactly when all of these hold: the URL parses with scheme data, has a comma, has ";base64" before it, has a non-empty decodable payload, and the write succeeds. Its extension and kind are what the switch gives for the media type the code extracts (the case-sensitive `TrimPrefix` of main.go:651), and the two tables agree on them. |
| Attachments.DecodeDataUrlCorrected | main.go:630-671 | The same gates, with the media type extracted whatever the scheme's letter case. |
| Attachments.DecodingsAgreeOnLowerScheme | main.go:630-671 | For a URL starting with a lower-case "data:", the corrected decoding equals the code's. |
| Attachments.UpperCaseDataUrlStoredAsBin | main.go:630-671 | For "DATA:image/png;base64,<payload>" with a non-empty payload that is written, the code stores a .bin file of type none, while the corrected decoding stores a .png image. |
| Clipboard.Resolve | main.go:560-610 | "Clipboard is empty" exactly when no image was pasted and the text is all white space. Prefilled text is the trimmed clipboard text and is never empty. Every new file's kind is the kind of its name. A file that is not a pasted image comes from a data URL, or from an existing path that was copied. |
| Clipboard.PastedImageWins | main.go:561-572 | On macOS, a non-empty image from pngpaste that is written becomes "<stamp>_clipboard.png", an image, whatever the text. |
| Clipboard.DataUrlOutcome | main.go:581-587 | Without a pasted image, a text starting with "data:" in any case becomes the decoded file "<stamp>_clipboard.<ext>" with the switch's kind when decoding and writing succeed, and otherwise stays as prefill text. |
| Clipboard.PathOutcome | main.go:589-606 | A path to an existing file becomes "<stamp>_<final element>", classified by its name, when the copy succeeds, and stays as prefill text when it fails. |
| Clipboard.PlainTextIsPrefill | main.go:608-609 | Any other non-blank text is prefill text. |
| Clipboard.ClipboardNameKind | main.go:665 | A file named "<stamp>_clipboard.<ext>" is classified by `ext`, whatever the stamp. |
| Clipboard.NamesStartWithStamp | main.go:565-591 | Every new file's name starts with the paste's time stamp. |
| Clipboard.CopyIsClassifiedLikeSource | main.go:590-602 | When the trimmed text is a path to an existing file and the copy succeeds, the result is the file "<stamp>_<final path element>", classified like the source path. |
| Clipboard.FailuresFallBackToText | main.go:581-609 | A data URL that cannot be stored, or a path whose copy fails, gives the trimmed text as prefill and never an error. |
| Clipboard.NoImageStepOffMac | main.go:561-572 | Off macOS the outcome does not depend on pngpaste. |
| TaskSummary.RuneStartAtOrBefore | main.go:763-765 | The corrected cut point is the last position at or before the given one that does not hold a continuation byte. Every byte between them is a continuation byte. |
| TaskSummary.ShortenAsWritten | main.go:763-765 | A text of at most 60 bytes is unchanged. A longer one keeps exactly its first 57 bytes, followed by "…". |
| TaskSummary.ShortenAsWrittenSplitsCharacter | main.go:763-765 | 31 Cyrillic letters are 62 well-formed bytes. Their cut by the code is not UTF-8, while the corrected cut keeps 28 whole letters. |
| TaskSummary.Shorten | main.go:763-765 | A text of at most 60 bytes is unchanged. A longer one keeps a prefix of at most 57 of its bytes, followed by "…". |
| TaskSummary.ShortenKeepsUtf8 | main.go:763-765 | The corrected cut of well-formed UTF-8 is well-formed. |
| TaskSummary.ShortenKeepsMostBytes | main.go:763-765 | On well-formed text the corrected cut keeps at least 54 of the 57 bytes. |
| TaskSummary.ShortenAgreesAtBoundary | main.go:763-765 | When byte 57 starts a character (always so for ASCII text), the corrected cut equals the code's. |
| TaskSummary.ValidPrefixAtBoundary | main.go:763-765 | Cutting well-formed UTF-8 where a character starts leaves well-formed UTF-8. |
| TaskSummary.Marker | main.go:755-761 | No marker exactly for a task without attachment; " [img]" for an image and " [audio]" for audio. |
| TaskSummary.Summarize | main.go:754-767 | The summary starts with the formatted time and a space. Between that and the marker lies exactly the text as the code cuts it. It ends with " [img]", " [audio]" or nothing, according to the attachment type. It is at most 61 bytes plus the time and the marker. |
| TaskSummary.SplitSummaryIsNotUtf8 | main.go:754-767 | When the code's cut falls right after the lead byte of a two-byte character, the summary is not UTF-8, whatever the time and attachment. |
| TaskSummary.CyrillicTextSplits | main.go:763-765 | 31 Cyrillic letters meet that condition. |
| TaskSummary.SummarizeCorrected | main.go:754-767 | The same layout with the corrected cut in the middle. |
| TaskSummary.SummariesAgreeAtBoundary | main.go:754-767 | When byte 57 starts a character, or the text has at most 60 bytes, both summaries are equal. |
| TaskSummary.SummaryIsUtf8 | main.go:754-767 | With the cut of main.go:763-765 corrected, a well-formed time and text give a well-formed summary. |

## Left out

- File I/O and JSON. `saveLocked` is one possibly failing step: the `writeOk` parameter. `loadLocked`'s read and decode is a `FileRead` value, and the outcome of `newTaskQueue`'s `MkdirAll` is the `dirMade` parameter of `QueueStore.Open`. `copyFile`, `fileExists` and the pngpaste and data-URL writes are booleans in `Clipboard.Surroundings`. Their behaviour belongs to the operating system and `encoding/json`.
- Concurrency. The mutex only serialises the operations, so each operation is modelled as one atomic step. The tray event goroutine is not modelled.
- UI and OS integration: zenity dialogs, systray, webview, `openWithSystem`, autostart files and registry entries, `appDataDir`. They are pure I/O.
- Rendering: Markdown and HTML templating, `pathToFileURL`, and the tray icon drawing. None of them bears on the queue.
- `getAll` and `renderQueueList`. They copy the queue and number it 1-based for display; the "shown at position" of `ReorderInput.ShowsMove` is that numbering.
- `url.Parse`, base64 decoding, `time.Now().UnixNano()` and `Time.Format`. These are library and clock behaviour: their results are the parameters `parsesAsData`, `payload`, `stamp` and `when`. `Task.createdAt` is an integer and its formatting is not modelled.
- The prefill logic of `showAddTaskDialog` and the dialog loop around `ReorderInput.ReorderEntry`. They are dialog control flow; one entry of the reorder loop is modelled.
- Clipboard.Resolve: trims only ASCII white space from the clipboard text. Go's `strings.TrimSpace` also trims the Unicode spaces (U+0085, U+00A0, U+2000 and so on) around it.
- Clipboard.Resolve: names a copied file after the last path element (`Attachments.FinalElement`). This differs from `filepath.Base` only for a path ending in a separator, which `fileExists` never accepts.
- Clipboard.Resolve: returns the new file's name inside the attachment directory rather than the joined path.
- Attachments.KindOfFile: lower-cases ASCII letters only. No other code point lower-cases to a byte of ".png", ".jpg", ".jpeg", ".m4a", ".mp3" or "data:", so the classification is unaffected.
- QueueProperties.ReopenAfterWrite: the JSON encoding and decoding of the task list is taken to round-trip; the file read is given as the decoded saved sequence. `encoding/json` replaces bytes that are not valid UTF-8 (a task text or attachment path can hold them) with U+FFFD, so such a task does not come back unchanged.
- ReorderInput.ParseMove: takes the entry as decoded code points. Invalid UTF-8, which Go decodes as U+FFFD, is not modelled.
- `fileExists` expands a leading "~" but `copyFile` is given the unexpanded path. The model leaves the copy's outcome as an input, so it says nothing about this.

## Findings

| source | as written | input that shows it | evidently intended | confidence | as-written member | corrected member |
|---|---|---|---|---|---|---|
| main.go:763-765 | A text over 60 bytes keeps its first 57 bytes and then "…", even when byte 57 falls inside a multi-byte character. | 31 × "а" (U+0430, 62 bytes): the kept bytes end with D0, the first byte of the 29th letter, so the summary is not UTF-8. | Cut at the last character boundary at or before byte 57. | medium; not executed | TaskSummary.SplitSummaryIsNotUtf8 | TaskSummary.SummaryIsUtf8 |
| main.go:651 | The media type is cut from the header with a case-sensitive `TrimPrefix(…, "data:")`. Yet the branch is entered on a case-insensitive test (main.go:582), and `url.Parse` lower-cases the scheme. | "DATA:image/png;base64,iVBORw0KGgo=": the media type read is "DATA:image/png", so the image is stored as ".bin" with attachment type none. | Remove the scheme whatever its letter case, reading "image/png". | medium; not executed | Attachments.UpperCaseDataUrlStoredAsBin | Attachments.MediaTypeIgnoresSchemeCase |
