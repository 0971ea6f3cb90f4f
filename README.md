# File-upload widget: a Dafny model

This project models the client-side state machine of the `FileUpload`
component of a single-page upload front end (`src/components/file-upload.tsx`).
The user picks or drops a CSV/Excel file. The widget checks the file's
extension, then runs a simulated upload with a progress ticker, and ends in
success or error. While a file is selected, Cancel (when no upload runs) or
the file's remove button (at any time) resets the widget.

- `file_name.dfy` (module `FileName`) holds the extension check. The check is
  `file.name.split(".").pop()?.toLowerCase()` compared with `"csv"` and
  `"xlsx"`. It is built from the same pieces: `Split`, whose inverse `Join` is
  proved with a round trip, then `Last` (what `pop()` returns), then
  `ToLower`. Two lemmas tie it to independent reference definitions. The
  first is `AfterLastDot`, the text after the last dot. The second is
  `EndsWithAcceptedType`: the name is the type itself, or it ends in `.` and
  the type, ignoring case.
- `widget.dfy` (module `Widget`) holds the widget itself.
  - `WidgetState` holds the component's six state fields, plus whether the
    progress interval is still running (`tickerRunning`).
  - There is one transition function per handler or timer event. Each
    timer event (an interval of the ticker, the upload resolving, the upload
    throwing) is a separate event.
  - `Run` plays a sequence of events. Lemmas cover every transition, the
    Upload button's guard, and an invariant kept by every reachable state.
  - The class `FileUpload` has the six fields and the interval flag as
    mutable fields and one method per handler. Each method is proved to
    leave the state that the matching transition function gives, and to keep
    the invariant.

Timers are not modelled as time. `setInterval` becomes the event
`IntervalFired`, delivered only while the interval runs. `handleUpload`
starts it (line 67). A tick that finds the progress at 95 or more clears it
(line 70), and so does the `finally` (line 93). `resetUpload` does not clear
it. So after the remove button resets the widget during an upload, the ticks
go on from 0, unless the interval had already stopped at 95
(`ResetAfterTickerStopped`). The awaited `setTimeout` promise becomes
`UploadResolved` (the `try` path) or `UploadRejected` (the `catch` path,
lines 89-91). Each of these is followed by the `finally`. They can occur
only while `isUploading` holds. A click on Upload is delivered only while the
button is enabled (line 202). A reset is delivered only while a file is
selected: Cancel is disabled without one (line 199), and the remove button
(lines 156-166) is rendered only inside the `file &&` block (line 141).

`UploadRejected` over-approximates the code. The awaited promise at line 79
only ever resolves, so the `catch` block cannot run in the code as written.
The model keeps the path because it is the widget's error handling for a
real upload. Every property above holds with or without it.

Facts about the code that the model follows:
- A successful upload does not clear the selected file. The 3-second
  callback only blanks the file-input element (lines 86-88).
- Starting an upload does not reset the status or the error message
  (lines 63-64).
- There is no "uploading" status value (line 17). Uploading is the separate
  flag `isUploading`, so the status stays `idle` or `error` during an upload.

One behaviour of the code is worth knowing. The file's remove button (lines
156-166) calls `resetUpload` and is not disabled during an upload. The running
upload still completes, so the widget can show success with no file selected
(`SuccessWithoutFile`).

## Model

| member | source | states |
|---|---|---|
| FileName.Split | src/components/file-upload.tsx:47 | `split(".")` gives at least one piece, no piece contains a dot, and joining the pieces with "." gives the name back |
| FileName.SplitJoin | src/components/file-upload.tsx:47 | splitting the join of non-empty, dot-free pieces returns those pieces (round trip with `Join`) |
| FileName.AfterLastDot | src/components/file-upload.tsx:47 | the reference extension is a dot-free suffix of the name, preceded by a dot unless it is the whole name |
| FileName.AfterLastDotAt | src/components/file-upload.tsx:47 | that suffix is unique: it is the text after the one dot that no other dot follows |
| FileName.LastPieceIsAfterLastDot | src/components/file-upload.tsx:47 | `pop()` of the split is exactly the text after the last dot, or the whole name when it has no dot |
| FileName.ToLower | src/components/file-upload.tsx:47 | lower-casing keeps the length, leaves no upper-case letter, keeps every other character, and shifts A-Z by 32 |
| FileName.Extension | src/components/file-upload.tsx:47 | the compared file type is dot-free, is the lower-cased tail of the name, and is preceded by a dot unless it is the whole name |
| FileName.AcceptedIffEndsWithType | src/components/file-upload.tsx:47-49 | a name is accepted iff it is "csv"/"xlsx", or ends in ".csv"/".xlsx", ignoring case (both directions) |
| FileName.ExtensionAfterStem | src/components/file-upload.tsx:47 | whatever precedes the last dot, the dot-free piece after it decides the type |
| FileName.AcceptsUpperCase | src/components/file-upload.tsx:47-49 | every "<stem>.CSV" is accepted, e.g. "DATA.CSV" |
| FileName.AcceptsXlsx | src/components/file-upload.tsx:47-49 | every "<stem>.xlsx" is accepted, dots in the stem included |
| FileName.AcceptsBareType | src/components/file-upload.tsx:47-49 | a name with no dot is judged whole, so "csv" is accepted |
| FileName.RejectsOtherType | src/components/file-upload.tsx:47-57 | every "<stem>.pdf" is rejected |
| FileName.RejectsNoDot | src/components/file-upload.tsx:47-57 | "noext" has the type "noext" and is rejected |
| FileName.RejectsInnerType | src/components/file-upload.tsx:47-57 | "<stem>.csv.zip" is rejected: only the last piece counts |
| FileName.RejectsTrailingDot | src/components/file-upload.tsx:47-57 | a trailing dot gives the empty type, which is rejected |
| Widget.StepPreservesInv | src/components/file-upload.tsx:21-104 | every handler and every timer event that can occur keeps the widget invariant |
| Widget.RunPreservesInv | src/components/file-upload.tsx:21-104 | any sequence of events keeps the invariant |
| Widget.ReachableInv | src/components/file-upload.tsx:13-104 | every state reachable from mount has progress a multiple of 5 in [0, 100], at most 95 and not success while uploading, 100 with success; the interval runs only during an upload; a kept file always has an accepted type; idle means no message; the message is empty or one of the two fixed texts |
| Widget.DragHighlight | src/components/file-upload.tsx:21-29 | drag-over sets `isDragging`, drag-leave clears it, and nothing else changes |
| Widget.SelectionOutcome | src/components/file-upload.tsx:46-58 | the file is kept, the status is idle and the message is empty, each iff the type is accepted; a rejection clears the file, sets error and the fixed format message; upload flag, progress, interval and highlight are untouched |
| Widget.ValidFileAfterError | src/components/file-upload.tsx:49-52 | picking an accepted file after an error clears status and message, and enables Upload when no upload runs |
| Widget.DropOutcome | src/components/file-upload.tsx:31-38 | a drop always ends the highlight, an empty drop changes nothing else, and only the first dropped file is validated |
| Widget.FileChangeOutcome | src/components/file-upload.tsx:40-44 | a picker change with no file is a no-op, otherwise it validates the first file |
| Widget.UploadStartOutcome | src/components/file-upload.tsx:60-67 | without a file the upload handler changes nothing; with one it sets `isUploading`, 0% and starts the interval, and changes nothing else |
| Widget.TickBounds | src/components/file-upload.tsx:68-74 | while the interval runs a tick never lowers progress, never passes 95, adds 5 below 95, stays at 95, keeps multiples of 5; the interval stops exactly when the tick finds 95; nothing else changes |
| Widget.TicksProgress | src/components/file-upload.tsx:67-75 | n ticks from a multiple of 5 up to 95 give min(p + 5n, 95), leave the interval running only while p + 5n < 100, and change nothing else |
| Widget.TicksAfterStart | src/components/file-upload.tsx:63-75 | after starting, n ticks show min(5n, 95) percent, so 19 ticks reach 95 and the 20th stops the interval |
| Widget.RunStoppedTicker | src/components/file-upload.tsx:67-75 | once the interval is cleared, interval events change nothing |
| Widget.RunTicks | src/components/file-upload.tsx:67-75 | while the interval runs, a burst of n interval events is n ticks |
| Widget.SuccessOutcome | src/components/file-upload.tsx:82-95 | success sets 100%, status success, clears the interval and ends the upload; it keeps the file and the message; Upload is then disabled and Cancel is enabled iff a file is kept |
| Widget.FailureOutcome | src/components/file-upload.tsx:89-95 | failure sets status error and the fixed upload-failure message, clears the interval and ends the upload; file and progress stay, and Upload is enabled again iff a file is kept |
| Widget.ResetOutcome | src/components/file-upload.tsx:98-104 | from any state reset gives no file, idle, 0% and no message, leaves `isUploading`, the interval and `isDragging`, disables both buttons, and is idempotent |
| Widget.NoUploadAfterSuccess | src/components/file-upload.tsx:199-202 | because Upload is disabled during an upload and after success, no reachable state is uploading with status success, and the interval never runs outside an upload |
| Widget.UploadClickGuard | src/components/file-upload.tsx:199-202 | a click on a disabled Upload button changes nothing; on an enabled one it starts the upload at 0% with the interval running and keeps the status |
| Widget.ResetClickGuard | src/components/file-upload.tsx:141-166 | with no file selected neither Cancel nor the remove button can be clicked, so a reset click changes nothing; with a file it resets, during an upload too, when Cancel is disabled and only the remove button offers it |
| Widget.PickAndStart | src/components/file-upload.tsx:40-67 | from mount, picking an accepted file and clicking Upload starts an upload of it at 0% with the interval running |
| Widget.HappyPath | src/components/file-upload.tsx:40-95 | from mount: pick, Upload and n intervals show min(5n, 95)% with the interval stopped from the 20th on; resolving then gives success at 100% with the file kept, no upload and no interval running |
| Widget.TickerStopped | src/components/file-upload.tsx:60-75 | from mount, an accepted pick, Upload and 20 or more intervals leave the upload running at 95% with the interval cleared |
| Widget.ResetThenStoppedTicks | src/components/file-upload.tsx:67-104 | once the interval is cleared, a reset of a selected file followed by any intervals leaves exactly the reset state: the reset does not restart the ticker |
| Widget.ResetAfterTickerStopped | src/components/file-upload.tsx:67-104 | after 20 or more intervals the interval has cleared itself, so a reset during the upload leaves the progress at 0 whatever intervals follow |
| Widget.SuccessWithoutFile | src/components/file-upload.tsx:156-166 | the remove button can reset during an upload, and the upload still resolves to success with no file selected |
| Widget.FileUpload.constructor | src/components/file-upload.tsx:13-18 | the component mounts with no file, no highlight, no upload, 0%, idle, an empty message and no interval |
| Widget.FileUpload.HandleDragOver | src/components/file-upload.tsx:21-24 | the new state is `DragOver` of the old, and the invariant is kept |
| Widget.FileUpload.HandleDragLeave | src/components/file-upload.tsx:26-29 | the new state is `DragLeave` of the old, and the invariant is kept |
| Widget.FileUpload.HandleDrop | src/components/file-upload.tsx:31-38 | the new state is `Drop` of the old with the dropped files, and the invariant is kept |
| Widget.FileUpload.HandleFileChange | src/components/file-upload.tsx:40-44 | the new state is `FileChange` of the old with the picked files, and the invariant is kept |
| Widget.FileUpload.ValidateAndSetFile | src/components/file-upload.tsx:46-58 | the new state is `SelectFile` of the old, and the invariant is kept |
| Widget.FileUpload.HandleUpload | src/components/file-upload.tsx:60-67 | called while the Upload button is enabled (line 202) except for the file check it repeats: the new state is `StartUpload` of the old, and the invariant is kept |
| Widget.FileUpload.OnInterval | src/components/file-upload.tsx:67-75 | one interval while it runs: the new state is `Tick` of the old, and the invariant is kept |
| Widget.FileUpload.OnUploadResolved | src/components/file-upload.tsx:79-95 | the upload resolves: the new state is `UploadSucceeded` of the old, and the invariant is kept |
| Widget.FileUpload.OnUploadRejected | src/components/file-upload.tsx:89-95 | the upload throws: the new state is `UploadFailed` of the old, and the invariant is kept |
| Widget.FileUpload.ResetUpload | src/components/file-upload.tsx:98-104 | the new state is `Reset` of the old, and the invariant is kept |

## Left out

- Rendering: the JSX, CSS classes, icons and the card, alert and progress
  components (lines 106-207). Only the two footer-button guards and whether
  the remove button is shown are modelled.
- The file-input element behind `fileInputRef`. This covers blanking its
  value in `resetUpload` (line 103), the 3-second callback after success
  that blanks it (lines 86-88), and the click that opens the picker
  (line 132). None of these touches the six state fields.
- Real timer behaviour: the 100 ms interval and the 2000 ms wait. Ticks and
  completion are events, so the model leaves their number and order open.
- Two uploads at once. A programmatic second `handleUpload` during an upload
  would start a second interval. The Upload button is disabled during an
  upload, and the model has one interval.
- A `null` file list from the browser. It is treated like an empty list, as
  the `files && files.length > 0` test does.
- The `File` object beyond its name. The size display (line 153) is
  floating-point formatting. The 10 MB limit appears only in the instruction
  text (line 118) and is never checked.
- ToLower, Extension: `ToLower` lower-cases ASCII `A`-`Z` only, not all of Unicode as JavaScript's
  `toLowerCase` does. Accepting `csv` and `xlsx` is not affected: no other
  character lower-cases to `c`, `s`, `v`, `x` or `l`. But `Extension` can
  differ from JavaScript's for names with non-ASCII capitals.
- `src/api/axios.ts`, `src/api/helpers.ts` and `src/api/api.ts`: an HTTP
  client configuration, an error-to-message wrapper and a bare POST. These
  are library calls and browser storage, and the widget does not call them.
- `src/App.tsx`, `src/pages/index.tsx` and `src/pages/error-page.tsx`:
  routing and page shells.
