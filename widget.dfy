/**
  The upload widget's state machine. The six state fields of the component,
  the progress ticker's interval, the handlers that set them, and the
  simulated upload (ticks of the interval and a completion that either
  succeeds or fails) taken as separate events.
 */
module Widget {
  import opened FileName

  datatype Option<T> = None | Some(value: T)

  /** A picked or dropped file; only its name takes part in the logic. */
  datatype File = File(name: string)

  datatype Status = Idle | Success | Error

  const InvalidFormatMessage: string := "Invalid file format. Please upload a CSV or Excel (.xlsx) file."
  const UploadFailedMessage: string := "Failed to upload file. Please try again."

  /** The six state fields of the component, and whether the progress
      interval started by the upload handler is still running. */
  datatype WidgetState = WidgetState(
    file: Option<File>,
    isDragging: bool,
    isUploading: bool,
    uploadProgress: int,
    uploadStatus: Status,
    errorMessage: string,
    tickerRunning: bool)

  /** The state on mount. */
  const Initial: WidgetState := WidgetState(None, false, false, 0, Idle, "", false)

  // ---------------------------------------------------------------------
  // Transitions, one per handler or timer event
  // ---------------------------------------------------------------------

  function DragOver(w: WidgetState): WidgetState
  {
    w.(isDragging := true)
  }

  function DragLeave(w: WidgetState): WidgetState
  {
    w.(isDragging := false)
  }

  /** `validateAndSetFile`: keep the file when its type is accepted, otherwise
      drop any selected file and report the format error. */
  function SelectFile(w: WidgetState, f: File): WidgetState
  {
    if IsAcceptedName(f.name) then
      w.(file := Some(f), uploadStatus := Idle, errorMessage := "")
    else
      w.(file := None, uploadStatus := Error, errorMessage := InvalidFormatMessage)
  }

  /** `handleDrop`: the highlight goes off, and the first dropped file, if any,
      is validated. */
  function Drop(w: WidgetState, files: seq<File>): WidgetState
  {
    var left := w.(isDragging := false);
    if |files| > 0 then SelectFile(left, files[0]) else left
  }

  /** `handleFileChange`: the first picked file, if any, is validated. */
  function FileChange(w: WidgetState, files: seq<File>): WidgetState
  {
    if |files| > 0 then SelectFile(w, files[0]) else w
  }

  /** `handleUpload` up to the await: nothing without a file, otherwise the
      upload starts at 0% and the progress interval is started. */
  function StartUpload(w: WidgetState): WidgetState
  {
    if w.file.None? then w
    else w.(isUploading := true, uploadProgress := 0, tickerRunning := true)
  }

  /** One interval of the ticker: 5 more percent, or, from 95 on, 95 and the
      interval clears itself. */
  function Tick(w: WidgetState): WidgetState
  {
    if w.uploadProgress >= 95 then w.(uploadProgress := 95, tickerRunning := false)
    else w.(uploadProgress := w.uploadProgress + 5)
  }

  /** The awaited upload resolves: full progress and success; the `finally`
      clears the interval and ends the upload. The selected file is kept. */
  function UploadSucceeded(w: WidgetState): WidgetState
  {
    w.(uploadProgress := 100, uploadStatus := Success, isUploading := false, tickerRunning := false)
  }

  /** The awaited upload throws: the `catch` reports the failure and the
      `finally` clears the interval and ends the upload. */
  function UploadFailed(w: WidgetState): WidgetState
  {
    w.(uploadStatus := Error, errorMessage := UploadFailedMessage, isUploading := false, tickerRunning := false)
  }

  /** `resetUpload`. */
  function Reset(w: WidgetState): WidgetState
  {
    w.(file := None, uploadStatus := Idle, uploadProgress := 0, errorMessage := "")
  }

  /** The Cancel button is enabled. */
  predicate CancelEnabled(w: WidgetState)
  {
    !(w.isUploading || w.file.None?)
  }

  /** The Upload button is enabled. */
  predicate UploadEnabled(w: WidgetState)
  {
    !(w.isUploading || w.file.None? || w.uploadStatus == Success)
  }

  /** The selected file's row, with its remove button, is shown. */
  predicate RemoveShown(w: WidgetState)
  {
    w.file.Some?
  }

  // ---------------------------------------------------------------------
  // Event sequences
  // ---------------------------------------------------------------------

  datatype Event =
    | DraggedOver
    | DragLeft
    | Dropped(files: seq<File>)
    | PickerChanged(files: seq<File>)
    | UploadClicked
    | IntervalFired
    | UploadResolved
    | UploadRejected
    | ResetClicked

  /** When an event can occur. A click on Upload reaches the handler only
      while the button is enabled; reset is called by Cancel while it is
      enabled or by the remove button while it is shown; the interval fires
      only while it runs; the awaited promise settles only while its upload
      runs. */
  predicate Enabled(w: WidgetState, e: Event)
  {
    match e
    case UploadClicked => UploadEnabled(w)
    case ResetClicked => CancelEnabled(w) || RemoveShown(w)
    case IntervalFired => w.tickerRunning
    case UploadResolved => w.isUploading
    case UploadRejected => w.isUploading
    case _ => true
  }

  function Step(w: WidgetState, e: Event): WidgetState
  {
    match e
    case DraggedOver => DragOver(w)
    case DragLeft => DragLeave(w)
    case Dropped(files) => Drop(w, files)
    case PickerChanged(files) => FileChange(w, files)
    case UploadClicked => StartUpload(w)
    case IntervalFired => Tick(w)
    case UploadResolved => UploadSucceeded(w)
    case UploadRejected => UploadFailed(w)
    case ResetClicked => Reset(w)
  }

  /** The state after a sequence of events; an event that cannot occur in the
      state it meets is not delivered. */
  function Run(w: WidgetState, events: seq<Event>): WidgetState
    decreases |events|
  {
    if events == [] then w
    else Run(if Enabled(w, events[0]) then Step(w, events[0]) else w, events[1..])
  }

  /** `n` ticks in a row. */
  function Ticks(w: WidgetState, n: nat): WidgetState
    decreases n
  {
    if n == 0 then w else Ticks(Tick(w), n - 1)
  }

  function Min(a: int, b: int): int
  {
    if a <= b then a else b
  }

  /** `n` copies of one event. */
  function Repeat(e: Event, n: nat): (es: seq<Event>)
    ensures |es| == n && forall i :: 0 <= i < n ==> es[i] == e
  {
    if n == 0 then [] else [e] + Repeat(e, n - 1)
  }

  // ---------------------------------------------------------------------
  // The invariant of every reachable state
  // ---------------------------------------------------------------------

  predicate Inv(w: WidgetState)
  {
    && 0 <= w.uploadProgress <= 100
    && w.uploadProgress % 5 == 0
    && (w.isUploading ==> w.uploadProgress <= 95 && w.uploadStatus != Success)
    && (w.tickerRunning ==> w.isUploading)
    && (w.uploadStatus == Success ==> w.uploadProgress == 100)
    && (w.file.Some? ==> IsAcceptedName(w.file.value.name))
    && (w.uploadStatus == Idle ==> w.errorMessage == "")
    && (w.uploadStatus == Error ==> w.errorMessage == InvalidFormatMessage || w.errorMessage == UploadFailedMessage)
    && (w.errorMessage == "" || w.errorMessage == InvalidFormatMessage || w.errorMessage == UploadFailedMessage)
  }

  /** Validating a file keeps the invariant: a kept file has an accepted
      type, and the status and message change together. */
  lemma SelectFilePreservesInv(w: WidgetState, f: File)
    requires Inv(w)
    ensures Inv(SelectFile(w, f))
  {
  }

  /** A tick of a running interval keeps the invariant. */
  lemma TickPreservesInv(w: WidgetState)
    requires Inv(w) && w.tickerRunning
    ensures Inv(Tick(w))
  {
    var p := w.uploadProgress;
    assert p < 95 ==> p <= 90;
  }

  /** A click on an enabled Upload button keeps the invariant. */
  lemma StartPreservesInv(w: WidgetState)
    requires Inv(w) && UploadEnabled(w)
    ensures Inv(StartUpload(w))
  {
  }

  /** The upload settling either way, and a reset, keep the invariant. */
  lemma SettleAndResetPreserveInv(w: WidgetState)
    requires Inv(w)
    ensures Inv(UploadSucceeded(w)) && Inv(UploadFailed(w)) && Inv(Reset(w))
  {
  }

  /** Every event that can occur keeps the invariant. */
  lemma StepPreservesInv(w: WidgetState, e: Event)
    requires Inv(w) && Enabled(w, e)
    ensures Inv(Step(w, e))
  {
    match e
    case DraggedOver =>
    case DragLeft =>
    case Dropped(files) =>
      var left := DragLeave(w);
      assert Inv(left);
      if |files| > 0 {
        SelectFilePreservesInv(left, files[0]);
        assert Drop(w, files) == SelectFile(left, files[0]);
      }
    case PickerChanged(files) =>
      if |files| > 0 {
        SelectFilePreservesInv(w, files[0]);
      }
    case UploadClicked =>
      StartPreservesInv(w);
    case IntervalFired =>
      TickPreservesInv(w);
    case UploadResolved =>
      SettleAndResetPreserveInv(w);
    case UploadRejected =>
      SettleAndResetPreserveInv(w);
    case ResetClicked =>
      SettleAndResetPreserveInv(w);
  }

  /** Any sequence of events keeps the invariant. */
  lemma {:induction false} RunPreservesInv(w: WidgetState, events: seq<Event>)
    requires Inv(w)
    ensures Inv(Run(w, events))
    decreases |events|
  {
    if events != [] {
      var next := if Enabled(w, events[0]) then Step(w, events[0]) else w;
      if Enabled(w, events[0]) {
        StepPreservesInv(w, events[0]);
      }
      RunPreservesInv(next, events[1..]);
    }
  }

  /** Every state reachable from mount satisfies the invariant: progress is a
      multiple of 5 between 0 and 100, at most 95 during an upload and 100
      with the success status; the interval runs only during an upload; a
      kept file always has an accepted type; the message is one of the two
      fixed texts or empty, and empty when idle. */
  lemma ReachableInv(events: seq<Event>)
    ensures Inv(Run(Initial, events))
  {
    RunPreservesInv(Initial, events);
  }

  /** Because Upload is disabled while uploading and after a success, no
      reachable state shows the progress bar and the success alert together,
      and no interval runs outside an upload. */
  lemma NoUploadAfterSuccess(events: seq<Event>)
    ensures var s := Run(Initial, events);
      && (s.isUploading ==> s.uploadStatus != Success)
      && (s.tickerRunning ==> s.isUploading)
  {
    ReachableInv(events);
  }

  /** A click on a disabled Upload button changes nothing; on an enabled one
      it starts the upload and its interval. */
  lemma UploadClickGuard(w: WidgetState)
    ensures !UploadEnabled(w) ==> Run(w, [UploadClicked]) == w
    ensures UploadEnabled(w) ==>
      var r := Run(w, [UploadClicked]);
      r.isUploading && r.tickerRunning && r.uploadProgress == 0 && r.uploadStatus == w.uploadStatus
  {
    assert [UploadClicked][1..] == [];
  }

  /** Reset can be reached exactly while a file is selected: with no file
      neither Cancel nor the remove button can be clicked, so the click
      changes nothing; with one, the remove button resets even during an
      upload, when Cancel is disabled. */
  lemma ResetClickGuard(w: WidgetState)
    ensures w.file.None? ==> Run(w, [ResetClicked]) == w
    ensures w.file.Some? ==> Run(w, [ResetClicked]) == Reset(w)
    ensures w.isUploading ==> !CancelEnabled(w)
  {
    assert [ResetClicked][1..] == [];
  }

  // ---------------------------------------------------------------------
  // One handler at a time
  // ---------------------------------------------------------------------

  /** Drag-over turns the highlight on, drag-leave turns it off; nothing else
      changes. */
  lemma DragHighlight(w: WidgetState)
    ensures DragOver(w).isDragging && !DragLeave(w).isDragging
    ensures DragOver(w).(isDragging := w.isDragging) == w
    ensures DragLeave(w).(isDragging := w.isDragging) == w
  {
  }

  /** Accepting keeps the file and clears a previous error; rejecting clears the
      file and reports the format error; the upload flag, the progress, the
      interval and the highlight are never touched. */
  lemma SelectionOutcome(w: WidgetState, f: File)
    ensures var r := SelectFile(w, f);
      && (r.file == Some(f) <==> IsAcceptedName(f.name))
      && (r.uploadStatus == Idle <==> IsAcceptedName(f.name))
      && (r.errorMessage == "" <==> IsAcceptedName(f.name))
      && (!IsAcceptedName(f.name) ==>
            r.file == None && r.uploadStatus == Error && r.errorMessage == InvalidFormatMessage)
      && r.isUploading == w.isUploading
      && r.uploadProgress == w.uploadProgress
      && r.isDragging == w.isDragging
      && r.tickerRunning == w.tickerRunning
  {
  }

  /** Picking an accepted file after an error leaves no error behind and makes
      the Upload button available when no upload runs. */
  lemma ValidFileAfterError(w: WidgetState, f: File)
    requires w.uploadStatus == Error && !w.isUploading
    requires IsAcceptedName(f.name)
    ensures SelectFile(w, f).uploadStatus == Idle && SelectFile(w, f).errorMessage == ""
    ensures UploadEnabled(SelectFile(w, f))
  {
  }

  /** A drop always ends the highlight; an empty drop changes nothing else; a
      drop is judged by its first file alone. */
  lemma DropOutcome(w: WidgetState, files: seq<File>)
    ensures !Drop(w, files).isDragging
    ensures files == [] ==> Drop(w, files) == DragLeave(w)
    ensures files != [] ==> Drop(w, files) == SelectFile(DragLeave(w), files[0])
    ensures files != [] ==> forall more: seq<File> :: Drop(w, [files[0]] + more) == Drop(w, files)
  {
  }

  /** A picker change with no file changes nothing, and otherwise is the
      validation of its first file. */
  lemma FileChangeOutcome(w: WidgetState, files: seq<File>)
    ensures files == [] ==> FileChange(w, files) == w
    ensures files != [] ==> FileChange(w, files) == SelectFile(w, files[0])
  {
  }

  /** Without a file the upload handler changes nothing; with one it starts
      the upload at 0% with its interval and leaves the file, status, message
      and highlight alone. */
  lemma UploadStartOutcome(w: WidgetState)
    ensures w.file.None? ==> StartUpload(w) == w
    ensures w.file.Some? ==>
      var r := StartUpload(w);
      r.isUploading && r.uploadProgress == 0 && r.tickerRunning
      && r.(isUploading := w.isUploading, uploadProgress := w.uploadProgress, tickerRunning := w.tickerRunning) == w
  {
  }

  /** While the interval runs, a tick never lowers the progress, never takes
      it past 95, and keeps it a multiple of 5; the interval stops exactly
      when the tick finds 95. */
  lemma TickBounds(w: WidgetState)
    requires Inv(w) && w.tickerRunning
    ensures var p := Tick(w).uploadProgress;
      w.uploadProgress <= p <= 95 && p % 5 == 0
      && (w.uploadProgress < 95 ==> p == w.uploadProgress + 5)
      && (w.uploadProgress == 95 ==> p == 95)
    ensures Tick(w).tickerRunning <==> w.uploadProgress < 95
    ensures Tick(w).(uploadProgress := w.uploadProgress, tickerRunning := w.tickerRunning) == w
  {
  }

  /** From a multiple of 5 up to 95, `n` ticks add 5 each, stopping at 95;
      the interval survives only while the ticks stay below 100; nothing else
      changes. */
  lemma {:induction false} TicksProgress(w: WidgetState, n: nat)
    requires 0 <= w.uploadProgress <= 95 && w.uploadProgress % 5 == 0
    ensures Ticks(w, n) == w.(uploadProgress := Min(w.uploadProgress + 5 * n, 95),
                              tickerRunning := w.tickerRunning && w.uploadProgress + 5 * n < 100)
    decreases n
  {
    if n > 0 {
      var p := w.uploadProgress;
      assert p < 95 ==> p <= 90;
      TicksProgress(Tick(w), n - 1);
    }
  }

  /** After starting an upload, `n` ticks show min(5n, 95) percent: 19 ticks
      reach 95, and the 20th clears the interval. */
  lemma TicksAfterStart(w: WidgetState, n: nat)
    requires w.file.Some?
    ensures Ticks(StartUpload(w), n).uploadProgress == Min(5 * n, 95)
    ensures Ticks(StartUpload(w), n).isUploading
    ensures Ticks(StartUpload(w), n).tickerRunning <==> n < 20
  {
    TicksProgress(StartUpload(w), n);
  }

  /** Once the interval is cleared, interval events change nothing. */
  lemma {:induction false} RunStoppedTicker(w: WidgetState, n: nat)
    requires !w.tickerRunning
    ensures Run(w, Repeat(IntervalFired, n)) == w
    decreases n
  {
    if n > 0 {
      assert Repeat(IntervalFired, n)[1..] == Repeat(IntervalFired, n - 1);
      RunStoppedTicker(w, n - 1);
    }
  }

  /** While the interval runs, a burst of `n` interval events is `n` ticks:
      the events after the interval cleared itself are not delivered, and a
      tick at 95 would change nothing anyway. */
  lemma {:induction false} RunTicks(w: WidgetState, n: nat)
    requires w.tickerRunning
    requires 0 <= w.uploadProgress <= 95 && w.uploadProgress % 5 == 0
    ensures Run(w, Repeat(IntervalFired, n)) == Ticks(w, n)
    decreases n
  {
    if n > 0 {
      var t := Tick(w);
      assert Repeat(IntervalFired, n)[1..] == Repeat(IntervalFired, n - 1);
      assert Run(w, Repeat(IntervalFired, n)) == Run(t, Repeat(IntervalFired, n - 1));
      if t.tickerRunning {
        RunTicks(t, n - 1);
      } else {
        RunStoppedTicker(t, n - 1);
        TicksProgress(t, n - 1);
      }
    }
  }

  /** Success shows 100% and the success status, clears the interval, ends the
      upload and keeps the selected file and the message; the Upload button
      stays disabled until a reset or a new selection. */
  lemma SuccessOutcome(w: WidgetState)
    ensures var r := UploadSucceeded(w);
      && r.uploadProgress == 100 && r.uploadStatus == Success && !r.isUploading && !r.tickerRunning
      && r.file == w.file && r.errorMessage == w.errorMessage && r.isDragging == w.isDragging
      && !UploadEnabled(r)
      && (CancelEnabled(r) <==> w.file.Some?)
  {
  }

  /** Failure shows the error status with the upload-failure message, clears
      the interval and ends the upload; the file and the progress stay, so the
      upload can be tried again. */
  lemma FailureOutcome(w: WidgetState)
    ensures var r := UploadFailed(w);
      && r.uploadStatus == Error && r.errorMessage == UploadFailedMessage && !r.isUploading && !r.tickerRunning
      && r.file == w.file && r.uploadProgress == w.uploadProgress && r.isDragging == w.isDragging
      && (UploadEnabled(r) <==> w.file.Some?)
  {
  }

  /** From any state, reset leaves no file, the idle status, 0% and no
      message; the upload flag, the interval and the highlight are not
      touched; both footer buttons are then disabled; a second reset changes
      nothing. */
  lemma ResetOutcome(w: WidgetState)
    ensures var r := Reset(w);
      && r.file == None && r.uploadStatus == Idle && r.uploadProgress == 0 && r.errorMessage == ""
      && r.isDragging == w.isDragging && r.isUploading == w.isUploading && r.tickerRunning == w.tickerRunning
      && !UploadEnabled(r) && !CancelEnabled(r)
      && Reset(r) == r
  {
  }

  /** Running two sequences one after the other. */
  lemma {:induction false} RunAppend(w: WidgetState, a: seq<Event>, b: seq<Event>)
    ensures Run(w, a + b) == Run(Run(w, a), b)
    decreases |a|
  {
    if a == [] {
      assert a + b == b;
    } else {
      assert (a + b)[1..] == a[1..] + b;
      RunAppend(if Enabled(w, a[0]) then Step(w, a[0]) else w, a[1..], b);
    }
  }

  /** From mount, picking an accepted file and clicking Upload starts an
      upload of that file at 0% with its interval running. */
  lemma PickAndStart(f: File)
    requires IsAcceptedName(f.name)
    ensures Run(Initial, [PickerChanged([f]), UploadClicked]) == WidgetState(Some(f), false, true, 0, Idle, "", true)
  {
    var chosen := FileChange(Initial, [f]);
    assert chosen == WidgetState(Some(f), false, false, 0, Idle, "", false);
    assert [PickerChanged([f]), UploadClicked][1..] == [UploadClicked];
    assert [UploadClicked][1..] == [];
  }

  /** From mount: picking an accepted file, clicking Upload and `n` intervals
      show min(5n, 95) percent, with the interval cleared from the 20th on;
      the upload then resolving ends in success at 100% with the file still
      selected and no upload running. */
  lemma HappyPath(f: File, n: nat)
    requires IsAcceptedName(f.name)
    ensures var start := [PickerChanged([f]), UploadClicked];
      && Run(Initial, start + Repeat(IntervalFired, n))
           == WidgetState(Some(f), false, true, Min(5 * n, 95), Idle, "", n < 20)
      && Run(Initial, start + Repeat(IntervalFired, n) + [UploadResolved])
           == WidgetState(Some(f), false, false, 100, Success, "", false)
  {
    var start := [PickerChanged([f]), UploadClicked];
    var ticks := Repeat(IntervalFired, n);
    var picked := WidgetState(Some(f), false, true, 0, Idle, "", true);
    PickAndStart(f);
    RunAppend(Initial, start, ticks);
    RunTicks(picked, n);
    TicksProgress(picked, n);
    var ticked := Ticks(picked, n);
    assert ticked == picked.(uploadProgress := Min(5 * n, 95), tickerRunning := n < 20);
    RunAppend(Initial, start + ticks, [UploadResolved]);
    assert Run(ticked, [UploadResolved]) == UploadSucceeded(ticked) by {
      assert [UploadResolved][1..] == [];
    }
  }

  /** From mount, picking an accepted file, clicking Upload and 20 or more
      intervals leave the upload running at 95% with its interval cleared. */
  lemma TickerStopped(f: File, n: nat)
    requires IsAcceptedName(f.name) && n >= 20
    ensures Run(Initial, [PickerChanged([f]), UploadClicked] + Repeat(IntervalFired, n))
         == WidgetState(Some(f), false, true, 95, Idle, "", false)
  {
    HappyPath(f, n);
  }

  /** Once the interval is cleared, a reset of a selected file followed by
      any number of intervals is just the reset. */
  lemma ResetThenStoppedTicks(w: WidgetState, m: nat)
    requires !w.tickerRunning && w.file.Some?
    ensures Run(w, [ResetClicked] + Repeat(IntervalFired, m)) == Reset(w)
  {
    assert ([ResetClicked] + Repeat(IntervalFired, m))[1..] == Repeat(IntervalFired, m);
    RunStoppedTicker(Reset(w), m);
  }

  /** The interval clears itself on the tick that finds 95, the 20th. A reset
      by the file's remove button after that, while the upload still runs,
      leaves the progress at 0 however many intervals follow. */
  lemma ResetAfterTickerStopped(f: File, n: nat, m: nat)
    requires IsAcceptedName(f.name) && n >= 20
    ensures Run(Initial, [PickerChanged([f]), UploadClicked] + Repeat(IntervalFired, n)
                         + [ResetClicked] + Repeat(IntervalFired, m))
         == WidgetState(None, false, true, 0, Idle, "", false)
  {
    var start := [PickerChanged([f]), UploadClicked] + Repeat(IntervalFired, n);
    var rest := [ResetClicked] + Repeat(IntervalFired, m);
    assert start + [ResetClicked] + Repeat(IntervalFired, m) == start + rest;
    TickerStopped(f, n);
    RunAppend(Initial, start, rest);
    ResetThenStoppedTicks(Run(Initial, start), m);
  }

  /** The file's remove button calls reset even while an upload runs; the
      upload still completes, so the widget can show success with no file
      selected. */
  lemma SuccessWithoutFile(w: WidgetState)
    requires w.isUploading
    ensures w.file.Some? ==> Enabled(w, ResetClicked)
    ensures Enabled(Reset(w), UploadResolved)
    ensures UploadSucceeded(Reset(w)).uploadStatus == Success
    ensures UploadSucceeded(Reset(w)).file == None
  {
  }

  // ---------------------------------------------------------------------
  // The component: its six fields and the interval, updated in place by
  // its handlers
  // ---------------------------------------------------------------------

  class FileUpload {
    var file: Option<File>
    var isDragging: bool
    var isUploading: bool
    var uploadProgress: int
    var uploadStatus: Status
    var errorMessage: string
    /** Whether the interval started by `HandleUpload` is still running. */
    var tickerRunning: bool

    function State(): WidgetState
      reads this
    {
      WidgetState(file, isDragging, isUploading, uploadProgress, uploadStatus, errorMessage, tickerRunning)
    }

    ghost predicate Valid()
      reads this
    {
      Inv(State())
    }

    constructor ()
      ensures Valid() && State() == Initial
    {
      file := None;
      isDragging := false;
      isUploading := false;
      uploadProgress := 0;
      uploadStatus := Idle;
      errorMessage := "";
      tickerRunning := false;
    }

    method HandleDragOver()
      requires Valid()
      modifies this
      ensures Valid() && State() == DragOver(old(State()))
    {
      isDragging := true;
    }

    method HandleDragLeave()
      requires Valid()
      modifies this
      ensures Valid() && State() == DragLeave(old(State()))
    {
      isDragging := false;
    }

    method ValidateAndSetFile(f: File)
      requires Valid()
      modifies this
      ensures Valid() && State() == SelectFile(old(State()), f)
    {
      if IsAcceptedName(f.name) {
        file := Some(f);
        uploadStatus := Idle;
        errorMessage := "";
      } else {
        file := None;
        uploadStatus := Error;
        errorMessage := InvalidFormatMessage;
      }
    }

    method HandleDrop(files: seq<File>)
      requires Valid()
      modifies this
      ensures Valid() && State() == Drop(old(State()), files)
    {
      isDragging := false;
      if |files| > 0 {
        ValidateAndSetFile(files[0]);
      }
    }

    method HandleFileChange(files: seq<File>)
      requires Valid()
      modifies this
      ensures Valid() && State() == FileChange(old(State()), files)
    {
      if |files| > 0 {
        ValidateAndSetFile(files[0]);
      }
    }

    /** `handleUpload` up to the point where it awaits the upload. Its only
        caller is the Upload button, which is disabled during an upload and
        after a success; the file is checked by the handler itself. */
    method HandleUpload()
      requires Valid() && !isUploading && uploadStatus != Success
      modifies this
      ensures Valid() && State() == StartUpload(old(State()))
    {
      if file.None? {
        return;
      }
      isUploading := true;
      uploadProgress := 0;
      tickerRunning := true;
    }

    /** One interval of the progress ticker. */
    method OnInterval()
      requires Valid() && tickerRunning
      modifies this
      ensures Valid() && State() == Tick(old(State()))
    {
      if uploadProgress >= 95 {
        tickerRunning := false;
        uploadProgress := 95;
      } else {
        uploadProgress := uploadProgress + 5;
      }
    }

    /** The awaited upload resolved: the `try` block, then the `finally`. */
    method OnUploadResolved()
      requires Valid() && isUploading
      modifies this
      ensures Valid() && State() == UploadSucceeded(old(State()))
    {
      uploadProgress := 100;
      uploadStatus := Success;
      tickerRunning := false;
      isUploading := false;
    }

    /** The awaited upload threw: the `catch` block, then the `finally`. */
    method OnUploadRejected()
      requires Valid() && isUploading
      modifies this
      ensures Valid() && State() == UploadFailed(old(State()))
    {
      uploadStatus := Error;
      errorMessage := UploadFailedMessage;
      tickerRunning := false;
      isUploading := false;
    }

    method ResetUpload()
      requires Valid()
      modifies this
      ensures Valid() && State() == Reset(old(State()))
    {
      file := None;
      uploadStatus := Idle;
      uploadProgress := 0;
      errorMessage := "";
    }
  }
}
