/** The upload panel of FileUploader.jsx: the extension whitelist, the choice
    of endpoint, the `idle | uploading | success | error` status machine, the
    progress percentage and the drag highlight. The HTTP request itself is an
    input: its progress events and its outcome are parameters. */
module FileUploader {

  import opened Wrappers
  import opened Text

  /** The browser `File`; only its name matters here. */
  datatype File = File(name: string)

  datatype Status = Idle | Uploading | Succeeded | Errored

  /** The component's state hooks. */
  datatype UploadState = UploadState(
    uploadedFile: Option<File>,
    status: Status,
    dragActive: bool,
    error: Option<string>,
    progress: int)

  const AcceptedExtensions: seq<string> := ["csv", "fasta", "fa"]
  const InvalidTypeMessage := "Invalid file type. Please upload a CSV or FASTA file."
  const UnsupportedMessage := "Unsupported file type."
  const FailedMessage := "Failed to upload file. Please try again."

  const CsvEndpoint := "/upload/csv"
  const EdnaEndpoint := "/upload/edna"

  const InitialState := UploadState(None, Idle, false, None, 0)

  /** `file.name.split(".").pop().toLowerCase()`. */
  function Extension(name: string): string {
    ToLower(LastSegment(name, '.'))
  }

  /** `isFileValid`: a missing file is invalid; otherwise the extension must
      be whitelisted. */
  predicate IsFileValid(f: Option<File>) {
    f.Some? && Extension(f.value.name) in AcceptedExtensions
  }

  /** A name `stem.ext` is judged on its lower-cased final extension alone,
      whatever the stem holds (including further dots). */
  lemma ValidIffExtensionAccepted(stem: string, ext: string)
    requires '.' !in ext
    ensures IsFileValid(Some(File(stem + "." + ext)))
        <==> ToLower(ext) == "csv" || ToLower(ext) == "fasta" || ToLower(ext) == "fa"
  {
    LastSegmentAfterSep(stem, ext, '.');
  }

  /** A dot-free name is judged on its whole lower-cased text. */
  lemma ValidDotFreeName(name: string)
    requires '.' !in name
    ensures IsFileValid(Some(File(name))) <==> ToLower(name) in AcceptedExtensions
  {
    LastSegmentNoSep(name, '.');
  }

  /** The endpoint chosen from a lower-cased extension; `None` is the
      "Unsupported file type" branch. */
  function Endpoint(ext: string): (r: Option<string>)
    ensures r == Some(CsvEndpoint) <==> ext == "csv"
    ensures r == Some(EdnaEndpoint) <==> ext == "fasta" || ext == "fa"
    ensures r.None? <==> ext !in AcceptedExtensions
  {
    var endpoint := if ext == "csv" then Some(CsvEndpoint) else None;
    if ext == "fasta" || ext == "fa" then Some(EdnaEndpoint) else endpoint
  }

  /** Every file the validator admits is routed: the unsupported branch of
      the upload cannot fire for a validated file. */
  lemma ValidFileHasEndpoint(f: File)
    requires IsFileValid(Some(f))
    ensures Endpoint(Extension(f.name)).Some?
  {
  }

  /** `processFile`: accept a valid file and reset the upload, or reject it,
      leaving status and progress alone. */
  function ProcessFile(st: UploadState, f: Option<File>): (r: UploadState)
    ensures IsFileValid(f) ==>
      r == st.(uploadedFile := f, error := None, status := Idle, progress := 0)
    ensures !IsFileValid(f) ==>
      r == st.(uploadedFile := None, error := Some(InvalidTypeMessage))
  {
    if IsFileValid(f) then
      UploadState(f, Idle, st.dragActive, None, 0)
    else
      UploadState(None, st.status, st.dragActive, Some(InvalidTypeMessage), st.progress)
  }

  /** Drag events the drop zone listens to. */
  datatype DragEvent = DragEnter | DragOver | DragLeave

  /** `handleDrag`: highlighted exactly while a drag enters or hovers. */
  function HandleDrag(st: UploadState, e: DragEvent): (r: UploadState)
    ensures r.dragActive <==> e == DragEnter || e == DragOver
    ensures r.(dragActive := st.dragActive) == st
  {
    st.(dragActive := e != DragLeave)
  }

  /** `handleDrop`: the highlight goes off and the first dropped file is
      processed as if chosen. */
  function HandleDrop(st: UploadState, f: Option<File>): (r: UploadState)
    ensures !r.dragActive
    ensures r == ProcessFile(st.(dragActive := false), f)
  {
    ProcessFile(st.(dragActive := false), f)
  }

  /** `Math.round`: the nearest integer, halves rounded up. */
  function Round(x: real): int {
    (x + 0.5).Floor
  }

  /** `Math.round(loaded * 100 / total)`. */
  function Percent(loaded: int, total: int): int
    requires total != 0
  {
    Round((loaded * 100) as real / total as real)
  }

  /** A percentage of bytes sent lies within 0..100, is 0 before anything is
      sent and 100 once everything is. */
  lemma PercentBounds(loaded: int, total: int)
    requires 0 <= loaded <= total && total > 0
    ensures 0 <= Percent(loaded, total) <= 100
    ensures loaded == 0 ==> Percent(loaded, total) == 0
    ensures loaded == total ==> Percent(loaded, total) == 100
  {
    var x := (loaded * 100) as real / total as real;
    assert 0.0 <= x <= 100.0 by {
      assert (loaded * 100) as real <= (total * 100) as real;
    }
    assert loaded == total ==> x == 100.0;
    assert loaded == 0 ==> x == 0.0;
  }

  /** A progress callback of the request. */
  datatype ProgressEvent = ProgressEvent(loaded: int, total: int)

  /** `onUploadProgress`: a zero (falsy) total leaves the percentage alone. */
  function OnProgress(st: UploadState, e: ProgressEvent): (r: UploadState)
    ensures e.total == 0 ==> r == st
    ensures e.total != 0 ==> r == st.(progress := Percent(e.loaded, e.total))
  {
    if e.total != 0 then st.(progress := Percent(e.loaded, e.total)) else st
  }

  function ApplyProgress(st: UploadState, events: seq<ProgressEvent>): (r: UploadState)
    ensures r.(progress := st.progress) == st
    decreases |events|
  {
    if |events| == 0 then st else ApplyProgress(OnProgress(st, events[0]), events[1..])
  }

  /** Progress stays a percentage while every event reports at most the
      total it announces. */
  lemma {:induction false} ApplyProgressBounded(st: UploadState, events: seq<ProgressEvent>)
    requires 0 <= st.progress <= 100
    requires forall i :: 0 <= i < |events| ==> 0 <= events[i].loaded <= events[i].total
    ensures 0 <= ApplyProgress(st, events).progress <= 100
    decreases |events|
  {
    if |events| > 0 {
      if events[0].total != 0 {
        PercentBounds(events[0].loaded, events[0].total);
      }
      ApplyProgressBounded(OnProgress(st, events[0]), events[1..]);
    }
  }

  /** How the POST ended: the server answered, or the request threw. */
  datatype Outcome = Answered | Threw

  /** The three state updates made before the request is sent. */
  function StartUpload(st: UploadState): (r: UploadState)
    ensures r.status == Uploading && r.error.None? && r.progress == 0
    ensures r.uploadedFile == st.uploadedFile && r.dragActive == st.dragActive
  {
    st.(status := Uploading, error := None, progress := 0)
  }

  /** The synchronous part of `handleUploadClick`, up to the `await`: the
      state it leaves, and whether a POST went out. With no file it does
      nothing. Otherwise the upload starts, and a file without an endpoint
      ends it at once with the unsupported-type message. */
  function ClickUpload(st: UploadState): (r: (UploadState, bool))
    ensures st.uploadedFile.None? ==> r == (st, false)
    ensures r.1 <==> st.uploadedFile.Some? && Endpoint(Extension(st.uploadedFile.value.name)).Some?
    ensures r.1 ==> r.0 == StartUpload(st)
    ensures st.uploadedFile.Some? && !r.1 ==>
      && r.0.uploadedFile == st.uploadedFile && r.0.dragActive == st.dragActive
      && r.0.status == Errored && r.0.error == Some(UnsupportedMessage) && r.0.progress == 0
  {
    if st.uploadedFile.None? then (st, false)
    else
      var started := StartUpload(st);
      match Endpoint(Extension(st.uploadedFile.value.name))
      case None => (started.(error := Some(UnsupportedMessage), status := Errored), false)
      case Some(_) => (started, true)
  }

  /** What happens after the `await`: an answer sets the status to success
      and leaves the error as it is; a throw sets the failure message and
      the error status. Nothing else changes. */
  function Settle(st: UploadState, outcome: Outcome): (r: UploadState)
    ensures r.uploadedFile == st.uploadedFile && r.dragActive == st.dragActive && r.progress == st.progress
    ensures r.status == Succeeded <==> outcome == Answered
    ensures r.status == Errored <==> outcome == Threw
    ensures outcome == Answered ==> r.error == st.error
    ensures outcome == Threw ==> r.error == Some(FailedMessage)
  {
    match outcome
    case Answered => st.(status := Succeeded)
    case Threw => st.(error := Some(FailedMessage), status := Errored)
  }

  /** `handleUploadClick` from start to finish when nothing else happens
      while the request is out: the click, the progress events, then the
      settlement. */
  function HandleUploadClick(st: UploadState, events: seq<ProgressEvent>, outcome: Outcome): (r: UploadState)
    ensures st.uploadedFile.None? ==> r == st
    ensures st.uploadedFile.Some? ==> r.uploadedFile == st.uploadedFile && r.dragActive == st.dragActive
    ensures st.uploadedFile.Some? ==> r.status == Succeeded || r.status == Errored
    ensures st.uploadedFile.Some? && r.status == Succeeded ==> r.error.None? && outcome == Answered
  {
    var (started, sent) := ClickUpload(st);
    if sent then Settle(ApplyProgress(started, events), outcome) else started
  }

  // ------------------------------------------------------------- the panel

  /** The component over time: its state and the number of POSTs still out.
      Each one's progress callback and settlement write the same state. */
  datatype Panel = Panel(ui: UploadState, inFlight: nat)

  const InitialPanel := Panel(InitialState, 0)

  /** What a user or a pending request can do next. The drop zone and the
      file input stay live during an upload; only the button is guarded. */
  datatype Action =
    | Choose(f: Option<File>)
    | Drag(e: DragEvent)
    | Drop(dropped: Option<File>)
    | Click
    | Progress(event: ProgressEvent)
    | Settled(outcome: Outcome)

  /** The button is rendered only while the status is not success, and is
      disabled while it is uploading. */
  predicate ButtonEnabled(st: UploadState) {
    st.status != Uploading && st.status != Succeeded
  }

  function Step(p: Panel, a: Action): (r: Panel)
    ensures a.Click? && !ButtonEnabled(p.ui) ==> r == p
    ensures a.Click? && ButtonEnabled(p.ui) ==>
      r == Panel(ClickUpload(p.ui).0, if ClickUpload(p.ui).1 then p.inFlight + 1 else p.inFlight)
    ensures (a.Progress? || a.Settled?) && p.inFlight == 0 ==> r == p
    ensures a.Settled? && p.inFlight > 0 ==> r == Panel(Settle(p.ui, a.outcome), p.inFlight - 1)
  {
    match a
    case Choose(f) => p.(ui := ProcessFile(p.ui, f))
    case Drag(e) => p.(ui := HandleDrag(p.ui, e))
    case Drop(f) => p.(ui := HandleDrop(p.ui, f))
    case Click =>
      if !ButtonEnabled(p.ui) then p
      else
        var (st, sent) := ClickUpload(p.ui);
        Panel(st, if sent then p.inFlight + 1 else p.inFlight)
    case Progress(e) => if p.inFlight == 0 then p else p.(ui := OnProgress(p.ui, e))
    case Settled(outcome) =>
      if p.inFlight == 0 then p else Panel(Settle(p.ui, outcome), p.inFlight - 1)
  }

  /** The panel after a series of actions, the last one applied last. */
  function Run(p: Panel, actions: seq<Action>): Panel
    decreases |actions|
  {
    if |actions| == 0 then p else Step(Run(p, actions[..|actions| - 1]), actions[|actions| - 1])
  }

  lemma {:induction false} RunAppend(p: Panel, a: seq<Action>, b: seq<Action>)
    ensures Run(p, a + b) == Run(Run(p, a), b)
    decreases |b|
  {
    if |b| == 0 {
      assert a + b == a;
    } else {
      assert (a + b)[..|a + b| - 1] == a + b[..|b| - 1];
      RunAppend(p, a, b[..|b| - 1]);
    }
  }

  /** The actions of an upload nothing interrupts. */
  function ProgressActions(events: seq<ProgressEvent>): (r: seq<Action>)
    ensures |r| == |events|
    ensures forall i :: 0 <= i < |r| ==> r[i] == Progress(events[i])
    decreases |events|
  {
    if |events| == 0 then [] else [Progress(events[0])] + ProgressActions(events[1..])
  }

  /** Progress events while a request is out are `ApplyProgress`. */
  lemma {:induction false} RunProgress(p: Panel, events: seq<ProgressEvent>)
    requires p.inFlight > 0
    ensures Run(p, ProgressActions(events)) == p.(ui := ApplyProgress(p.ui, events))
    decreases |events|
  {
    if |events| > 0 {
      var q := p.(ui := OnProgress(p.ui, events[0]));
      assert ProgressActions(events) == [Progress(events[0])] + ProgressActions(events[1..]);
      RunAppend(p, [Progress(events[0])], ProgressActions(events[1..]));
      assert Run(p, [Progress(events[0])]) == q by {
        assert [Progress(events[0])][..0] == [];
      }
      RunProgress(q, events[1..]);
    }
  }

  /** An upload that nothing interrupts, run on the panel, is
      `HandleUploadClick`, and no request is left out. */
  lemma UninterruptedUpload(p: Panel, events: seq<ProgressEvent>, outcome: Outcome)
    requires ButtonEnabled(p.ui) && p.inFlight == 0
    ensures var r := Run(p, [Click] + ProgressActions(events) + [Settled(outcome)]);
      r == Panel(HandleUploadClick(p.ui, events, outcome), 0)
  {
    var (started, sent) := ClickUpload(p.ui);
    var clicked := Panel(started, if sent then 1 else 0);
    assert Run(p, [Click]) == clicked by {
      assert [Click][..0] == [];
    }
    RunAppend(p, [Click], ProgressActions(events));
    var progressed := Run(clicked, ProgressActions(events));
    if sent {
      RunProgress(clicked, events);
    } else {
      RunIdle(clicked, ProgressActions(events));
    }
    var all := [Click] + ProgressActions(events) + [Settled(outcome)];
    assert all[..|all| - 1] == [Click] + ProgressActions(events);
  }

  /** Progress events and settlements with no request out change nothing. */
  lemma {:induction false} RunIdle(p: Panel, actions: seq<Action>)
    requires p.inFlight == 0
    requires forall i :: 0 <= i < |actions| ==> actions[i].Progress? || actions[i].Settled?
    ensures Run(p, actions) == p
    decreases |actions|
  {
    if |actions| > 0 {
      RunIdle(p, actions[..|actions| - 1]);
    }
  }

  /** For a file that passed validation an uninterrupted upload ends in
      success exactly when the server answers, and in the failure message
      exactly when the request throws. */
  lemma UploadOfValidFile(p: Panel, events: seq<ProgressEvent>, outcome: Outcome)
    requires IsFileValid(p.ui.uploadedFile) && ButtonEnabled(p.ui) && p.inFlight == 0
    ensures var r := Run(p, [Click] + ProgressActions(events) + [Settled(outcome)]).ui;
      && (r.status == Succeeded <==> outcome == Answered)
      && (r.status == Errored <==> r.error == Some(FailedMessage))
      && r.error != Some(UnsupportedMessage)
  {
    UninterruptedUpload(p, events, outcome);
    ValidFileHasEndpoint(p.ui.uploadedFile.value);
  }

  /** Whatever happened before, the settlement of a request decides the
      status: the last request to settle wins, and an answer leaves any
      earlier error message in place. */
  lemma LastSettlementWins(p: Panel, actions: seq<Action>, outcome: Outcome)
    requires Run(p, actions).inFlight > 0
    ensures var before := Run(p, actions).ui;
      var r := Run(p, actions + [Settled(outcome)]).ui;
      && (r.status == Succeeded <==> outcome == Answered)
      && (outcome == Answered ==> r.error == before.error)
  {
    assert (actions + [Settled(outcome)])[..|actions|] == actions;
  }

  /** No file is held, or a valid one. */
  predicate HoldsValid(st: UploadState) {
    st.uploadedFile.None? || IsFileValid(st.uploadedFile)
  }

  /** Each action keeps the held file valid: only selections and drops set
      it, and they set only valid files. */
  lemma StepKeepsValid(p: Panel, a: Action)
    requires HoldsValid(p.ui)
    ensures HoldsValid(Step(p, a).ui)
  {
    match a
    case Click =>
      if ButtonEnabled(p.ui) {
        assert Step(p, a).ui.uploadedFile == p.ui.uploadedFile;
      }
    case Progress(e) =>
    case Settled(outcome) =>
    case Choose(f) =>
    case Drag(e) =>
    case Drop(f) =>
  }

  /** Every state the panel can reach from one holding no file or a valid
      one holds either no file or a valid one, so every upload it starts is
      routed. */
  lemma {:induction false} HeldFileAlwaysValid(p: Panel, actions: seq<Action>)
    requires HoldsValid(p.ui)
    ensures HoldsValid(Run(p, actions).ui)
    ensures var r := Run(p, actions).ui;
      r.uploadedFile.Some? ==> Endpoint(Extension(r.uploadedFile.value.name)).Some?
    decreases |actions|
  {
    if |actions| > 0 {
      HeldFileAlwaysValid(p, actions[..|actions| - 1]);
      StepKeepsValid(Run(p, actions[..|actions| - 1]), actions[|actions| - 1]);
    }
    var r := Run(p, actions).ui;
    if r.uploadedFile.Some? {
      ValidFileHasEndpoint(r.uploadedFile.value);
    }
  }

  /** The extension of `stem.ext` for a dot-free, lower-case `ext`. */
  lemma ExtensionOf(stem: string, ext: string)
    requires '.' !in ext && ToLower(ext) == ext
    ensures Extension(stem + "." + ext) == ext
  {
    LastSegmentAfterSep(stem, ext, '.');
  }

  /** Four actions run one after the other. */
  lemma RunFour(p: Panel, a0: Action, a1: Action, a2: Action, a3: Action)
    ensures Run(p, [a0, a1, a2, a3]) == Step(Step(Step(Step(p, a0), a1), a2), a3)
  {
    assert [a0][..0] == [];
    assert Run(p, [a0]) == Step(p, a0);
    assert [a0, a1][..1] == [a0];
    assert Run(p, [a0, a1]) == Step(Step(p, a0), a1);
    assert [a0, a1, a2][..2] == [a0, a1];
    assert Run(p, [a0, a1, a2]) == Step(Step(Step(p, a0), a1), a2);
    assert [a0, a1, a2, a3][..3] == [a0, a1, a2];
  }

  /** The file input stays live during an upload: choosing a file of the
      wrong type while a valid one is being sent, then having the server
      answer, shows success together with the invalid-type message and no
      held file. */
  lemma SuccessBesideInvalidType(a: File, n: File)
    requires IsFileValid(Some(a)) && !IsFileValid(Some(n))
    ensures var r := Run(InitialPanel, [Choose(Some(a)), Click, Choose(Some(n)), Settled(Answered)]);
      && r.ui.status == Succeeded
      && r.ui.error == Some(InvalidTypeMessage)
      && r.ui.uploadedFile.None?
      && r.inFlight == 0
  {
    ValidFileHasEndpoint(a);
    var p1 := Step(InitialPanel, Choose(Some(a)));
    var p2 := Step(p1, Click);
    assert p2 == Panel(UploadState(Some(a), Uploading, false, None, 0), 1);
    var p3 := Step(p2, Choose(Some(n)));
    assert p3 == Panel(UploadState(None, Uploading, false, Some(InvalidTypeMessage), 0), 1);
    RunFour(InitialPanel, Choose(Some(a)), Click, Choose(Some(n)), Settled(Answered));
  }

  /** Choosing another valid file while one is being sent re-enables the
      button, so two requests can be out at once. */
  lemma TwoUploadsInFlight(a: File, b: File)
    requires IsFileValid(Some(a)) && IsFileValid(Some(b))
    ensures Run(InitialPanel, [Choose(Some(a)), Click, Choose(Some(b)), Click]).inFlight == 2
  {
    ValidFileHasEndpoint(a);
    ValidFileHasEndpoint(b);
    var p1 := Step(InitialPanel, Choose(Some(a)));
    var p2 := Step(p1, Click);
    assert p2 == Panel(UploadState(Some(a), Uploading, false, None, 0), 1);
    var p3 := Step(p2, Choose(Some(b)));
    assert p3 == Panel(UploadState(Some(b), Idle, false, None, 0), 1);
    RunFour(InitialPanel, Choose(Some(a)), Click, Choose(Some(b)), Click);
  }

  /** Any `.csv` name is valid and any `.txt` name is not, so both lemmas
      above apply, for instance, to `a.csv`, `b.csv` and `notes.txt`. */
  lemma CsvValidTxtInvalid(stem: string)
    ensures IsFileValid(Some(File(stem + ".csv")))
    ensures !IsFileValid(Some(File(stem + ".txt")))
  {
    assert ToLower("csv") == "csv";
    assert ToLower("txt") == "txt";
    ExtensionOf(stem, "csv");
    ExtensionOf(stem, "txt");
    assert stem + "." + "csv" == stem + ".csv";
    assert stem + "." + "txt" == stem + ".txt";
  }
}
