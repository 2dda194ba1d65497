/** The two independent state machines of OtolithClassifier.jsx: the otolith
    image classifier and the eDNA sequence matcher. Each asynchronous
    handler is split into the synchronous part before its request and the
    completion that runs when the request settles. */
module OtolithPanel {

  import opened Wrappers
  import opened Text
  import Api

  /** A browser `File`, known only by name. */
  datatype ImageFile = ImageFile(name: string)

  /** What `otolithResult` can hold: the response body, or the client-side
      error object set when the request failed. */
  datatype OtolithResult = Received(body: Api.ClassifyResponse) | ClassifyFailed(error: string)

  /** The `EdnaMatchResponse` body. */
  datatype EdnaMatch = EdnaMatch(success: bool, matched: bool, header: Option<string>)

  datatype DnaResult = Matched(body: EdnaMatch) | MatchFailed(error: string)

  datatype OtolithState = OtolithState(image: Option<ImageFile>, result: Option<OtolithResult>, loading: bool)

  datatype DnaState = DnaState(sequence: string, result: Option<DnaResult>, loading: bool)

  datatype Panel = Panel(otolith: OtolithState, dna: DnaState)

  const OtolithInitial := OtolithState(None, None, false)
  const DnaInitial := DnaState("", None, false)
  const Initial := Panel(OtolithInitial, DnaInitial)

  const ClassifyErrorMessage := "Failed to classify image"
  const DnaErrorMessage := "Server error"

  // -------------------------------------------------------------- otolith

  /** `resetOtolith`. */
  function ResetOtolith(s: OtolithState): (r: OtolithState)
    ensures r.image.None? && r.result.None? && !r.loading
  {
    OtolithInitial
  }

  /** `handleOtolithUpload` with the chosen files (none when the input's
      `files` is null or empty): the first file replaces the image and clears
      the result; with no file nothing changes. */
  function UploadOtolith(s: OtolithState, files: seq<ImageFile>): (r: OtolithState)
    ensures |files| == 0 ==> r == s
    ensures |files| > 0 ==> r.image == Some(files[0]) && r.result.None? && r.loading == s.loading
  {
    if |files| > 0 then s.(image := Some(files[0]), result := None) else s
  }

  /** The part of `handleOtolithClassification` before the request: nothing
      without an image, otherwise loading with the old result cleared. The
      second component says whether a request was sent. */
  function StartClassification(s: OtolithState): (r: (OtolithState, bool))
    ensures r.1 <==> s.image.Some?
    ensures !r.1 ==> r.0 == s
    ensures r.1 ==> r.0 == OtolithState(s.image, None, true)
  {
    if s.image.None? then (s, false) else (s.(loading := true, result := None), true)
  }

  /** The completion of `handleOtolithClassification`: the response body, or
      the fixed error object, and loading off either way. */
  function FinishClassification(s: OtolithState, response: Result<Api.ClassifyResponse, string>): (r: OtolithState)
    ensures r.image == s.image && !r.loading
    ensures response.Success? ==> r.result == Some(Received(response.value))
    ensures response.Failure? ==> r.result == Some(ClassifyFailed(ClassifyErrorMessage))
  {
    var result := match response
      case Success(body) => Received(body)
      case Failure(_) => ClassifyFailed(ClassifyErrorMessage);
    s.(result := Some(result), loading := false)
  }

  // ----------------------------------------------------------------- eDNA

  /** `resetDNA`. */
  function ResetDna(s: DnaState): (r: DnaState)
    ensures r.sequence == "" && r.result.None? && !r.loading
  {
    DnaInitial
  }

  /** The textarea's `onChange`. */
  function SetDnaSequence(s: DnaState, text: string): (r: DnaState)
    ensures r.sequence == text && r.result == s.result && r.loading == s.loading
  {
    s.(sequence := text)
  }

  /** The part of `handleDNAMatch` before the request: nothing when the
      sequence is blank, otherwise loading with the old result cleared. */
  function StartMatch(s: DnaState): (r: (DnaState, bool))
    ensures r.1 <==> !IsBlank(s.sequence)
    ensures !r.1 ==> r.0 == s
    ensures r.1 ==> r.0 == DnaState(s.sequence, None, true)
  {
    TrimEmptyIff(s.sequence);
    if Trim(s.sequence) == "" then (s, false) else (s.(loading := true, result := None), true)
  }

  /** The completion of `handleDNAMatch`. */
  function FinishMatch(s: DnaState, response: Result<EdnaMatch, string>): (r: DnaState)
    ensures r.sequence == s.sequence && !r.loading
    ensures response.Success? ==> r.result == Some(Matched(response.value))
    ensures response.Failure? ==> r.result == Some(MatchFailed(DnaErrorMessage))
  {
    var result := match response
      case Success(body) => Matched(body)
      case Failure(_) => MatchFailed(DnaErrorMessage);
    s.(result := Some(result), loading := false)
  }

  // --------------------------------------------------------------- events

  datatype Event =
    | ResetOtolithClicked
    | OtolithFilesChosen(files: seq<ImageFile>)
    | ClassifyClicked
    | ClassifySettled(response: Result<Api.ClassifyResponse, string>)
    | ResetDnaClicked
    | SequenceEdited(text: string)
    | MatchClicked
    | MatchSettled(answer: Result<EdnaMatch, string>)

  predicate IsOtolithEvent(e: Event) {
    e.ResetOtolithClicked? || e.OtolithFilesChosen? || e.ClassifyClicked? || e.ClassifySettled?
  }

  /** Whether the page offers the control behind `e` in state `p`. The file
      input is rendered only while there is no image. The classify button
      appears with an image, no result and no request loading, and "Upload
      New Otolith" only beside a result. The match button appears with no
      result and nothing loading, and is disabled while the sequence is
      blank; the eDNA reset appears only beside a result. The textarea is
      always there. A completion settles the one request its half has out,
      which is while that half is loading. */
  predicate Offered(p: Panel, e: Event) {
    match e
    case ResetOtolithClicked => p.otolith.image.Some? && p.otolith.result.Some?
    case OtolithFilesChosen(_) => p.otolith.image.None?
    case ClassifyClicked => p.otolith.image.Some? && p.otolith.result.None? && !p.otolith.loading
    case ClassifySettled(_) => p.otolith.loading
    case ResetDnaClicked => p.dna.result.Some?
    case SequenceEdited(_) => true
    case MatchClicked => p.dna.result.None? && !p.dna.loading && !IsBlank(p.dna.sequence)
    case MatchSettled(_) => p.dna.loading
  }

  /** One handler run on the whole component state; an event the page does
      not offer in that state changes nothing. */
  function Step(p: Panel, e: Event): (r: Panel)
    ensures !Offered(p, e) ==> r == p
    ensures IsOtolithEvent(e) ==> r.dna == p.dna
    ensures !IsOtolithEvent(e) ==> r.otolith == p.otolith
    ensures Offered(p, e) && e.ClassifyClicked? ==> r.otolith == OtolithState(p.otolith.image, None, true)
    ensures Offered(p, e) && e.MatchClicked? ==> r.dna == DnaState(p.dna.sequence, None, true)
  {
    if !Offered(p, e) then p
    else match e
      case ResetOtolithClicked => p.(otolith := ResetOtolith(p.otolith))
      case OtolithFilesChosen(files) => p.(otolith := UploadOtolith(p.otolith, files))
      case ClassifyClicked => p.(otolith := StartClassification(p.otolith).0)
      case ClassifySettled(response) => p.(otolith := FinishClassification(p.otolith, response))
      case ResetDnaClicked => p.(dna := ResetDna(p.dna))
      case SequenceEdited(text) => p.(dna := SetDnaSequence(p.dna, text))
      case MatchClicked => p.(dna := StartMatch(p.dna).0)
      case MatchSettled(answer) => p.(dna := FinishMatch(p.dna, answer))
  }

  function Run(p: Panel, es: seq<Event>): Panel
    decreases |es|
  {
    if |es| == 0 then p else Step(Run(p, es[..|es| - 1]), es[|es| - 1])
  }

  /** However the otolith handlers are driven, the eDNA state is untouched. */
  lemma {:induction false} OtolithEventsLeaveDna(p: Panel, es: seq<Event>)
    requires forall i :: 0 <= i < |es| ==> IsOtolithEvent(es[i])
    ensures Run(p, es).dna == p.dna
    decreases |es|
  {
    if |es| > 0 {
      OtolithEventsLeaveDna(p, es[..|es| - 1]);
    }
  }

  /** However the eDNA handlers are driven, the otolith state is untouched. */
  lemma {:induction false} DnaEventsLeaveOtolith(p: Panel, es: seq<Event>)
    requires forall i :: 0 <= i < |es| ==> !IsOtolithEvent(es[i])
    ensures Run(p, es).otolith == p.otolith
    decreases |es|
  {
    if |es| > 0 {
      DnaEventsLeaveOtolith(p, es[..|es| - 1]);
    }
  }

  /** Neither panel shows a result while its request is loading, and the
      otolith half loads or shows a result only for an image it holds. */
  predicate Inv(p: Panel) {
    && (p.otolith.loading ==> p.otolith.result.None?)
    && (p.otolith.loading || p.otolith.result.Some? ==> p.otolith.image.Some?)
    && (p.dna.loading ==> p.dna.result.None?)
  }

  lemma {:induction false} RunKeepsInv(p: Panel, es: seq<Event>)
    requires Inv(p)
    ensures Inv(Run(p, es))
    decreases |es|
  {
    if |es| > 0 {
      RunKeepsInv(p, es[..|es| - 1]);
    }
  }
}
