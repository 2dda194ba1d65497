/** The request handlers of backend/app/main.py, with their database queries,
    object store, classifier and language model turned into inputs: the
    row-to-response mapping of the two sightings endpoints, the stored
    otolith's object name, the species name attached to a hypothesis, and
    the chat endpoint's fallbacks. */
module Api {

  import opened Wrappers
  import opened Text
  import opened Seqs
  import AnalysisService
  import Classifier

  // ------------------------------------------------------------ responses

  /** A `species` row as the ORM loads it. */
  datatype SpeciesRecord = SpeciesRecord(
    id: int, scientificName: string, commonName: Option<string>,
    description: Option<string>, habitat: Option<string>)

  /** The `species_data` dictionary of `get_sightings_data`: every field filled. */
  datatype SpeciesOut = SpeciesOut(
    id: int, scientificName: string, commonName: string, description: string, habitat: string)

  /** One element of a sightings response; `S` is the shape of its species. */
  datatype SightingOut<S> = SightingOut(
    sightingId: string, latitude: real, longitude: real, sightingDate: string,
    seaSurfaceTemp: Option<real>, salinity: Option<real>, chlorophyll: Option<real>,
    species: S)

  /** One row of the outer join in `get_sightings_data`: every species column
      is null for a sighting without a species, and a location may be null. */
  datatype DataRow = DataRow(
    id: int, sightingDate: string,
    seaSurfaceTemp: Option<real>, salinity: Option<real>, chlorophyll: Option<real>,
    speciesId: Option<int>, scientificName: Option<string>, commonName: Option<string>,
    description: Option<string>, habitat: Option<string>,
    latitude: Option<real>, longitude: Option<real>)

  /** One row of `get_sightings_sample`: a located sighting and its species
      relationship. */
  datatype SampleRow = SampleRow(
    id: int, sightingDate: string,
    seaSurfaceTemp: Option<real>, salinity: Option<real>, chlorophyll: Option<real>,
    species: Option<SpeciesRecord>, latitude: real, longitude: real)

  const SightingIdPrefix := "CMLRE-SIGHT-"

  /** `f"CMLRE-SIGHT-{id}"`. */
  function SightingId(id: int): (s: string)
    ensures |s| > |SightingIdPrefix| && s[..|SightingIdPrefix|] == SightingIdPrefix
  {
    SightingIdPrefix + IntToDecimal(id)
  }

  /** The row id can be read back from the sighting id, so distinct rows get
      distinct ids. */
  lemma SightingIdRoundTrip(a: int, b: int)
    ensures ParseDecimal(SightingId(a)[|SightingIdPrefix|..]) == Some(a)
    ensures SightingId(a) == SightingId(b) <==> a == b
  {
    assert SightingId(a)[|SightingIdPrefix|..] == IntToDecimal(a);
    assert SightingId(b)[|SightingIdPrefix|..] == IntToDecimal(b);
    IntToDecimalRoundTrip(a);
    IntToDecimalInjective(a, b);
  }

  /** Python's `x or default` on an optional text column. */
  function TextOr(x: Option<string>, default: string): (r: string)
    ensures x.Some? && x.value != "" ==> r == x.value
    ensures x.None? || x.value == "" ==> r == default
  {
    if x.Some? && x.value != "" then x.value else default
  }

  /** `float(x) if x else None`: a null and a zero reading both become null. */
  function TruthyReading(x: Option<real>): (r: Option<real>)
    ensures r.Some? <==> x.Some? && x.value != 0.0
    ensures r.Some? ==> r == x
  {
    if x.Some? && x.value != 0.0 then x else None
  }

  /** The species dictionary of `get_sightings_data`, with its defaults. */
  function SpeciesData(row: DataRow): (s: SpeciesOut)
    ensures s.id == (if row.speciesId.Some? then row.speciesId.value else 0)
    ensures s.scientificName != "" && s.commonName != ""
    ensures s.scientificName == TextOr(row.scientificName, "Unknown")
    ensures s.commonName == TextOr(row.commonName, "Unknown")
    ensures s.description == TextOr(row.description, "")
    ensures s.habitat == TextOr(row.habitat, "")
  {
    SpeciesOut(
      row.speciesId.GetOr(0),
      TextOr(row.scientificName, "Unknown"),
      TextOr(row.commonName, "Unknown"),
      TextOr(row.description, ""),
      TextOr(row.habitat, ""))
  }

  /** One response element of `get_sightings_data`. */
  function DataResponse(row: DataRow): (r: SightingOut<SpeciesOut>)
    ensures r.sightingId == SightingId(row.id)
    ensures r.sightingDate == row.sightingDate
    ensures r.latitude == (if row.latitude.Some? then row.latitude.value else 0.0)
    ensures r.longitude == (if row.longitude.Some? then row.longitude.value else 0.0)
    ensures r.seaSurfaceTemp == TruthyReading(row.seaSurfaceTemp)
    ensures r.salinity == TruthyReading(row.salinity)
    ensures r.chlorophyll == TruthyReading(row.chlorophyll)
    ensures r.species == SpeciesData(row)
  {
    SightingOut(
      SightingId(row.id),
      row.latitude.GetOr(0.0),
      row.longitude.GetOr(0.0),
      row.sightingDate,
      TruthyReading(row.seaSurfaceTemp),
      TruthyReading(row.salinity),
      TruthyReading(row.chlorophyll),
      SpeciesData(row))
  }

  /** A sighting without a species still gets a complete species object:
      id 0, both names "Unknown", empty description and habitat. */
  lemma OrphanSightingDefaults(row: DataRow)
    requires row.speciesId.None? && row.scientificName.None? && row.commonName.None?
    requires row.description.None? && row.habitat.None?
    ensures DataResponse(row).species == SpeciesOut(0, "Unknown", "Unknown", "", "")
  {
  }

  /** A genuine reading of exactly zero is reported as missing. */
  lemma ZeroReadingDisappears(row: DataRow)
    requires row.seaSurfaceTemp == Some(0.0)
    ensures DataResponse(row).seaSurfaceTemp.None?
  {
  }

  /** The response loop of `get_sightings_data`: one element per row, in row
      order. */
  function DataResponses(rows: seq<DataRow>): (r: seq<SightingOut<SpeciesOut>>)
    ensures |r| == |rows|
    ensures forall i :: 0 <= i < |rows| ==> r[i] == DataResponse(rows[i])
  {
    Map(rows, DataResponse)
  }

  /** One response element of `get_sightings_sample`; the species is the
      relationship as loaded, with no defaults. */
  function SampleResponse(row: SampleRow): (r: SightingOut<Option<SpeciesRecord>>)
    ensures r.sightingId == SightingId(row.id)
    ensures r.sightingDate == row.sightingDate && r.species == row.species
    ensures r.latitude == row.latitude && r.longitude == row.longitude
    ensures r.seaSurfaceTemp == TruthyReading(row.seaSurfaceTemp)
    ensures r.salinity == TruthyReading(row.salinity)
    ensures r.chlorophyll == TruthyReading(row.chlorophyll)
  {
    SightingOut(
      SightingId(row.id), row.latitude, row.longitude, row.sightingDate,
      TruthyReading(row.seaSurfaceTemp), TruthyReading(row.salinity), TruthyReading(row.chlorophyll),
      row.species)
  }

  /** The response loop of `get_sightings_sample`. */
  function SampleResponses(rows: seq<SampleRow>): (r: seq<SightingOut<Option<SpeciesRecord>>>)
    ensures |r| == |rows|
    ensures forall i :: 0 <= i < |rows| ==> r[i] == SampleResponse(rows[i])
  {
    Map(rows, SampleResponse)
  }

  /** Both endpoints give a row the same sighting id and readings, so a
      sighting looks the same in the sample and in the full listing. */
  lemma EndpointsAgree(d: seq<DataRow>, s: seq<SampleRow>)
    requires |d| == |s|
    requires forall i :: 0 <= i < |d| ==>
      d[i].id == s[i].id && d[i].seaSurfaceTemp == s[i].seaSurfaceTemp &&
      d[i].salinity == s[i].salinity && d[i].chlorophyll == s[i].chlorophyll
    ensures forall i :: 0 <= i < |d| ==>
      && DataResponses(d)[i].sightingId == SampleResponses(s)[i].sightingId
      && DataResponses(d)[i].seaSurfaceTemp == SampleResponses(s)[i].seaSurfaceTemp
      && DataResponses(d)[i].salinity == SampleResponses(s)[i].salinity
      && DataResponses(d)[i].chlorophyll == SampleResponses(s)[i].chlorophyll
  {
  }

  // ------------------------------------------------------- otolith upload

  /** `f"{species.replace(' ', '_')}/{uuid}.{filename.split('.')[-1]}"`. */
  function ObjectName(predictedSpecies: string, uuid: string, filename: string): string {
    ReplaceChar(predictedSpecies, ' ', '_') + "/" + uuid + "." + LastSegment(filename, '.')
  }

  /** The object name splits back into its parts: the folder before the first
      '/' is the species with no spaces left, and the extension after the last
      '.' is the upload's. */
  lemma ObjectNameParts(predictedSpecies: string, uuid: string, filename: string)
    requires '/' !in predictedSpecies
    ensures FirstSegment(ObjectName(predictedSpecies, uuid, filename), '/') == ReplaceChar(predictedSpecies, ' ', '_')
    ensures ' ' !in FirstSegment(ObjectName(predictedSpecies, uuid, filename), '/')
    ensures LastSegment(ObjectName(predictedSpecies, uuid, filename), '.') == LastSegment(filename, '.')
  {
    var folder := ReplaceChar(predictedSpecies, ' ', '_');
    var ext := LastSegment(filename, '.');
    LastSegmentFree(filename, '.');
    var name := ObjectName(predictedSpecies, uuid, filename);
    ReplaceCharRemoves(predictedSpecies, ' ', '_');
    assert '/' !in folder;
    assert name == folder + ['/'] + (uuid + "." + ext);
    FirstSegmentBeforeSep(folder, uuid + "." + ext, '/');
    assert name == (folder + "/" + uuid) + ['.'] + ext;
    LastSegmentAfterSep(folder + "/" + uuid, ext, '.');
  }

  /** What `classify_otolith_image` answers. */
  datatype ClassifyResponse = Classified(prediction: Classifier.Prediction) | ErrorBody(error: string)

  /** `classify_otolith_image`: the prediction is answered only after the
      image is stored under its object name; any exception, from the
      classifier or from the store, becomes `{"error": str(e)}`. The second
      component is the object name written, if any. */
  function ClassifyOtolith(
    prediction: Result<Classifier.Prediction, string>, uuid: string, filename: string,
    storeFailure: Option<string>): (r: (ClassifyResponse, Option<string>))
    ensures prediction.Failure? ==> r == (ErrorBody(prediction.error), None)
    ensures prediction.Success? && storeFailure.Some? ==> r == (ErrorBody(storeFailure.value), None)
    ensures prediction.Success? && storeFailure.None? ==>
      r == (Classified(prediction.value), Some(ObjectName(prediction.value.predictedSpecies, uuid, filename)))
    ensures r.0.Classified? <==> r.1.Some?
  {
    match prediction
    case Failure(e) => (ErrorBody(e), None)
    case Success(p) =>
      if storeFailure.Some? then (ErrorBody(storeFailure.value), None)
      else (Classified(p), Some(ObjectName(p.predictedSpecies, uuid, filename)))
  }

  // ------------------------------------------------------------ hypotheses

  /** The `source_finding` dictionary: the finding, and `species_name` when
      it was attached (itself possibly null, like the column). */
  datatype SourceFinding = SourceFinding(finding: AnalysisService.Finding, speciesName: Option<Option<string>>)

  /** The species-name step of `get_ai_hypotheses`: only a truthy species id
      whose species row is found gets a name, and it is that row's common
      name. */
  function AttachSpeciesName(f: AnalysisService.Finding, lookup: int -> Option<SpeciesRecord>): (r: SourceFinding)
    ensures r.finding == f
    ensures r.speciesName.Some? <==>
      f.speciesId.Some? && f.speciesId.value != 0 && lookup(f.speciesId.value).Some?
    ensures r.speciesName.Some? ==> r.speciesName.value == lookup(f.speciesId.value).value.commonName
  {
    if f.speciesId.Some? && f.speciesId.value != 0 then
      match lookup(f.speciesId.value)
      case Some(species) => SourceFinding(f, Some(species.commonName))
      case None => SourceFinding(f, None)
    else SourceFinding(f, None)
  }

  datatype HypothesisResponse = HypothesisResponse(hypothesis: string, sourceFinding: SourceFinding)

  /** `get_ai_hypotheses`: the cached strongest finding, its species name, and
      the language model's hypothesis about both, or the exception the lookup
      raised, which the endpoint does not catch (an HTTP 500); the cache it
      leaves is the second component. */
  function Hypotheses(
    cache: AnalysisService.Redis, query: int -> Option<AnalysisService.CorrelationRow>,
    lookup: int -> Option<SpeciesRecord>, generate: SourceFinding -> string)
    : (r: (Result<HypothesisResponse, string>, AnalysisService.Redis))
    ensures var lookupResult := AnalysisService.FindStrongest(cache, true, query);
      && r.1 == lookupResult.cache
      && (r.0.Failure? <==> lookupResult.finding.Failure?)
      && (r.0.Failure? ==> r.0.error == lookupResult.finding.error)
      && (r.0.Success? ==>
            && r.0.value.sourceFinding == AttachSpeciesName(lookupResult.finding.value, lookup)
            && r.0.value.hypothesis == generate(r.0.value.sourceFinding))
  {
    var found := AnalysisService.FindStrongest(cache, true, query);
    match found.finding
    case Failure(e) => (Failure(e), found.cache)
    case Success(f) =>
      var source := AttachSpeciesName(f, lookup);
      (Success(HypothesisResponse(generate(source), source)), found.cache)
  }

  /** The fallback finding never names a species. */
  lemma FallbackHasNoSpeciesName(lookup: int -> Option<SpeciesRecord>)
    ensures AttachSpeciesName(AnalysisService.NoFinding, lookup).speciesName.None?
  {
  }

  // ------------------------------------------------------------------ chat

  datatype ChatRequest = ChatRequest(userInput: string, context: Option<string>)

  const ChatApology := "Sorry, I couldn't generate a response at this time."

  /** `request.context or ""`. */
  function ChatContext(req: ChatRequest): (c: string)
    ensures req.context.None? ==> c == ""
    ensures req.context.Some? ==> c == req.context.value
  {
    req.context.GetOr("")
  }

  /** `chat_endpoint`: the model's reply, or the fixed apology when it raises. */
  function ChatEndpoint(req: ChatRequest, llm: (string, string) -> Result<string, string>): (reply: string)
    ensures llm(req.userInput, ChatContext(req)).Success? ==> reply == llm(req.userInput, ChatContext(req)).value
    ensures llm(req.userInput, ChatContext(req)).Failure? ==> reply == ChatApology
  {
    match llm(req.userInput, ChatContext(req))
    case Success(text) => text
    case Failure(_) => ChatApology
  }

  /** The model never sees an absent context: a request without one is
      answered exactly like a request with an empty one. */
  lemma AbsentContextIsEmpty(userInput: string, llm: (string, string) -> Result<string, string>)
    ensures ChatEndpoint(ChatRequest(userInput, None), llm) == ChatEndpoint(ChatRequest(userInput, Some("")), llm)
  {
  }
}
