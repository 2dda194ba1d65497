# TATTVA marine-data platform: a Dafny model of its core

TATTVA is a dashboard for marine sightings: a FastAPI backend over a
PostGIS database, a Redis cache and a Keras otolith classifier, and a React
front end. This project models the logic of that system that involves
decisions, as pure functions over immutable data, and proves what that logic
promises. Everything that talks to the outside world becomes an input:

- database queries are rows or functions from a threshold to a row;
- the id sequence is a starting number;
- the language model, the object store and the HTTP client are results
  passed in;
- the classifier's probabilities are given, not computed.

Modules, one per source file, on top of three shared ones:

- `Wrappers`: `Option` and `Result`.
- `Text`: split/join, case folding, substring search, decimal rendering,
  JavaScript `trim`.
- `Seqs`: order-preserving filter, first-occurrence dedup, argmax, flatten.
- `FileUploader` (FileUploader.jsx): file validation, endpoint choice,
  progress percentage, and the upload state machine.
- `FilterPanel` (FilterPanel.jsx): species search, selection and the
  species/date filter.
- `ChartWidget` (ChartWidget.jsx): the per-species group-by and mean.
- `BulkUpload` (bulk_upload.py): column renaming and filling, dropping
  incomplete rows, the coordinate check, species de-duplication and batching.
- `Classifier` (ml/classifier.py): class-map inversion, load-once, argmax and
  confidence banding.
- `AnalysisService` (analysis_service.py): choosing the strongest
  correlation, the retry over thresholds, and the Redis cache.
- `Api` (main.py): the row-to-response mapping, sighting ids, the otolith
  object name, the hypothesis species name and the chat fallback.
- `OtolithPanel` (OtolithClassifier.jsx): the otolith and eDNA state
  machines.
- `ChatInterface` (ChatInterface.jsx): the message list and the send guard.

Asynchronous handlers are split in two: the synchronous part that runs before
the request, and the completion that runs when the request settles. Sequences
of such events are folded with `Run`, so properties over every interleaving
of user actions and completions are lemmas about `Run`. In the upload panel
the file input and the drop zone stay live while a request is out, and only
the button is guarded (hidden after success, disabled while uploading), so
its `Run` lets a new file be chosen, or a second request be sent, before the
first one settles. Every settlement writes the shared status, so the last one
to settle decides it. The otolith panel's `Run` admits an event only in the
states where the page renders its control, so each half has at most one
request out and nothing is reset under it.

Three behaviours of the code are easy to expect otherwise:

- The dashboard fetches without sequencing: there is no viewport-synchronised
  fetch with sequence numbers or last-response-wins in the code modelled
  here, so the model has no request coordinator.
- The per-species mean counts null temperatures. ChartWidget.jsx pushes
  every reading, null included, and sums with `a + b` starting from 0. A
  null therefore adds 0 to the sum but 1 to the count:
  `ChartWidget.NullReadingPullsMeanToZero` proves that readings 10 and null
  give 5, not 10.
- The filter panel reads its species from the constant `DUMMY_SPECIES_LIST`
  and its sightings from `DUMMY_SIGHTINGS_DATA`, which is empty
  (FilterPanel.jsx:4-14). The model takes both lists as inputs, so its
  lemmas hold for any data; with the constants as written, applying the
  filters passes the empty list, or alerts when a field is empty
  (`FilterPanel.ApplyToShippedData`).

## Model

| member | source | states |
|---|---|---|
| Text.Split | frontend/src/features/dataUpload/FileUploader.jsx:17 | `split` yields at least one part. |
| Text.SplitPartsFree | frontend/src/features/dataUpload/FileUploader.jsx:17 | No part of a split contains the separator. |
| Text.JoinSplit | frontend/src/features/dataUpload/FileUploader.jsx:17 | Joining the parts with the separator gives back the input. |
| Text.SplitSingleIff | frontend/src/features/dataUpload/FileUploader.jsx:17 | There is exactly one part iff the separator does not occur. |
| Text.SplitJoin | frontend/src/features/dataUpload/FileUploader.jsx:17 | Splitting a join of separator-free parts gives back the parts (round trip). |
| Text.SplitAppend | frontend/src/features/dataUpload/FileUploader.jsx:17 | Splitting `a + sep + b` is splitting `a` followed by splitting `b`. |
| Text.LastSegmentAfterSep | frontend/src/features/dataUpload/FileUploader.jsx:17 | `.pop()` after `split` is the separator-free suffix after the last separator, whatever precedes it. |
| Text.LastSegmentFree | backend/app/main.py:151 | `split(sep)[-1]` never contains the separator. |
| Text.ToLower | frontend/src/features/dataUpload/FileUploader.jsx:17 | Lowercasing keeps the length and maps each character through ASCII lowercasing. |
| Text.ToLowerIdempotent | frontend/src/features/dataUpload/FileUploader.jsx:17 | Lowercasing twice is lowercasing once. |
| Text.ContainsIff | frontend/src/components/dashboard/FilterPanel.jsx:30 | `includes` holds iff the needle occurs at some index. |
| Text.ReplaceChar | backend/app/main.py:151 | `replace` of one character keeps the length, and changes exactly the matching positions to the replacement. |
| Text.ReplaceCharRemoves | backend/app/ml/classifier.py:60 | After replacing `from` by a different character, `from` no longer occurs. |
| Text.NatToDecimalRoundTrip | backend/app/main.py:80 | The digits rendered for a natural number read back as that number. |
| Text.IntToDecimal | frontend/src/components/dashboard/FilterPanel.jsx:35 | `toString` of an integer is non-empty and starts with '-' exactly for negatives. |
| Text.IntToDecimalRoundTrip | frontend/src/components/dashboard/FilterPanel.jsx:35 | Parsing the decimal rendering of any integer gives the integer back. |
| Text.IntToDecimalInjective | frontend/src/components/dashboard/FilterPanel.jsx:48 | Two integers render to the same text iff they are equal, so comparing `toString` values compares ids. |
| Text.TrimEmptyIff | frontend/src/features/conversation/ChatInterface.jsx:21 | `trim()` is empty iff every character is JavaScript whitespace. |
| Text.TrimStartBlank | frontend/src/features/conversation/ChatInterface.jsx:21 | Trimming the front gives the empty string iff the text is all whitespace. |
| Text.TrimStartStops | frontend/src/features/conversation/ChatInterface.jsx:21 | A non-empty front-trimmed text starts with a non-whitespace character. |
| Seqs.Filter | frontend/src/components/dashboard/FilterPanel.jsx:29-31 | `filter` keeps exactly the elements that satisfy the predicate, and never more elements than the input. |
| Seqs.FilterConcat | frontend/src/components/dashboard/FilterPanel.jsx:45-51 | Filtering distributes over concatenation, so kept elements keep their relative order. |
| Seqs.FilterAll | frontend/src/components/dashboard/FilterPanel.jsx:26-28 | Filtering with a predicate every element meets returns the input unchanged. |
| Seqs.Dedup | frontend/src/components/dashboard/ChartWidget.jsx:43 | The distinct keys, each once, with the same elements as the input. |
| Seqs.ArgMax | backend/app/ml/classifier.py:52 | Returns an in-range index whose element is at least every element and strictly above every earlier one: the first maximum. |
| Seqs.Map | backend/app/main.py:124-135 | Building one element per row gives exactly one result per row, in row order. |
| FileUploader.ValidIffExtensionAccepted | frontend/src/features/dataUpload/FileUploader.jsx:15-19 | A name ending in `.ext` is valid iff `ext`, lowercased, is csv, fasta or fa. |
| FileUploader.ValidDotFreeName | frontend/src/features/dataUpload/FileUploader.jsx:15-19 | A name without a dot is valid iff the whole name, lowercased, is an accepted extension. |
| FileUploader.Endpoint | frontend/src/features/dataUpload/FileUploader.jsx:62-71 | csv goes to `/upload/csv`, and fasta or fa to `/upload/edna`. There is no endpoint iff the extension is not accepted. |
| FileUploader.ValidFileHasEndpoint | frontend/src/features/dataUpload/FileUploader.jsx:15-71 | Every file `isFileValid` accepts gets an endpoint, so the "Unsupported file type." branch is unreachable for a held file. |
| FileUploader.ProcessFile | frontend/src/features/dataUpload/FileUploader.jsx:21-31 | A valid file is held with error cleared, status idle and progress 0. An invalid or missing file clears the held file and sets the invalid-type message, leaving status and progress as they were. |
| FileUploader.HandleDrag | frontend/src/features/dataUpload/FileUploader.jsx:38-42 | The drop zone is active iff the event is dragenter or dragover. Nothing else changes. |
| FileUploader.HandleDrop | frontend/src/features/dataUpload/FileUploader.jsx:44-50 | A drop deactivates the zone, then processes the dropped file. |
| FileUploader.PercentBounds | frontend/src/features/dataUpload/FileUploader.jsx:76-83 | `Math.round(loaded*100/total)` lies between 0 and 100 for 0 <= loaded <= total: 0 at the start and 100 at the end. |
| FileUploader.OnProgress | frontend/src/features/dataUpload/FileUploader.jsx:76-83 | An event without a total changes nothing. Otherwise only the progress changes, to the rounded percentage. |
| FileUploader.ApplyProgressBounded | frontend/src/features/dataUpload/FileUploader.jsx:76-83 | Any series of well-formed progress events keeps progress within 0..100. |
| FileUploader.StartUpload | frontend/src/features/dataUpload/FileUploader.jsx:55-57 | Starting an upload sets status uploading, clears the error and zeroes progress. File and drag state are untouched. |
| FileUploader.ClickUpload | frontend/src/features/dataUpload/FileUploader.jsx:52-71 | With no file nothing happens and nothing is sent. A POST goes out iff the file has an endpoint, after the upload starts. Without an endpoint the upload ends at once with "Unsupported file type." and the error status. |
| FileUploader.Settle | frontend/src/features/dataUpload/FileUploader.jsx:86-93 | The status becomes success iff the server answered and error iff the request threw. A throw sets the failure message; an answer leaves the error as it was. File, drag state and progress are untouched. |
| FileUploader.HandleUploadClick | frontend/src/features/dataUpload/FileUploader.jsx:52-94 | An upload nothing interrupts: with no file nothing happens; otherwise it ends in success or error, keeping the file, and success means no error and an answered request. |
| FileUploader.Step | frontend/src/features/dataUpload/FileUploader.jsx:110-121 | A click while the button is hidden or disabled changes nothing; an enabled click starts the upload and counts one more request out iff a POST was sent. Progress and settlements with no request out change nothing; a settlement applies `Settle` and counts one request fewer. |
| FileUploader.RunAppend | frontend/src/features/dataUpload/FileUploader.jsx:21-94 | Running two series of actions one after the other is running their concatenation. |
| FileUploader.RunProgress | frontend/src/features/dataUpload/FileUploader.jsx:76-83 | While a request is out, a series of progress actions on the panel is `ApplyProgress` of their events. |
| FileUploader.RunIdle | frontend/src/features/dataUpload/FileUploader.jsx:76-93 | With no request out, any series of progress events and settlements leaves the panel as it was. |
| FileUploader.UninterruptedUpload | frontend/src/features/dataUpload/FileUploader.jsx:52-94 | A click, its progress events and its settlement, run on the panel with no request out, give `HandleUploadClick` and leave no request out. |
| FileUploader.UploadOfValidFile | frontend/src/features/dataUpload/FileUploader.jsx:52-94 | For a valid held file and an enabled button, an upload nothing interrupts ends in success iff the request was answered, in error iff the failure message is set, and never with "Unsupported file type.". |
| FileUploader.LastSettlementWins | frontend/src/features/dataUpload/FileUploader.jsx:86-93 | Whatever happened before, while a request is out its settlement decides the status: success iff it was answered, and an answer leaves the earlier error message in place. |
| FileUploader.StepKeepsValid | frontend/src/features/dataUpload/FileUploader.jsx:21-121 | Every single action keeps the held file absent or valid. |
| FileUploader.HeldFileAlwaysValid | frontend/src/features/dataUpload/FileUploader.jsx:21-121 | Over any sequence of selections, drops, drags, clicks, progress events and settlements, the held file is always valid and always has an endpoint. |
| FileUploader.ExtensionOf | frontend/src/features/dataUpload/FileUploader.jsx:17 | The extension of `stem.ext`, for a dot-free lowercase `ext`, is `ext`. |
| FileUploader.SuccessBesideInvalidType | frontend/src/features/dataUpload/FileUploader.jsx:21-121 | Choosing an invalid file while a valid one is being sent, then having the server answer, leaves status success beside the invalid-type message and no held file. |
| FileUploader.TwoUploadsInFlight | frontend/src/features/dataUpload/FileUploader.jsx:21-213 | Choosing a second valid file during an upload re-enables the button, so a second click puts two requests out at once. |
| FileUploader.CsvValidTxtInvalid | frontend/src/features/dataUpload/FileUploader.jsx:15-19 | Every `.csv` name is valid and no `.txt` name is. |
| FilterPanel.FilteredSpecies | frontend/src/components/dashboard/FilterPanel.jsx:25-32 | An empty term gives the whole list. Otherwise the result is the order-preserving filter, holding exactly the species whose lowercased name contains the lowercased term. |
| FilterPanel.EmptyTermIsFilter | frontend/src/components/dashboard/FilterPanel.jsx:26-28 | The empty-term shortcut agrees with filtering by the empty term. |
| FilterPanel.MatchesIff | frontend/src/components/dashboard/FilterPanel.jsx:30 | A species matches iff the lowercased term occurs at some index of its lowercased common name. |
| FilterPanel.SelectSpecies | frontend/src/components/dashboard/FilterPanel.jsx:34-38 | Selecting stores the id's canonical decimal text (`toString`), which parses back to the id, puts the name in the search box, and closes the dropdown. |
| FilterPanel.SelectedSpeciesStillListed | frontend/src/components/dashboard/FilterPanel.jsx:25-38 | A selected species is still in the list filtered by its own name. |
| FilterPanel.SearchChange | frontend/src/components/dashboard/FilterPanel.jsx:55-60 | Typing sets the term and clears the selection. Date and dropdown are untouched. |
| FilterPanel.ApplyFilters | frontend/src/components/dashboard/FilterPanel.jsx:40-53 | No filtering iff the species or the date is empty. Otherwise exactly the sightings of that species on that date remain. |
| FilterPanel.ApplyToShippedData | frontend/src/components/dashboard/FilterPanel.jsx:12-53 | With the empty `DUMMY_SIGHTINGS_DATA`, applying the filters alerts or passes the empty list, whatever is selected. |
| FilterPanel.ApplyAfterSelect | frontend/src/components/dashboard/FilterPanel.jsx:34-53 | After selecting a species, the filter keeps exactly the sightings whose numeric id equals the selected species' id, on the chosen date. |
| FilterPanel.ApplyOrderPreserving | frontend/src/components/dashboard/FilterPanel.jsx:45-51 | Filtering a concatenation is concatenating the filtered parts. |
| FilterPanel.DatePartOfTimestamp | frontend/src/components/dashboard/FilterPanel.jsx:46 | `split('T')[0]` of `day + "T" + time` is the day. |
| ChartWidget.Aggregate | frontend/src/components/dashboard/ChartWidget.jsx:26-39 | The reduce gives one accumulator entry per key, with no key twice. |
| ChartWidget.Insert | frontend/src/components/dashboard/ChartWidget.jsx:31-36 | A missing key is appended with one reading and count 1. An existing key gets the reading pushed and the count bumped. Other entries are untouched. |
| ChartWidget.AggregateSummarises | frontend/src/components/dashboard/ChartWidget.jsx:26-39 | The reduce agrees with the reference grouping: keys in first-encounter order, each entry holding all its sightings' readings in order, with the count as their number. |
| ChartWidget.InsertSummarises | frontend/src/components/dashboard/ChartWidget.jsx:31-36 | One reduce step keeps that agreement. |
| ChartWidget.InsertKeys | frontend/src/components/dashboard/ChartWidget.jsx:31-33 | A step appends an unseen key after the keys met so far, and leaves the key order alone for a known key. |
| ChartWidget.MembersNonEmpty | frontend/src/components/dashboard/ChartWidget.jsx:31-36 | Every key that occurs has at least one member, so no mean divides by zero. |
| ChartWidget.BuildChart | frontend/src/components/dashboard/ChartWidget.jsx:43-48 | One label per distinct key, in first-encounter order, with as many values as labels. Each value is the JavaScript sum of the group's readings over its count. |
| ChartWidget.ChartData | frontend/src/components/dashboard/ChartWidget.jsx:20-23 | No chart iff the input is not an array or is empty; otherwise the chart above. |
| ChartWidget.GroupCountsSum | frontend/src/components/dashboard/ChartWidget.jsx:26-39 | Every sighting lands in exactly one group: the counts add up to the number of sightings. |
| ChartWidget.InsertAddsOne | frontend/src/components/dashboard/ChartWidget.jsx:31-36 | One reduce step raises the total count by one. |
| ChartWidget.NullReadingPullsMeanToZero | frontend/src/components/dashboard/ChartWidget.jsx:35-47 | Readings A:10, A:null and B:20 chart as A = 5 and B = 20: a null counts as a zero reading. |
| BulkUpload.Rename | backend/bulk_upload.py:28-36 | Renaming keeps the cells and renames each header through the GBIF table. |
| BulkUpload.AddColumn | backend/bulk_upload.py:41-43 | A missing column is appended with a None cell in every row; a present column leaves the frame unchanged. Either way the column is present afterwards. |
| BulkUpload.AddMissing | backend/bulk_upload.py:39-43 | Every wanted column is present afterwards, with no other column added. Existing columns and cells are kept as a prefix, and new columns hold None. |
| BulkUpload.PrepareReadsRenamedColumns | backend/bulk_upload.py:28-43 | Each prepared field is the cell of the first source column renamed to it, or None when no source column was. |
| BulkUpload.CleanKeepsAdmissible | backend/bulk_upload.py:46-50 | Exactly the rows with all four required fields and a parseable date survive, in input order, each converted. |
| BulkUpload.Step | backend/bulk_upload.py:59-80 | A row whose numeric latitude, or, with the latitude in range, whose numeric longitude lies outside the inclusive box is skipped without changing anything. The step raises iff the latitude is text, or the latitude is in range and the longitude is text (both a TypeError), or an accepted row's name has no non-zero id in the map while some stored name has the same text, a uniqueness violation. A name stored with id 0 always raises. |
| BulkUpload.IngestSpec | backend/bulk_upload.py:55-80 | After the loop, known ids are unchanged and each created species is new, created once, and named by an accepted row. Every accepted row gives one sighting, in order, with its name's id and the point (lon, lat). |
| BulkUpload.IngestSucceeds | backend/bulk_upload.py:58-80 | The loop raises on no row with numeric coordinates when known ids are non-zero, new ids start above zero, and no row's name would be stored as the same text as a different name, stored or in another row. Afterwards all ids are non-zero, every key was known or is a row's name, and ids stay above zero. |
| BulkUpload.NumericNameCreatedOnce | backend/bulk_upload.py:63-73 | Two accepted rows with the same numeric name, whose text no stored name has, create one species under the next id, and both sightings carry it. |
| BulkUpload.StoredNumberRaises | backend/bulk_upload.py:63-68 | With the names loaded from the database as text, an accepted row whose numeric name renders as a stored name misses the lookup, and the upload fails with the uniqueness violation. |
| BulkUpload.NumberThenItsTextRaises | backend/bulk_upload.py:63-71 | In one upload, a new numeric name followed by a row naming its stored text: the second insert breaks uniqueness and the upload fails. |
| BulkUpload.Batches | backend/bulk_upload.py:84-88 | The batches concatenate back to the sightings. Each holds 1..1000 sightings, and all but the last are full. |
| BulkUpload.UploadCsv | backend/bulk_upload.py:15-91 | The upload succeeds iff the row loop does, and otherwise fails with the loop's error. On success, the inserted batches are exactly the loop's sightings, each of at most 1000. There are no batches iff there are no sightings, and the created species are the loop's. |
| Classifier.InvertClassIndices | backend/app/ml/classifier.py:19-21 | The inverted map's keys are exactly the indices of the file. |
| Classifier.InvertIsInverse | backend/app/ml/classifier.py:19-21 | With one class per index, the inverted map sends each class's index back to that class. |
| Classifier.LoadModel | backend/app/ml/classifier.py:12-22 | Every call counts one load. It succeeds iff both files load. A failed model load changes nothing else; once the model loads it is kept, and a failed class map leaves the class names as they were. |
| Classifier.GetModelAndClasses | backend/app/ml/classifier.py:24-27 | A held model is reused untouched, with its class names, possibly missing. Without one the loader runs, and the call raises iff the loader did. |
| Classifier.LoadedAtMostOnce | backend/app/ml/classifier.py:12-27 | From a fresh classifier, when the model file loads, any number of calls runs the loader exactly once (zero times for zero calls), and every call sees that load: the class names, or none for good when the class map failed. When the model file fails, every call runs the loader again. |
| Classifier.StaysLoaded | backend/app/ml/classifier.py:24-27 | Once a model is held, further calls change nothing. |
| Classifier.RetriesEveryCall | backend/app/ml/classifier.py:18-26 | A model file that fails to load is tried again on every call, leaving no model. |
| Classifier.BandOf | backend/app/ml/classifier.py:56-64 | Confident iff confidence >= 67, uncertain iff 50 <= confidence < 67, unrecognised iff below 50. |
| Classifier.DisplayName | backend/app/ml/classifier.py:60 | The displayed name has no `_` and the class name's length. |
| Classifier.Predict | backend/app/ml/classifier.py:52-68 | Empty probabilities raise. Otherwise it raises iff the confidence is at least 50 and the class names are missing (a TypeError) or lack the argmax index (a KeyError). An answer reports 100 times the largest probability; below 50 it is "Unknown Species", from 67 the class name with spaces and no `_`, in between the same plus " (Uncertain)". |
| Classifier.PredictWith | backend/app/ml/classifier.py:29-33 | Predicting leaves the accessor's state (a held model is kept). A load that raises is the answer; otherwise the model's output is banded with the class names it holds. |
| Classifier.MissingClassMapPersists | backend/app/ml/classifier.py:18-62 | After a class map that failed to load, later calls keep the model and never reload, and a prediction raises exactly when its confidence is at least 50. |
| AnalysisService.Candidates | backend/app/core/analysis_service.py:125-131 | The candidates are exactly the non-null correlations, each with its column, in sst, sal, chl order. |
| AnalysisService.SelectBest | backend/app/core/analysis_service.py:121-139 | No row, or all three correlations null, gives `{0.0, None, None}`. Otherwise it raises iff the species id is null, and an answer carries the row's species and a signed correlation of largest magnitude; every earlier column has strictly smaller magnitude. |
| AnalysisService.SelectBestZero | backend/app/core/analysis_service.py:121-154 | The selection answers a zero correlation iff there is no row, or every non-null correlation is 0 and it does not raise on a null species. |
| AnalysisService.CacheGet | backend/app/core/analysis_service.py:29-38 | Never raises. It gives a finding iff the client exists and answers with a decodable value under the key, and that finding is the stored one. |
| AnalysisService.CacheSet | backend/app/core/analysis_service.py:41-47 | Never raises. Without a working client nothing changes; otherwise the key holds the finding. |
| AnalysisService.CacheRoundTrip | backend/app/core/analysis_service.py:29-47 | With a working client, getting after setting returns the finding set, and other keys are unaffected. |
| AnalysisService.Retry | backend/app/core/analysis_service.py:152-161 | Thresholds are tried in order and the loop stops at the first answer that is not a zero correlation (an exception included), which is returned. All tried before it gave 0. If all give 0, the result is the fallback and all were tried. |
| AnalysisService.FindStrongest | backend/app/core/analysis_service.py:143-161 | With `use_cache` and a cached finding, that finding is returned with no query. Otherwise 30, 20, 10, 5 are tried until the first result that is not zero. A finding returned, fallback included, is what is cached; an exception leaves the cache as it was. |
| AnalysisService.SecondLookupIsCached | backend/app/core/analysis_service.py:146-161 | With a working cache, after a lookup that found something, a second cached lookup returns that finding without querying; after one that raised, the second behaves as if the first never ran. |
| AnalysisService.NoCacheAlwaysQueries | backend/app/core/analysis_service.py:29-161 | Without a working cache every lookup queries and leaves the cache as it was. |
| AnalysisService.NullSpeciesRaises | backend/app/core/analysis_service.py:69-139 | When the species-less group ranks first at threshold 30, a lookup that misses the cache raises the `int(None)` TypeError after one query. |
| Api.SightingId | backend/app/main.py:80-125 | A sighting id begins with `CMLRE-SIGHT-` and is longer than that prefix. |
| Api.SightingIdRoundTrip | backend/app/main.py:80-125 | The text after the prefix parses back to the row id, and two rows share a sighting id iff they share an id. |
| Api.TextOr | backend/app/main.py:118-122 | `x or default` keeps a non-empty text and replaces None or "" by the default. |
| Api.TruthyReading | backend/app/main.py:84-131 | A reading is reported iff it is present and non-zero, and then unchanged. |
| Api.SpeciesData | backend/app/main.py:117-123 | The species id is the joined id or 0. Both names are never empty ("Unknown" by default), and description and habitat default to "". |
| Api.DataResponse | backend/app/main.py:124-133 | The element carries the sighting id and the date. A missing coordinate is 0.0, readings pass the truthiness test, and the species has its defaults. |
| Api.OrphanSightingDefaults | backend/app/main.py:117-123 | A sighting with no species gets `{0, "Unknown", "Unknown", "", ""}`. |
| Api.ZeroReadingDisappears | backend/app/main.py:129 | A genuine sea-surface temperature of 0 is reported as null. |
| Api.DataResponses | backend/app/main.py:115-135 | Exactly one response element per row, in row order. |
| Api.SampleResponse | backend/app/main.py:79-88 | The sample element carries the sighting id, date, coordinates and species as loaded, and readings after the truthiness test. |
| Api.SampleResponses | backend/app/main.py:77-89 | Exactly one sample element per row, in row order. |
| Api.EndpointsAgree | backend/app/main.py:77-135 | Rows with the same id and readings get the same sighting id and readings from both endpoints. |
| Api.ObjectNameParts | backend/app/main.py:149-151 | Before the first '/' the object name is the species with spaces replaced by `_`, and has no spaces. After the last '.' it is the upload's extension. |
| Api.ClassifyOtolith | backend/app/main.py:146-158 | A prediction is answered iff classifying and storing both succeed, and then it was stored under its object name. Any exception is answered as `{"error": message}` with nothing stored. |
| Api.AttachSpeciesName | backend/app/main.py:164-167 | `species_name` is attached iff the species id is truthy and its row is found, and it is that row's common name. The finding itself is unchanged. |
| Api.FallbackHasNoSpeciesName | backend/app/main.py:164-167 | The zero fallback finding never gets a species name. |
| Api.Hypotheses | backend/app/main.py:161-169 | The response leaves the lookup's cache. It fails, uncaught, iff the lookup raised; otherwise it carries the lookup's finding with its species name attached and the hypothesis generated for them. |
| Api.ChatContext | backend/app/main.py:185 | An absent context is passed as "", a present one unchanged. |
| Api.ChatEndpoint | backend/app/main.py:182-191 | The reply is the model's text, or the fixed apology exactly when the model raises. |
| Api.AbsentContextIsEmpty | backend/app/main.py:185 | A request without context is answered exactly like one with an empty context. |
| OtolithPanel.ResetOtolith | frontend/src/components/dashboard/OtolithClassifier.jsx:80-84 | Reset leaves no image, no result and no loading. |
| OtolithPanel.ResetDna | frontend/src/components/dashboard/OtolithClassifier.jsx:86-90 | Reset leaves an empty sequence, no result and no loading. |
| OtolithPanel.UploadOtolith | frontend/src/components/dashboard/OtolithClassifier.jsx:93-98 | With no file nothing changes. Otherwise the first file becomes the image, the result is cleared, and loading is unchanged. |
| OtolithPanel.StartClassification | frontend/src/components/dashboard/OtolithClassifier.jsx:100-104 | A request is sent iff there is an image; then loading is on and the result cleared. Otherwise nothing changes. |
| OtolithPanel.FinishClassification | frontend/src/components/dashboard/OtolithClassifier.jsx:109-122 | Loading ends. The result is the response body, or the "Failed to classify image" error. The image is unchanged. |
| OtolithPanel.SetDnaSequence | frontend/src/components/dashboard/OtolithClassifier.jsx:254 | Editing changes only the sequence. |
| OtolithPanel.StartMatch | frontend/src/components/dashboard/OtolithClassifier.jsx:125-129 | A request is sent iff the sequence is not all whitespace; then loading is on and the result cleared. Otherwise nothing changes. |
| OtolithPanel.FinishMatch | frontend/src/components/dashboard/OtolithClassifier.jsx:131-141 | Loading ends. The result is the response body, or the "Server error" error. The sequence is unchanged. |
| OtolithPanel.Step | frontend/src/components/dashboard/OtolithClassifier.jsx:69-303 | An event the page does not render a control for in that state changes nothing: the file input only without an image, the classify button only with an image, no result and no loading, the match button only with no result, no loading and a non-blank sequence, each reset only beside a result. An otolith handler leaves the eDNA state alone, and an eDNA handler leaves the otolith state alone. A click that is offered starts loading with the result cleared. |
| OtolithPanel.OtolithEventsLeaveDna | frontend/src/components/dashboard/OtolithClassifier.jsx:69-123 | Any run of otolith events leaves the eDNA state as it was. |
| OtolithPanel.DnaEventsLeaveOtolith | frontend/src/components/dashboard/OtolithClassifier.jsx:74-142 | Any run of eDNA events leaves the otolith state as it was. |
| OtolithPanel.RunKeepsInv | frontend/src/components/dashboard/OtolithClassifier.jsx:80-142 | Over any run of events, neither panel holds a result while it is loading, and the otolith half loads or shows a result only while it holds an image. |
| ChatInterface.Type | frontend/src/features/conversation/ChatInterface.jsx:12 | Typing changes only the input. |
| ChatInterface.Send | frontend/src/features/conversation/ChatInterface.jsx:20-32 | A blank input or a send already loading changes nothing. Otherwise: the untrimmed input is appended as a user message and becomes the text sent; the input is cleared and loading starts. |
| ChatInterface.Settle | frontend/src/features/conversation/ChatInterface.jsx:32-43 | Exactly one AI message is appended (the reply, or the error text), and loading ends. |
| ChatInterface.StepKeepsInv | frontend/src/features/conversation/ChatInterface.jsx:20-44 | Each event keeps "loading iff a request is in flight, whose text is the last user message", and only appends messages. |
| ChatInterface.RunAppendsOnly | frontend/src/features/conversation/ChatInterface.jsx:24-40 | Over any run of events, earlier messages stay a prefix of the list, and the invariant holds. |
| ChatInterface.GreetingStaysFirst | frontend/src/features/conversation/ChatInterface.jsx:6-11 | The list starts with the one AI greeting, and it stays the first message forever. |
| ChatInterface.NoSecondSend | frontend/src/features/conversation/ChatInterface.jsx:21 | While a request is in flight, a send changes nothing, whatever was typed. |

## Left out

- MapWidget.jsx, InsightsPanel.jsx, DashboardPage and App.jsx are not part of this model.
- chatService, apiClient, llm_service.py, embedding_service.py, minio_client.py, ingest_vectors.py, train_model.py and models/edna.py are not part of this model. Their effects enter as inputs.
- The correlation SQL (analysis_service.py:56-116) uses floating-point square roots and standard deviations inside the database. The model takes its top row as a function of the threshold.
- `get_chat_context` needs PostGIS and the ORM. It also refers to a `models` it never imports, so it always ends in its exception handler.
- The `db.query` calls of main.py and bulk_upload.py are replaced by rows given as input. Their ordering, `random()` sampling, offset and limit are not modelled.
- The Redis time-to-live is left out (no clock). A cached finding never expires in the model.
- Image decoding, resizing, the logit boost and the temperature-scaled softmax of `predict` are left out. The probabilities are an input.
- Classifier.Predict: reports the confidence before `round(confidence, 2)`, because two-decimal rounding of a binary float has no faithful counterpart on reals. The thresholds are applied to the unrounded value, as in the source.
- pandas parsing (`read_csv`, skipped bad lines, dtype inference) is left out; the frame is given.
- `pd.to_datetime` is a parameter.
- A cell is text or a number. NaN is None, as `dropna` treats it.
- When two source columns rename to the same name, the model reads the first. pandas would return a frame slice there.
- BulkUpload: each batch is committed separately. A database failure between commits would keep earlier batches, and the model has no database failures. The exceptions it does model come from the row loop, before any commit.
- The HTTP 500 path of `get_sightings_data` (a database error) is left out, and so is pydantic's response validation (e.g. a sample sighting without a species).
- An upload with no filename is left out.
- A numeric scientific name is stored as text (models.py:12 declares the column `String`, `unique=True`). How the driver renders the number is the input `render`. A later row or upload whose name has that text, or a number rendered as a stored name, misses the map and raises IntegrityError when flushed, so the whole upload is rolled back (`StoredNumberRaises`, `NumberThenItsTextRaises`).
- Api.Hypotheses: the hypothesis generator is a function that always returns text. An exception from it, which the endpoint does not catch, is not modelled.
- JavaScript: `toLowerCase` is ASCII-only here, and Unicode case mapping is left out.
- ChartWidget.Aggregate: treats every species name as an own key of the accumulator and keeps insertion order. `Object.keys` puts integer-like keys first in numeric order. A name that is an `Object.prototype` property, such as `constructor`, `toString` or `__proto__`, makes `acc[speciesName]` (ChartWidget.jsx:31) find an inherited value, and `.temps.push` (ChartWidget.jsx:35) then throws a TypeError. The model is exact only for names that are neither integer-like nor such property names.
- `undefined` temperatures (which give NaN) are left out; readings are a number or null.
- Timing is left out: the 1.5 s minimum delay of the otolith request, the scroll-into-view effect, and the Enter-key binding (which calls the same handler as the button).
- Interleavings are modelled as event sequences. A completion is applied whenever it arrives, as in the source, even after a new file is chosen in the upload panel.
- FileUploader.UploadOfValidFile: holds for an upload that nothing interrupts. With actions in between, the last request to settle decides the status, and an answer can leave an error message beside success (`LastSettlementWins`, `SuccessBesideInvalidType`, `TwoUploadsInFlight`).
- FileUploader.Step: a progress event or a settlement with no request out is ignored. It cannot occur in the source, where each one belongs to a POST that was sent. Which request a progress event belongs to is not tracked, since every callback writes the same state.
- OtolithPanel.Step: a completion while its half is not loading is ignored. Under the render guards it cannot occur, because loading is on exactly while that half's one request is out.
- ChatInterface.Settle: a settlement with no request in flight is ignored. It cannot occur in the source, where each completion belongs to the one request the guard let through.
- The alert and the `onFilterChange` callback of FilterPanel, and all rendering, are left out.
