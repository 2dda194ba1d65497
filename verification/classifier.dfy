/** The otolith classifier of ml/classifier.py: the class-map inversion done
    when the model is loaded, the load-once accessor, and the argmax and
    confidence banding of `predict`. The network, the image preprocessing
    and the softmax are outside the model: the probabilities are an input. */
module Classifier {

  import opened Wrappers
  import opened Text
  import opened Seqs

  /** No class name occurs twice: the keys of a JSON object, as `json.load`
      leaves them. */
  predicate DistinctNames(pairs: seq<(string, int)>) {
    forall i, j :: 0 <= i < j < |pairs| ==> pairs[i].0 != pairs[j].0
  }

  /** `class_indices.json` as loaded: (class name, index) pairs in file order. */
  type ClassIndices = pairs: seq<(string, int)> | DistinctNames(pairs) witness []

  /** `{v: k for k, v in class_indices.items()}`: later pairs overwrite
      earlier ones sharing an index. */
  function InvertClassIndices(pairs: ClassIndices): (names: map<int, string>)
    ensures forall v :: v in names <==> exists i :: 0 <= i < |pairs| && pairs[i].1 == v
    decreases |pairs|
  {
    if |pairs| == 0 then map[]
    else
      var init := InvertClassIndices(pairs[..|pairs| - 1]);
      var last := pairs[|pairs| - 1];
      var names := init[last.1 := last.0];
      assert forall i :: 0 <= i < |pairs| - 1 ==> pairs[..|pairs| - 1][i] == pairs[i];
      names
  }

  predicate DistinctIndices(pairs: ClassIndices) {
    forall i, j :: 0 <= i < j < |pairs| ==> pairs[i].1 != pairs[j].1
  }

  /** With one class per index, the inverted map sends each index back to
      its class: `class_names[class_indices[k]] == k`. */
  lemma {:induction false} InvertIsInverse(pairs: ClassIndices)
    requires DistinctIndices(pairs)
    ensures forall i :: 0 <= i < |pairs| ==>
      pairs[i].1 in InvertClassIndices(pairs) && InvertClassIndices(pairs)[pairs[i].1] == pairs[i].0
    decreases |pairs|
  {
    if |pairs| > 0 {
      var init := pairs[..|pairs| - 1];
      InvertIsInverse(init);
      forall i | 0 <= i < |pairs| - 1
        ensures InvertClassIndices(pairs)[pairs[i].1] == pairs[i].0
      {
        assert init[i] == pairs[i];
      }
    }
  }

  /** A loaded Keras model, known only by identity. */
  datatype ModelHandle = ModelHandle(path: string)

  /** What `_load_model` reads from disk, each read either succeeding or
      raising: the model file, then the class map. */
  datatype ModelFiles = ModelFiles(model: Result<ModelHandle, string>, classIndices: Result<ClassIndices, string>)

  /** The classifier's cached attributes, and how often `_load_model` ran. */
  datatype ClassifierState = ClassifierState(
    model: Option<ModelHandle>, classNames: Option<map<int, string>>, loads: nat)

  const Fresh := ClassifierState(None, None, 0)

  /** `_load_model`. The model attribute is assigned before the class map is
      read, so a class map that fails to load leaves a model without class
      names; a model that fails to load leaves everything as it was. */
  function LoadModel(st: ClassifierState, files: ModelFiles): (r: (ClassifierState, Result<(), string>))
    ensures r.0.loads == st.loads + 1
    ensures r.1.Success? <==> files.model.Success? && files.classIndices.Success?
    ensures files.model.Failure? ==> r == (st.(loads := st.loads + 1), Failure(files.model.error))
    ensures files.model.Success? ==> r.0.model == Some(files.model.value)
    ensures files.model.Success? && files.classIndices.Failure? ==>
      r.0.classNames == st.classNames && r.1 == Failure(files.classIndices.error)
    ensures r.1.Success? ==> r.0.classNames == Some(InvertClassIndices(files.classIndices.value))
  {
    match files.model
    case Failure(e) => (st.(loads := st.loads + 1), Failure(e))
    case Success(m) =>
      var withModel := st.(model := Some(m), loads := st.loads + 1);
      match files.classIndices
      case Failure(e) => (withModel, Failure(e))
      case Success(pairs) => (withModel.(classNames := Some(InvertClassIndices(pairs))), Success(()))
  }

  /** `get_model_and_classes`: load when no model is held, reuse afterwards.
      A load that raises passes the exception on. */
  function GetModelAndClasses(st: ClassifierState, files: ModelFiles)
    : (r: (ClassifierState, Result<(ModelHandle, Option<map<int, string>>), string>))
    ensures st.model.Some? ==> r == (st, Success((st.model.value, st.classNames)))
    ensures st.model.None? ==> r.0 == LoadModel(st, files).0
    ensures st.model.None? ==> (r.1.Failure? <==> LoadModel(st, files).1.Failure?)
    ensures r.1.Success? ==> r.0.model == Some(r.1.value.0) && r.0.classNames == r.1.value.1
  {
    if st.model.Some? then (st, Success((st.model.value, st.classNames)))
    else
      var (loaded, outcome) := LoadModel(st, files);
      match outcome
      case Failure(e) => (loaded, Failure(e))
      case Success(_) => (loaded, Success((loaded.model.value, loaded.classNames)))
  }

  /** The state after `n` calls to the accessor. */
  function CallMany(st: ClassifierState, files: ModelFiles, n: nat): ClassifierState
    decreases n
  {
    if n == 0 then st else CallMany(GetModelAndClasses(st, files).0, files, n - 1)
  }

  /** However often it is asked, the accessor runs the loader at most once
      when the model file loads, and every call after the first sees that
      load; when the class map failed, the class names stay missing for
      good. When the model file fails, every call runs the loader again. */
  lemma {:induction false} LoadedAtMostOnce(files: ModelFiles, n: nat)
    ensures files.model.Success? ==> CallMany(Fresh, files, n).loads == (if n == 0 then 0 else 1)
    ensures files.model.Success? && n > 0 ==>
      CallMany(Fresh, files, n) == ClassifierState(Some(files.model.value),
        if files.classIndices.Success? then Some(InvertClassIndices(files.classIndices.value)) else None, 1)
    ensures files.model.Failure? ==> CallMany(Fresh, files, n) == Fresh.(loads := n)
  {
    if files.model.Success? {
      if n > 0 {
        var loaded := GetModelAndClasses(Fresh, files).0;
        StaysLoaded(loaded, files, n - 1);
      }
    } else {
      RetriesEveryCall(Fresh, files, n);
    }
  }

  lemma {:induction false} StaysLoaded(st: ClassifierState, files: ModelFiles, n: nat)
    requires st.model.Some?
    ensures CallMany(st, files, n) == st
    decreases n
  {
    if n > 0 {
      StaysLoaded(st, files, n - 1);
    }
  }

  /** A model file that fails to load is tried again on every call. */
  lemma {:induction false} RetriesEveryCall(st: ClassifierState, files: ModelFiles, n: nat)
    requires st.model.None? && files.model.Failure?
    ensures CallMany(st, files, n) == st.(loads := st.loads + n)
    decreases n
  {
    if n > 0 {
      RetriesEveryCall(st.(loads := st.loads + 1), files, n - 1);
    }
  }

  const ConfidenceThresholdHigh := 67.0
  const ConfidenceThresholdLow := 50.0
  const UnknownSpecies := "Unknown Species"
  const UncertainSuffix := " (Uncertain)"

  datatype Band = Confident | Uncertain | Unrecognised

  /** The three threshold branches of `predict`. */
  function BandOf(confidence: real): (b: Band)
    ensures b == Confident <==> confidence >= ConfidenceThresholdHigh
    ensures b == Uncertain <==> ConfidenceThresholdLow <= confidence < ConfidenceThresholdHigh
    ensures b == Unrecognised <==> confidence < ConfidenceThresholdLow
  {
    if confidence >= ConfidenceThresholdHigh then Confident
    else if ConfidenceThresholdLow <= confidence < ConfidenceThresholdHigh then Uncertain
    else Unrecognised
  }

  /** A class name as displayed: every `_` becomes a space. */
  function DisplayName(className: string): (r: string)
    ensures '_' !in r && |r| == |className|
  {
    ReplaceCharRemoves(className, '_', ' ');
    ReplaceChar(className, '_', ' ')
  }

  /** The result dictionary of `predict`, before the two-decimal rounding. */
  datatype Prediction = Prediction(predictedSpecies: string, confidence: real)

  /** Labels for the two exceptions the class-name lookup can raise: a
      `KeyError` for an index the map lacks, a `TypeError` for subscripting
      a missing map. They name the exception; the text `str(e)` would give
      is not modelled. */
  const KeyErrorLabel := "KeyError"
  const NoClassNamesLabel := "TypeError"
  const EmptyArgMaxMessage := "attempt to get argmax of an empty sequence"

  /** The class names of index `k`, if the map is there and holds it. */
  predicate HasName(classNames: Option<map<int, string>>, k: int) {
    classNames.Some? && k in classNames.value
  }

  /** `predict` on the probabilities the model produced. The confidence is
      100 times the largest probability, and the label follows its band: the
      class name with spaces, the same with " (Uncertain)", or "Unknown
      Species". The class name is looked up only in the two upper bands, so
      a missing map or a missing name raises there and nowhere else. */
  function Predict(probabilities: seq<real>, classNames: Option<map<int, string>>): (r: Result<Prediction, string>)
    ensures |probabilities| == 0 ==> r == Failure(EmptyArgMaxMessage)
    ensures r.Failure? <==>
      || |probabilities| == 0
      || (100.0 * probabilities[ArgMax(probabilities)] >= ConfidenceThresholdLow
          && !HasName(classNames, ArgMax(probabilities)))
    ensures r.Failure? && |probabilities| > 0 ==>
      r.error == (if classNames.None? then NoClassNamesLabel else KeyErrorLabel)
    ensures r.Success? ==>
      var p := r.value;
      var k := ArgMax(probabilities);
      && (exists i :: 0 <= i < |probabilities| && p.confidence == 100.0 * probabilities[i])
      && (forall j :: 0 <= j < |probabilities| ==> 100.0 * probabilities[j] <= p.confidence)
      && (p.confidence < ConfidenceThresholdLow ==> p.predictedSpecies == UnknownSpecies)
      && (p.confidence >= ConfidenceThresholdHigh ==>
            p.predictedSpecies == DisplayName(classNames.value[k]) && '_' !in p.predictedSpecies)
      && (ConfidenceThresholdLow <= p.confidence < ConfidenceThresholdHigh ==>
            p.predictedSpecies == DisplayName(classNames.value[k]) + UncertainSuffix)
  {
    if |probabilities| == 0 then Failure(EmptyArgMaxMessage)
    else
      var predictedIndex := ArgMax(probabilities);
      var confidence := 100.0 * probabilities[predictedIndex];
      assert forall j :: 0 <= j < |probabilities| ==> 100.0 * probabilities[j] <= confidence;
      if confidence >= ConfidenceThresholdLow then
        match classNames
        case None => Failure(NoClassNamesLabel)
        case Some(names) =>
          if predictedIndex !in names then Failure(KeyErrorLabel)
          else if confidence >= ConfidenceThresholdHigh then
            Success(Prediction(DisplayName(names[predictedIndex]), confidence))
          else Success(Prediction(DisplayName(names[predictedIndex]) + UncertainSuffix, confidence))
      else Success(Prediction(UnknownSpecies, confidence))
  }

  /** `predict` through the accessor: the model is loaded if needed, its
      output probabilities (an input here) are banded with its class map,
      and a load that raises is the answer instead. */
  function PredictWith(st: ClassifierState, files: ModelFiles, infer: ModelHandle -> seq<real>)
    : (r: (ClassifierState, Result<Prediction, string>))
    ensures r.0 == GetModelAndClasses(st, files).0
    ensures st.model.Some? ==> r.0 == st
    ensures GetModelAndClasses(st, files).1.Failure? ==> r.1 == Failure(GetModelAndClasses(st, files).1.error)
    ensures GetModelAndClasses(st, files).1.Success? ==>
      r.1 == Predict(infer(r.0.model.value), r.0.classNames)
  {
    var (st', got) := GetModelAndClasses(st, files);
    match got
    case Failure(e) => (st', Failure(e))
    case Success((model, classNames)) => (st', Predict(infer(model), classNames))
  }

  /** After a class map that failed to load, the model is kept, so no later
      call reloads it: every prediction in the upper two bands raises, while
      the lowest band still answers "Unknown Species". */
  lemma {:induction false} MissingClassMapPersists(files: ModelFiles, n: nat, infer: ModelHandle -> seq<real>)
    requires files.model.Success? && files.classIndices.Failure?
    ensures var st := CallMany(Fresh, files, n + 1);
      var r := PredictWith(st, files, infer);
      && r.0 == st
      && (|infer(files.model.value)| > 0 ==>
            var p := infer(files.model.value);
            (r.1.Failure? <==> 100.0 * p[ArgMax(p)] >= ConfidenceThresholdLow))
  {
    LoadedAtMostOnce(files, n + 1);
  }
}
