/** The X-factor finding of backend/app/core/analysis_service.py: choosing the
    strongest of a row's three correlations, retrying the query with smaller
    species-count thresholds, and the Redis cache in front of it. The SQL
    itself is an input: a function from the threshold to the top row. */
module AnalysisService {

  import opened Wrappers
  import opened Seqs

  /** The three environmental columns a species can correlate with. */
  datatype Variable = SeaSurfaceTemp | Salinity | Chlorophyll

  function ColumnName(v: Variable): string {
    match v
    case SeaSurfaceTemp => "sea_surface_temp_c"
    case Salinity => "salinity_psu"
    case Chlorophyll => "chlorophyll_mg_m3"
  }

  /** The position of a variable among the row's columns, which is also the
      order its candidate is inserted in. */
  function Rank(v: Variable): nat {
    match v
    case SeaSurfaceTemp => 0
    case Salinity => 1
    case Chlorophyll => 2
  }

  /** The `{correlation, variable, species_id}` dictionary. */
  datatype Finding = Finding(correlation: real, variable: Option<Variable>, speciesId: Option<int>)

  const NoFinding := Finding(0.0, None, None)

  /** The single row the correlation query returns, each correlation null
      where the query's CASE gave NULL. The species id is null too for the
      group of sightings without a species, since the query's GROUP BY keeps
      that group and nothing filters it out. */
  datatype CorrelationRow = CorrelationRow(
    speciesId: Option<int>, corrSst: Option<real>, corrSal: Option<real>, corrChl: Option<real>)

  function Reading(row: CorrelationRow, v: Variable): Option<real> {
    match v
    case SeaSurfaceTemp => row.corrSst
    case Salinity => row.corrSal
    case Chlorophyll => row.corrChl
  }

  function Abs(x: real): real {
    if x < 0.0 then -x else x
  }

  /** The `candidates` dictionary: the non-null correlations, in column order. */
  function Candidates(row: CorrelationRow): (cs: seq<(Variable, real)>)
    ensures forall i :: 0 <= i < |cs| ==> Reading(row, cs[i].0) == Some(cs[i].1)
    ensures forall v :: Reading(row, v).Some? ==> (v, Reading(row, v).value) in cs
    ensures forall i, j :: 0 <= i < j < |cs| ==> Rank(cs[i].0) < Rank(cs[j].0)
  {
    (if row.corrSst.Some? then [(SeaSurfaceTemp, row.corrSst.value)] else [])
    + (if row.corrSal.Some? then [(Salinity, row.corrSal.value)] else [])
    + (if row.corrChl.Some? then [(Chlorophyll, row.corrChl.value)] else [])
  }

  function Magnitudes(cs: seq<(Variable, real)>): (m: seq<real>)
    ensures |m| == |cs|
    ensures forall i :: 0 <= i < |cs| ==> m[i] == Abs(cs[i].1)
  {
    seq(|cs|, i requires 0 <= i < |cs| => Abs(cs[i].1))
  }

  /** What Python's `int(None)` raises. */
  const SpeciesIdTypeError := "int() argument must be a string, a bytes-like object or a real number, not 'NoneType'"

  /** The candidate selection after the query in `_run_sql_correlation`. No
      row, or a row with three null correlations, gives the zero finding.
      Otherwise the finding carries the signed correlation of largest
      magnitude, an earlier column winning a tie, and the row's species;
      converting a null species id with `int` raises instead. */
  function SelectBest(row: Option<CorrelationRow>): (r: Result<Finding, string>)
    ensures row.None? || Candidates(row.value) == [] ==> r == Success(NoFinding)
    ensures row.Some? && Candidates(row.value) != [] ==>
      (r.Failure? <==> row.value.speciesId.None?)
    ensures r.Failure? ==> r.error == SpeciesIdTypeError
    ensures row.Some? && Candidates(row.value) != [] && r.Success? ==>
      var f := r.value;
      && f.speciesId == row.value.speciesId
      && f.variable.Some?
      && Reading(row.value, f.variable.value) == Some(f.correlation)
      && (forall v :: Reading(row.value, v).Some? ==> Abs(Reading(row.value, v).value) <= Abs(f.correlation))
      && (forall v :: Rank(v) < Rank(f.variable.value) && Reading(row.value, v).Some? ==>
            Abs(Reading(row.value, v).value) < Abs(f.correlation))
  {
    if row.None? then Success(NoFinding)
    else
      var cs := Candidates(row.value);
      if cs == [] then Success(NoFinding)
      else
        var k := ArgMax(Magnitudes(cs));
        var best := cs[k];
        assert forall v :: Reading(row.value, v).Some? ==> Abs(Reading(row.value, v).value) <= Abs(best.1) by {
          forall v | Reading(row.value, v).Some?
            ensures Abs(Reading(row.value, v).value) <= Abs(best.1)
          {
            var i :| 0 <= i < |cs| && cs[i] == (v, Reading(row.value, v).value);
            assert Magnitudes(cs)[i] <= Magnitudes(cs)[k];
          }
        }
        assert forall v :: Rank(v) < Rank(best.0) && Reading(row.value, v).Some? ==>
            Abs(Reading(row.value, v).value) < Abs(best.1) by {
          forall v | Rank(v) < Rank(best.0) && Reading(row.value, v).Some?
            ensures Abs(Reading(row.value, v).value) < Abs(best.1)
          {
            var i :| 0 <= i < |cs| && cs[i] == (v, Reading(row.value, v).value);
            assert Magnitudes(cs)[i] < Magnitudes(cs)[k];
          }
        }
        match row.value.speciesId
        case None => Failure(SpeciesIdTypeError)
        case Some(id) => Success(Finding(best.1, Some(best.0), Some(id)))
  }

  /** What the retry loop takes for an empty answer: a finding whose
      correlation is 0.0. A raised exception is not one. */
  predicate IsZero(r: Result<Finding, string>) {
    r.Success? && r.value.correlation == 0.0
  }

  /** The retry loop treats an answer as empty exactly when the row has no
      non-zero correlation. */
  lemma SelectBestZero(row: Option<CorrelationRow>)
    ensures IsZero(SelectBest(row)) <==>
      || row.None?
      || ((forall v :: Reading(row.value, v).Some? ==> Reading(row.value, v).value == 0.0)
          && (Candidates(row.value) == [] || row.value.speciesId.Some?))
  {
    if row.Some? && Candidates(row.value) != [] && row.value.speciesId.Some? {
      var f := SelectBest(row).value;
      if f.correlation == 0.0 {
        forall v | Reading(row.value, v).Some?
          ensures Reading(row.value, v).value == 0.0
        {
          assert Abs(Reading(row.value, v).value) <= Abs(f.correlation);
        }
      }
    }
  }

  // ---------------------------------------------------------------- cache

  /** What Redis holds under a key: the JSON of a finding, or text that does
      not decode (the empty string included). */
  datatype Stored = Encoded(finding: Finding) | Undecodable(raw: string)

  /** The module's `redis_client`: absent when the start-up ping failed;
      otherwise a store whose every command raises while `failing`. */
  datatype Redis = Unavailable | Connected(store: map<string, Stored>, failing: bool)

  predicate Healthy(c: Redis) {
    c.Connected? && !c.failing
  }

  /** `_cache_get`: never raises; a finding only when the client is there,
      answers, and holds a decodable value under the key. */
  function CacheGet(c: Redis, key: string): (r: Option<Finding>)
    ensures r.Some? <==> Healthy(c) && key in c.store && c.store[key].Encoded?
    ensures r.Some? ==> r.value == c.store[key].finding
  {
    match c
    case Unavailable => None
    case Connected(store, failing) =>
      if failing || key !in store then None
      else match store[key]
        case Encoded(f) => Some(f)
        case Undecodable(_) => None
  }

  /** `_cache_set`: never raises; does nothing without a client or when the
      client fails, and otherwise stores the finding under the key. */
  function CacheSet(c: Redis, key: string, f: Finding): (r: Redis)
    ensures !Healthy(c) ==> r == c
    ensures Healthy(c) ==> r == Connected(c.store[key := Encoded(f)], false)
  {
    match c
    case Unavailable => c
    case Connected(store, failing) => if failing then c else Connected(store[key := Encoded(f)], false)
  }

  /** What is set can be got back, and other keys are untouched. */
  lemma CacheRoundTrip(c: Redis, key: string, other: string, f: Finding)
    requires Healthy(c)
    ensures CacheGet(CacheSet(c, key, f), key) == Some(f)
    ensures other != key ==> CacheGet(CacheSet(c, key, f), other) == CacheGet(c, other)
  {
  }

  // ---------------------------------------------------------------- retry

  const CacheKey := "tattva:correlation:latest"
  const Thresholds: seq<int> := [30, 20, 10, 5]

  /** What the `for min_count in ...` loop promises about the answer `r.0`
      it settles on and the thresholds `r.1` it queried: they are the first
      thresholds in order, all but the last gave a zero correlation, and an
      answer that is not zero (a raised exception included) is the last
      one's, while a zero answer is the fallback and means every threshold
      was tried and gave zero. */
  predicate Settles(thresholds: seq<int>, query: int -> Option<CorrelationRow>, r: (Result<Finding, string>, seq<int>)) {
    && |r.1| <= |thresholds| && r.1 == thresholds[..|r.1|]
    && (thresholds != [] ==> |r.1| > 0)
    && (forall i :: 0 <= i < |r.1| - 1 ==> IsZero(SelectBest(query(r.1[i]))))
    && (!IsZero(r.0) ==> |r.1| > 0 && r.0 == SelectBest(query(r.1[|r.1| - 1])))
    && (IsZero(r.0) ==>
          && r.0 == Success(NoFinding)
          && r.1 == thresholds
          && forall i :: 0 <= i < |thresholds| ==> IsZero(SelectBest(query(thresholds[i]))))
  }

  /** The loop: the answer it settles on and the thresholds it queried. */
  function Retry(thresholds: seq<int>, query: int -> Option<CorrelationRow>): (r: (Result<Finding, string>, seq<int>))
    ensures Settles(thresholds, query, r)
    decreases |thresholds|
  {
    if thresholds == [] then (Success(NoFinding), [])
    else
      var f := SelectBest(query(thresholds[0]));
      if !IsZero(f) then (f, [thresholds[0]])
      else
        var rest := Retry(thresholds[1..], query);
        RetryStep(thresholds, query, rest);
        (rest.0, [thresholds[0]] + rest.1)
  }

  /** A zero first threshold followed by what the rest of the loop settles
      on is what the whole loop settles on. */
  lemma RetryStep(thresholds: seq<int>, query: int -> Option<CorrelationRow>, rest: (Result<Finding, string>, seq<int>))
    requires |thresholds| > 0 && IsZero(SelectBest(query(thresholds[0])))
    requires Settles(thresholds[1..], query, rest)
    ensures Settles(thresholds, query, (rest.0, [thresholds[0]] + rest.1))
  {
    var tried := [thresholds[0]] + rest.1;
    assert thresholds[..|tried|] == [thresholds[0]] + thresholds[1..][..|rest.1|];
    assert forall i :: 1 <= i < |tried| ==> tried[i] == rest.1[i - 1];
    if IsZero(rest.0) {
      assert thresholds == [thresholds[0]] + thresholds[1..];
      assert forall i :: 1 <= i < |thresholds| ==> thresholds[i] == thresholds[1..][i - 1];
    }
  }

  /** The answer of `find_strongest_correlation` (a finding, or the exception
      it lets through), the cache it leaves, and the thresholds it ran the
      query for. */
  datatype Lookup = Lookup(finding: Result<Finding, string>, cache: Redis, tried: seq<int>)

  /** `find_strongest_correlation`. A cached finding (always truthy, being a
      non-empty dictionary) is returned without a query when `use_cache` is
      set. Otherwise thresholds 30, 20, 10, 5 are tried in order until one
      gives a non-zero correlation, and the finding returned, the fallback
      included, is written to the cache. An exception from the selection
      ends the loop before anything is cached. */
  function FindStrongest(c: Redis, useCache: bool, query: int -> Option<CorrelationRow>): (r: Lookup)
    ensures useCache && CacheGet(c, CacheKey).Some? ==> r == Lookup(Success(CacheGet(c, CacheKey).value), c, [])
    ensures !(useCache && CacheGet(c, CacheKey).Some?) ==>
      && (r.finding.Success? ==> r.cache == CacheSet(c, CacheKey, r.finding.value))
      && (r.finding.Failure? ==> r.cache == c)
      && 0 < |r.tried| <= |Thresholds| && r.tried == Thresholds[..|r.tried|]
      && (forall i :: 0 <= i < |r.tried| - 1 ==> IsZero(SelectBest(query(r.tried[i]))))
      && (!IsZero(r.finding) ==> r.finding == SelectBest(query(r.tried[|r.tried| - 1])))
      && (IsZero(r.finding) ==> r.finding == Success(NoFinding) && r.tried == Thresholds)
  {
    var cached := if useCache then CacheGet(c, CacheKey) else None;
    if cached.Some? then Lookup(Success(cached.value), c, [])
    else
      var (f, tried) := Retry(Thresholds, query);
      match f
      case Success(finding) => Lookup(f, CacheSet(c, CacheKey, finding), tried)
      case Failure(_) => Lookup(f, c, tried)
  }

  /** Once a lookup has found something against a working cache, the next
      cached lookup answers the same finding without querying, whatever the
      data became; a lookup that raised leaves the cache as it was, so the
      next one behaves as the first did. */
  lemma {:induction false} SecondLookupIsCached(c: Redis, q1: int -> Option<CorrelationRow>, q2: int -> Option<CorrelationRow>)
    requires Healthy(c)
    ensures var first := FindStrongest(c, true, q1);
      && (first.finding.Success? ==> FindStrongest(first.cache, true, q2) == Lookup(first.finding, first.cache, []))
      && (first.finding.Failure? ==> FindStrongest(first.cache, true, q2) == FindStrongest(c, true, q2))
  {
    var first := FindStrongest(c, true, q1);
    if CacheGet(c, CacheKey).None? && first.finding.Success? {
      CacheRoundTrip(c, CacheKey, CacheKey, first.finding.value);
    }
  }

  /** Without a working cache every lookup queries at least once, and the
      cache stays as it was. */
  lemma NoCacheAlwaysQueries(c: Redis, useCache: bool, query: int -> Option<CorrelationRow>)
    requires !Healthy(c)
    ensures FindStrongest(c, useCache, query).tried != []
    ensures FindStrongest(c, useCache, query).cache == c
  {
  }

  /** When the species-less group is the one the query ranks first, a
      lookup that misses the cache raises at the first threshold. */
  lemma NullSpeciesRaises(c: Redis, query: int -> Option<CorrelationRow>)
    requires CacheGet(c, CacheKey).None?
    requires query(30) == Some(CorrelationRow(None, Some(0.5), None, None))
    ensures FindStrongest(c, true, query).finding == Failure(SpeciesIdTypeError)
    ensures FindStrongest(c, true, query).tried == [30]
  {
  }
}
