/** The species/date filter of FilterPanel.jsx: the case-insensitive species
    search, the selection rules, and the sighting filter that `Apply`
    hands to `onFilterChange`. The species list and the sightings are
    inputs (the component reads them from constant lists). */
module FilterPanel {

  import opened Wrappers
  import opened Text
  import opened Seqs

  datatype SpeciesOption = SpeciesOption(id: int, commonName: string)

  /** A sighting as the filter sees it: its species id and its ISO date text. */
  datatype SightingRecord = SightingRecord(speciesId: int, sightingDate: string)

  datatype FilterState = FilterState(
    selectedSpecies: string,
    selectedDate: string,
    searchTerm: string,
    dropdownOpen: bool)

  const InitialState := FilterState("", "2024-07-15", "", false)

  /** Whether a species' lower-cased common name contains the lower-cased
      search term. */
  predicate Matches(term: string, sp: SpeciesOption) {
    Contains(ToLower(sp.commonName), ToLower(term))
  }

  function MatchesTerm(term: string): SpeciesOption -> bool {
    sp => Matches(term, sp)
  }

  /** The `filteredSpecies` memo. */
  function FilteredSpecies(list: seq<SpeciesOption>, term: string): (r: seq<SpeciesOption>)
    ensures term == "" ==> r == list
    ensures term != "" ==> r == Filter(list, MatchesTerm(term))
    ensures forall sp :: sp in r <==> sp in list && Matches(term, sp)
  {
    if term == "" then
      assert forall sp :: Matches(term, sp) by {
        forall sp ensures Matches(term, sp) { ContainsSelf(ToLower(sp.commonName)); }
      }
      list
    else Filter(list, MatchesTerm(term))
  }

  /** The empty-term shortcut agrees with filtering by the empty term, which
      every name contains. */
  lemma EmptyTermIsFilter(list: seq<SpeciesOption>)
    ensures FilteredSpecies(list, "") == Filter(list, MatchesTerm(""))
  {
    forall i | 0 <= i < |list| ensures MatchesTerm("")(list[i]) {
      ContainsSelf(ToLower(list[i].commonName));
    }
    FilterAll(list, MatchesTerm(""));
  }

  /** A match means the term occurs, ignoring ASCII case, at some position of
      the name. */
  lemma MatchesIff(term: string, sp: SpeciesOption)
    ensures Matches(term, sp) <==> exists i :: OccursAt(ToLower(sp.commonName), ToLower(term), i)
  {
    ContainsIff(ToLower(sp.commonName), ToLower(term));
  }

  /** `handleSelectSpecies`: the id is stored as its canonical decimal text,
      which parses back to the id. */
  function SelectSpecies(st: FilterState, sp: SpeciesOption): (r: FilterState)
    ensures r.selectedSpecies == IntToDecimal(sp.id)
    ensures ParseDecimal(r.selectedSpecies) == Some(sp.id)
    ensures r.searchTerm == sp.commonName && !r.dropdownOpen
    ensures r.selectedDate == st.selectedDate
  {
    IntToDecimalRoundTrip(sp.id);
    st.(selectedSpecies := IntToDecimal(sp.id), searchTerm := sp.commonName, dropdownOpen := false)
  }

  /** After a species is picked from the list, the search its name leaves in
      the box still offers that species. */
  lemma SelectedSpeciesStillListed(list: seq<SpeciesOption>, st: FilterState, sp: SpeciesOption)
    requires sp in list
    ensures sp in FilteredSpecies(list, SelectSpecies(st, sp).searchTerm)
  {
    ContainsSelf(ToLower(sp.commonName));
  }

  /** `handleSearchChange`: the term is replaced and any selection dropped. */
  function SearchChange(st: FilterState, value: string): (r: FilterState)
    ensures r.searchTerm == value && r.selectedSpecies == ""
    ensures r.selectedDate == st.selectedDate && r.dropdownOpen == st.dropdownOpen
  {
    var typed := st.(searchTerm := value);
    if st.selectedSpecies != "" then typed.(selectedSpecies := "") else typed
  }

  /** The sighting filter: species id text equal to the selection and date
      text before the first `T` equal to the selected date. */
  predicate Selected(st: FilterState, s: SightingRecord) {
    IntToDecimal(s.speciesId) == st.selectedSpecies
    && FirstSegment(s.sightingDate, 'T') == st.selectedDate
  }

  function SelectedBy(st: FilterState): SightingRecord -> bool {
    s => Selected(st, s)
  }

  /** `handleApplyFilters`: `None` when it alerts without calling
      `onFilterChange`, otherwise the list passed to it. */
  function ApplyFilters(st: FilterState, sightings: seq<SightingRecord>): (r: Option<seq<SightingRecord>>)
    ensures r.None? <==> st.selectedSpecies == "" || st.selectedDate == ""
    ensures r.Some? ==> forall s :: s in r.value <==> s in sightings && Selected(st, s)
    ensures r.Some? ==> |r.value| <= |sightings|
  {
    if st.selectedSpecies == "" || st.selectedDate == "" then None
    else Some(Filter(sightings, SelectedBy(st)))
  }

  /** Selecting a species and applying with a date keeps exactly the
      sightings of that species id on that day, in their original order. */
  lemma ApplyAfterSelect(st: FilterState, sp: SpeciesOption, sightings: seq<SightingRecord>)
    requires st.selectedDate != ""
    ensures var r := ApplyFilters(SelectSpecies(st, sp), sightings);
      r.Some? && forall s :: s in r.value <==>
        s in sightings && s.speciesId == sp.id && FirstSegment(s.sightingDate, 'T') == st.selectedDate
  {
    forall s: SightingRecord ensures IntToDecimal(s.speciesId) == IntToDecimal(sp.id) <==> s.speciesId == sp.id {
      IntToDecimalInjective(s.speciesId, sp.id);
    }
  }

  /** The filter is order-preserving: filtering a concatenation filters
      each part in turn. */
  lemma ApplyOrderPreserving(st: FilterState, a: seq<SightingRecord>, b: seq<SightingRecord>)
    requires st.selectedSpecies != "" && st.selectedDate != ""
    ensures ApplyFilters(st, a + b).value == ApplyFilters(st, a).value + ApplyFilters(st, b).value
  {
    FilterConcat(a, b, SelectedBy(st));
  }

  /** The sightings the component ships with: `DUMMY_SIGHTINGS_DATA` is an
      empty list. */
  const ShippedSightings: seq<SightingRecord> := []

  /** With the shipped sightings, applying the filters either alerts or
      passes the empty list, whatever is selected. */
  lemma ApplyToShippedData(st: FilterState)
    ensures ApplyFilters(st, ShippedSightings) == None || ApplyFilters(st, ShippedSightings) == Some([])
  {
  }

  /** A timestamp `day + "T" + time` matches on its day part alone. */
  lemma DatePartOfTimestamp(day: string, time: string)
    requires 'T' !in day
    ensures FirstSegment(day + "T" + time, 'T') == day
  {
    FirstSegmentBeforeSep(day, time, 'T');
  }
}
