/** The per-species bar chart of ChartWidget.jsx: sightings are folded into
    groups keyed by species name, and each bar is the group's mean sea-surface
    temperature. JavaScript adds `null` as 0, so a sighting without a
    temperature still counts toward its group and pulls the mean toward 0. */
module ChartWidget {

  import opened Wrappers
  import opened Seqs

  /** The `species` object of a sighting as the API returns it; `None` is
      JavaScript's `null`. */
  datatype SpeciesInfo = SpeciesInfo(commonName: Option<string>, scientificName: Option<string>)

  datatype Sighting = Sighting(species: SpeciesInfo, seaSurfaceTemp: Option<real>)

  /** One accumulator entry `acc[name] = { temps, count }`. */
  datatype Group = Group(key: string, temps: seq<Option<real>>, count: nat)

  /** The bar trace handed to the plot: `x` labels and `y` values. */
  datatype Chart = Chart(labels: seq<string>, values: seq<real>)

  /** `common_name || scientific_name`, used as an object key: an empty
      common name is falsy, and a `null` key is coerced to the text "null". */
  function GroupKey(s: Sighting): string {
    match s.species.commonName
    case Some(c) =>
      if c != "" then c else NullKey(s.species.scientificName)
    case None => NullKey(s.species.scientificName)
  }

  function NullKey(name: Option<string>): string {
    match name
    case Some(n) => n
    case None => "null"
  }

  /** The grouping key of every sighting, in input order. */
  function KeysOf(ss: seq<Sighting>): (ks: seq<string>)
    ensures |ks| == |ss|
    ensures forall i :: 0 <= i < |ss| ==> ks[i] == GroupKey(ss[i])
  {
    seq(|ss|, i requires 0 <= i < |ss| => GroupKey(ss[i]))
  }

  /** Reference definition of a group's contents: the temperatures of the
      sightings with key `k`, in input order, nulls included. */
  function Members(ss: seq<Sighting>, k: string): seq<Option<real>>
    decreases |ss|
  {
    if |ss| == 0 then []
    else
      Members(ss[..|ss| - 1], k)
      + (if GroupKey(ss[|ss| - 1]) == k then [ss[|ss| - 1].seaSurfaceTemp] else [])
  }

  /** `temps.reduce((a, b) => a + b, 0)`: a `null` reading adds 0. */
  function JsSum(temps: seq<Option<real>>): real
    decreases |temps|
  {
    if |temps| == 0 then 0.0 else JsSum(temps[..|temps| - 1]) + temps[|temps| - 1].GetOr(0.0)
  }

  /** Reference mean: the JavaScript sum over every reading of the group,
      divided by the number of readings, null ones included. */
  function Mean(temps: seq<Option<real>>): real
    requires |temps| > 0
  {
    JsSum(temps) / (|temps| as real)
  }

  function Keys(groups: seq<Group>): (ks: seq<string>)
    ensures |ks| == |groups|
    ensures forall i :: 0 <= i < |groups| ==> ks[i] == groups[i].key
  {
    seq(|groups|, i requires 0 <= i < |groups| => groups[i].key)
  }

  /** One step of the reduce: `acc[key]` is created when missing, then its
      temperature list grows by `temp` and its count by one. */
  function Insert(groups: seq<Group>, key: string, temp: Option<real>): (r: seq<Group>)
    requires Distinct(Keys(groups))
    ensures key in Keys(groups) ==> |r| == |groups|
    ensures key !in Keys(groups) ==> |r| == |groups| + 1 && r[|groups|] == Group(key, [temp], 1)
    ensures forall i :: 0 <= i < |groups| ==>
      r[i] == (if groups[i].key == key
               then Group(key, groups[i].temps + [temp], groups[i].count + 1)
               else groups[i])
    decreases |groups|
  {
    if |groups| == 0 then [Group(key, [temp], 1)]
    else if groups[0].key == key then
      [Group(key, groups[0].temps + [temp], groups[0].count + 1)] + groups[1..]
    else
      assert Keys(groups[1..]) == Keys(groups)[1..];
      [groups[0]] + Insert(groups[1..], key, temp)
  }

  /** `sightings.reduce(..., {})`, folding from the first sighting on. */
  function Aggregate(ss: seq<Sighting>): (groups: seq<Group>)
    ensures Distinct(Keys(groups))
    decreases |ss|
  {
    if |ss| == 0 then []
    else
      var init := Aggregate(ss[..|ss| - 1]);
      var g := Insert(init, GroupKey(ss[|ss| - 1]), ss[|ss| - 1].seaSurfaceTemp);
      assert Distinct(Keys(g)) by {
        var k := GroupKey(ss[|ss| - 1]);
        forall i, j | 0 <= i < j < |g| ensures Keys(g)[i] != Keys(g)[j] {
          if j == |init| {
            assert Keys(init)[i] == Keys(g)[i];
          }
        }
      }
      g
  }

  /** The fold's result agrees with the reference: keys in first-encounter
      order, and each group holding exactly its sightings' readings. */
  ghost predicate Summarises(groups: seq<Group>, ss: seq<Sighting>) {
    && Keys(groups) == Dedup(KeysOf(ss))
    && forall i :: 0 <= i < |groups| ==>
         groups[i].temps == Members(ss, groups[i].key) && groups[i].count == |groups[i].temps|
  }

  lemma {:induction false} AggregateSummarises(ss: seq<Sighting>)
    ensures Summarises(Aggregate(ss), ss)
    decreases |ss|
  {
    if |ss| > 0 {
      var init, last := ss[..|ss| - 1], ss[|ss| - 1];
      AggregateSummarises(init);
      AggregateSnoc(ss);
      SnocSplit(ss);
      InsertSummarises(Aggregate(init), init, last, ss);
    }
  }

  /** One more sighting is one more reduce step. */
  lemma AggregateSnoc(ss: seq<Sighting>)
    requires |ss| > 0
    ensures Aggregate(ss) == Insert(Aggregate(ss[..|ss| - 1]), GroupKey(ss[|ss| - 1]), ss[|ss| - 1].seaSurfaceTemp)
  {
  }

  lemma MembersSnoc(ss: seq<Sighting>, s: Sighting, k: string)
    ensures Members(ss + [s], k)
         == Members(ss, k) + (if GroupKey(s) == k then [s.seaSurfaceTemp] else [])
  {
    assert (ss + [s])[..|ss|] == ss;
  }

  /** One reduce step keeps the fold in agreement with the reference. */
  lemma InsertSummarises(groups: seq<Group>, ss: seq<Sighting>, s: Sighting, ss': seq<Sighting>)
    requires Distinct(Keys(groups))
    requires Summarises(groups, ss)
    requires ss' == ss + [s]
    ensures Summarises(Insert(groups, GroupKey(s), s.seaSurfaceTemp), ss')
  {
    var r := Insert(groups, GroupKey(s), s.seaSurfaceTemp);
    InsertKeys(groups, ss, s);
    forall i | 0 <= i < |r|
      ensures r[i].temps == Members(ss + [s], r[i].key)
      ensures r[i].count == |r[i].temps|
    {
      MembersSnoc(ss, s, r[i].key);
      if i == |groups| {
        assert GroupKey(s) !in Dedup(KeysOf(ss));
        MembersEmpty(ss, GroupKey(s));
      } else {
        OldGroupMembers(groups, ss, i);
      }
    }
  }

  /** A new key is appended after the keys met so far; a known key keeps
      its place. */
  lemma InsertKeys(groups: seq<Group>, ss: seq<Sighting>, s: Sighting)
    requires Distinct(Keys(groups))
    requires Keys(groups) == Dedup(KeysOf(ss))
    ensures Keys(Insert(groups, GroupKey(s), s.seaSurfaceTemp)) == Dedup(KeysOf(ss + [s]))
  {
    var k := GroupKey(s);
    KeysOfSnoc(ss, s);
    DedupSnoc(KeysOf(ss), k);
    KeysAfterInsert(groups, k, s.seaSurfaceTemp);
  }

  lemma KeysOfSnoc(ss: seq<Sighting>, s: Sighting)
    ensures KeysOf(ss + [s]) == KeysOf(ss) + [GroupKey(s)]
  {
  }

  lemma KeysAfterInsert(groups: seq<Group>, key: string, temp: Option<real>)
    requires Distinct(Keys(groups))
    ensures Keys(Insert(groups, key, temp)) == if key in Keys(groups) then Keys(groups) else Keys(groups) + [key]
  {
    var r := Insert(groups, key, temp);
    forall i | 0 <= i < |groups| ensures Keys(r)[i] == Keys(groups)[i] {
      assert r[i].key == groups[i].key;
    }
    if key !in Keys(groups) {
      assert Keys(r)[|groups|] == key;
    }
  }

  /** A group of a summarising fold holds exactly its key's readings. */
  lemma OldGroupMembers(groups: seq<Group>, ss: seq<Sighting>, i: int)
    requires Summarises(groups, ss) && 0 <= i < |groups|
    ensures groups[i].temps == Members(ss, groups[i].key) && groups[i].count == |groups[i].temps|
  {
  }

  /** A key no sighting carries has no members. */
  lemma {:induction false} MembersEmpty(ss: seq<Sighting>, k: string)
    requires k !in KeysOf(ss)
    ensures Members(ss, k) == []
    decreases |ss|
  {
    if |ss| > 0 {
      assert KeysOf(ss)[..|ss| - 1] == KeysOf(ss[..|ss| - 1]);
      assert KeysOf(ss)[|ss| - 1] == GroupKey(ss[|ss| - 1]);
      MembersEmpty(ss[..|ss| - 1], k);
    }
  }

  /** A key some sighting carries has at least one member. */
  lemma {:induction false} MembersNonEmpty(ss: seq<Sighting>, k: string)
    requires k in KeysOf(ss)
    ensures |Members(ss, k)| >= 1
    decreases |ss|
  {
    if GroupKey(ss[|ss| - 1]) != k {
      assert KeysOf(ss) == KeysOf(ss[..|ss| - 1]) + [GroupKey(ss[|ss| - 1])];
      MembersNonEmpty(ss[..|ss| - 1], k);
    }
  }

  /** The chart of a non-empty input: one bar per distinct key, in
      first-encounter order, valued at the group's mean. */
  function BuildChart(ss: seq<Sighting>): (c: Chart)
    ensures |c.labels| == |c.values|
    ensures c.labels == Dedup(KeysOf(ss))
    ensures forall i :: 0 <= i < |c.labels| ==>
      |Members(ss, c.labels[i])| >= 1 && c.values[i] == Mean(Members(ss, c.labels[i]))
  {
    var groups := Aggregate(ss);
    AggregateSummarises(ss);
    forall i | 0 <= i < |groups|
      ensures groups[i].count >= 1
      ensures groups[i].temps == Members(ss, Keys(groups)[i]) && groups[i].count == |groups[i].temps|
    {
      GroupNonEmpty(groups, ss, i);
    }
    Chart(Keys(groups),
          seq(|groups|, i requires 0 <= i < |groups| && groups[i].count >= 1 =>
                JsSum(groups[i].temps) / (groups[i].count as real)))
  }

  /** Each group of a summarising fold holds its key's readings, and at
      least one. */
  lemma GroupNonEmpty(groups: seq<Group>, ss: seq<Sighting>, i: int)
    requires Summarises(groups, ss) && 0 <= i < |groups|
    ensures groups[i].temps == Members(ss, Keys(groups)[i]) && groups[i].count == |groups[i].temps|
    ensures groups[i].count >= 1
  {
    assert groups[i].key == Dedup(KeysOf(ss))[i];
    MembersNonEmpty(ss, groups[i].key);
  }

  /** The `chartData` memo: no chart for a non-array or an empty array. */
  function ChartData(input: Option<seq<Sighting>>): (r: Option<Chart>)
    ensures r.None? <==> input.None? || |input.value| == 0
    ensures r.Some? ==> r.value == BuildChart(input.value)
  {
    match input
    case None => None
    case Some(ss) => if |ss| == 0 then None else Some(BuildChart(ss))
  }

  /** Every sighting lands in exactly one group: the group sizes add up to
      the number of sightings. */
  lemma {:induction false} GroupCountsSum(ss: seq<Sighting>)
    ensures SumNat(Counts(Aggregate(ss))) == |ss|
    decreases |ss|
  {
    if |ss| > 0 {
      var init := Aggregate(ss[..|ss| - 1]);
      var k := GroupKey(ss[|ss| - 1]);
      GroupCountsSum(ss[..|ss| - 1]);
      InsertAddsOne(init, k, ss[|ss| - 1].seaSurfaceTemp);
    }
  }

  function Counts(groups: seq<Group>): (cs: seq<nat>)
    ensures |cs| == |groups|
    ensures forall i :: 0 <= i < |groups| ==> cs[i] == groups[i].count
  {
    seq(|groups|, i requires 0 <= i < |groups| => groups[i].count)
  }

  lemma {:induction false} InsertAddsOne(groups: seq<Group>, key: string, temp: Option<real>)
    requires Distinct(Keys(groups))
    ensures SumNat(Counts(Insert(groups, key, temp))) == SumNat(Counts(groups)) + 1
    decreases |groups|
  {
    var r := Insert(groups, key, temp);
    if key in Keys(groups) {
      var j :| 0 <= j < |groups| && groups[j].key == key;
      var a, b := Counts(groups), Counts(r);
      assert b[j] == a[j] + 1;
      forall i | 0 <= i < |a| && i != j ensures b[i] == a[i] {
        assert Keys(groups)[i] != Keys(groups)[j];
      }
      SumNatBump(a, b, j);
    } else {
      assert Counts(r) == Counts(groups) + [1];
      assert Counts(r)[..|Counts(r)| - 1] == Counts(groups);
    }
  }

  /** Raising one entry by one raises the sum by one. */
  lemma {:induction false} SumNatBump(a: seq<nat>, b: seq<nat>, j: int)
    requires |a| == |b| && 0 <= j < |a|
    requires b[j] == a[j] + 1
    requires forall i :: 0 <= i < |a| && i != j ==> b[i] == a[i]
    ensures SumNat(b) == SumNat(a) + 1
    decreases |a|
  {
    var n := |a| - 1;
    if j == n {
      assert a[..n] == b[..n];
    } else {
      SumNatBump(a[..n], b[..n], j);
    }
  }

  /** Two sightings of species A reading 10 and null and one of B reading
      20 give a bar of 5 for A, not 10: the null reading is averaged in as
      0. */
  lemma NullReadingPullsMeanToZero()
    ensures
      var a := SpeciesInfo(Some("A"), None);
      var b := SpeciesInfo(Some("B"), None);
      ChartData(Some([Sighting(a, Some(10.0)), Sighting(a, None), Sighting(b, Some(20.0))]))
        == Some(Chart(["A", "B"], [5.0, 20.0]))
  {
    var a := SpeciesInfo(Some("A"), None);
    var b := SpeciesInfo(Some("B"), None);
    var s1, s2, s3 := Sighting(a, Some(10.0)), Sighting(a, None), Sighting(b, Some(20.0));
    assert GroupKey(s1) == "A" && GroupKey(s2) == "A" && GroupKey(s3) == "B";
    ExampleChart(s1, s2, s3);
  }

  lemma ExampleChart(s1: Sighting, s2: Sighting, s3: Sighting)
    requires GroupKey(s1) == "A" && GroupKey(s2) == "A" && GroupKey(s3) == "B"
    requires s1.seaSurfaceTemp == Some(10.0) && s2.seaSurfaceTemp == None
    requires s3.seaSurfaceTemp == Some(20.0)
    ensures BuildChart([s1, s2, s3]) == Chart(["A", "B"], [5.0, 20.0])
  {
    var ss := [s1, s2, s3];
    ExampleKeys(s1, s2, s3);
    ExampleMembers(s1, s2, s3);
    var c := BuildChart(ss);
    assert c.labels == ["A", "B"];
    ExampleMeans();
    assert c.values[0] == Mean(Members(ss, "A"));
    assert c.values[1] == Mean(Members(ss, "B"));
    assert c.values == [5.0, 20.0];
  }

  lemma ExampleMeans()
    ensures Mean([Some(10.0), None]) == 5.0
    ensures Mean([Some(20.0)]) == 20.0
  {
    assert [Some(10.0), None][..1] == [Some(10.0)];
    assert [Some(10.0)][..0] == [];
    assert JsSum([Some(10.0)]) == 10.0;
    assert JsSum([Some(10.0), None]) == 10.0;
  }

  lemma ExampleKeys(s1: Sighting, s2: Sighting, s3: Sighting)
    requires GroupKey(s1) == "A" && GroupKey(s2) == "A" && GroupKey(s3) == "B"
    ensures Dedup(KeysOf([s1, s2, s3])) == ["A", "B"]
  {
    var ks := KeysOf([s1, s2, s3]);
    assert ks == ["A", "A", "B"];
    assert ks[..2] == ["A", "A"];
    assert ks[..2][..1] == ["A"];
    assert Dedup(["A"]) == ["A"] by {
      assert ["A"][..0] == [];
    }
  }

  lemma ExampleMembers(s1: Sighting, s2: Sighting, s3: Sighting)
    requires GroupKey(s1) == "A" && GroupKey(s2) == "A" && GroupKey(s3) == "B"
    requires s1.seaSurfaceTemp == Some(10.0) && s2.seaSurfaceTemp == None
    requires s3.seaSurfaceTemp == Some(20.0)
    ensures Members([s1, s2, s3], "A") == [Some(10.0), None]
    ensures Members([s1, s2, s3], "B") == [Some(20.0)]
  {
    MembersSnoc([], s1, "A");
    MembersSnoc([], s1, "B");
    MembersSnoc([s1], s2, "A");
    MembersSnoc([s1], s2, "B");
    MembersSnoc([s1, s2], s3, "A");
    MembersSnoc([s1, s2], s3, "B");
    assert [s1] + [s2] == [s1, s2];
    assert [s1, s2] + [s3] == [s1, s2, s3];
    assert [] + [s1] == [s1];
  }
}
