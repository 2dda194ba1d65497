/** The body of `upload_csv_to_db` in bulk_upload.py after the CSV is parsed:
    column renaming and filling, dropping incomplete rows, the latitude and
    longitude range check, species de-duplication through a name-to-id map,
    and batched inserts. Parsing, the database session and its id sequence
    are inputs. */
module BulkUpload {

  import opened Wrappers
  import opened Seqs

  /** A parsed CSV cell: text or a number. A missing cell (`None`/`NaN`) is
      `Option.None`. */
  datatype Value = Str(s: string) | Num(x: real)

  /** The data frame: a header and rows of cells. */
  datatype Frame = Frame(columns: seq<string>, rows: seq<seq<Option<Value>>>)

  ghost predicate WellFormed(f: Frame) {
    forall i :: 0 <= i < |f.rows| ==> |f.rows[i]| == |f.columns|
  }

  const RequiredColumns: seq<string> := ["scientific_name", "latitude", "longitude", "sighting_date"]
  const OptionalColumns: seq<string> := ["sea_surface_temp_c", "salinity_psu", "chlorophyll_mg_m3"]

  /** The renaming table applied to GBIF column names. */
  function RenameColumn(c: string): string {
    if c == "scientificName" then "scientific_name"
    else if c == "decimalLatitude" then "latitude"
    else if c == "decimalLongitude" then "longitude"
    else if c == "eventDate" then "sighting_date"
    else if c == "sst" then "sea_surface_temp_c"
    else if c == "sss" then "salinity_psu"
    else if c == "chlorophyll" then "chlorophyll_mg_m3"
    else c
  }

  /** `df.rename(columns=...)`: the header is renamed, the cells stay. */
  function Rename(f: Frame): (r: Frame)
    ensures |r.columns| == |f.columns| && r.rows == f.rows
    ensures forall i :: 0 <= i < |f.columns| ==> r.columns[i] == RenameColumn(f.columns[i])
  {
    Frame(seq(|f.columns|, i requires 0 <= i < |f.columns| => RenameColumn(f.columns[i])), f.rows)
  }

  /** `df[col] = None` for one column: a new last column of missing cells,
      unless the column is already present. */
  function AddColumn(f: Frame, c: string): (g: Frame)
    requires WellFormed(f)
    ensures WellFormed(g)
    ensures |g.rows| == |f.rows|
    ensures c in g.columns && f.columns <= g.columns
    ensures c in f.columns ==> g == f
    ensures c !in f.columns ==> g.columns == f.columns + [c]
    ensures forall i :: 0 <= i < |f.rows| ==> f.rows[i] <= g.rows[i]
    ensures forall i, j :: 0 <= i < |g.rows| && |f.columns| <= j < |g.columns| ==> g.rows[i][j].None?
  {
    if c in f.columns then f
    else Frame(f.columns + [c], seq(|f.rows|, i requires 0 <= i < |f.rows| => f.rows[i] + [None]))
  }

  /** `df[col] = None` for every wanted column not already present. */
  function AddMissing(f: Frame, wanted: seq<string>): (r: Frame)
    requires WellFormed(f)
    ensures WellFormed(r)
    ensures |r.rows| == |f.rows|
    ensures f.columns <= r.columns
    ensures forall c :: c in wanted ==> c in r.columns
    ensures forall c :: c in r.columns ==> c in f.columns || c in wanted
    ensures forall i :: 0 <= i < |r.rows| ==> f.rows[i] <= r.rows[i]
    ensures forall i, j :: 0 <= i < |r.rows| && |f.columns| <= j < |r.columns| ==> r.rows[i][j].None?
    decreases |wanted|
  {
    if |wanted| == 0 then f
    else
      var g := AddColumn(f, wanted[0]);
      var r := AddMissing(g, wanted[1..]);
      assert forall c :: c in wanted ==> c == wanted[0] || c in wanted[1..];
      assert forall c :: c in g.columns ==> c in r.columns;
      assert forall i :: 0 <= i < |f.rows| ==> f.rows[i] <= g.rows[i] <= r.rows[i];
      forall i, j | 0 <= i < |r.rows| && |f.columns| <= j < |r.columns|
        ensures r.rows[i][j].None?
      {
        if j < |g.columns| {
          assert g.rows[i] <= r.rows[i] && j < |g.rows[i]|;
          assert r.rows[i][j] == g.rows[i][j];
        }
      }
      r
  }

  /** The cell of column `c`, taking the first column of that name. */
  function Cell(columns: seq<string>, row: seq<Option<Value>>, c: string): Option<Value>
    requires |row| == |columns|
    decreases |columns|
  {
    if |columns| == 0 then None
    else if columns[0] == c then row[0]
    else Cell(columns[1..], row[1..], c)
  }

  /** A row after renaming and filling, read by column name. */
  datatype RawRow = RawRow(
    scientificName: Option<Value>,
    latitude: Option<Value>,
    longitude: Option<Value>,
    sightingDate: Option<Value>,
    sst: Option<Value>,
    sss: Option<Value>,
    chl: Option<Value>)

  /** The renamed, filled frame read row by row. */
  function Prepare(f: Frame): (rows: seq<RawRow>)
    requires WellFormed(f)
    ensures |rows| == |f.rows|
  {
    var g := AddMissing(Rename(f), RequiredColumns + OptionalColumns);
    seq(|g.rows|, i requires 0 <= i < |g.rows| =>
      var row := g.rows[i];
      RawRow(Cell(g.columns, row, "scientific_name"), Cell(g.columns, row, "latitude"),
             Cell(g.columns, row, "longitude"), Cell(g.columns, row, "sighting_date"),
             Cell(g.columns, row, "sea_surface_temp_c"), Cell(g.columns, row, "salinity_psu"),
             Cell(g.columns, row, "chlorophyll_mg_m3")))
  }

  /** Reading a column that was already present sees the original cell;
      reading one that was added sees `None`. */
  lemma CellAfterAddMissing(f: Frame, wanted: seq<string>, i: int, c: string)
    requires WellFormed(f) && 0 <= i < |f.rows|
    ensures var g := AddMissing(f, wanted);
      Cell(g.columns, g.rows[i], c)
        == if c in f.columns then Cell(f.columns, f.rows[i], c) else None
  {
    var g := AddMissing(f, wanted);
    CellPrefix(f.columns, f.rows[i], g.columns, g.rows[i], c);
  }

  /** The cell of column `c` after renaming, or `None` when no renamed
      column carries that name. */
  function Read(columns: seq<string>, row: seq<Option<Value>>, c: string): Option<Value>
    requires |row| == |columns|
  {
    if c in columns then Cell(columns, row, c) else None
  }

  /** Every field of a prepared row is the renamed source column of that
      name, or all-`None` when the source has no such column. */
  lemma PrepareReadsRenamedColumns(f: Frame, i: int)
    requires WellFormed(f) && 0 <= i < |f.rows|
    ensures var h := Rename(f).columns; var row := f.rows[i]; var r := Prepare(f)[i];
      && r.scientificName == Read(h, row, "scientific_name")
      && r.latitude == Read(h, row, "latitude")
      && r.longitude == Read(h, row, "longitude")
      && r.sightingDate == Read(h, row, "sighting_date")
      && r.sst == Read(h, row, "sea_surface_temp_c")
      && r.sss == Read(h, row, "salinity_psu")
      && r.chl == Read(h, row, "chlorophyll_mg_m3")
  {
    var wanted := RequiredColumns + OptionalColumns;
    CellAfterAddMissing(Rename(f), wanted, i, "scientific_name");
    CellAfterAddMissing(Rename(f), wanted, i, "latitude");
    CellAfterAddMissing(Rename(f), wanted, i, "longitude");
    CellAfterAddMissing(Rename(f), wanted, i, "sighting_date");
    CellAfterAddMissing(Rename(f), wanted, i, "sea_surface_temp_c");
    CellAfterAddMissing(Rename(f), wanted, i, "salinity_psu");
    CellAfterAddMissing(Rename(f), wanted, i, "chlorophyll_mg_m3");
  }

  lemma {:induction false} CellPrefix(cs: seq<string>, row: seq<Option<Value>>,
                                     cs': seq<string>, row': seq<Option<Value>>, c: string)
    requires |row| == |cs| && |row'| == |cs'|
    requires cs <= cs' && row <= row'
    requires forall j :: |cs| <= j < |cs'| ==> row'[j].None?
    ensures Cell(cs', row', c) == if c in cs then Cell(cs, row, c) else None
    decreases |cs'|
  {
    if |cs| == 0 {
      CellAllNone(cs', row', c);
    } else if cs[0] != c {
      CellPrefix(cs[1..], row[1..], cs'[1..], row'[1..], c);
    }
  }

  lemma {:induction false} CellAllNone(cs: seq<string>, row: seq<Option<Value>>, c: string)
    requires |row| == |cs|
    requires forall j :: 0 <= j < |row| ==> row[j].None?
    ensures Cell(cs, row, c) == None
    decreases |cs|
  {
    if |cs| > 0 && cs[0] != c {
      CellAllNone(cs[1..], row[1..], c);
    }
  }

  /** A parsed timestamp; `pd.to_datetime` is a parameter. */
  datatype Timestamp = Timestamp(iso: string)

  /** A row that survived both `dropna` calls. */
  datatype CleanRow = CleanRow(
    name: Value, lat: Value, lon: Value, date: Timestamp,
    sst: Option<Value>, sss: Option<Value>, chl: Option<Value>)

  /** Kept by `dropna` on the four required columns and by the date parse
      (`errors='coerce'` turns an unparsable date into a missing one). */
  predicate Admissible(row: RawRow, parseDate: Value -> Option<Timestamp>) {
    && row.scientificName.Some? && row.latitude.Some?
    && row.longitude.Some? && row.sightingDate.Some?
    && parseDate(row.sightingDate.value).Some?
  }

  function ToClean(row: RawRow, parseDate: Value -> Option<Timestamp>): CleanRow
    requires Admissible(row, parseDate)
  {
    CleanRow(row.scientificName.value, row.latitude.value, row.longitude.value,
             parseDate(row.sightingDate.value).value, row.sst, row.sss, row.chl)
  }

  /** Both `dropna` passes: the admissible rows, converted, in input order. */
  function Clean(rows: seq<RawRow>, parseDate: Value -> Option<Timestamp>): seq<CleanRow>
    decreases |rows|
  {
    if |rows| == 0 then []
    else
      var init := Clean(rows[..|rows| - 1], parseDate);
      var last := rows[|rows| - 1];
      if Admissible(last, parseDate) then init + [ToClean(last, parseDate)] else init
  }

  function AdmissibleBy(parseDate: Value -> Option<Timestamp>): RawRow -> bool {
    r => Admissible(r, parseDate)
  }

  /** Exactly the admissible rows survive, in input order, each converted. */
  lemma {:induction false} CleanKeepsAdmissible(rows: seq<RawRow>, parseDate: Value -> Option<Timestamp>)
    ensures var kept := Filter(rows, AdmissibleBy(parseDate));
      |Clean(rows, parseDate)| == |kept|
      && forall j :: 0 <= j < |kept| ==>
           Admissible(kept[j], parseDate) && Clean(rows, parseDate)[j] == ToClean(kept[j], parseDate)
    decreases |rows|
  {
    if |rows| > 0 {
      CleanKeepsAdmissible(rows[..|rows| - 1], parseDate);
    }
  }

  /** `Point(lon, lat)`: x is the longitude, y the latitude. */
  datatype Point = Point(x: real, y: real)

  datatype NewSighting = NewSighting(
    speciesId: int, location: Point, sightingDate: Timestamp,
    sst: Option<Value>, sss: Option<Value>, chl: Option<Value>)

  /** The loop's state: the name-to-id map, keyed by the scientific-name
      cell (the names loaded from the database are text), the next id the
      database will hand out, the species created so far and the sightings
      built so far. */
  datatype IngestState = IngestState(
    existing: map<Value, int>, nextId: int, created: seq<Value>, sightings: seq<NewSighting>)

  /** The text the `scientific_name` column holds for a cell. A numeric
      name is stored as text; how the driver renders the number is an input,
      `render`. */
  function StoredName(v: Value, render: real -> string): string {
    match v
    case Str(s) => s
    case Num(x) => render(x)
  }

  /** Some species already in the table has the text `name` would be stored
      as, so inserting `name` breaks the column's uniqueness. */
  predicate Clashes(existing: map<Value, int>, name: Value, render: real -> string) {
    exists k :: k in existing && StoredName(k, render) == StoredName(name, render)
  }

  const NotComparable := "TypeError: coordinate is not a number"
  const DuplicateName := "IntegrityError: duplicate scientific name"

  /** Both coordinates are numbers inside the inclusive bounds. */
  predicate IsAccepted(row: CleanRow) {
    && row.lat.Num? && -90.0 <= row.lat.x <= 90.0
    && row.lon.Num? && -180.0 <= row.lon.x <= 180.0
  }

  function MakeSighting(row: CleanRow, id: int): NewSighting
    requires IsAccepted(row)
  {
    NewSighting(id, Point(row.lon.x, row.lat.x), row.date, row.sst, row.sss, row.chl)
  }

  /** One iteration of the row loop. The chained comparison stops at the
      latitude, so a bad longitude only raises when the latitude is in range.
      A falsy id (0) in the map counts as missing. The map is keyed by the
      cell itself, so a numeric name misses the text names loaded from the
      database; inserting a species whose stored text is already in the
      table (a name mapped to 0, or a number rendered as a stored text)
      violates the column's uniqueness when flushed. */
  function Step(st: IngestState, row: CleanRow, render: real -> string): (r: Result<IngestState, string>)
    ensures r.Success? && !IsAccepted(row) ==> r.value == st
    ensures row.lat.Num? && !(-90.0 <= row.lat.x <= 90.0) ==> r == Success(st)
    ensures row.lat.Num? && -90.0 <= row.lat.x <= 90.0 && row.lon.Num? && !(-180.0 <= row.lon.x <= 180.0) ==>
      r == Success(st)
    ensures r.Failure? <==>
      || row.lat.Str?
      || (-90.0 <= row.lat.x <= 90.0 && row.lon.Str?)
      || (IsAccepted(row) && !(row.name in st.existing && st.existing[row.name] != 0)
          && Clashes(st.existing, row.name, render))
    ensures r.Failure? ==> r.error == (if IsAccepted(row) then DuplicateName else NotComparable)
    ensures IsAccepted(row) && row.name in st.existing && st.existing[row.name] == 0 ==> r == Failure(DuplicateName)
  {
    match row.lat
    case Str(_) => Failure(NotComparable)
    case Num(lat) =>
      if !(-90.0 <= lat <= 90.0) then Success(st)
      else match row.lon
        case Str(_) => Failure(NotComparable)
        case Num(lon) =>
          if !(-180.0 <= lon <= 180.0) then Success(st)
          else
            var name := row.name;
            if name in st.existing && st.existing[name] != 0 then
              Success(st.(sightings := st.sightings + [MakeSighting(row, st.existing[name])]))
            else if Clashes(st.existing, name, render) then Failure(DuplicateName)
            else
              var id := st.nextId;
              Success(IngestState(st.existing[name := id], id + 1, st.created + [name],
                                  st.sightings + [MakeSighting(row, id)]))
  }

  /** The row loop, stopped by the first row that raises. */
  function Ingest(existing: map<Value, int>, nextId: int, rows: seq<CleanRow>,
                  render: real -> string): Result<IngestState, string>
    decreases |rows|
  {
    if |rows| == 0 then Success(IngestState(existing, nextId, [], []))
    else
      var prev :- Ingest(existing, nextId, rows[..|rows| - 1], render);
      Step(prev, rows[|rows| - 1], render)
  }

  function AcceptedRows(rows: seq<CleanRow>): seq<CleanRow> {
    Filter(rows, IsAccepted)
  }

  /** What the loop promises once it has gone through `rows`: old ids are
      kept, each unseen name got one fresh id, and there is one sighting per
      accepted row, in order, carrying the id its name maps to. */
  ghost predicate Inv(existing0: map<Value, int>, nextId0: int, rows: seq<CleanRow>, st: IngestState) {
    InvAcc(existing0, nextId0, AcceptedRows(rows), st)
  }

  /** `Inv` in terms of the accepted rows `acc` alone. */
  ghost predicate InvAcc(existing0: map<Value, int>, nextId0: int, acc: seq<CleanRow>, st: IngestState) {
    && (forall j :: 0 <= j < |acc| ==> IsAccepted(acc[j]))
    && (forall k :: k in existing0 ==> k in st.existing && st.existing[k] == existing0[k])
    && st.nextId == nextId0 + |st.created|
    && Distinct(st.created)
    && (forall i :: 0 <= i < |st.created| ==>
          st.created[i] !in existing0 && st.created[i] in st.existing
          && st.existing[st.created[i]] == nextId0 + i)
    && (forall k :: k in st.existing ==> k in existing0 || k in st.created)
    && (forall k :: k in st.created ==> exists j :: 0 <= j < |acc| && acc[j].name == k)
    && |st.sightings| == |acc|
    && (forall j :: 0 <= j < |acc| ==>
          acc[j].name in st.existing
          && st.sightings[j] == MakeSighting(acc[j], st.existing[acc[j].name]))
  }

  /** One more row keeps the invariant: `rows` is the rows so far, its last
      one the row `st` is stepped with. */
  lemma StepInv(existing0: map<Value, int>, nextId0: int, rows: seq<CleanRow>, st: IngestState,
                render: real -> string)
    requires |rows| > 0
    requires Inv(existing0, nextId0, rows[..|rows| - 1], st)
    requires Step(st, rows[|rows| - 1], render).Success?
    ensures Inv(existing0, nextId0, rows, Step(st, rows[|rows| - 1], render).value)
  {
    var init, row := rows[..|rows| - 1], rows[|rows| - 1];
    SnocSplit(rows);
    assert (init + [row])[..|init|] == init;
    if IsAccepted(row) {
      assert AcceptedRows(init + [row]) == AcceptedRows(init) + [row];
      if row.name in st.existing && st.existing[row.name] != 0 {
        StepInvReuse(existing0, nextId0, init, st, row, render);
      } else {
        StepInvCreate(existing0, nextId0, init, st, row, render);
      }
    } else {
      assert AcceptedRows(init + [row]) == AcceptedRows(init);
    }
  }

  /** A known name: one sighting is added with the stored id. */
  lemma StepInvReuse(existing0: map<Value, int>, nextId0: int, rows: seq<CleanRow>,
                     st: IngestState, row: CleanRow, render: real -> string)
    requires Inv(existing0, nextId0, rows, st)
    requires IsAccepted(row)
    requires row.name in st.existing && st.existing[row.name] != 0
    requires AcceptedRows(rows + [row]) == AcceptedRows(rows) + [row]
    ensures Step(st, row, render) == Success(st.(sightings := st.sightings + [MakeSighting(row, st.existing[row.name])]))
    ensures Inv(existing0, nextId0, rows + [row], Step(st, row, render).value)
  {
    ReuseKeepsInv(existing0, nextId0, AcceptedRows(rows), st, row);
  }

  lemma ReuseKeepsInv(existing0: map<Value, int>, nextId0: int, acc: seq<CleanRow>,
                      st: IngestState, row: CleanRow)
    requires InvAcc(existing0, nextId0, acc, st)
    requires IsAccepted(row) && row.name in st.existing
    ensures InvAcc(existing0, nextId0, acc + [row],
                   st.(sightings := st.sightings + [MakeSighting(row, st.existing[row.name])]))
  {
    var st' := st.(sightings := st.sightings + [MakeSighting(row, st.existing[row.name])]);
    var acc' := acc + [row];
    forall j | 0 <= j < |acc'|
      ensures acc'[j].name in st'.existing
      ensures st'.sightings[j] == MakeSighting(acc'[j], st'.existing[acc'[j].name])
    {
      if j < |acc| {
        assert acc'[j] == acc[j];
      }
    }
    forall k | k in st'.created
      ensures exists j :: 0 <= j < |acc'| && acc'[j].name == k
    {
      var j :| 0 <= j < |acc| && acc[j].name == k;
      assert acc'[j] == acc[j];
    }
  }

  /** An unseen name: one species is created under the next id. */
  lemma StepInvCreate(existing0: map<Value, int>, nextId0: int, rows: seq<CleanRow>,
                      st: IngestState, row: CleanRow, render: real -> string)
    requires Inv(existing0, nextId0, rows, st)
    requires IsAccepted(row)
    requires !(row.name in st.existing && st.existing[row.name] != 0)
    requires Step(st, row, render).Success?
    requires AcceptedRows(rows + [row]) == AcceptedRows(rows) + [row]
    ensures Inv(existing0, nextId0, rows + [row], Step(st, row, render).value)
  {
    var name := row.name;
    assert !Clashes(st.existing, name, render);
    assert name !in st.existing;
    assert Step(st, row, render).value == Created(st, row, name);
    CreateKeepsInv(existing0, nextId0, AcceptedRows(rows), st, row, name);
  }

  /** The state after creating species `name` for an accepted row. */
  function Created(st: IngestState, row: CleanRow, name: Value): IngestState
    requires IsAccepted(row)
  {
    IngestState(st.existing[name := st.nextId], st.nextId + 1, st.created + [name],
                st.sightings + [MakeSighting(row, st.nextId)])
  }

  lemma CreateKeepsInv(existing0: map<Value, int>, nextId0: int, acc: seq<CleanRow>,
                       st: IngestState, row: CleanRow, name: Value)
    requires InvAcc(existing0, nextId0, acc, st)
    requires IsAccepted(row) && row.name == name && name !in st.existing
    ensures InvAcc(existing0, nextId0, acc + [row], Created(st, row, name))
  {
    var st' := Created(st, row, name);
    var acc' := acc + [row];
    assert name !in st.created;
    assert Distinct(st'.created);
    forall i | 0 <= i < |st'.created|
      ensures st'.created[i] !in existing0 && st'.created[i] in st'.existing
      ensures st'.existing[st'.created[i]] == nextId0 + i
    {
      if i < |st.created| {
        assert st'.created[i] == st.created[i];
      }
    }
    forall j | 0 <= j < |acc'|
      ensures acc'[j].name in st'.existing
      ensures st'.sightings[j] == MakeSighting(acc'[j], st'.existing[acc'[j].name])
    {
      if j < |acc| {
        assert acc'[j] == acc[j];
      }
    }
    forall k | k in st'.created
      ensures exists j :: 0 <= j < |acc'| && acc'[j].name == k
    {
      if k in st.created {
        var j :| 0 <= j < |acc| && acc[j].name == k;
        assert acc'[j] == acc[j];
      } else {
        assert acc'[|acc|].name == k;
      }
    }
  }

  lemma {:induction false} IngestInv(existing: map<Value, int>, nextId: int, rows: seq<CleanRow>,
                                    render: real -> string)
    requires Ingest(existing, nextId, rows, render).Success?
    ensures Inv(existing, nextId, rows, Ingest(existing, nextId, rows, render).value)
    decreases |rows|
  {
    if |rows| > 0 {
      IngestInv(existing, nextId, rows[..|rows| - 1], render);
      StepInv(existing, nextId, rows, Ingest(existing, nextId, rows[..|rows| - 1], render).value, render);
    }
  }

  /** After a successful loop: ids already known are reused unchanged; every
      species created is new, created once, and named by an accepted row;
      and every accepted row yields exactly one sighting, in input order,
      carrying its name's id and the point (lon, lat). */
  lemma IngestSpec(existing: map<Value, int>, nextId: int, rows: seq<CleanRow>, render: real -> string)
    requires Ingest(existing, nextId, rows, render).Success?
    ensures var st := Ingest(existing, nextId, rows, render).value;
      && (forall k :: k in existing ==> k in st.existing && st.existing[k] == existing[k])
      && Distinct(st.created)
      && (forall k :: k in st.created ==> k !in existing)
      && (forall k :: k in st.created ==>
            exists j :: 0 <= j < |AcceptedRows(rows)| && AcceptedRows(rows)[j].name == k)
      && (forall k :: k in st.existing ==> k in existing || k in st.created)
      && |st.sightings| == |AcceptedRows(rows)|
      && forall j :: 0 <= j < |st.sightings| ==>
           var row := AcceptedRows(rows)[j];
           IsAccepted(row) && row.name in st.existing
           && st.sightings[j].speciesId == st.existing[row.name]
           && st.sightings[j].location == Point(row.lon.x, row.lat.x)
  {
    IngestInv(existing, nextId, rows, render);
  }

  /** No row's name is stored as the same text as a different name, whether
      that name is already in the table or named by another row. */
  ghost predicate StoredDistinct(existing: map<Value, int>, rows: seq<CleanRow>, render: real -> string) {
    && (forall i, k :: 0 <= i < |rows| && k in existing ==>
          StoredName(k, render) == StoredName(rows[i].name, render) ==> k == rows[i].name)
    && (forall i, j :: 0 <= i < |rows| && 0 <= j < |rows| ==>
          StoredName(rows[i].name, render) == StoredName(rows[j].name, render) ==> rows[i].name == rows[j].name)
  }

  /** The loop never fails on rows with numeric coordinates when the known
      ids are non-zero, the database's id sequence starts above zero and no
      two different names would be stored as the same text. Every key of the
      map afterwards was known or is a row's name. */
  lemma {:induction false} IngestSucceeds(existing: map<Value, int>, nextId: int, rows: seq<CleanRow>,
                                          render: real -> string)
    requires nextId >= 1
    requires forall k :: k in existing ==> existing[k] != 0
    requires forall i :: 0 <= i < |rows| ==> rows[i].lat.Num? && rows[i].lon.Num?
    requires StoredDistinct(existing, rows, render)
    ensures Ingest(existing, nextId, rows, render).Success?
    ensures var st := Ingest(existing, nextId, rows, render).value;
      && (forall k :: k in st.existing ==> st.existing[k] != 0)
      && (forall k :: k in st.existing ==> k in existing || exists i :: 0 <= i < |rows| && rows[i].name == k)
      && st.nextId >= 1
    decreases |rows|
  {
    if |rows| > 0 {
      var init, row := rows[..|rows| - 1], rows[|rows| - 1];
      assert forall i :: 0 <= i < |init| ==> init[i] == rows[i];
      IngestSucceeds(existing, nextId, init, render);
      var st := Ingest(existing, nextId, init, render).value;
      if IsAccepted(row) && !(row.name in st.existing && st.existing[row.name] != 0) {
        forall k | k in st.existing
          ensures StoredName(k, render) != StoredName(row.name, render)
        {
          if k !in existing {
            var i :| 0 <= i < |init| && init[i].name == k;
            assert rows[i].name == k;
          }
        }
      }
    }
  }

  /** Two accepted rows naming the same number, which no stored name renders
      as, create one species under the next id, and both sightings carry it. */
  lemma NumericNameCreatedOnce(existing: map<Value, int>, nextId: int, r1: CleanRow, r2: CleanRow,
                               render: real -> string)
    requires nextId >= 1
    requires IsAccepted(r1) && IsAccepted(r2) && r1.name == r2.name && r1.name.Num?
    requires !Clashes(existing, r1.name, render)
    ensures Ingest(existing, nextId, [r1, r2], render).Success?
    ensures var st := Ingest(existing, nextId, [r1, r2], render).value;
      && st.created == [r1.name]
      && |st.sightings| == 2
      && st.sightings[0].speciesId == nextId && st.sightings[1].speciesId == nextId
  {
    assert r1.name !in existing;
    var first := IngestState(existing[r1.name := nextId], nextId + 1, [r1.name], [MakeSighting(r1, nextId)]);
    var empty := IngestState(existing, nextId, [], []);
    assert Step(empty, r1, render) == Success(first) by {
      assert [] + [r1.name] == [r1.name] && [] + [MakeSighting(r1, nextId)] == [MakeSighting(r1, nextId)];
    }
    assert Ingest(existing, nextId, [r1], render) == Success(first) by {
      assert [r1][..0] == [];
      assert Ingest(existing, nextId, [], render) == Success(empty);
    }
    assert [r1, r2][..1] == [r1];
    assert Ingest(existing, nextId, [r1, r2], render) == Step(first, r2, render);
    assert Step(first, r2, render) == Success(first.(sightings := first.sightings + [MakeSighting(r2, nextId)]));
  }

  /** A numeric name whose rendering is already stored: the lookup misses,
      because the loaded keys are text, and the insert breaks uniqueness, so
      the upload raises. */
  lemma StoredNumberRaises(existing: map<Value, int>, nextId: int, row: CleanRow, render: real -> string)
    requires IsAccepted(row) && row.name.Num?
    requires forall k :: k in existing ==> k.Str?
    requires Str(render(row.name.x)) in existing
    ensures Ingest(existing, nextId, [row], render) == Failure(DuplicateName)
  {
    assert [row][..0] == [];
    var empty := IngestState(existing, nextId, [], []);
    assert Ingest(existing, nextId, [], render) == Success(empty);
    assert StoredName(Str(render(row.name.x)), render) == StoredName(row.name, render);
    assert Clashes(existing, row.name, render);
    assert Step(empty, row, render) == Failure(DuplicateName);
  }

  /** Within one upload too: a number, then the text it was stored as. The
      second row misses the numeric key and its insert breaks uniqueness. */
  lemma NumberThenItsTextRaises(existing: map<Value, int>, nextId: int, r1: CleanRow, r2: CleanRow,
                                render: real -> string)
    requires nextId >= 1
    requires IsAccepted(r1) && IsAccepted(r2) && r1.name.Num? && r2.name == Str(render(r1.name.x))
    requires !Clashes(existing, r1.name, render)
    ensures Ingest(existing, nextId, [r1, r2], render) == Failure(DuplicateName)
  {
    assert r1.name !in existing;
    var first := IngestState(existing[r1.name := nextId], nextId + 1, [r1.name], [MakeSighting(r1, nextId)]);
    var empty := IngestState(existing, nextId, [], []);
    assert Step(empty, r1, render) == Success(first) by {
      assert [] + [r1.name] == [r1.name] && [] + [MakeSighting(r1, nextId)] == [MakeSighting(r1, nextId)];
    }
    assert Ingest(existing, nextId, [r1], render) == Success(first) by {
      assert [r1][..0] == [];
      assert Ingest(existing, nextId, [], render) == Success(empty);
    }
    assert [r1, r2][..1] == [r1];
    assert Ingest(existing, nextId, [r1, r2], render) == Step(first, r2, render);
    assert StoredName(r1.name, render) == StoredName(r2.name, render);
    assert Step(first, r2, render) == Failure(DuplicateName);
  }

  // ---------------------------------------------------------------------
  // batching

  const BatchSize := 1000

  /** `new_sightings[i:i+size]` for `i` in `range(0, len, size)`. */
  function Batches<T>(s: seq<T>, size: nat): (bs: seq<seq<T>>)
    requires size > 0
    ensures Flatten(bs) == s
    ensures forall i :: 0 <= i < |bs| ==> 1 <= |bs[i]| <= size
    ensures forall i :: 0 <= i < |bs| - 1 ==> |bs[i]| == size
    decreases |s|
  {
    if |s| == 0 then []
    else if |s| <= size then
      assert Flatten([s]) == s + Flatten([s][1..]);
      [s]
    else
      var rest := Batches(s[size..], size);
      assert ([s[..size]] + rest)[1..] == rest;
      assert s == s[..size] + s[size..];
      [s[..size]] + rest
  }

  /** The whole upload: on success the species created and the insert
      batches. A row that raises does so before the first commit, so the
      rollback leaves nothing of this upload behind. */
  datatype UploadPlan = UploadPlan(created: seq<Value>, batches: seq<seq<NewSighting>>)

  function UploadCsv(f: Frame, existing: map<Value, int>, nextId: int,
                     parseDate: Value -> Option<Timestamp>, render: real -> string): (r: Result<UploadPlan, string>)
    requires WellFormed(f)
    ensures r.Success? <==> Ingest(existing, nextId, Clean(Prepare(f), parseDate), render).Success?
    ensures r.Failure? ==> r.error == Ingest(existing, nextId, Clean(Prepare(f), parseDate), render).error
    ensures r.Success? ==>
      var st := Ingest(existing, nextId, Clean(Prepare(f), parseDate), render).value;
      && Flatten(r.value.batches) == st.sightings
      && (forall i :: 0 <= i < |r.value.batches| ==> 1 <= |r.value.batches[i]| <= BatchSize)
      && (|r.value.batches| == 0 <==> |st.sightings| == 0)
      && r.value.created == st.created
  {
    var st :- Ingest(existing, nextId, Clean(Prepare(f), parseDate), render);
    Success(UploadPlan(st.created, Batches(st.sightings, BatchSize)))
  }
}
