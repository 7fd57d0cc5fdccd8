/**
 * A worked load of a three-row stops table whose second row leaves a required cell empty and
 * whose third row repeats the first row's key. Coordinates are read as text: the model has no
 * floating-point columns.
 */
module StopsExample {
  import opened Wrappers
  import opened Errors
  import opened Gtfs
  import opened LoaderSpec
  import opened TableProperties

  const Stops := TableSpec(true, "stop_id",
    [Column("stop_id", StringKind, true), Column("stop_lat", StringKind, true), Column("stop_lon", StringKind, true)])

  function Record(id: string, lat: string, lon: string): (r: map<string, string>)
  {
    map["stop_id" := id, "stop_lat" := lat, "stop_lon" := lon]
  }

  function Fields(id: string, lat: Option<string>, lon: string): (r: map<string, Value>)
  {
    map["stop_id" := Text(Some(id)), "stop_lat" := Text(lat), "stop_lon" := Text(Some(lon))]
  }

  function Stop(row: int, id: string, lat: Option<string>, lon: string): (r: Entity)
  {
    Entity(row, Some("stop_id"), Fields(id, lat, lon))
  }

  /** The three records of stops.txt: row 2 has an empty latitude, row 3 repeats row 1's id. */
  const Row1 := Record("S1", "45.5", "-122.6")
  const Row2 := Record("S2", "", "-122.7")
  const Row3 := Record("S1", "45.6", "-122.8")

  /** A feed with nothing loaded yet. */
  const Start := LoadState([], {}, {}, 0, map[])

  /** The row counter going up before a row is loaded. */
  function Next(st: LoadState): (r: LoadState)
  {
    st.(row := st.row + 1)
  }

  /** A row whose three cells are all present: the values read, and only an empty latitude reported. */
  lemma ReadStopRow(parsers: Parsers, st: LoadState, id: string, lat: string, lon: string)
    requires id != "" && lon != ""
    ensures var d := DecodeColumns(parsers, st, "stops", Record(id, lat, lon), Stops.columns);
      d.value == Fields(id, if lat == "" then None else Some(lat), lon) &&
      d.state == Log(st, if lat == "" then [EmptyFieldError("stops", st.row, "stop_lat")] else [])
  {
    var record := Record(id, lat, lon);
    var cols := Stops.columns;
    assert cols[..1] == [cols[0]] && cols[..2] == [cols[0], cols[1]] && cols[..2][..1] == [cols[0]];
    assert [cols[0]][..0] == [];
    assert DecodeColumns(parsers, st, "stops", record, []) == Step(st, map[]);
    var d1 := DecodeColumns(parsers, st, "stops", record, cols[..1]);
    assert d1 == Step(st, map["stop_id" := Text(Some(id))]);
    var d2 := DecodeColumns(parsers, st, "stops", record, cols[..2]);
    assert d2.value == map["stop_id" := Text(Some(id)), "stop_lat" := Text(if lat == "" then None else Some(lat))];
  }

  /** The state after a stop row is loaded, as the loader's rules give it. */
  function Stored(st: LoadState, id: string, lat: string, lon: string): (r: LoadState)
  {
    st.(entities := st.entities[id := Stop(st.row, id, if lat == "" then None else Some(lat), lon)],
        errors := st.errors + (if lat == "" then [EmptyFieldError("stops", st.row, "stop_lat")] else []) +
                  (if id in st.entities then [DuplicateKeyError("stops", st.row, "stop_id", id)] else []))
  }

  /** One stop row loaded: the entity stored under its id, and its empty latitude and repeated id reported. */
  lemma LoadStopRow(parsers: Parsers, st: LoadState, id: string, lat: string, lon: string)
    requires id != "" && lon != ""
    ensures LoadRow(parsers, st, "stops", Stops, Record(id, lat, lon)) == Stored(st, id, lat, lon)
  {
    ReadStopRow(parsers, st, id, lat, lon);
    var e := Stop(st.row, id, if lat == "" then None else Some(lat), lon);
    assert GetId(e) == Some(id);
  }

  /** The row loop over records and then one more, given the state after the records and after the last row. */
  lemma ScanOneMore(parsers: Parsers, st: LoadState, table: string, spec: TableSpec,
                    records: seq<map<string, string>>, r: map<string, string>, before: LoadState, after: LoadState)
    requires ScanRows(parsers, st, table, spec, records) == before
    requires LoadRow(parsers, Next(before), table, spec, r) == after
    ensures ScanRows(parsers, st, table, spec, records + [r]) == after
  {
    var q := records + [r];
    assert q[..|q| - 1] == records;
    assert q[|q| - 1] == r;
  }

  /** The state after the first row: stop S1 stored, nothing reported. */
  const After1 := LoadState([], {}, {}, 1, map["S1" := Stop(1, "S1", Some("45.5"), "-122.6")])

  /** The state after the second row: stop S2 stored, its empty latitude reported. */
  const After2 := LoadState([EmptyFieldError("stops", 2, "stop_lat")], {}, {}, 2,
                            map["S1" := Stop(1, "S1", Some("45.5"), "-122.6"), "S2" := Stop(2, "S2", None, "-122.7")])

  /** The state after the third row: S1 replaced by row 3 and reported as a duplicate key. */
  const After3 := LoadState([EmptyFieldError("stops", 2, "stop_lat"), DuplicateKeyError("stops", 3, "stop_id", "S1")],
                            {}, {}, 3,
                            map["S1" := Stop(3, "S1", Some("45.6"), "-122.8"), "S2" := Stop(2, "S2", None, "-122.7")])

  /** Row 1 on the empty state: S1 stored, nothing reported. */
  lemma FirstStop(parsers: Parsers)
    ensures LoadRow(parsers, Next(Start), "stops", Stops, Row1) == After1
  {
    LoadStopRow(parsers, Next(Start), "S1", "45.5", "-122.6");
  }

  /** Row 2 on the state after row 1: S2 stored and its empty latitude reported. */
  lemma SecondStop(parsers: Parsers)
    ensures LoadRow(parsers, Next(After1), "stops", Stops, Row2) == After2
  {
    LoadStopRow(parsers, Next(After1), "S2", "", "-122.7");
    assert "S2" !in After1.entities by { assert "S1"[1] != "S2"[1]; }
  }

  /** Overwriting the first of two distinct keys. */
  lemma Overwrite<K, V>(a: K, b: K, x: V, y: V, z: V)
    requires a != b
    ensures map[a := x, b := y][a := z] == map[a := z, b := y]
  {
  }

  /** Row 3 on the state after row 2: S1 replaced and reported as a duplicate key. */
  lemma ThirdStop(parsers: Parsers)
    ensures LoadRow(parsers, Next(After2), "stops", Stops, Row3) == After3
  {
    var st := Next(After2);
    LoadStopRow(parsers, st, "S1", "45.6", "-122.8");
    var s3 := Stop(3, "S1", Some("45.6"), "-122.8");
    assert "S1" in st.entities && "45.6" != "";
    assert Stored(st, "S1", "45.6", "-122.8") ==
           st.(entities := st.entities["S1" := s3], errors := st.errors + [] + [DuplicateKeyError("stops", 3, "stop_id", "S1")]);
    assert "S1" != "S2" by { assert "S1"[1] != "S2"[1]; }
    Overwrite("S1", "S2", Stop(1, "S1", Some("45.5"), "-122.6"), Stop(2, "S2", None, "-122.7"), s3);
    assert st.errors + [] + [DuplicateKeyError("stops", 3, "stop_id", "S1")] == After3.errors;
  }

  /** A prefix of a sequence and the next element make the next prefix. */
  lemma Extend<T>(s: seq<T>, n: nat)
    requires n < |s|
    ensures s[..n] + [s[n]] == s[..n + 1]
    ensures n + 1 == |s| ==> s[..n] + [s[n]] == s
  {
  }

  /** The row loop over the three records, one stage at a time. */
  lemma ScanStops(parsers: Parsers, rows: seq<map<string, string>>)
    requires |rows| == 3 && rows[0] == Row1 && rows[1] == Row2 && rows[2] == Row3
    ensures ScanRows(parsers, Start, "stops", Stops, rows) == After3
  {
    FirstStop(parsers);
    ScanOneMore(parsers, Start, "stops", Stops, [], rows[0], Start, After1);
    Extend(rows, 0);
    SecondStop(parsers);
    ScanOneMore(parsers, Start, "stops", Stops, rows[..1], rows[1], After1, After2);
    Extend(rows, 1);
    ThirdStop(parsers);
    ScanOneMore(parsers, Start, "stops", Stops, rows[..2], rows[2], After2, After3);
    Extend(rows, 2);
  }

  /**
   * Loading the table: two entities, one EmptyFieldError for row 2's latitude, one
   * DuplicateKeyError for row 3's key, and the shared key holding row 3's values.
   */
  lemma LoadStops(parsers: Parsers)
    ensures var r := LoadTable(parsers, Start, "stops", Stops, [Entry("stops.txt", true, [Row1, Row2, Row3])]);
      r.errors == [EmptyFieldError("stops", 2, "stop_lat"), DuplicateKeyError("stops", 3, "stop_id", "S1")] &&
      r.entities == map["S1" := Stop(3, "S1", Some("45.6"), "-122.8"), "S2" := Stop(2, "S2", None, "-122.7")] &&
      r.row == 3
  {
    var e := Entry("stops.txt", true, [Row1, Row2, Row3]);
    LoadTableExact(parsers, Start, "stops", Stops, [e], e);
    assert Log(Start, []) == Start;
    ScanStops(parsers, [Row1, Row2, Row3]);
  }
}
