/**
 * What each `Entity.Loader` operation does to the loader's state, as functions. A
 * `LoadState` holds the feed's error list and referential-check set, the loader's
 * missing-column set and row counter, and the map the table's entities go into. The
 * `Loader` class is proved to change its state exactly as these functions say.
 */
module LoaderSpec {
  import opened Wrappers
  import opened JavaInt
  import opened Errors
  import opened Gtfs
  import opened Codecs

  datatype LoadState = LoadState(
    errors: seq<Diagnostic>,           // feed.errors
    transitIds: set<string>,           // feed.transitIds
    missing: set<string>,              // missingRequiredColumns
    row: int,                          // the 1-based row counter
    entities: map<string, Entity>)     // the keyed table being loaded

  /** The state after an operation, and what the operation returned. */
  datatype Step<T> = Step(state: LoadState, value: T)

  function Log(st: LoadState, ds: seq<Diagnostic>): (r: LoadState)
  {
    st.(errors := st.errors + ds)
  }

  // ---------------------------------------------------------------- field presence

  /** The text `getFieldCheckRequired` returns: null for an absent column or an empty cell. */
  function FieldText(record: map<string, string>, column: string): (r: Option<string>)
    ensures r.Some? <==> column in record && record[column] != ""
    ensures r.Some? ==> r.value == record[column]
  {
    if column in record then NonEmpty(record[column]) else None
  }

  /**
   * What `getFieldCheckRequired` reports: MissingColumnError for an absent column unless it
   * was reported before (required or not), EmptyFieldError for an empty cell of a required
   * field.
   */
  function FieldCheckDiags(missing: set<string>, table: string, row: int,
                           record: map<string, string>, column: string, required: bool): (r: seq<Diagnostic>)
  {
    if column !in record then
      (if column in missing then [] else [MissingColumnError(table, column)])
    else if record[column] == "" then
      (if required then [EmptyFieldError(table, row, column)] else [])
    else []
  }

  function FieldCheckStep(st: LoadState, table: string, record: map<string, string>,
                          column: string, required: bool): (r: Step<Option<string>>)
  {
    var diags := FieldCheckDiags(st.missing, table, st.row, record, column, required);
    var missing := if column in record then st.missing else st.missing + {column};
    Step(st.(errors := st.errors + diags, missing := missing), FieldText(record, column))
  }

  // ---------------------------------------------------------------- typed fields

  function IntFieldStep(st: LoadState, table: string, record: map<string, string>, column: string,
                        required: bool, min: int32, max: int32, defaultValue: int32): (r: Step<int32>)
  {
    var f := FieldCheckStep(st, table, record, column, required);
    var d := DecodeInt(f.value, min, max, defaultValue, table, st.row, column);
    Step(Log(f.state, d.diags), d.value)
  }

  function TimeFieldStep(st: LoadState, table: string, record: map<string, string>,
                         column: string, required: bool): (r: Step<int32>)
  {
    var f := FieldCheckStep(st, table, record, column, required);
    var d := DecodeTime(f.value, table, st.row, column);
    Step(Log(f.state, d.diags), d.value)
  }

  function DateFieldStep(parse: string -> Option<LocalDate>, st: LoadState, table: string,
                         record: map<string, string>, column: string, required: bool): (r: Step<Option<LocalDate>>)
  {
    var f := FieldCheckStep(st, table, record, column, required);
    var d := DecodeDate(parse, f.value, table, st.row, column);
    Step(Log(f.state, d.diags), d.value)
  }

  function UrlFieldStep(parse: string -> Option<Url>, st: LoadState, table: string,
                        record: map<string, string>, column: string, required: bool): (r: Step<Option<Url>>)
  {
    var f := FieldCheckStep(st, table, record, column, required);
    var d := DecodeUrl(parse, f.value, table, st.row, column);
    Step(Log(f.state, d.diags), d.value)
  }

  // ---------------------------------------------------------------- referential integrity

  /** The entry `getRefField` keeps in `feed.transitIds` for a checked reference. */
  function RefKey(column: string, value: string): (r: string)
    ensures |r| == |column| + 1 + |value| && r[|column|] == ':'
    ensures r[..|column|] == column && r[|column| + 1..] == value
  {
    column + ":" + value
  }

  /**
   * `getRefField`: the value the reference resolves to in the target table. The first time
   * a column:value pair is seen it is remembered, and a ReferentialIntegrityError is
   * reported if it did not resolve; later occurrences of the pair are not checked again.
   */
  function RefFieldStep<V>(st: LoadState, table: string, record: map<string, string>,
                           column: string, required: bool, target: map<string, V>): (r: Step<Option<V>>)
  {
    var f := FieldCheckStep(st, table, record, column, required);
    if f.value.None? then Step(f.state, None)
    else
      var str := f.value.value;
      var val := if str in target then Some(target[str]) else None;
      var key := RefKey(column, str);
      if key in f.state.transitIds then Step(f.state, val)
      else
        var diags := if val.None? then [ReferentialIntegrityError(table, st.row, column, str)] else [];
        Step(f.state.(transitIds := f.state.transitIds + {key}, errors := f.state.errors + diags), val)
  }

  // ---------------------------------------------------------------- keyed insertion

  /**
   * `insertCheckingDuplicateKey`: an entity without a key is dropped with a MissingKeyError;
   * otherwise it replaces whatever had its key, with a DuplicateKeyError if something did.
   */
  function InsertStep(st: LoadState, table: string, e: Entity, keyField: string): (r: LoadState)
    requires e.keyField.Some?
  {
    var id := GetId(e);
    if id.None? then Log(st, [MissingKeyError(table, st.row, keyField)])
    else
      var key := id.value;
      var diags := if key in st.entities then [DuplicateKeyError(table, st.row, keyField, key)] else [];
      st.(entities := st.entities[key := e], errors := st.errors + diags)
  }

  // ---------------------------------------------------------------- one row

  /** Reads one column with the codec its kind names. */
  function DecodeColumn(parsers: Parsers, st: LoadState, table: string,
                        record: map<string, string>, c: Column): (r: Step<Value>)
    ensures c.kind.StringKind? ==> r.value.Text?
    ensures c.kind.IntKind? ==> r.value.Integer?
    ensures c.kind.TimeKind? ==> r.value.TimeOfDay?
    ensures c.kind.DateKind? ==> r.value.Day?
    ensures c.kind.UrlKind? ==> r.value.Link?
  {
    match c.kind
    case StringKind =>
      var f := FieldCheckStep(st, table, record, c.name, c.required);
      Step(f.state, Text(f.value))
    case IntKind(min, max, dv) =>
      var f := IntFieldStep(st, table, record, c.name, c.required, min, max, dv);
      Step(f.state, Integer(f.value))
    case TimeKind =>
      var f := TimeFieldStep(st, table, record, c.name, c.required);
      Step(f.state, TimeOfDay(f.value))
    case DateKind =>
      var f := DateFieldStep(parsers.date, st, table, record, c.name, c.required);
      Step(f.state, Day(f.value))
    case UrlKind =>
      var f := UrlFieldStep(parsers.url, st, table, record, c.name, c.required);
      Step(f.state, Link(f.value))
  }

  /** Reads the columns in order; a later column of the same name replaces an earlier one. */
  function DecodeColumns(parsers: Parsers, st: LoadState, table: string,
                         record: map<string, string>, cols: seq<Column>): (r: Step<map<string, Value>>)
    decreases |cols|
  {
    if cols == [] then Step(st, map[])
    else
      var p := DecodeColumns(parsers, st, table, record, cols[..|cols| - 1]);
      var c := cols[|cols| - 1];
      var d := DecodeColumn(parsers, p.state, table, record, c);
      Step(d.state, p.value[c.name := d.value])
  }

  /** The table's `loadOneRow`: decode every column, then insert the entity under its key. */
  function LoadRow(parsers: Parsers, st: LoadState, table: string, spec: TableSpec,
                   record: map<string, string>): (r: LoadState)
  {
    var d := DecodeColumns(parsers, st, table, record, spec.columns);
    InsertStep(d.state, table, Entity(st.row, Some(spec.keyField), d.value), spec.keyField)
  }

  /** The row loop of `loadTable`: the counter goes up by one before each row is loaded. */
  function ScanRows(parsers: Parsers, st: LoadState, table: string, spec: TableSpec,
                    records: seq<map<string, string>>): (r: LoadState)
    decreases |records|
  {
    if records == [] then st
    else
      var p := ScanRows(parsers, st, table, spec, records[..|records| - 1]);
      LoadRow(parsers, p.(row := p.row + 1), table, spec, records[|records| - 1])
  }

  // ---------------------------------------------------------------- locating the table

  predicate EndsWith(s: string, suffix: string)
  {
    |suffix| <= |s| && s[|s| - |suffix|..] == suffix
  }

  /** pat occurs in s starting at position i. */
  predicate OccursAt(s: string, pat: string, i: nat)
  {
    i + |pat| <= |s| && s[i..i + |pat|] == pat
  }

  /** `s.replace(pat, "")`: every occurrence of pat, scanning left to right, removed. */
  function RemoveAll(s: string, pat: string): (r: string)
    requires pat != []
    ensures |r| <= |s|
    ensures r != s ==> exists i: nat :: OccursAt(s, pat, i)
    decreases |s|
  {
    if |s| < |pat| then s
    else if s[..|pat|] == pat then
      assert OccursAt(s, pat, 0);
      RemoveAll(s[|pat|..], pat)
    else
      var t := RemoveAll(s[1..], pat);
      assert t != s[1..] ==> exists i: nat :: OccursAt(s, pat, i) by {
        if t != s[1..] {
          var i: nat :| OccursAt(s[1..], pat, i);
          assert s[1..][i..i + |pat|] == s[i + 1..i + 1 + |pat|];
          assert OccursAt(s, pat, i + 1);
        }
      }
      [s[0]] + t
  }

  /** `zip.getEntry(name)`: the entry with exactly this name. */
  function FindEntry(zip: seq<Entry>, name: string): (r: Option<Entry>)
    ensures r.Some? ==> exists i :: 0 <= i < |zip| && zip[i] == r.value && zip[i].name == name &&
                                    forall j :: 0 <= j < i ==> zip[j].name != name
    decreases |zip|
  {
    if zip == [] then None
    else if zip[0].name == name then Some(zip[0])
    else
      var r := FindEntry(zip[1..], name);
      assert r.Some? ==> exists i :: 0 <= i < |zip[1..]| && zip[1..][i] == r.value && zip[1..][i].name == name &&
                                     forall j :: 0 <= j < i ==> zip[1..][j].name != name;
      assert r.Some? ==> exists i :: 0 <= i < |zip| && zip[i] == r.value && zip[i].name == name &&
                                     forall j :: 0 <= j < i ==> zip[j].name != name by {
        if r.Some? {
          var i :| 0 <= i < |zip[1..]| && zip[1..][i] == r.value && zip[1..][i].name == name &&
                   forall j :: 0 <= j < i ==> zip[1..][j].name != name;
          assert zip[i + 1] == r.value;
          forall j | 0 <= j < i + 1 ensures zip[j].name != name {
            if j > 0 { assert zip[j] == zip[1..][j - 1]; }
          }
        }
      }
      r
  }

  datatype Located = Located(entry: Option<Entry>, diags: seq<Diagnostic>)

  /** The file name of a table in the archive. */
  function FileName(table: string): (r: string)
  {
    table + ".txt"
  }

  /**
   * The scan over all entries for one whose name ends with the table's file name: each
   * match becomes the entry to read and is reported with its name less each occurrence of
   * the file name, which is its directory prefix when the file name occurs only at the end.
   */
  function SubdirScan(entries: seq<Entry>, table: string): (r: Located)
    decreases |entries|
  {
    if entries == [] then Located(None, [])
    else
      var p := SubdirScan(entries[..|entries| - 1], table);
      var e := entries[|entries| - 1];
      if EndsWith(e.name, FileName(table)) then
        Located(Some(e), p.diags + [TableInSubdirectoryError(table, RemoveAll(e.name, FileName(table)))])
      else p
  }

  /**
   * The locating half of `loadTable`. When the exact entry is absent, the subdirectory scan
   * runs and a required table is reported missing, whether or not the scan found it.
   */
  function Locate(zip: seq<Entry>, table: string, required: bool): (r: Located)
  {
    var exact := FindEntry(zip, FileName(table));
    if exact.Some? then Located(exact, [])
    else
      var scan := SubdirScan(zip, table);
      Located(scan.entry, scan.diags + (if required then [MissingTableError(table)] else []))
  }

  /** Reading a located entry: an EmptyTableError without a header, the row loop, and another one if no row was ever counted. */
  function ReadEntry(parsers: Parsers, st: LoadState, table: string, spec: TableSpec, e: Entry): (r: LoadState)
  {
    var st1 := Log(st, if e.hasHeader then [] else [EmptyTableError(table)]);
    var st2 := ScanRows(parsers, st1, table, spec, e.records);
    Log(st2, if st2.row == 0 then [EmptyTableError(table)] else [])
  }

  /** `loadTable`. */
  function LoadTable(parsers: Parsers, st: LoadState, table: string, spec: TableSpec, zip: seq<Entry>): (r: LoadState)
  {
    var loc := Locate(zip, table, spec.required);
    var st1 := Log(st, loc.diags);
    if loc.entry.None? then st1 else ReadEntry(parsers, st1, table, spec, loc.entry.value)
  }
}
