/**
 * `Entity.Loader`: reads one GTFS table out of an archive into a keyed map, appending every
 * problem to the feed's shared error list instead of failing. Each method is proved to
 * change the loader's state exactly as the matching function of LoaderSpec says.
 */
module Loading {
  import opened Wrappers
  import opened JavaInt
  import opened Errors
  import opened Gtfs
  import opened Codecs
  import opened GtfsTime
  import opened LoaderSpec

  /** The part of `GTFSFeed` the loaders share: the error list and the checked references. */
  class Feed {
    var errors: seq<Diagnostic>
    var transitIds: set<string>

    constructor ()
      ensures errors == [] && transitIds == {}
    {
      errors := [];
      transitIds := {};
    }
  }

  /** `Deduplicator.deduplicateString`: hands back an equal string (null stays null). */
  function DeduplicateString(s: Option<string>): (r: Option<string>)
  {
    s
  }

  class Loader {
    const feed: Feed
    const tableName: string
    /** The table-specific part: `isRequired`, the key field and the columns `loadOneRow` reads. */
    const spec: TableSpec
    const parsers: Parsers
    var missingRequiredColumns: set<string>
    var row: int
    /** The record the CSV reader is positioned at. */
    var record: map<string, string>
    /** The feed's map this table's entities are inserted into. */
    var entities: map<string, Entity>

    constructor (feed: Feed, tableName: string, spec: TableSpec, parsers: Parsers, entities: map<string, Entity>)
      ensures this.feed == feed && this.tableName == tableName && this.spec == spec
      ensures this.parsers == parsers && this.entities == entities
      ensures missingRequiredColumns == {} && row == 0 && record == map[]
    {
      this.feed := feed;
      this.tableName := tableName;
      this.spec := spec;
      this.parsers := parsers;
      this.entities := entities;
      missingRequiredColumns := {};
      row := 0;
      record := map[];
    }

    function State(): (r: LoadState)
      reads this, feed
    {
      LoadState(feed.errors, feed.transitIds, missingRequiredColumns, row, entities)
    }

    /** Reports a RangeError unless min <= actual <= max, and says which. */
    method CheckRangeInclusive(min: int, max: int, actual: int) returns (ok: bool)
      modifies feed`errors
      ensures ok == InRange(min, max, actual)
      ensures feed.errors == old(feed.errors) + RangeDiags(tableName, row, min, max, actual)
    {
      if actual < min || actual > max {
        feed.errors := feed.errors + [RangeError(tableName, row, min, max, actual)];
        return false;
      }
      return true;
    }

    method GetFieldCheckRequired(column: string, required: bool) returns (str: Option<string>)
      modifies this`missingRequiredColumns, feed`errors
      ensures var s := FieldCheckStep(old(State()), tableName, record, column, required);
        State() == s.state && str == s.value
    {
      str := if column in record then Some(record[column]) else None;
      if str.None? {
        if column !in missingRequiredColumns {
          feed.errors := feed.errors + [MissingColumnError(tableName, column)];
          missingRequiredColumns := missingRequiredColumns + {column};
        }
      } else if str.value == "" {
        if required {
          feed.errors := feed.errors + [EmptyFieldError(tableName, row, column)];
        }
        str := None;
      }
    }

    method GetStringField(column: string, required: bool) returns (str: Option<string>)
      modifies this`missingRequiredColumns, feed`errors
      ensures var s := FieldCheckStep(old(State()), tableName, record, column, required);
        State() == s.state && str == s.value
    {
      str := GetFieldCheckRequired(column, required);
      str := DeduplicateString(str);
    }

    /** The `getIntField` overload without a default: an absent or empty field reads as 0. */
    method GetIntFieldOrZero(column: string, required: bool, min: int32, max: int32) returns (val: int32)
      modifies this`missingRequiredColumns, feed`errors
      ensures var s := IntFieldStep(old(State()), tableName, record, column, required, min, max, 0);
        State() == s.state && val == s.value
    {
      val := GetIntField(column, required, min, max, 0);
    }

    method GetIntField(column: string, required: bool, min: int32, max: int32, defaultValue: int32)
      returns (val: int32)
      modifies this`missingRequiredColumns, feed`errors
      ensures var s := IntFieldStep(old(State()), tableName, record, column, required, min, max, defaultValue);
        State() == s.state && val == s.value
    {
      var str := GetFieldCheckRequired(column, required);
      val := INT_MISSING;
      if str.None? {
        val := defaultValue;
      } else {
        var parsed := ParseInt(str.value);
        if parsed.Some? {
          val := parsed.value;
          var _ := CheckRangeInclusive(min, max, val);
        } else {
          feed.errors := feed.errors + [NumberParseError(tableName, row, column)];
        }
      }
    }

    method GetTimeField(column: string, required: bool) returns (val: int32)
      modifies this`missingRequiredColumns, feed`errors
      ensures var s := TimeFieldStep(old(State()), tableName, record, column, required);
        State() == s.state && val == s.value
    {
      var str := GetFieldCheckRequired(column, required);
      val := INT_MISSING;
      if str.Some? {
        val := ParseTimeText(str.value, column);
      }
    }

    /** The body of `getTimeField` for a non-empty cell: split on ':', parse, range-check. */
    method ParseTimeText(text: string, column: string) returns (val: int32)
      modifies feed`errors
      ensures var d := DecodeTime(Some(text), tableName, row, column);
        State() == Log(old(State()), d.diags) && val == d.value
    {
      val := INT_MISSING;
      var fields := JavaSplit(text, ':');
      if |fields| != 3 {
        feed.errors := feed.errors + [TimeParseError(tableName, row, column)];
      } else {
        var hours, minutes, seconds := ParseInt(fields[0]), ParseInt(fields[1]), ParseInt(fields[2]);
        if hours.Some? && minutes.Some? && seconds.Some? {
          ghost var e0 := feed.errors;
          ghost var dh, dm, ds := RangeDiags(tableName, row, 0, 72, hours.value),
            RangeDiags(tableName, row, 0, 59, minutes.value), RangeDiags(tableName, row, 0, 59, seconds.value);
          var okHours := CheckRangeInclusive(0, 72, hours.value);
          var okMinutes := CheckRangeInclusive(0, 59, minutes.value);
          var okSeconds := CheckRangeInclusive(0, 59, seconds.value);
          assert feed.errors == e0 + (dh + dm + ds);
          val := Seconds(hours.value, minutes.value, seconds.value);
        } else {
          feed.errors := feed.errors + [TimeParseError(tableName, row, column)];
        }
      }
    }

    method GetDateField(column: string, required: bool) returns (date: Option<LocalDate>)
      modifies this`missingRequiredColumns, feed`errors
      ensures var s := DateFieldStep(parsers.date, old(State()), tableName, record, column, required);
        State() == s.state && date == s.value
    {
      var str := GetFieldCheckRequired(column, required);
      date := None;
      if str.Some? {
        date := parsers.date(str.value);
        if date.Some? {
          var _ := CheckRangeInclusive(2000, 2100, date.value.year);
        } else {
          feed.errors := feed.errors + [DateParseError(tableName, row, column)];
        }
      }
    }

    method GetUrlField(column: string, required: bool) returns (url: Option<Url>)
      modifies this`missingRequiredColumns, feed`errors
      ensures var s := UrlFieldStep(parsers.url, old(State()), tableName, record, column, required);
        State() == s.state && url == s.value
    {
      var str := GetFieldCheckRequired(column, required);
      url := None;
      if str.Some? {
        url := parsers.url(str.value);
        if url.None? {
          feed.errors := feed.errors + [URLParseError(tableName, row, column)];
        }
      }
    }

    method GetRefField<V>(column: string, required: bool, target: map<string, V>) returns (val: Option<V>)
      modifies this`missingRequiredColumns, feed`errors, feed`transitIds
      ensures var s := RefFieldStep(old(State()), tableName, record, column, required, target);
        State() == s.state && val == s.value
    {
      var str := GetFieldCheckRequired(column, required);
      val := None;
      if str.Some? {
        val := if str.value in target then Some(target[str.value]) else None;
        var transitId := column + ":" + str.value;
        if transitId !in feed.transitIds {
          feed.transitIds := feed.transitIds + {transitId};
          if val.None? {
            feed.errors := feed.errors + [ReferentialIntegrityError(tableName, row, column, str.value)];
          }
        }
      }
    }

    method InsertCheckingDuplicateKey(value: Entity, keyField: string)
      requires value.keyField.Some?
      modifies this`entities, feed`errors
      ensures State() == InsertStep(old(State()), tableName, value, keyField)
    {
      var key := GetId(value);
      if key.None? {
        feed.errors := feed.errors + [MissingKeyError(tableName, row, keyField)];
        return;
      }
      var previousValue := if key.value in entities then Some(entities[key.value]) else None;
      entities := entities[key.value := value];
      if previousValue.Some? {
        feed.errors := feed.errors + [DuplicateKeyError(tableName, row, keyField, key.value)];
      }
    }

    /** Reads one column of the current record with the codec its kind names. */
    method ReadColumn(c: Column) returns (v: Value)
      modifies this`missingRequiredColumns, feed`errors
      ensures var s := DecodeColumn(parsers, old(State()), tableName, record, c);
        State() == s.state && v == s.value
    {
      match c.kind {
        case StringKind =>
          var s := GetStringField(c.name, c.required);
          v := Text(s);
        case IntKind(min, max, dv) =>
          var i := GetIntField(c.name, c.required, min, max, dv);
          v := Integer(i);
        case TimeKind =>
          var t := GetTimeField(c.name, c.required);
          v := TimeOfDay(t);
        case DateKind =>
          var d := GetDateField(c.name, c.required);
          v := Day(d);
        case UrlKind =>
          var u := GetUrlField(c.name, c.required);
          v := Link(u);
      }
    }

    /** The columns of the current record read in order, each with the field method its kind names. */
    method ReadColumns() returns (fields: map<string, Value>)
      modifies this`missingRequiredColumns, feed`errors
      ensures State() == DecodeColumns(parsers, old(State()), tableName, record, spec.columns).state
      ensures fields == DecodeColumns(parsers, old(State()), tableName, record, spec.columns).value
    {
      ghost var start := State();
      fields := map[];
      var i := 0;
      while i < |spec.columns|
        invariant 0 <= i <= |spec.columns|
        invariant State() == DecodeColumns(parsers, start, tableName, record, spec.columns[..i]).state
        invariant fields == DecodeColumns(parsers, start, tableName, record, spec.columns[..i]).value
      {
        var c := spec.columns[i];
        assert spec.columns[..i + 1][..i] == spec.columns[..i];
        var v := ReadColumn(c);
        fields := fields[c.name := v];
        i := i + 1;
      }
      assert spec.columns[..i] == spec.columns;
    }

    /** `loadOneRow`: the entity of the current record, inserted under its key. */
    method LoadOneRow()
      modifies this`missingRequiredColumns, this`entities, feed`errors
      ensures State() == LoadRow(parsers, old(State()), tableName, spec, record)
    {
      var fields := ReadColumns();
      InsertCheckingDuplicateKey(Entity(row, Some(spec.keyField), fields), spec.keyField);
    }

    /** `loadTable`: locate the table's entry in the archive and load every record of it. */
    method LoadTable(zip: seq<Entry>)
      modifies this`missingRequiredColumns, this`entities, this`row, this`record, feed`errors
      ensures State() == LoaderSpec.LoadTable(parsers, old(State()), tableName, spec, zip)
    {
      var entry := LocateEntry(zip);
      if entry.None? {
        return;
      }
      ReadTable(entry.value);
    }

    /** The first half of `loadTable`: the exact entry, or else the subdirectory scan. */
    method LocateEntry(zip: seq<Entry>) returns (entry: Option<Entry>)
      modifies feed`errors
      ensures var loc := Locate(zip, tableName, spec.required);
        entry == loc.entry && feed.errors == old(feed.errors) + loc.diags
    {
      entry := FindEntry(zip, FileName(tableName));
      if entry.None? {
        // check whether the table lies in a subdirectory
        var i := 0;
        while i < |zip|
          invariant 0 <= i <= |zip|
          invariant var scan := SubdirScan(zip[..i], tableName);
            entry == scan.entry && feed.errors == old(feed.errors) + scan.diags
        {
          var e := zip[i];
          assert zip[..i + 1][..i] == zip[..i];
          if EndsWith(e.name, FileName(tableName)) {
            entry := Some(e);
            feed.errors := feed.errors + [TableInSubdirectoryError(tableName, RemoveAll(e.name, FileName(tableName)))];
          }
          i := i + 1;
        }
        assert zip[..i] == zip;
        if spec.required {
          feed.errors := feed.errors + [MissingTableError(tableName)];
        }
      }
    }

    /** One turn of the row loop: count the row, then load it. */
    method NextRow(r: map<string, string>)
      modifies this`missingRequiredColumns, this`entities, this`row, this`record, feed`errors
      ensures record == r
      ensures State() == LoadRow(parsers, old(State()).(row := old(row) + 1), tableName, spec, r)
    {
      row := row + 1;
      record := r;
      LoadOneRow();
    }

    /** The rows of an entry, one after another, each with the next row number. */
    method ScanRecords(records: seq<map<string, string>>)
      modifies this`missingRequiredColumns, this`entities, this`row, this`record, feed`errors
      ensures State() == ScanRows(parsers, old(State()), tableName, spec, records)
    {
      ghost var start := State();
      var i := 0;
      while i < |records|
        invariant 0 <= i <= |records|
        invariant State() == ScanRows(parsers, start, tableName, spec, records[..i])
      {
        ghost var before := State();
        assert records[..i + 1][..i] == records[..i];
        assert ScanRows(parsers, start, tableName, spec, records[..i + 1]) ==
               LoadRow(parsers, before.(row := before.row + 1), tableName, spec, records[i]);
        NextRow(records[i]);
        i := i + 1;
      }
      assert records[..i] == records;
    }

    /** `loadTable` once the entry is found: the header check, the rows, the empty-table check. */
    method ReadTable(e: Entry)
      modifies this`missingRequiredColumns, this`entities, this`row, this`record, feed`errors
      ensures State() == ReadEntry(parsers, old(State()), tableName, spec, e)
    {
      if !e.hasHeader {
        feed.errors := feed.errors + [EmptyTableError(tableName)];
      }
      ghost var start := State();
      assert start == Log(old(State()), if e.hasHeader then [] else [EmptyTableError(tableName)]);
      ScanRecords(e.records);
      ghost var scanned := State();
      if row == 0 {
        feed.errors := feed.errors + [EmptyTableError(tableName)];
      }
      assert State() == Log(scanned, if scanned.row == 0 then [EmptyTableError(tableName)] else []);
    }
  }
}
