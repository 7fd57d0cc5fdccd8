/**
 * `Entity.Writer`: writes one table of a feed as a CSV entry of an output archive, a
 * header record and then one record per entity. As for loading, the table's own
 * `writeHeaders` and `writeOneRow` are driven by the table's column descriptor: the header
 * is the column names, and each row holds, column by column, the cell text of the entity's
 * value for that column.
 */
module Writing {
  import opened Wrappers
  import opened JavaInt
  import opened GtfsTime
  import opened Gtfs
  import opened Codecs
  import opened LoaderSpec

  /** A finished entry of the output archive: its name and its records, cell by cell. */
  datatype OutEntry = OutEntry(name: string, lines: seq<seq<string>>)

  /** The output archive (`ZipOutputStream`): the entries written so far, in order. */
  class Archive {
    var entries: seq<OutEntry>

    constructor()
      ensures entries == []
    {
      entries := [];
    }
  }

  /** A value the row writer can write: `writeDateField` dereferences its date. */
  predicate WritableValue(v: Value)
  {
    !(v.Day? && v.date.None?)
  }

  /** Every column of the descriptor has a writable value in the entity. */
  predicate Writable(cols: seq<Column>, e: Entity)
  {
    forall j :: 0 <= j < |cols| ==> cols[j].name in e.fields && WritableValue(e.fields[cols[j].name])
  }

  /** The cell text a value is written as, by the write method its type calls for. */
  function Cell(formatDate: LocalDate -> string, v: Value): (r: string)
    requires WritableValue(v)
  {
    match v
    case Text(t) => if t.Some? then t.value else ""
    case Integer(n) => IntText(n)
    case TimeOfDay(secs) => TimeText(secs)
    case Day(d) => formatDate(d.value)
    case Link(u) => UrlText(u)
  }

  /** The header record: the column names in order. */
  function HeaderText(cols: seq<Column>): (h: seq<string>)
    ensures |h| == |cols|
    ensures forall j :: 0 <= j < |cols| ==> h[j] == cols[j].name
    decreases |cols|
  {
    if cols == [] then [] else HeaderText(cols[..|cols| - 1]) + [cols[|cols| - 1].name]
  }

  /** The record an entity is written as: one cell per column, in column order. */
  function RowText(formatDate: LocalDate -> string, cols: seq<Column>, e: Entity): (r: seq<string>)
    requires Writable(cols, e)
    ensures |r| == |cols|
    ensures forall j :: 0 <= j < |cols| ==> r[j] == Cell(formatDate, e.fields[cols[j].name])
    decreases |cols|
  {
    if cols == [] then []
    else
      assert Writable(cols[..|cols| - 1], e) by {
        assert forall j :: 0 <= j < |cols| - 1 ==> cols[..|cols| - 1][j] == cols[j];
      }
      RowText(formatDate, cols[..|cols| - 1], e) + [Cell(formatDate, e.fields[cols[|cols| - 1].name])]
  }

  /** The records of a table's entities, one per entity, in iteration order. */
  function TableText(formatDate: LocalDate -> string, cols: seq<Column>, es: seq<Entity>): (t: seq<seq<string>>)
    requires forall i :: 0 <= i < |es| ==> Writable(cols, es[i])
    ensures |t| == |es|
    ensures forall i :: 0 <= i < |es| ==> t[i] == RowText(formatDate, cols, es[i])
    decreases |es|
  {
    if es == [] then [] else TableText(formatDate, cols, es[..|es| - 1]) + [RowText(formatDate, cols, es[|es| - 1])]
  }

  class Writer {
    const tableName: string
    const spec: TableSpec
    /** `LocalDate.format(BASIC_ISO_DATE)`. */
    const formatDate: LocalDate -> string
    /** The one-based count of rows written. */
    var row: int
    /** The CSV writer's finished records. */
    var lines: seq<seq<string>>
    /** The cells of the record being written. */
    var current: seq<string>

    constructor(tableName: string, spec: TableSpec, formatDate: LocalDate -> string)
      ensures this.tableName == tableName && this.spec == spec && this.formatDate == formatDate
      ensures row == 0 && lines == [] && current == []
    {
      this.tableName := tableName;
      this.spec := spec;
      this.formatDate := formatDate;
      row := 0;
      lines := [];
      current := [];
    }

    method WriteStringField(str: string)
      modifies this`current
      ensures current == old(current) + [str]
    {
      current := current + [str];
    }

    /** `writeUrlField`: the URL's text, or the empty cell for null. */
    method WriteUrlField(url: Option<Url>)
      modifies this`current
      ensures current == old(current) + [UrlText(url)]
    {
      var text := if url.Some? then url.value.form else "";
      WriteStringField(text);
    }

    /** `writeDateField`: the date as YYYYMMDD. */
    method WriteDateField(d: LocalDate)
      modifies this`current
      ensures current == old(current) + [formatDate(d)]
    {
      WriteStringField(formatDate(d));
    }

    /** `writeTimeField`: the empty cell for INT_MISSING, otherwise HH:MM:SS. */
    method WriteTimeField(secsSinceMidnight: int32)
      modifies this`current
      ensures current == old(current) + [TimeText(secsSinceMidnight)]
    {
      if secsSinceMidnight == INT_MISSING {
        WriteStringField("");
        return;
      }
      WriteStringField(ConvertToGtfsTime(secsSinceMidnight));
    }

    /** `writeIntField`: the empty cell for INT_MISSING, otherwise the decimal digits. */
    method WriteIntField(val: int32)
      modifies this`current
      ensures current == old(current) + [IntText(val)]
    {
      if val == INT_MISSING {
        WriteStringField("");
      } else {
        WriteStringField(DecimalString(val));
      }
    }

    /** `CsvWriter.endRecord`: the current cells become a finished record. */
    method EndRecord()
      modifies this`lines, this`current
      ensures lines == old(lines) + [old(current)] && current == []
    {
      lines := lines + [current];
      current := [];
    }

    /** The write method a value's type calls for. */
    method WriteValue(v: Value)
      requires WritableValue(v)
      modifies this`current
      ensures current == old(current) + [Cell(formatDate, v)]
    {
      match v
      case Text(t) => WriteStringField(if t.Some? then t.value else "");
      case Integer(n) => WriteIntField(n);
      case TimeOfDay(secs) => WriteTimeField(secs);
      case Day(d) => WriteDateField(d.value);
      case Link(u) => WriteUrlField(u);
    }

    /** `writeHeaders`: one record holding the column names. */
    method WriteHeaders()
      requires current == []
      modifies this`lines, this`current
      ensures lines == old(lines) + [HeaderText(spec.columns)] && current == []
    {
      var i := 0;
      while i < |spec.columns|
        invariant 0 <= i <= |spec.columns|
        invariant current == HeaderText(spec.columns[..i])
        invariant lines == old(lines)
      {
        assert spec.columns[..i + 1][..i] == spec.columns[..i];
        WriteStringField(spec.columns[i].name);
        i := i + 1;
      }
      assert spec.columns[..i] == spec.columns;
      EndRecord();
    }

    /** `writeOneRow`: one record holding the entity's value for each column. */
    method WriteOneRow(e: Entity)
      requires Writable(spec.columns, e) && current == []
      modifies this`lines, this`current
      ensures lines == old(lines) + [RowText(formatDate, spec.columns, e)] && current == []
    {
      var i := 0;
      while i < |spec.columns|
        invariant 0 <= i <= |spec.columns|
        invariant Writable(spec.columns[..i], e)
        invariant current == RowText(formatDate, spec.columns[..i], e)
        invariant lines == old(lines)
      {
        assert spec.columns[..i + 1][..i] == spec.columns[..i];
        assert Writable(spec.columns[..i + 1], e) by {
          assert forall j :: 0 <= j <= i ==> spec.columns[..i + 1][j] == spec.columns[j];
        }
        WriteValue(e.fields[spec.columns[i].name]);
        i := i + 1;
      }
      assert spec.columns[..i] == spec.columns;
      EndRecord();
    }

    /**
     * `writeTable`: a new entry named after the table, holding the header record and then
     * one record per entity in iteration order; the row counter ends at the number of rows.
     */
    method WriteTable(zip: Archive, records: seq<Entity>)
      requires forall i :: 0 <= i < |records| ==> Writable(spec.columns, records[i])
      modifies this`row, this`lines, this`current, zip`entries
      ensures zip.entries == old(zip.entries) +
                [OutEntry(FileName(tableName), [HeaderText(spec.columns)] + TableText(formatDate, spec.columns, records))]
      ensures row == |records|
    {
      lines := [];
      current := [];
      WriteHeaders();
      row := 0;
      var i := 0;
      while i < |records|
        invariant 0 <= i <= |records|
        invariant lines == [HeaderText(spec.columns)] + TableText(formatDate, spec.columns, records[..i])
        invariant current == [] && row == i
        invariant zip.entries == old(zip.entries)
      {
        assert records[..i + 1][..i] == records[..i];
        row := row + 1;
        WriteOneRow(records[i]);
        i := i + 1;
      }
      assert records[..i] == records;
      zip.entries := zip.entries + [OutEntry(FileName(tableName), lines)];
    }
  }
}
