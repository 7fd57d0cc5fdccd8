/**
 * Writing and reading back: a value written by `Entity.Writer` into the cell of its column
 * is read back by `Entity.Loader` as the same value, so a row written from an entity reads
 * back as that entity's fields, and a written table reads back as one record per entity.
 */
module RoundTrip {
  import opened Wrappers
  import opened JavaInt
  import opened Gtfs
  import opened Codecs
  import opened LoaderSpec
  import opened Writing

  /**
   * A value of the column's kind that survives being written and read back: a string cell
   * that is not the empty string (which reads back as null), an int that is not INT_MISSING
   * unless that is also the column's default, any time, a date and a URL that the library
   * parsers read back from the formatted text.
   */
  predicate Fits(parsers: Parsers, formatDate: LocalDate -> string, c: Column, v: Value)
  {
    match c.kind
    case StringKind => v.Text? && (v.text.Some? ==> v.text.value != "")
    case IntKind(min, max, dv) => v.Integer? && (v.number == INT_MISSING ==> dv == INT_MISSING)
    case TimeKind => v.TimeOfDay?
    case DateKind =>
      v.Day? && v.date.Some? && formatDate(v.date.value) != "" && parsers.date(formatDate(v.date.value)) == v.date
    case UrlKind =>
      v.Link? && (v.url.Some? ==> v.url.value.form != "" && parsers.url(v.url.value.form) == v.url)
  }

  /** A fitting value written into its column's cell is read back as itself. */
  lemma CellRoundTrip(parsers: Parsers, formatDate: LocalDate -> string, st: LoadState, table: string,
                      record: map<string, string>, c: Column, v: Value)
    requires Fits(parsers, formatDate, c, v)
    requires c.name in record && record[c.name] == Cell(formatDate, v)
    ensures DecodeColumn(parsers, st, table, record, c).value == v
  {
    match c.kind
    case StringKind =>
    case IntKind(min, max, dv) =>
      IntRoundTrip(v.number, min, max, dv, table, st.row, c.name);
    case TimeKind =>
      TimeCellRoundTrip(v.seconds, table, st.row, c.name);
    case DateKind =>
      DateRoundTrip(parsers.date, formatDate, v.date.value, table, st.row, c.name);
    case UrlKind =>
      UrlRoundTrip(parsers.url, v.url, table, st.row, c.name);
  }

  /** Every column of the descriptor holds, in the entity, a value that fits it. */
  predicate AllFit(parsers: Parsers, formatDate: LocalDate -> string, cols: seq<Column>, e: Entity)
  {
    forall j :: 0 <= j < |cols| ==> cols[j].name in e.fields && Fits(parsers, formatDate, cols[j], e.fields[cols[j].name])
  }

  /** The record holds, for every column, the cell the writer writes for the entity's value. */
  predicate HoldsCells(formatDate: LocalDate -> string, cols: seq<Column>, e: Entity, record: map<string, string>)
  {
    forall j :: 0 <= j < |cols| ==>
      cols[j].name in e.fields && WritableValue(e.fields[cols[j].name]) &&
      cols[j].name in record && record[cols[j].name] == Cell(formatDate, e.fields[cols[j].name])
  }

  lemma FitsWritable(parsers: Parsers, formatDate: LocalDate -> string, cols: seq<Column>, e: Entity)
    requires AllFit(parsers, formatDate, cols, e)
    ensures Writable(cols, e)
  {
  }

  /** A record holding an entity's written cells reads back as the entity's value in every column. */
  lemma {:induction false} RowRoundTrip(parsers: Parsers, formatDate: LocalDate -> string, st: LoadState,
                                        table: string, cols: seq<Column>, e: Entity, record: map<string, string>)
    requires AllFit(parsers, formatDate, cols, e)
    requires HoldsCells(formatDate, cols, e, record)
    ensures var v := DecodeColumns(parsers, st, table, record, cols).value;
      forall j :: 0 <= j < |cols| ==> cols[j].name in v && v[cols[j].name] == e.fields[cols[j].name]
    decreases |cols|
  {
    if cols != [] {
      var init := cols[..|cols| - 1];
      var c := cols[|cols| - 1];
      assert forall j :: 0 <= j < |init| ==> init[j] == cols[j];
      assert AllFit(parsers, formatDate, init, e);
      assert HoldsCells(formatDate, init, e, record);
      RowRoundTrip(parsers, formatDate, st, table, init, e, record);
      var p := DecodeColumns(parsers, st, table, record, init);
      CellRoundTrip(parsers, formatDate, p.state, table, record, c, e.fields[c.name]);
    }
  }

  // ---------------------------------------------------------------- the CSV reader's header mapping

  /** `CsvReader.get(column)` for one record: each header name maps to the cell in its position. */
  function Zip(header: seq<string>, line: seq<string>): (r: map<string, string>)
    requires |header| == |line|
    decreases |header|
  {
    if header == [] then map[]
    else Zip(header[..|header| - 1], line[..|line| - 1])[header[|header| - 1] := line[|line| - 1]]
  }

  predicate Distinct(names: seq<string>)
  {
    forall i, j :: 0 <= i < j < |names| ==> names[i] != names[j]
  }

  /** With distinct header names, every name maps to the cell in its own position. */
  lemma {:induction false} ZipAt(header: seq<string>, line: seq<string>)
    requires |header| == |line| && Distinct(header)
    ensures forall j :: 0 <= j < |header| ==> header[j] in Zip(header, line) && Zip(header, line)[header[j]] == line[j]
    decreases |header|
  {
    if header != [] {
      var n := |header| - 1;
      assert Distinct(header[..n]);
      ZipAt(header[..n], line[..n]);
      forall j | 0 <= j < n
        ensures header[j] in Zip(header, line) && Zip(header, line)[header[j]] == line[j]
      {
        assert header[..n][j] == header[j] && line[..n][j] == line[j];
      }
    }
  }

  /** How the loader sees a written entry: a header record, then each record mapped by the header. */
  function AsEntry(o: OutEntry): (r: Entry)
    requires o.lines != [] && forall i :: 0 < i < |o.lines| ==> |o.lines[i]| == |o.lines[0]|
  {
    Entry(o.name, true, seq(|o.lines| - 1, i requires 0 <= i < |o.lines| - 1 => Zip(o.lines[0], o.lines[i + 1])))
  }

  /** The entry `writeTable` writes: a header, then one record per entity, all as wide as the header. */
  lemma WrittenLines(formatDate: LocalDate -> string, table: string, spec: TableSpec, es: seq<Entity>, o: OutEntry)
    requires forall k :: 0 <= k < |es| ==> Writable(spec.columns, es[k])
    requires o == OutEntry(FileName(table), [HeaderText(spec.columns)] + TableText(formatDate, spec.columns, es))
    ensures o.lines != [] && |o.lines| == |es| + 1 && o.lines[0] == HeaderText(spec.columns)
    ensures forall k :: 0 < k < |o.lines| ==> o.lines[k] == RowText(formatDate, spec.columns, es[k - 1])
    ensures forall k :: 0 < k < |o.lines| ==> |o.lines[k]| == |o.lines[0]|
  {
  }

  /** One record of a written entry, read back through the header, gives its entity's values. */
  lemma EntryRecordRoundTrip(parsers: Parsers, formatDate: LocalDate -> string, st: LoadState, table: string,
                             spec: TableSpec, es: seq<Entity>, i: int, o: OutEntry)
    requires Distinct(HeaderText(spec.columns))
    requires forall k :: 0 <= k < |es| ==> AllFit(parsers, formatDate, spec.columns, es[k])
    requires forall k :: 0 <= k < |es| ==> Writable(spec.columns, es[k])
    requires 0 <= i < |es|
    requires o == OutEntry(FileName(table), [HeaderText(spec.columns)] + TableText(formatDate, spec.columns, es))
    requires o.lines != [] && forall k :: 0 < k < |o.lines| ==> |o.lines[k]| == |o.lines[0]|
    ensures AsEntry(o).name == FileName(table) && AsEntry(o).hasHeader && |AsEntry(o).records| == |es|
    ensures forall j :: 0 <= j < |spec.columns| ==>
      spec.columns[j].name in DecodeColumns(parsers, st, table, AsEntry(o).records[i], spec.columns).value &&
      DecodeColumns(parsers, st, table, AsEntry(o).records[i], spec.columns).value[spec.columns[j].name]
        == es[i].fields[spec.columns[j].name]
  {
    WrittenLines(formatDate, table, spec, es, o);
    var header := HeaderText(spec.columns);
    var row := RowText(formatDate, spec.columns, es[i]);
    var record := AsEntry(o).records[i];
    assert record == Zip(header, row) by {
      assert o.lines[i + 1] == row;
    }
    ZipAt(header, row);
    assert HoldsCells(formatDate, spec.columns, es[i], record);
    RowRoundTrip(parsers, formatDate, st, table, spec.columns, es[i], record);
  }

  /**
   * A table written by `writeTable`, read back: the entry has the table's file name and a
   * header, one record per written entity, and each record reads back as that entity's value
   * in every column, provided the column names are distinct and every value fits its column.
   */
  lemma TableRoundTrip(parsers: Parsers, formatDate: LocalDate -> string, st: LoadState, table: string,
                       spec: TableSpec, es: seq<Entity>, i: int)
    requires Distinct(HeaderText(spec.columns))
    requires forall k :: 0 <= k < |es| ==> AllFit(parsers, formatDate, spec.columns, es[k])
    requires 0 <= i < |es|
    ensures forall k :: 0 <= k < |es| ==> Writable(spec.columns, es[k])
    ensures var o := OutEntry(FileName(table), [HeaderText(spec.columns)] + TableText(formatDate, spec.columns, es));
      o.lines != [] && (forall k :: 0 < k < |o.lines| ==> |o.lines[k]| == |o.lines[0]|) &&
      var entry := AsEntry(o);
      entry.name == FileName(table) && entry.hasHeader && |entry.records| == |es| &&
      var v := DecodeColumns(parsers, st, table, entry.records[i], spec.columns).value;
      forall j :: 0 <= j < |spec.columns| ==>
        spec.columns[j].name in v && v[spec.columns[j].name] == es[i].fields[spec.columns[j].name]
  {
    forall k | 0 <= k < |es|
      ensures Writable(spec.columns, es[k])
    {
      FitsWritable(parsers, formatDate, spec.columns, es[k]);
    }
    var o := OutEntry(FileName(table), [HeaderText(spec.columns)] + TableText(formatDate, spec.columns, es));
    WrittenLines(formatDate, table, spec, es, o);
    EntryRecordRoundTrip(parsers, formatDate, st, table, spec, es, i, o);
  }
}
