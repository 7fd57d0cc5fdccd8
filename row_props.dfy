/**
 * What loading rows does to the loader's state, over any number of rows: the error list is
 * only ever appended to, the row loop reports only row-level problems, a missing column is
 * reported once per table however many rows lack it, and the row counter numbers the rows
 * from one.
 */
module RowProperties {
  import opened Wrappers
  import opened JavaInt
  import opened Errors
  import opened Gtfs
  import opened Codecs
  import opened LoaderSpec
  import FieldProperties

  /** A problem found in a row, as opposed to one about the table as a whole. */
  predicate RowLevel(d: Diagnostic)
  {
    !(d.TableInSubdirectoryError? || d.MissingTableError? || d.EmptyTableError?)
  }

  /** Diagnostics about a cell's contents: row-level, and never a missing column. */
  predicate CellDiags(ds: seq<Diagnostic>)
  {
    forall d :: d in ds ==> RowLevel(d) && !d.MissingColumnError?
  }

  /** The feed only gains: errors are appended, and the sets of seen columns and references only grow. */
  predicate Grows(a: LoadState, b: LoadState)
  {
    a.errors <= b.errors && a.missing <= b.missing && a.transitIds <= b.transitIds
  }

  /** The errors appended between two states. */
  function Added(a: LoadState, b: LoadState): (r: seq<Diagnostic>)
    requires a.errors <= b.errors
  {
    b.errors[|a.errors|..]
  }

  /** Between a and b, column c was reported missing once if it became missing, and otherwise never. */
  predicate ReportsMissingOnce(a: LoadState, b: LoadState, table: string, c: string)
    requires Grows(a, b)
  {
    Count(Added(a, b), MissingColumnError(table, c)) == if c in b.missing && c !in a.missing then 1 else 0
  }

  /** What every row operation of a loader for `table` keeps. */
  ghost predicate Progress(a: LoadState, b: LoadState, table: string)
  {
    Grows(a, b) &&
    (forall d :: d in Added(a, b) ==> RowLevel(d)) &&
    (forall c :: ReportsMissingOnce(a, b, table, c))
  }

  lemma ProgressRefl(st: LoadState, table: string)
    ensures Progress(st, st, table)
  {
    assert Added(st, st) == [];
  }

  lemma ProgressTrans(a: LoadState, b: LoadState, c: LoadState, table: string)
    requires Progress(a, b, table) && Progress(b, c, table)
    ensures Progress(a, c, table)
  {
    assert Added(a, c) == Added(a, b) + Added(b, c);
    forall n
      ensures ReportsMissingOnce(a, c, table, n)
    {
      assert ReportsMissingOnce(a, b, table, n) && ReportsMissingOnce(b, c, table, n);
      CountAppend(Added(a, b), Added(b, c), MissingColumnError(table, n));
    }
  }

  /** Appending cell diagnostics, and touching neither the missing set nor the reference set, keeps the invariant. */
  lemma AppendProgress(a: LoadState, b: LoadState, table: string)
    requires a.errors <= b.errors && a.missing == b.missing && a.transitIds == b.transitIds
    requires CellDiags(Added(a, b))
    ensures Progress(a, b, table)
  {
    forall n
      ensures ReportsMissingOnce(a, b, table, n)
    {
      CountAbsent(Added(a, b), MissingColumnError(table, n));
    }
  }

  lemma LogProgress(st: LoadState, ds: seq<Diagnostic>, table: string)
    requires CellDiags(ds)
    ensures Progress(st, Log(st, ds), table)
  {
    assert Added(st, Log(st, ds)) == ds;
    AppendProgress(st, Log(st, ds), table);
  }

  /** `getFieldCheckRequired` reports a missing column exactly when it first becomes missing. */
  lemma FieldCheckProgress(st: LoadState, table: string, record: map<string, string>, column: string, required: bool)
    ensures Progress(st, FieldCheckStep(st, table, record, column, required).state, table)
  {
    var next := FieldCheckStep(st, table, record, column, required).state;
    var ds := FieldCheckDiags(st.missing, table, st.row, record, column, required);
    assert Added(st, next) == ds;
    forall n
      ensures ReportsMissingOnce(st, next, table, n)
    {
      if ds == [MissingColumnError(table, column)] {
        CountSingleton(MissingColumnError(table, column), MissingColumnError(table, n));
      } else {
        CountAbsent(ds, MissingColumnError(table, n));
      }
    }
  }

  lemma DecoderCellDiags(parsers: Parsers, text: Option<string>, min: int32, max: int32, dv: int32,
                         table: string, row: int, column: string)
    ensures CellDiags(DecodeInt(text, min, max, dv, table, row, column).diags)
    ensures CellDiags(DecodeTime(text, table, row, column).diags)
    ensures CellDiags(DecodeDate(parsers.date, text, table, row, column).diags)
    ensures CellDiags(DecodeUrl(parsers.url, text, table, row, column).diags)
  {
  }

  lemma DecodeColumnProgress(parsers: Parsers, st: LoadState, table: string, record: map<string, string>, c: Column)
    ensures Progress(st, DecodeColumn(parsers, st, table, record, c).state, table)
  {
    var f := FieldCheckStep(st, table, record, c.name, c.required);
    FieldCheckProgress(st, table, record, c.name, c.required);
    match c.kind
    case StringKind =>
    case IntKind(min, max, dv) =>
      DecoderCellDiags(parsers, f.value, min, max, dv, table, st.row, c.name);
      LogProgress(f.state, DecodeInt(f.value, min, max, dv, table, st.row, c.name).diags, table);
      ProgressTrans(st, f.state, Log(f.state, DecodeInt(f.value, min, max, dv, table, st.row, c.name).diags), table);
    case TimeKind =>
      DecoderCellDiags(parsers, f.value, 0, 0, 0, table, st.row, c.name);
      LogProgress(f.state, DecodeTime(f.value, table, st.row, c.name).diags, table);
      ProgressTrans(st, f.state, Log(f.state, DecodeTime(f.value, table, st.row, c.name).diags), table);
    case DateKind =>
      DecoderCellDiags(parsers, f.value, 0, 0, 0, table, st.row, c.name);
      LogProgress(f.state, DecodeDate(parsers.date, f.value, table, st.row, c.name).diags, table);
      ProgressTrans(st, f.state, Log(f.state, DecodeDate(parsers.date, f.value, table, st.row, c.name).diags), table);
    case UrlKind =>
      DecoderCellDiags(parsers, f.value, 0, 0, 0, table, st.row, c.name);
      LogProgress(f.state, DecodeUrl(parsers.url, f.value, table, st.row, c.name).diags, table);
      ProgressTrans(st, f.state, Log(f.state, DecodeUrl(parsers.url, f.value, table, st.row, c.name).diags), table);
  }

  lemma {:induction false} DecodeColumnsProgress(parsers: Parsers, st: LoadState, table: string,
                                                 record: map<string, string>, cols: seq<Column>)
    ensures Progress(st, DecodeColumns(parsers, st, table, record, cols).state, table)
    decreases |cols|
  {
    if cols == [] {
      ProgressRefl(st, table);
    } else {
      var p := DecodeColumns(parsers, st, table, record, cols[..|cols| - 1]);
      DecodeColumnsProgress(parsers, st, table, record, cols[..|cols| - 1]);
      DecodeColumnProgress(parsers, p.state, table, record, cols[|cols| - 1]);
      ProgressTrans(st, p.state, DecodeColumns(parsers, st, table, record, cols).state, table);
    }
  }

  lemma InsertProgress(st: LoadState, table: string, e: Entity, keyField: string)
    requires e.keyField.Some?
    ensures Progress(st, InsertStep(st, table, e, keyField), table)
  {
    var next := InsertStep(st, table, e, keyField);
    assert Added(st, next) == next.errors[|st.errors|..];
    AppendProgress(st, next, table);
  }

  lemma LoadRowProgress(parsers: Parsers, st: LoadState, table: string, spec: TableSpec, record: map<string, string>)
    ensures Progress(st, LoadRow(parsers, st, table, spec, record), table)
  {
    var d := DecodeColumns(parsers, st, table, record, spec.columns);
    DecodeColumnsProgress(parsers, st, table, record, spec.columns);
    InsertProgress(d.state, table, Entity(st.row, Some(spec.keyField), d.value), spec.keyField);
    ProgressTrans(st, d.state, LoadRow(parsers, st, table, spec, record), table);
  }

  /** The row loop keeps the invariant over any number of rows. */
  lemma {:induction false} ScanRowsProgress(parsers: Parsers, st: LoadState, table: string, spec: TableSpec,
                                            records: seq<map<string, string>>)
    ensures Progress(st, ScanRows(parsers, st, table, spec, records), table)
    decreases |records|
  {
    if records == [] {
      ProgressRefl(st, table);
    } else {
      var p := ScanRows(parsers, st, table, spec, records[..|records| - 1]);
      ScanRowsProgress(parsers, st, table, spec, records[..|records| - 1]);
      var q := p.(row := p.row + 1);
      assert Progress(st, q, table) by {
        assert Added(st, q) == Added(st, p);
        forall n
          ensures ReportsMissingOnce(st, q, table, n)
        {
          assert ReportsMissingOnce(st, p, table, n);
        }
      }
      LoadRowProgress(parsers, q, table, spec, records[|records| - 1]);
      ProgressTrans(st, q, ScanRows(parsers, st, table, spec, records), table);
    }
  }

  // ---------------------------------------------------------------- which columns go missing

  /** The descriptor has a column named n. */
  predicate Names(cols: seq<Column>, n: string)
  {
    exists j :: 0 <= j < |cols| && cols[j].name == n
  }

  /** Some column of the descriptor named n is absent from the record. */
  predicate AbsentFrom(cols: seq<Column>, record: map<string, string>, n: string)
  {
    exists j :: 0 <= j < |cols| && cols[j].name == n && n !in record
  }

  /** Some record lacks a descriptor column named n. */
  predicate AbsentSomewhere(cols: seq<Column>, records: seq<map<string, string>>, n: string)
  {
    exists i :: 0 <= i < |records| && AbsentFrom(cols, records[i], n)
  }

  /** Reading one column changes only the missing set, the error list and nothing else. */
  lemma DecodeColumnFrame(parsers: Parsers, st: LoadState, table: string, record: map<string, string>, c: Column)
    ensures var next := DecodeColumn(parsers, st, table, record, c).state;
      next.row == st.row && next.entities == st.entities && next.transitIds == st.transitIds &&
      next.missing == if c.name in record then st.missing else st.missing + {c.name}
  {
  }

  /**
   * Reading a row's columns leaves the row, the entities and the reference set untouched, and
   * a column name becomes missing exactly when a descriptor column of that name is absent.
   */
  lemma {:induction false} DecodeColumnsFrame(parsers: Parsers, st: LoadState, table: string,
                                              record: map<string, string>, cols: seq<Column>)
    ensures var next := DecodeColumns(parsers, st, table, record, cols).state;
      next.row == st.row && next.entities == st.entities && next.transitIds == st.transitIds &&
      (forall n :: n in next.missing <==> n in st.missing || AbsentFrom(cols, record, n))
    decreases |cols|
  {
    if cols != [] {
      var init := cols[..|cols| - 1];
      var p := DecodeColumns(parsers, st, table, record, init);
      DecodeColumnsFrame(parsers, st, table, record, init);
      DecodeColumnFrame(parsers, p.state, table, record, cols[|cols| - 1]);
      forall n | AbsentFrom(cols, record, n) && n != cols[|cols| - 1].name
        ensures AbsentFrom(init, record, n)
      {
        var j :| 0 <= j < |cols| && cols[j].name == n && n !in record;
        assert init[j] == cols[j];
      }
      forall n | AbsentFrom(init, record, n)
        ensures AbsentFrom(cols, record, n)
      {
        var j :| 0 <= j < |init| && init[j].name == n && n !in record;
        assert cols[j] == init[j];
      }
    }
  }

  /** The values read from a row are keyed by exactly the descriptor's column names. */
  lemma {:induction false} DecodeColumnsKeys(parsers: Parsers, st: LoadState, table: string,
                                             record: map<string, string>, cols: seq<Column>)
    ensures forall n :: n in DecodeColumns(parsers, st, table, record, cols).value <==> Names(cols, n)
    decreases |cols|
  {
    if cols != [] {
      var init := cols[..|cols| - 1];
      DecodeColumnsKeys(parsers, st, table, record, init);
      forall n | Names(cols, n) && n != cols[|cols| - 1].name
        ensures Names(init, n)
      {
        var j :| 0 <= j < |cols| && cols[j].name == n;
        assert init[j] == cols[j];
      }
      forall n | Names(init, n)
        ensures Names(cols, n)
      {
        var j :| 0 <= j < |init| && init[j].name == n;
        assert cols[j] == init[j];
      }
    }
  }

  /**
   * A row removes no entity key and changes at most one: either the map is left as it was, or
   * a single key is (re)bound to the entity read from this row, whose source line is the row
   * counter.
   */
  lemma LoadRowFrame(parsers: Parsers, st: LoadState, table: string, spec: TableSpec, record: map<string, string>)
    ensures var next := LoadRow(parsers, st, table, spec, record);
      next.row == st.row && next.transitIds == st.transitIds &&
      (forall n :: n in next.missing <==> n in st.missing || AbsentFrom(spec.columns, record, n)) &&
      (forall k :: k in next.entities ==>
         (k in st.entities && next.entities[k] == st.entities[k]) || next.entities[k].sourceFileLine == st.row)
    ensures var next := LoadRow(parsers, st, table, spec, record);
      st.entities.Keys <= next.entities.Keys &&
      (next.entities == st.entities ||
       exists k :: k in next.entities && next.entities[k].sourceFileLine == st.row &&
                   next.entities == st.entities[k := next.entities[k]])
  {
    DecodeColumnsFrame(parsers, st, table, record, spec.columns);
    var d := DecodeColumns(parsers, st, table, record, spec.columns);
    var e := Entity(st.row, Some(spec.keyField), d.value);
    FieldProperties.InsertCases(d.state, table, e, spec.keyField);
    var next := LoadRow(parsers, st, table, spec, record);
    if GetId(e).Some? {
      var k := GetId(e).value;
      assert next.entities[k] == e;
      assert next.entities == st.entities[k := e];
    }
  }

  /**
   * The row loop: the counter ends |records| higher, so the rows are numbered one after another
   * from one past the start, no entity key is removed, and every entity stored by the loop
   * carries the number of its row.
   */
  lemma {:induction false} ScanRowsCounter(parsers: Parsers, st: LoadState, table: string, spec: TableSpec,
                                           records: seq<map<string, string>>)
    ensures var next := ScanRows(parsers, st, table, spec, records);
      next.row == st.row + |records| && next.transitIds == st.transitIds &&
      st.entities.Keys <= next.entities.Keys &&
      (forall k :: k in next.entities ==>
         (k in st.entities && next.entities[k] == st.entities[k]) ||
         st.row < next.entities[k].sourceFileLine <= st.row + |records|)
    decreases |records|
  {
    if records != [] {
      var init := records[..|records| - 1];
      var p := ScanRows(parsers, st, table, spec, init);
      ScanRowsCounter(parsers, st, table, spec, init);
      LoadRowFrame(parsers, p.(row := p.row + 1), table, spec, records[|records| - 1]);
      EntitiesStep(st.entities, p.entities, ScanRows(parsers, st, table, spec, records).entities,
                   st.row, st.row + |records|);
    }
  }

  /** One more row keeps the entity frame of the rows before it, with the new row's number. */
  lemma EntitiesStep(first: map<string, Entity>, mid: map<string, Entity>, last: map<string, Entity>,
                     lo: int, hi: int)
    requires lo < hi && first.Keys <= mid.Keys && mid.Keys <= last.Keys
    requires forall k :: k in mid ==> (k in first && mid[k] == first[k]) || lo < mid[k].sourceFileLine <= hi - 1
    requires forall k :: k in last ==> (k in mid && last[k] == mid[k]) || last[k].sourceFileLine == hi
    ensures first.Keys <= last.Keys
    ensures forall k :: k in last ==> (k in first && last[k] == first[k]) || lo < last[k].sourceFileLine <= hi
  {
  }

  /** A column name is missing after the row loop exactly when it was before or some record lacks it. */
  lemma {:induction false} ScanRowsMissing(parsers: Parsers, st: LoadState, table: string, spec: TableSpec,
                                           records: seq<map<string, string>>)
    ensures forall n :: n in ScanRows(parsers, st, table, spec, records).missing <==>
                        n in st.missing || AbsentSomewhere(spec.columns, records, n)
    decreases |records|
  {
    if records != [] {
      var init := records[..|records| - 1];
      var last := records[|records| - 1];
      var p := ScanRows(parsers, st, table, spec, init);
      ScanRowsMissing(parsers, st, table, spec, init);
      LoadRowFrame(parsers, p.(row := p.row + 1), table, spec, last);
      forall n | AbsentSomewhere(spec.columns, records, n) && !AbsentFrom(spec.columns, last, n)
        ensures AbsentSomewhere(spec.columns, init, n)
      {
        var i :| 0 <= i < |records| && AbsentFrom(spec.columns, records[i], n);
        assert init[i] == records[i];
      }
      forall n | AbsentSomewhere(spec.columns, init, n)
        ensures AbsentSomewhere(spec.columns, records, n)
      {
        var i :| 0 <= i < |init| && AbsentFrom(spec.columns, init[i], n);
        assert records[i] == init[i];
      }
      forall n | AbsentFrom(spec.columns, last, n)
        ensures AbsentSomewhere(spec.columns, records, n)
      {
        assert records[|records| - 1] == last;
      }
    }
  }

  /**
   * However many rows lack a column, the table reports it missing once: exactly when it was
   * not reported before and some row lacks it.
   */
  lemma MissingColumnOnce(parsers: Parsers, st: LoadState, table: string, spec: TableSpec,
                          records: seq<map<string, string>>, n: string)
    ensures var next := ScanRows(parsers, st, table, spec, records);
      st.errors <= next.errors &&
      Count(next.errors[|st.errors|..], MissingColumnError(table, n)) ==
        if n !in st.missing && AbsentSomewhere(spec.columns, records, n) then 1 else 0
  {
    ScanRowsProgress(parsers, st, table, spec, records);
    ScanRowsMissing(parsers, st, table, spec, records);
    assert ReportsMissingOnce(st, ScanRows(parsers, st, table, spec, records), table, n);
  }
}
