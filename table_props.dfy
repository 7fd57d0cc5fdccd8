/**
 * Properties of `loadTable` as a whole: how the table's entry is found in the archive, what
 * is reported about the table itself, and when the rows are read at all.
 */
module TableProperties {
  import opened Wrappers
  import opened Errors
  import opened Gtfs
  import opened LoaderSpec
  import opened RowProperties

  /** `zip.getEntry(name)` finds an entry of that name exactly when there is one. */
  lemma {:induction false} FindEntryCases(zip: seq<Entry>, name: string)
    ensures var r := FindEntry(zip, name);
      (r.Some? ==> r.value in zip && r.value.name == name) &&
      (r.None? <==> forall i :: 0 <= i < |zip| ==> zip[i].name != name)
    decreases |zip|
  {
    if zip != [] {
      FindEntryCases(zip[1..], name);
      assert forall i :: 1 <= i < |zip| ==> zip[i] == zip[1..][i - 1];
    }
  }

  /** `endsWith`: s ends with suffix exactly when s is some prefix followed by suffix. */
  lemma EndsWithConcat(s: string, suffix: string)
    ensures EndsWith(s, suffix) <==> exists p :: s == p + suffix
  {
    if EndsWith(s, suffix) {
      assert s == s[..|s| - |suffix|] + suffix;
    }
    if exists p :: s == p + suffix {
      var p :| s == p + suffix;
      assert s[|s| - |suffix|..] == suffix;
    }
  }

  /**
   * `replace(pat, "")` on a name that ends with pat and holds it nowhere else gives back the
   * part before it: the directory prefix of a match found by the subdirectory scan.
   */
  lemma {:induction false} RemoveSuffixOnly(p: string, pat: string)
    requires pat != []
    requires forall i: nat :: i < |p| ==> !OccursAt(p + pat, pat, i)
    ensures RemoveAll(p + pat, pat) == p
    decreases |p|
  {
    var s := p + pat;
    if p == [] {
      assert s[..|pat|] == pat;
      assert s[|pat|..] == [];
    } else {
      assert !OccursAt(s, pat, 0);
      assert s[..|pat|] == s[0..|pat|];
      assert s[1..] == p[1..] + pat;
      forall i: nat | i < |p[1..]|
        ensures !OccursAt(p[1..] + pat, pat, i)
      {
        assert !OccursAt(s, pat, i + 1);
        assert (p[1..] + pat)[i..i + |pat|] == s[i + 1..i + 1 + |pat|];
      }
      RemoveSuffixOnly(p[1..], pat);
      assert [p[0]] + p[1..] == p;
    }
  }

  /**
   * The reported text is not always a directory: a root entry `old_stops.txt` also ends with
   * `stops.txt`, and its report is `old_`.
   */
  lemma RootEntryReport()
    ensures RemoveAll("old_stops.txt", FileName("stops")) == "old_"
  {
    var pat := FileName("stops");
    assert "old_stops.txt" == "old_" + pat;
    forall i: nat | i < 4
      ensures !OccursAt("old_" + pat, pat, i)
    {
      assert ("old_" + pat)[i] != pat[0];
    }
    RemoveSuffixOnly("old_", pat);
  }

  /** The entries, in archive order, whose name ends with the table's file name. */
  function Matches(zip: seq<Entry>, table: string): (m: seq<Entry>)
    ensures forall e :: e in m ==> e in zip && EndsWith(e.name, FileName(table))
    ensures forall i :: 0 <= i < |zip| && EndsWith(zip[i].name, FileName(table)) ==> zip[i] in m
    ensures (forall i :: 0 <= i < |zip| ==> !EndsWith(zip[i].name, FileName(table))) ==> m == []
    decreases |zip|
  {
    if zip == [] then []
    else
      var p := Matches(zip[..|zip| - 1], table);
      assert forall i :: 0 <= i < |zip| - 1 ==> zip[i] == zip[..|zip| - 1][i];
      if EndsWith(zip[|zip| - 1].name, FileName(table)) then p + [zip[|zip| - 1]] else p
  }

  /**
   * The subdirectory scan reports every matching entry, in order, with the entry's name less
   * each occurrence of the file name: its directory prefix when the file name occurs only at
   * the end of the name (`RemoveSuffixOnly`).
   */
  lemma {:induction false} SubdirScanReports(zip: seq<Entry>, table: string)
    ensures var d := SubdirScan(zip, table).diags;
      var m := Matches(zip, table);
      |d| == |m| &&
      forall i :: 0 <= i < |m| ==> d[i] == TableInSubdirectoryError(table, RemoveAll(m[i].name, FileName(table)))
    decreases |zip|
  {
    if zip != [] {
      var init := zip[..|zip| - 1];
      var last := zip[|zip| - 1];
      SubdirScanReports(init, table);
      if EndsWith(last.name, FileName(table)) {
        assert Matches(zip, table) == Matches(init, table) + [last];
        assert SubdirScan(zip, table).diags ==
               SubdirScan(init, table).diags + [TableInSubdirectoryError(table, RemoveAll(last.name, FileName(table)))];
      }
    }
  }

  /** The subdirectory scan settles on the last matching entry. */
  lemma {:induction false} SubdirScanEntry(zip: seq<Entry>, table: string)
    ensures var m := Matches(zip, table);
      SubdirScan(zip, table).entry == if m == [] then None else Some(m[|m| - 1])
    decreases |zip|
  {
    if zip != [] {
      var init := zip[..|zip| - 1];
      var last := zip[|zip| - 1];
      SubdirScanEntry(init, table);
      if EndsWith(last.name, FileName(table)) {
        assert Matches(zip, table) == Matches(init, table) + [last];
      }
    }
  }

  /**
   * Locating a table: the exact entry, when there is one, with nothing reported. Otherwise the
   * last subdirectory match, each match reported, and a required table reported missing even
   * when a match was found.
   */
  lemma LocateCases(zip: seq<Entry>, table: string, required: bool)
    ensures var loc := Locate(zip, table, required);
      var exact := FindEntry(zip, FileName(table));
      var m := Matches(zip, table);
      (exact.Some? ==> loc == Located(exact, [])) &&
      (exact.None? ==>
         loc.entry == (if m == [] then None else Some(m[|m| - 1])) &&
         |loc.diags| == |m| + (if required then 1 else 0) &&
         (forall i :: 0 <= i < |m| ==>
            loc.diags[i] == TableInSubdirectoryError(table, RemoveAll(m[i].name, FileName(table)))) &&
         (required ==> loc.diags[|m|] == MissingTableError(table)))
  {
    SubdirScanReports(zip, table);
    SubdirScanEntry(zip, table);
  }

  /** With the exact entry present, `loadTable` reads it and reports nothing about where it was. */
  lemma LoadTableExact(parsers: Parsers, st: LoadState, table: string, spec: TableSpec, zip: seq<Entry>, e: Entry)
    requires FindEntry(zip, FileName(table)) == Some(e)
    ensures LoadTable(parsers, st, table, spec, zip) == ReadEntry(parsers, st, table, spec, e)
  {
    assert Log(st, []) == st;
  }

  /**
   * With no entry of the table's name anywhere, no row is read: a required table is reported
   * missing and an optional one leaves the state exactly as it was.
   */
  lemma LoadTableAbsent(parsers: Parsers, st: LoadState, table: string, spec: TableSpec, zip: seq<Entry>)
    requires forall i :: 0 <= i < |zip| ==> !EndsWith(zip[i].name, FileName(table))
    ensures LoadTable(parsers, st, table, spec, zip) ==
            if spec.required then Log(st, [MissingTableError(table)]) else st
  {
    var m := Matches(zip, table);
    forall i | 0 <= i < |zip|
      ensures zip[i].name != FileName(table)
    {
      assert EndsWith(FileName(table), FileName(table)) by {
        assert FileName(table)[0..] == FileName(table);
      }
    }
    FindEntryCases(zip, FileName(table));
    SubdirScanEntry(zip, table);
    SubdirScanReports(zip, table);
    assert Log(st, []) == st;
  }

  /**
   * Reading an entry counts its rows and reports the table empty once for a missing header
   * and once more when no row was ever counted; the rows themselves report only row-level
   * problems.
   */
  lemma EmptyTableReports(parsers: Parsers, st: LoadState, table: string, spec: TableSpec, e: Entry)
    ensures var r := ReadEntry(parsers, st, table, spec, e);
      st.errors <= r.errors && r.row == st.row + |e.records| &&
      Count(r.errors[|st.errors|..], EmptyTableError(table)) ==
        (if e.hasHeader then 0 else 1) + (if st.row + |e.records| == 0 then 1 else 0)
  {
    var header := if e.hasHeader then [] else [EmptyTableError(table)];
    var st1 := Log(st, header);
    var st2 := ScanRows(parsers, st1, table, spec, e.records);
    var tail := if st2.row == 0 then [EmptyTableError(table)] else [];
    ScanRowsProgress(parsers, st1, table, spec, e.records);
    ScanRowsCounter(parsers, st1, table, spec, e.records);
    var rows := Added(st1, st2);
    assert EmptyTableError(table) !in rows by {
      assert !RowLevel(EmptyTableError(table));
    }
    var r := ReadEntry(parsers, st, table, spec, e);
    AppendedInOrder(st.errors, header, st2.errors, tail, r.errors);
    EmptyTableCount(header, rows, tail, EmptyTableError(table));
  }

  lemma AppendedInOrder(e0: seq<Diagnostic>, header: seq<Diagnostic>, e2: seq<Diagnostic>,
                        tail: seq<Diagnostic>, e3: seq<Diagnostic>)
    requires e0 + header <= e2 && e3 == e2 + tail
    ensures e0 <= e3 && e3[|e0|..] == header + e2[|e0 + header|..] + tail
  {
  }

  lemma EmptyTableCount(header: seq<Diagnostic>, rows: seq<Diagnostic>, tail: seq<Diagnostic>, x: Diagnostic)
    requires header == [] || header == [x]
    requires tail == [] || tail == [x]
    requires x !in rows
    ensures Count(header + rows + tail, x) == (if header == [] then 0 else 1) + (if tail == [] then 0 else 1)
  {
    CountAbsent(rows, x);
    CountAppend(header + rows, tail, x);
    CountAppend(header, rows, x);
    CountSingleton(x, x);
    assert Count([], x) == 0;
  }
}
