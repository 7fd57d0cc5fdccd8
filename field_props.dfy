/**
 * Properties of the loader's per-field operations: each field check reports an empty cell
 * of a required field, a bad reference is reported once per column and value however often
 * it recurs, and a key inserted N times is reported N-1 times with the last entity kept.
 */
module FieldProperties {
  import opened Wrappers
  import opened Errors
  import opened Gtfs
  import opened Codecs
  import opened LoaderSpec

  /**
   * `getFieldCheckRequired` on one record: null exactly for an absent column or an empty
   * cell; an absent column is added to the missing set and reported unless it was already
   * there, required or not; an empty cell is reported (each time) only for a required field.
   */
  lemma FieldCheckCases(st: LoadState, table: string, record: map<string, string>, column: string, required: bool)
    ensures var f := FieldCheckStep(st, table, record, column, required);
      (f.value.None? <==> column !in record || record[column] == "") &&
      (f.value.Some? ==> f.value.value == record[column]) &&
      f.state.missing == (if column in record then st.missing else st.missing + {column}) &&
      f.state.row == st.row && f.state.entities == st.entities && f.state.transitIds == st.transitIds &&
      (column !in record ==>
         f.state.errors == st.errors + if column in st.missing then [] else [MissingColumnError(table, column)]) &&
      (column in record && record[column] == "" ==>
         f.state.errors == st.errors + if required then [EmptyFieldError(table, st.row, column)] else []) &&
      (column in record && record[column] != "" ==> f.state.errors == st.errors)
  {
  }

  /**
   * `getRefField` on one record with a non-empty cell: the target's entity for that value
   * (null when there is none) is returned every time; the column:value pair is remembered,
   * and a ReferentialIntegrityError is reported only when the pair is new and does not resolve.
   */
  lemma RefFieldCases<V>(st: LoadState, table: string, record: map<string, string>, column: string,
                         required: bool, target: map<string, V>)
    requires column in record && record[column] != ""
    ensures var v := record[column];
      var r := RefFieldStep(st, table, record, column, required, target);
      r.value == (if v in target then Some(target[v]) else None) &&
      r.state.transitIds == st.transitIds + {RefKey(column, v)} &&
      r.state.errors == st.errors +
        (if RefKey(column, v) in st.transitIds || v in target then []
         else [ReferentialIntegrityError(table, st.row, column, v)]) &&
      r.state.missing == st.missing && r.state.row == st.row && r.state.entities == st.entities
  {
  }

  /** `getRefField` on a cell that is absent or empty: the field check alone, and null. */
  lemma RefFieldBlank<V>(st: LoadState, table: string, record: map<string, string>, column: string,
                         required: bool, target: map<string, V>)
    requires column !in record || record[column] == ""
    ensures RefFieldStep(st, table, record, column, required, target) ==
            Step(FieldCheckStep(st, table, record, column, required).state, None)
  {
  }

  /** One reference column checked on each row in turn, the row counter going up before each. */
  function RefScan<V>(st: LoadState, table: string, records: seq<map<string, string>>, column: string,
                      required: bool, target: map<string, V>): (r: LoadState)
    decreases |records|
  {
    if records == [] then st
    else
      var p := RefScan(st, table, records[..|records| - 1], column, required, target);
      RefFieldStep(p.(row := p.row + 1), table, records[|records| - 1], column, required, target).state
  }

  /**
   * N rows holding the same value in a reference column: at most one ReferentialIntegrityError,
   * on the first of those rows, and only if the value does not resolve and the pair was not
   * checked before.
   */
  lemma {:induction false} RepeatedReference<V>(st: LoadState, table: string, records: seq<map<string, string>>,
                                                column: string, required: bool, target: map<string, V>, v: string)
    requires v != "" && records != []
    requires forall i :: 0 <= i < |records| ==> column in records[i] && records[i][column] == v
    ensures var r := RefScan(st, table, records, column, required, target);
      r.errors == st.errors +
        (if RefKey(column, v) in st.transitIds || v in target then []
         else [ReferentialIntegrityError(table, st.row + 1, column, v)]) &&
      r.transitIds == st.transitIds + {RefKey(column, v)} &&
      r.row == st.row + |records| && r.missing == st.missing
    decreases |records|
  {
    var init := records[..|records| - 1];
    var last := records[|records| - 1];
    if init == [] {
      RefFieldCases(st.(row := st.row + 1), table, last, column, required, target);
    } else {
      assert forall i :: 0 <= i < |init| ==> init[i] == records[i];
      RepeatedReference(st, table, init, column, required, target, v);
      var p := RefScan(st, table, init, column, required, target);
      RefFieldCases(p.(row := p.row + 1), table, last, column, required, target);
    }
  }

  /**
   * Distinct column:value pairs are remembered under distinct keys, as long as column names
   * hold no ':' (values may).
   */
  lemma {:induction false} RefKeyInjective(c1: string, v1: string, c2: string, v2: string)
    requires ':' !in c1 && ':' !in c2
    ensures RefKey(c1, v1) == RefKey(c2, v2) <==> c1 == c2 && v1 == v2
  {
    if RefKey(c1, v1) == RefKey(c2, v2) && |c1| != |c2| {
      assert false;
    }
  }

  /**
   * `insertCheckingDuplicateKey`: an entity without a key leaves the map as it was and is
   * reported; otherwise it is stored under its key, the key is reported exactly when it was
   * already present, and every other key keeps its entity.
   */
  lemma InsertCases(st: LoadState, table: string, e: Entity, keyField: string)
    requires e.keyField.Some?
    ensures var r := InsertStep(st, table, e, keyField);
      r.row == st.row && r.missing == st.missing && r.transitIds == st.transitIds &&
      (GetId(e).None? ==>
         r.entities == st.entities && r.errors == st.errors + [MissingKeyError(table, st.row, keyField)]) &&
      (GetId(e).Some? ==>
         var k := GetId(e).value;
         k in r.entities && r.entities[k] == e &&
         (forall j :: j != k ==> (j in r.entities <==> j in st.entities)) &&
         (forall j :: j != k && j in st.entities ==> r.entities[j] == st.entities[j]) &&
         r.errors == st.errors + if k in st.entities then [DuplicateKeyError(table, st.row, keyField, k)] else [])
  {
  }

  /** Entities inserted one per row, the row counter going up before each. */
  function InsertAll(st: LoadState, table: string, es: seq<Entity>, keyField: string): (r: LoadState)
    requires forall i :: 0 <= i < |es| ==> es[i].keyField.Some?
    decreases |es|
  {
    if es == [] then st
    else
      var p := InsertAll(st, table, es[..|es| - 1], keyField);
      InsertStep(p.(row := p.row + 1), table, es[|es| - 1], keyField)
  }

  /**
   * DuplicateKeyErrors for key k on n consecutive rows starting at row first: the error list
   * `RepeatedKey` states its result with.
   */
  function Duplicates(table: string, keyField: string, k: string, first: int, n: nat): (d: seq<Diagnostic>)
    ensures |d| == n
    ensures forall i :: 0 <= i < n ==> d[i] == DuplicateKeyError(table, first + i, keyField, k)
    decreases n
  {
    if n == 0 then [] else Duplicates(table, keyField, k, first, n - 1) + [DuplicateKeyError(table, first + n - 1, keyField, k)]
  }

  /**
   * N entities with the same key: the last one is kept, and the key is reported as a
   * duplicate on every row but the first (on every row, when it was present before).
   */
  lemma {:induction false} RepeatedKey(st: LoadState, table: string, es: seq<Entity>, keyField: string, k: string)
    requires es != []
    requires forall i :: 0 <= i < |es| ==> es[i].keyField.Some? && GetId(es[i]) == Some(k)
    ensures InsertAll(st, table, es, keyField).entities == st.entities[k := es[|es| - 1]]
    ensures InsertAll(st, table, es, keyField).row == st.row + |es|
    ensures k in st.entities ==>
      InsertAll(st, table, es, keyField).errors == st.errors + Duplicates(table, keyField, k, st.row + 1, |es|)
    ensures k !in st.entities ==>
      InsertAll(st, table, es, keyField).errors == st.errors + Duplicates(table, keyField, k, st.row + 2, |es| - 1)
    decreases |es|
  {
    var init := es[..|es| - 1];
    var last := es[|es| - 1];
    var p := if init == [] then st else InsertAll(st, table, init, keyField);
    if init != [] {
      assert forall i :: 0 <= i < |init| ==> init[i] == es[i];
      RepeatedKey(st, table, init, keyField, k);
    }
    var q := p.(row := p.row + 1);
    assert InsertAll(st, table, es, keyField) == InsertStep(q, table, last, keyField);
    if init == [] && k !in st.entities {
      InsertAbsent(q, table, last, keyField, k);
      assert st.errors + Duplicates(table, keyField, k, st.row + 2, 0) == st.errors;
    } else {
      var first := if k in st.entities then st.row + 1 else st.row + 2;
      var n := if k in st.entities then |init| else |init| - 1;
      if init == [] {
        assert q.errors == st.errors + Duplicates(table, keyField, k, first, n);
      }
      InsertRepeated(q, st.errors, table, last, keyField, k, first, n);
    }
  }

  /**
   * Inserting an entity whose key is already stored, after n duplicates reported from row
   * first on: it replaces the old one and is reported as the next duplicate.
   */
  lemma InsertRepeated(q: LoadState, errors: seq<Diagnostic>, table: string, e: Entity, keyField: string, k: string,
                       first: int, n: nat)
    requires e.keyField.Some? && GetId(e) == Some(k) && k in q.entities
    requires q.errors == errors + Duplicates(table, keyField, k, first, n) && q.row == first + n
    ensures InsertStep(q, table, e, keyField).errors == errors + Duplicates(table, keyField, k, first, n + 1)
    ensures InsertStep(q, table, e, keyField).entities == q.entities[k := e]
    ensures InsertStep(q, table, e, keyField).row == q.row
  {
    InsertPresent(q, table, e, keyField, k);
    DuplicatesSnoc(errors, table, keyField, k, first, n);
  }

  /** Inserting an entity whose key is already stored: it replaces the old one and is reported. */
  lemma InsertPresent(st: LoadState, table: string, e: Entity, keyField: string, k: string)
    requires e.keyField.Some? && GetId(e) == Some(k) && k in st.entities
    ensures InsertStep(st, table, e, keyField) ==
      st.(entities := st.entities[k := e], errors := st.errors + [DuplicateKeyError(table, st.row, keyField, k)])
  {
  }

  /** Inserting an entity under a new key: it is stored and nothing is reported. */
  lemma InsertAbsent(st: LoadState, table: string, e: Entity, keyField: string, k: string)
    requires e.keyField.Some? && GetId(e) == Some(k) && k !in st.entities
    ensures InsertStep(st, table, e, keyField) == st.(entities := st.entities[k := e])
  {
  }

  /** One more duplicate on the next row, appended to an error list. */
  lemma DuplicatesSnoc(errors: seq<Diagnostic>, table: string, keyField: string, k: string, first: int, n: nat)
    ensures errors + Duplicates(table, keyField, k, first, n) + [DuplicateKeyError(table, first + n, keyField, k)]
         == errors + Duplicates(table, keyField, k, first, n + 1)
  {
  }
}
