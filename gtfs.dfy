/**
 * The data a GTFS table engine works on: decoded entities, a per-table descriptor of the
 * columns a row loader reads and a row writer writes, the archive the loader reads from, and
 * the library parsers the codecs delegate to.
 */
module Gtfs {
  import opened Wrappers
  import opened JavaInt

  /** A `java.time.LocalDate`. */
  datatype LocalDate = LocalDate(year: int, month: int, day: int)

  /** A `java.net.URL`, represented by the text its `toString` gives. */
  datatype Url = Url(form: string)

  /** One decoded field of an entity, by codec; each carries that type's missing sentinel. */
  datatype Value =
    | Text(text: Option<string>)    // null when missing or empty
    | Integer(number: int32)         // INT_MISSING when missing or unparsable
    | TimeOfDay(seconds: int32)     // seconds since midnight, INT_MISSING when missing
    | Day(date: Option<LocalDate>)
    | Link(url: Option<Url>)

  /**
   * One row of a table. `keyField` is the field `getId` overrides read: None for entity
   * types keyed by a string plus a sequence number, which do not override `getId`.
   */
  datatype Entity = Entity(sourceFileLine: int, keyField: Option<string>, fields: map<string, Value>)

  /**
   * `Entity.getId`. Asking an entity type with a compound key for a simple key is a
   * programming error that fails at once, so it is a precondition here. The id, when there is
   * one, is the text of the key field.
   */
  function GetId(e: Entity): (id: Option<string>)
    requires e.keyField.Some?
    ensures id.Some? ==> e.keyField.value in e.fields && e.fields[e.keyField.value] == Text(id)
    ensures e.keyField.value in e.fields && e.fields[e.keyField.value].Text? ==> id == e.fields[e.keyField.value].text
  {
    var k := e.keyField.value;
    if k in e.fields && e.fields[k].Text? then e.fields[k].text else None
  }

  /** Which `get...Field` codec a column is read with, and its parameters. */
  datatype Kind =
    | StringKind
    | IntKind(min: int32, max: int32, defaultValue: int32)
    | TimeKind
    | DateKind
    | UrlKind

  datatype Column = Column(name: string, kind: Kind, required: bool)

  /**
   * What a table-specific loader or writer contributes: whether the table is required
   * (`isRequired`), the name of its key field, and the columns its row reader decodes and
   * its row writer encodes, in order.
   */
  datatype TableSpec = TableSpec(required: bool, keyField: string, columns: seq<Column>)

  /**
   * One archive entry as the CSV reader sees it: whether a header line could be read, and
   * each following record as a map from the header's column names to the record's cells.
   * The reader finds no header only in an empty stream, so an entry read from an archive
   * has no records when hasHeader is false; the type does not enforce this, and the lemmas
   * about empty tables also cover the unreachable combination.
   */
  datatype Entry = Entry(name: string, hasHeader: bool, records: seq<map<string, string>>)

  /**
   * The library parsers the date and URL codecs call: `LocalDate.parse` with
   * `BASIC_ISO_DATE` and `new URL(...)`. None stands for the exception the parser throws; whether
   * the codec's catch clause sees it is the codec's business (see `Codecs.DecodeDateAsWritten`).
   */
  datatype Parsers = Parsers(date: string -> Option<LocalDate>, url: string -> Option<Url>)
}
