# GTFS table loading and writing (`Entity.Loader`, `Entity.Writer`)

A GTFS feed is a zip archive of CSV tables (`stops.txt`, `trips.txt`, …). The base class
`Entity` of the r5 GTFS library holds the engine shared by every table:

- **`Entity.Loader`** finds a table's entry in the archive, reads it row by row into a keyed
  map, and never fails on bad data. Every problem is appended to the feed's shared error
  list: missing columns, empty required fields, unparsable numbers, times, dates and URLs,
  out-of-range values, dangling references, missing and duplicate keys, missing, misplaced
  and empty tables.
- **`Entity.Writer`** writes a table back as a CSV entry: a header record, then one record
  per entity. Times are written as `HH:MM:SS` by `convertToGtfsTime`, missing ints and times
  as empty cells.

The model has these parts:

| file | module | contents |
|---|---|---|
| wrappers.dfy | Wrappers | `Option` (a Java reference that may be null), occurrence counting |
| errors.dfy | Errors | one `Diagnostic` constructor per error class the loader creates |
| java_int.dfy | JavaInt | Java `int`: range, wrap-around, truncating `%` and `/`, `Integer.parseInt`, `Integer.toString` |
| gtfs_time.dfy | GtfsTime | `String.split(":")`, `%02d`, `convertToGtfsTime`, and its round trip with the time reader |
| gtfs.dfy | Gtfs | entities, field values, the table descriptor, archive entries, the library parsers |
| codecs.dfy | Codecs | per-field decoders and encoders, their outcomes and round trips |
| loader_spec.dfy | LoaderSpec | the loader as pure state-transition functions over `LoadState` |
| loader.dfy | Loading | the `Loader` class over a shared `Feed`, each method proved equal to its LoaderSpec step |
| row_props.dfy | RowProperties | invariants of the row loop: errors only appended, each missing column reported once, frames |
| field_props.dfy | FieldProperties | per-field cases; repeated references and repeated keys over many rows |
| table_props.dfy | TableProperties | locating the table, the subdirectory scan, empty-table reports |
| writer.dfy | Writing | the `Writer` class over an output `Archive`, proved against `HeaderText`/`RowText`/`TableText` |
| roundtrip.dfy | RoundTrip | a written table read back gives every entity's values back |
| stops_example.dfy | StopsExample | a three-row `stops.txt` load with an empty required field and a duplicate key |

`loadOneRow`, `writeHeaders` and `writeOneRow` are abstract in `Entity`. Each table subclass
implements them by reading or writing its columns in a fixed order with the typed field
methods. The model describes a table by a descriptor instead: `TableSpec(required, keyField,
columns)`, where each `Column(name, kind, required)` names the field method its kind calls
for. The model's `loadOneRow` reads the columns in order and inserts the entity under its
key with `insertCheckingDuplicateKey`. `writeHeaders` writes the column names, and
`writeOneRow` writes each column's value with the matching write method.

External libraries are parameters:

- `LocalDate.parse(BASIC_ISO_DATE)` and `new URL` are function-valued parameters
  (`Gtfs.Parsers`); `None` stands for the exception they throw.
- `LocalDate.format(BASIC_ISO_DATE)` is a writer parameter.
- The CSV reader hands the loader one record at a time as a map from column name to cell.
  An absent key is a column missing from the header.

Loading a required table follows the code rather than its comment. At
`src/main/java/com/conveyal/gtfs/model/Entity.java:272-274` the comment says the table did
not exist, but MissingTableError is also added when the subdirectory scan did find the
table. The model keeps that report (`TableProperties.LocateCases`).

## Model

Paths are relative to the repository root.

| member | source | states |
|---|---|---|
| Gtfs.GetId | src/main/java/com/conveyal/gtfs/model/Entity.java:62-66 | the id is exactly the text of the key field when that field holds text (null when it holds null), and None otherwise |
| JavaInt.ToInt32 | src/main/java/com/conveyal/gtfs/model/Entity.java:174 | int arithmetic wraps modulo 2^32 and leaves results in the int range unchanged |
| JavaInt.Rem | src/main/java/com/conveyal/gtfs/model/Entity.java:450-453 | Java `%` by a positive divisor: the remainder has the dividend's sign and recombines with the truncated quotient |
| JavaInt.Quot | src/main/java/com/conveyal/gtfs/model/Entity.java:458 | Java `/` by a positive divisor, rounding toward zero (how it rounds stated by `JavaInt.QuotRounds`) |
| JavaInt.QuotRounds | src/main/java/com/conveyal/gtfs/model/Entity.java:458 | Java `/` by a positive divisor rounds toward zero: what is left over has the dividend's sign and is smaller than the divisor |
| JavaInt.NatString | src/main/java/com/conveyal/gtfs/model/Entity.java:465 | the digits of a natural number denote it, with a leading zero only for 0 |
| JavaInt.ParseDecimalString | src/main/java/com/conveyal/gtfs/model/Entity.java:465 | `Integer.parseInt` reads back every int that `Integer.toString` writes |
| JavaInt.ParseInt | src/main/java/com/conveyal/gtfs/model/Entity.java:146 | `Integer.parseInt`: an optional sign and decimal digits denoting a value in the int range, or a NumberFormatException (what it accepts stated by `JavaInt.ParseIntCases`) |
| JavaInt.ParseIntCases | src/main/java/com/conveyal/gtfs/model/Entity.java:146 | `Integer.parseInt` (also used for the time fields): accepted text is digits with an optional leading '+' or '-', denoting the value returned; every digit string whose value fits an int is accepted |
| JavaInt.DecimalString | src/main/java/com/conveyal/gtfs/model/Entity.java:465 | `Integer.toString`: non-empty, no ':', a leading '-' exactly for negative numbers, only digits otherwise |
| JavaInt.CanonicalDecimalString | src/main/java/com/conveyal/gtfs/model/Entity.java:146 | conversely, canonical int text that `Integer.parseInt` accepts is what `toString` writes for its value |
| GtfsTime.SplitAll | src/main/java/com/conveyal/gtfs/model/Entity.java:163 | splitting always yields at least one piece, and no piece contains the separator |
| GtfsTime.DropTrailingEmpty | src/main/java/com/conveyal/gtfs/model/Entity.java:163 | `split` keeps a prefix of the pieces that does not end in an empty piece, and every piece it drops is empty |
| GtfsTime.JavaSplit | src/main/java/com/conveyal/gtfs/model/Entity.java:163 | `str.split(":")`: the whole text when it holds no ':', otherwise every piece between separators with the trailing empty pieces removed |
| GtfsTime.TimeFields | src/main/java/com/conveyal/gtfs/model/Entity.java:163-170 | the split must give exactly three pieces and each must be accepted by `Integer.parseInt`; otherwise there are no fields |
| GtfsTime.Seconds | src/main/java/com/conveyal/gtfs/model/Entity.java:174 | `hours * 60 * 60 + minutes * 60 + seconds` in int arithmetic, wrapped modulo 2^32 like Java's overflowing multiply and add |
| GtfsTime.SplitThree | src/main/java/com/conveyal/gtfs/model/Entity.java:163-164 | three separator-free pieces, the last non-empty, joined by ':' split back into exactly those three |
| GtfsTime.SplitThreeTrailing | src/main/java/com/conveyal/gtfs/model/Entity.java:163-164 | a trailing ':' is dropped by the split, so the three pieces still come back |
| GtfsTime.Pad2 | src/main/java/com/conveyal/gtfs/model/Entity.java:458 | `%02d` output holds no ':', has at least two characters for a non-negative number, and exactly two digits for 0..99 |
| GtfsTime.ParsePad2 | src/main/java/com/conveyal/gtfs/model/Entity.java:458 | `Integer.parseInt` reads back every `%02d` output, negative values included |
| GtfsTime.Clock | src/main/java/com/conveyal/gtfs/model/Entity.java:449-458 | the hour, minute and second numbers from Java's truncating `%` and `/`, minutes and hours kept in seconds until the final division |
| GtfsTime.ConvertToGtfsTime | src/main/java/com/conveyal/gtfs/model/Entity.java:449-459 | the three clock numbers, each formatted by `%02d`, joined by ':' |
| GtfsTime.TimeTextShape | src/main/java/com/conveyal/gtfs/model/Entity.java:449-459 | a non-negative time is written as digits, ':', two digits, ':', two digits, with an hour of exactly two digits below 100 hours |
| GtfsTime.ClockParts | src/main/java/com/conveyal/gtfs/model/Entity.java:449-459 | the hour, minute and second numbers recombine to the input; for non-negative input they are the usual clock digits, for negative input all are non-positive |
| GtfsTime.ClockNonNegative | src/main/java/com/conveyal/gtfs/model/Entity.java:449-459 | for a non-negative time the numbers are its whole hours, its minutes within the hour and its seconds within the minute |
| GtfsTime.ClockNegative | src/main/java/com/conveyal/gtfs/model/Entity.java:449-459 | for a negative time all three numbers are non-positive and still recombine to the input |
| GtfsTime.EncodePastMidnight | src/main/java/com/conveyal/gtfs/model/Entity.java:449-459 | 91800 seconds is written as 25:30:00: the hour is not wrapped at 24 |
| GtfsTime.TimeRoundTrip | src/main/java/com/conveyal/gtfs/model/Entity.java:449-459 | for every int, the written time splits into three ints whose seconds are the input; they are in the checked ranges exactly for 00:00:00..72:59:59 |
| Codecs.NonEmpty | src/main/java/com/conveyal/gtfs/model/Entity.java:120-125 | a present cell reads as itself exactly when it is non-empty; the empty cell reads as null |
| Codecs.RangeDiags | src/main/java/com/conveyal/gtfs/model/Entity.java:97-103 | one RangeError exactly when the value is outside [min, max], none otherwise |
| Codecs.DecodeInt | src/main/java/com/conveyal/gtfs/model/Entity.java:140-152 | after the presence check: the default for no text, INT_MISSING and a NumberParseError for text `parseInt` rejects, otherwise the value with its range check |
| Codecs.DecodeTime | src/main/java/com/conveyal/gtfs/model/Entity.java:158-182 | after the presence check: INT_MISSING for no text, INT_MISSING and a TimeParseError unless the text has three int fields, otherwise the summed seconds with three range checks |
| Codecs.DecodeDate | src/main/java/com/conveyal/gtfs/model/Entity.java:188-198 | after the presence check, as the catch clause intends: null for no text, null and a DateParseError for a rejected date, otherwise the date with a 2000..2100 year check |
| Codecs.DecodeDateAsWritten | src/main/java/com/conveyal/gtfs/model/Entity.java:191-196 | the same code as written: a rejected date is not caught and escapes the loader |
| Codecs.DecodeUrl | src/main/java/com/conveyal/gtfs/model/Entity.java:204-213 | after the presence check: null for no text, null and a URLParseError for text the URL parser rejects, otherwise the URL |
| Codecs.IntText | src/main/java/com/conveyal/gtfs/model/Entity.java:461-466 | the empty cell for INT_MISSING, otherwise `Integer.toString` |
| Codecs.TimeText | src/main/java/com/conveyal/gtfs/model/Entity.java:440-447 | the empty cell for INT_MISSING, otherwise `convertToGtfsTime` |
| Codecs.UrlText | src/main/java/com/conveyal/gtfs/model/Entity.java:426-428 | the URL's text, or the empty cell for null |
| Codecs.DecodeIntOutcome | src/main/java/com/conveyal/gtfs/model/Entity.java:140-152 | no text gives the default silently; unparsable text gives INT_MISSING and a NumberParseError; a parsed value is kept, with a diagnostic exactly when it is out of range |
| Codecs.DecodeTimeOutcome | src/main/java/com/conveyal/gtfs/model/Entity.java:158-182 | no text gives INT_MISSING silently; text that is not three ints gives INT_MISSING and a TimeParseError; otherwise the seconds, with diagnostics exactly when a component is out of range |
| Codecs.DecodeDateOutcome | src/main/java/com/conveyal/gtfs/model/Entity.java:188-198 | the date is the parser's result; a rejected date is a DateParseError; a parsed one is silent exactly when its year is in 2000..2100 |
| Codecs.DecodeUrlOutcome | src/main/java/com/conveyal/gtfs/model/Entity.java:204-213 | the URL is the parser's result, with a URLParseError exactly when present text is rejected |
| Codecs.IntRoundTrip | src/main/java/com/conveyal/gtfs/model/Entity.java:461-466 | an int written and read back is the same int; INT_MISSING comes back as the column default |
| Codecs.TimeCellRoundTrip | src/main/java/com/conveyal/gtfs/model/Entity.java:440-447 | a time written and read back is the same int for every int, and is silent exactly for missing or in-range times |
| Codecs.UrlRoundTrip | src/main/java/com/conveyal/gtfs/model/Entity.java:426-428 | a URL (or null) written and read back is unchanged and reports nothing, when the parser reads its text back |
| Codecs.DateRoundTrip | src/main/java/com/conveyal/gtfs/model/Entity.java:433-435 | a date written and read back is the same date, when the parser reads the formatter's text back |
| Codecs.ParseTwoDigits | src/main/java/com/conveyal/gtfs/model/Entity.java:168-170 | a two-digit field parses as its decimal value |
| Codecs.TimeFieldsOf | src/main/java/com/conveyal/gtfs/model/Entity.java:163-170 | text splitting into three parsable pieces yields those three ints |
| Codecs.DecodeTimeFields | src/main/java/com/conveyal/gtfs/model/Entity.java:167-174 | three parsed fields give their seconds plus one RangeError per out-of-range component |
| Codecs.TimePastMidnight | src/main/java/com/conveyal/gtfs/model/Entity.java:171 | 25:30:00 reads as 91800 with no diagnostic |
| Codecs.TimePastCeiling | src/main/java/com/conveyal/gtfs/model/Entity.java:171-174 | 99:00:00 reads as 356400, kept, with one RangeError for the hours |
| Codecs.TimeTrailingSeparator | src/main/java/com/conveyal/gtfs/model/Entity.java:163-164 | 01:02:03: still reads as 3723 |
| Codecs.TimeTwoFields | src/main/java/com/conveyal/gtfs/model/Entity.java:163-165 | 12:00 gives INT_MISSING and one TimeParseError |
| Codecs.DateCatchMismatch | src/main/java/com/conveyal/gtfs/model/Entity.java:191-196 | as written, a rejected date escapes the loader; the intended reading records a DateParseError; otherwise the two agree |
| Codecs.ExtendedDateEscapes | src/main/java/com/conveyal/gtfs/model/Entity.java:191-196 | the cell 2023-01-01 escapes as written and is a DateParseError as intended |
| Loading.Loader.constructor | src/main/java/com/conveyal/gtfs/model/Entity.java:91-94 | a new loader has no missing columns and row 0, over the given feed and table |
| Loading.Feed.constructor | src/main/java/com/conveyal/gtfs/model/Entity.java:83 | the feed a loader shares: its error list and its set of checked references, both empty |
| Loading.DeduplicateString | src/main/java/com/conveyal/gtfs/model/Entity.java:132 | `deduplicator.deduplicateString`: an equal string (the identity) |
| LoaderSpec.FieldCheckStep | src/main/java/com/conveyal/gtfs/model/Entity.java:113-127 | `getFieldCheckRequired` as a state step: the cell text or null, MissingColumnError the first time a column is absent, EmptyFieldError for an empty required cell |
| LoaderSpec.FieldText | src/main/java/com/conveyal/gtfs/model/Entity.java:114-119 | the text `getFieldCheckRequired` returns: the cell exactly when the column is present and the cell non-empty, otherwise null |
| LoaderSpec.IntFieldStep | src/main/java/com/conveyal/gtfs/model/Entity.java:140-152 | the field check, then the int decoder's diagnostics appended |
| LoaderSpec.TimeFieldStep | src/main/java/com/conveyal/gtfs/model/Entity.java:158-182 | the field check, then the time decoder's diagnostics appended |
| LoaderSpec.DateFieldStep | src/main/java/com/conveyal/gtfs/model/Entity.java:188-198 | the field check, then the date decoder's diagnostics appended (the intended catch) |
| LoaderSpec.UrlFieldStep | src/main/java/com/conveyal/gtfs/model/Entity.java:204-213 | the field check, then the URL decoder's diagnostics appended |
| LoaderSpec.RefFieldStep | src/main/java/com/conveyal/gtfs/model/Entity.java:233-247 | the field check, then for a cell the target's entity, the column:value pair added to the checked set, and a ReferentialIntegrityError for a new pair the target lacks |
| LoaderSpec.RefKey | src/main/java/com/conveyal/gtfs/model/Entity.java:238 | the `column:value` key kept in the checked set: the column, a ':' at its end, then the value |
| FieldProperties.RefKeyInjective | src/main/java/com/conveyal/gtfs/model/Entity.java:238 | two checked pairs share a key exactly when they are the same pair, for column names without ':' |
| LoaderSpec.InsertStep | src/main/java/com/conveyal/gtfs/model/Entity.java:314-325 | MissingKeyError without a key; otherwise the entity stored under its key, with a DuplicateKeyError when the key was present |
| LoaderSpec.LoadRow | src/main/java/com/conveyal/gtfs/model/Entity.java:251-252 | every column of the descriptor read in order, then the entity inserted under its key |
| LoaderSpec.DecodeColumn | src/main/java/com/conveyal/gtfs/model/Entity.java:113-213 | one column read with the field method its kind names, giving a value of that kind (its frame stated by `RowProperties.DecodeColumnFrame`) |
| LoaderSpec.DecodeColumns | src/main/java/com/conveyal/gtfs/model/Entity.java:251-252 | the columns read in descriptor order, each into the values map under its name (stated by `RowProperties.DecodeColumnsKeys` and `RowProperties.DecodeColumnsFrame`) |
| LoaderSpec.ScanRows | src/main/java/com/conveyal/gtfs/model/Entity.java:296-302 | for each record in order, the row counter raised and the row loaded |
| LoaderSpec.SubdirScan | src/main/java/com/conveyal/gtfs/model/Entity.java:263-271 | every entry whose name ends with the table's file name reported with the name less each occurrence of the file name (its directory prefix when the file name occurs only at the end), the last one kept |
| LoaderSpec.EndsWith | src/main/java/com/conveyal/gtfs/model/Entity.java:267 | `endsWith`: the name's last characters are the table's file name (its meaning stated by `TableProperties.EndsWithConcat`) |
| TableProperties.EndsWithConcat | src/main/java/com/conveyal/gtfs/model/Entity.java:267 | a name ends with a suffix exactly when it is some prefix followed by that suffix |
| LoaderSpec.RemoveAll | src/main/java/com/conveyal/gtfs/model/Entity.java:269 | `replace(fileName, "")`: never longer than the name, unchanged unless the file name occurs in it, and exactly the part before it when it occurs only at the end (`TableProperties.RemoveSuffixOnly`) |
| TableProperties.RemoveSuffixOnly | src/main/java/com/conveyal/gtfs/model/Entity.java:269 | a name that ends with the file name and holds it nowhere else loses exactly that suffix: what is left is the part before it |
| TableProperties.RootEntryReport | src/main/java/com/conveyal/gtfs/model/Entity.java:267-269 | a root entry `old_stops.txt` also matches `stops.txt`, and is reported as `old_`, not a directory |
| LoaderSpec.FindEntry | src/main/java/com/conveyal/gtfs/model/Entity.java:261 | `getEntry`: a found entry has exactly the name and is the first entry of that name in the archive |
| LoaderSpec.Locate | src/main/java/com/conveyal/gtfs/model/Entity.java:261-279 | the exact entry silently; otherwise the subdirectory scan, then MissingTableError for a required table |
| LoaderSpec.LoadTable | src/main/java/com/conveyal/gtfs/model/Entity.java:260-306 | locate the entry, then the header check, the row loop and the empty-table check |
| LoaderSpec.ReadEntry | src/main/java/com/conveyal/gtfs/model/Entity.java:292-305 | an EmptyTableError without a header, the row loop over every record, and another EmptyTableError when no row was counted (stated by `TableProperties.EmptyTableReports`) |
| Loading.Loader.CheckRangeInclusive | src/main/java/com/conveyal/gtfs/model/Entity.java:97-103 | returns whether the value is in range and appends a RangeError exactly when it is not |
| Loading.Loader.GetFieldCheckRequired | src/main/java/com/conveyal/gtfs/model/Entity.java:113-127 | loader state and result are the field-check step: null for absent or empty, missing column reported once, empty required cell reported |
| Loading.Loader.GetStringField | src/main/java/com/conveyal/gtfs/model/Entity.java:130-134 | the field check, with the text handed back unchanged |
| Loading.Loader.GetIntFieldOrZero | src/main/java/com/conveyal/gtfs/model/Entity.java:136-138 | the int read with default 0 |
| Loading.Loader.GetIntField | src/main/java/com/conveyal/gtfs/model/Entity.java:140-152 | the field check followed by the int decoder, on state and result |
| Loading.Loader.GetTimeField | src/main/java/com/conveyal/gtfs/model/Entity.java:158-182 | the field check followed by the time decoder, on state and result |
| Loading.Loader.ParseTimeText | src/main/java/com/conveyal/gtfs/model/Entity.java:162-179 | split, three parses and three range checks append exactly the time decoder's diagnostics and return its value |
| Loading.Loader.GetDateField | src/main/java/com/conveyal/gtfs/model/Entity.java:188-198 | the field check followed by the date decoder, on state and result, following the intended catch (see "## Left out") |
| Loading.Loader.GetUrlField | src/main/java/com/conveyal/gtfs/model/Entity.java:204-213 | the field check followed by the URL decoder, on state and result |
| Loading.Loader.GetRefField | src/main/java/com/conveyal/gtfs/model/Entity.java:233-247 | the target's entity for the cell, the column:value pair remembered, a ReferentialIntegrityError only for a new pair that does not resolve |
| Loading.Loader.InsertCheckingDuplicateKey | src/main/java/com/conveyal/gtfs/model/Entity.java:314-325 | the insertion step: MissingKeyError without a key, otherwise stored, with a DuplicateKeyError when the key was present |
| Loading.Loader.ReadColumn | src/main/java/com/conveyal/gtfs/model/Entity.java:251-252 | one column read with the field method its kind names |
| Loading.Loader.ReadColumns | src/main/java/com/conveyal/gtfs/model/Entity.java:251-252 | the columns read in descriptor order leave the state and values of the column-reading function |
| Loading.Loader.LoadOneRow | src/main/java/com/conveyal/gtfs/model/Entity.java:251-252 | the row step: every column read in order, then the entity inserted under its key |
| Loading.Loader.NextRow | src/main/java/com/conveyal/gtfs/model/Entity.java:296-302 | the counter goes up, then the row is loaded with the new row number |
| Loading.Loader.ScanRecords | src/main/java/com/conveyal/gtfs/model/Entity.java:296-302 | the row loop leaves exactly the state of the row-loop function |
| Loading.Loader.ReadTable | src/main/java/com/conveyal/gtfs/model/Entity.java:292-305 | header check, row loop and empty-table check, as the read-entry function gives them |
| Loading.Loader.LocateEntry | src/main/java/com/conveyal/gtfs/model/Entity.java:261-279 | the entry chosen and the diagnostics appended are those of the locate function |
| Loading.Loader.LoadTable | src/main/java/com/conveyal/gtfs/model/Entity.java:260-306 | the whole load leaves exactly the state of the load-table function |
| RowProperties.FieldCheckProgress | src/main/java/com/conveyal/gtfs/model/Entity.java:113-127 | the field check only appends, and reports a missing column exactly when it first becomes missing |
| RowProperties.DecodeColumnProgress | src/main/java/com/conveyal/gtfs/model/Entity.java:113-213 | reading any column keeps the row invariant |
| RowProperties.InsertProgress | src/main/java/com/conveyal/gtfs/model/Entity.java:314-325 | insertion keeps the row invariant |
| RowProperties.LoadRowProgress | src/main/java/com/conveyal/gtfs/model/Entity.java:251-252 | loading a row only appends row-level diagnostics and reports each newly missing column once |
| RowProperties.ScanRowsProgress | src/main/java/com/conveyal/gtfs/model/Entity.java:296-302 | the same over any number of rows |
| RowProperties.DecodeColumnsFrame | src/main/java/com/conveyal/gtfs/model/Entity.java:113-119 | reading a row's columns changes neither the row counter, the entities nor the references; a name becomes missing exactly when a column of that name is absent |
| RowProperties.DecodeColumnsKeys | src/main/java/com/conveyal/gtfs/model/Entity.java:251-252 | the values read from a row are keyed by exactly the descriptor's column names |
| RowProperties.LoadRowFrame | src/main/java/com/conveyal/gtfs/model/Entity.java:251-252 | loading a row keeps the counter and references, removes no key, and either leaves the entity map as it was or rebinds one key to an entity carrying this row's number |
| RowProperties.ScanRowsCounter | src/main/java/com/conveyal/gtfs/model/Entity.java:296-302 | the counter ends at start plus the number of records, no entity key is removed, and every new or replaced entity carries a row number in that range |
| RowProperties.ScanRowsMissing | src/main/java/com/conveyal/gtfs/model/Entity.java:113-119 | after the row loop, a column is missing exactly when it was before or some record lacks it |
| RowProperties.MissingColumnOnce | src/main/java/com/conveyal/gtfs/model/Entity.java:105-119 | over all rows, a missing column is reported exactly once, and never if it was already known |
| FieldProperties.FieldCheckCases | src/main/java/com/conveyal/gtfs/model/Entity.java:113-127 | null exactly for absent or empty; the missing set and errors in each of the three cases |
| FieldProperties.RefFieldCases | src/main/java/com/conveyal/gtfs/model/Entity.java:236-245 | a non-empty reference cell: the looked-up entity, the pair remembered, an error only for a new unresolved pair |
| FieldProperties.RefFieldBlank | src/main/java/com/conveyal/gtfs/model/Entity.java:233-236 | an absent or empty reference cell is only field-checked and reads as null |
| FieldProperties.RepeatedReference | src/main/java/com/conveyal/gtfs/model/Entity.java:238-244 | a reference value repeated over N rows is reported at most once, on the first row |
| FieldProperties.InsertCases | src/main/java/com/conveyal/gtfs/model/Entity.java:314-325 | insertion reports a missing key, or stores the entity, reports a present key, and keeps every other key |
| FieldProperties.Duplicates | src/main/java/com/conveyal/gtfs/model/Entity.java:321-324 | n DuplicateKeyErrors on consecutive rows |
| FieldProperties.RepeatedKey | src/main/java/com/conveyal/gtfs/model/Entity.java:314-325 | one key inserted N times keeps the last entity and is reported on every row but the first |
| TableProperties.FindEntryCases | src/main/java/com/conveyal/gtfs/model/Entity.java:261 | `getEntry` finds an entry of the exact name exactly when there is one |
| TableProperties.Matches | src/main/java/com/conveyal/gtfs/model/Entity.java:265-271 | the entries whose name ends with the table's file name, and only those |
| TableProperties.SubdirScanReports | src/main/java/com/conveyal/gtfs/model/Entity.java:265-271 | the scan reports every matching entry, in archive order, with the name less each occurrence of the file name: its directory prefix when the file name occurs only at the end |
| TableProperties.SubdirScanEntry | src/main/java/com/conveyal/gtfs/model/Entity.java:265-271 | the scan settles on the last matching entry |
| TableProperties.LocateCases | src/main/java/com/conveyal/gtfs/model/Entity.java:260-279 | the exact entry silently; otherwise the last match, each match reported, and a required table reported missing even when matched |
| TableProperties.LoadTableExact | src/main/java/com/conveyal/gtfs/model/Entity.java:260-261 | with the exact entry present, loading reports nothing about location and reads that entry |
| TableProperties.LoadTableAbsent | src/main/java/com/conveyal/gtfs/model/Entity.java:272-278 | with no matching entry, no row is read; a required table is reported missing and an optional one changes nothing |
| TableProperties.EmptyTableReports | src/main/java/com/conveyal/gtfs/model/Entity.java:292-305 | EmptyTableError once for a missing header and once more when no row was counted |
| Writing.HeaderText | src/main/java/com/conveyal/gtfs/model/Entity.java:377-380 | the header holds the column names, in order |
| Writing.RowText | src/main/java/com/conveyal/gtfs/model/Entity.java:382-385 | a written row holds, for each column in order, the cell text of the entity's value |
| Writing.TableText | src/main/java/com/conveyal/gtfs/model/Entity.java:404-413 | one written row per entity, in iteration order |
| Writing.Writer.constructor | src/main/java/com/conveyal/gtfs/model/Entity.java:372-375 | a new writer for the given table, with nothing written |
| Writing.Writer.WriteStringField | src/main/java/com/conveyal/gtfs/model/Entity.java:422-424 | the text becomes the record's next cell |
| Writing.Writer.WriteUrlField | src/main/java/com/conveyal/gtfs/model/Entity.java:426-428 | the URL's text, or the empty cell for null |
| Writing.Writer.WriteDateField | src/main/java/com/conveyal/gtfs/model/Entity.java:433-435 | the formatted date |
| Writing.Writer.WriteTimeField | src/main/java/com/conveyal/gtfs/model/Entity.java:440-447 | the empty cell for INT_MISSING, otherwise `convertToGtfsTime` |
| Writing.Writer.WriteIntField | src/main/java/com/conveyal/gtfs/model/Entity.java:461-466 | the empty cell for INT_MISSING, otherwise the decimal text |
| Writing.Writer.EndRecord | src/main/java/com/conveyal/gtfs/model/Entity.java:489-491 | the current cells become a finished record |
| Writing.Writer.WriteValue | src/main/java/com/conveyal/gtfs/model/Entity.java:422-466 | a value becomes the cell text its type's write method gives |
| Writing.Cell | src/main/java/com/conveyal/gtfs/model/Entity.java:422-466 | the cell text of a value by its type's write method: the text or empty, `Integer.toString`, `convertToGtfsTime`, the formatted date, the URL text (read back by `RoundTrip.CellRoundTrip`) |
| Writing.Writer.WriteHeaders | src/main/java/com/conveyal/gtfs/model/Entity.java:377-380 | one record of column names is appended |
| Writing.Writer.WriteOneRow | src/main/java/com/conveyal/gtfs/model/Entity.java:382-385 | one record of the entity's cells is appended |
| Writing.Writer.WriteTable | src/main/java/com/conveyal/gtfs/model/Entity.java:392-420 | a new archive entry named after the table, holding the header then one record per entity, with the row counter at the number of entities |
| RoundTrip.CellRoundTrip | src/main/java/com/conveyal/gtfs/model/Entity.java:422-466 | a fitting value written into its column's cell is read back as itself |
| RoundTrip.FitsWritable | src/main/java/com/conveyal/gtfs/model/Entity.java:433-435 | every fitting entity can be written: no null date reaches `writeDateField` |
| RoundTrip.RowRoundTrip | src/main/java/com/conveyal/gtfs/model/Entity.java:382-385 | a record holding an entity's written cells reads back as the entity's value in every column |
| RoundTrip.Zip | src/main/java/com/conveyal/gtfs/model/Entity.java:290-292 | the reader's column lookup for one record: each header name mapped to the cell in its position (stated by `RoundTrip.ZipAt`) |
| RoundTrip.ZipAt | src/main/java/com/conveyal/gtfs/model/Entity.java:290-292 | with distinct header names, each name maps to the cell in its own position |
| RoundTrip.EntryRecordRoundTrip | src/main/java/com/conveyal/gtfs/model/Entity.java:404-413 | any one record of the written entry, read back through its header, gives its entity's value in every column |
| RoundTrip.TableRoundTrip | src/main/java/com/conveyal/gtfs/model/Entity.java:392-420 | a written table read back: same name, a header, one record per entity, each record reading back as its entity |
| StopsExample.LoadStopRow | src/main/java/com/conveyal/gtfs/model/Entity.java:113-127 | a stop row is stored under its id, with its empty latitude and repeated id reported |
| StopsExample.LoadStops | src/main/java/com/conveyal/gtfs/model/Entity.java:260-325 | three stop rows: two entities, an EmptyFieldError on row 2, a DuplicateKeyError on row 3, and the repeated id holding row 3's values |

## Left out

- `getDoubleField`, `writeDoubleField` and `human`: floating point (`Double.parseDouble`, `%.7f`, `%.1f`) is not modelled, so coordinates are not a column kind.
- The CSV tokenising and quoting of `CsvReader` and `CsvWriter`: a record is a map from column name to cell. Only the header-to-cell mapping is modelled (`RoundTrip.Zip`).
- `ZipFile` and `ZipOutputStream` streams, the byte-order-mark filter, the progress listener and `UncloseableOutputStream`: they are I/O.
- Logging, including the message every 500,000 rows: it has no effect on the feed.
- `Deduplicator.deduplicateString` is the identity (it returns an equal string). The static shared deduplicator and anything concurrent are left out.
- `getSequenceNumber` and compound keys: the base `getId` throws. The model gives every table a single text key field and makes `getId`'s key field a precondition.
- GtfsTime.Pad2 / GtfsTime.ConvertToGtfsTime: `String.format("%02d:%02d:%02d", …)` is called without a `Locale`, so Java formats with the default locale's digits. The model assumes a default locale with ASCII digits, and `GtfsTime.TimeTextShape` and `GtfsTime.TimeRoundTrip` rest on that.
- `Integer.parseInt` accepts only ASCII digits in the model; Java also accepts other Unicode decimal digits.
- Reference columns (`getRefField`) are proved on their own, not read by the descriptor-driven row decoder.
- `sourceFileLine`: the model sets it to the row counter; subclasses set it themselves.
- `zip.getEntry` with duplicate entry names: the model takes the first exact match.
- Writing.Writer.WriteStringField: `writer.write(null)` is modelled by writing the empty cell for a null text value.
- Writing.Writer.WriteDateField: a null date would throw in the source; `WriteOneRow` and `WriteTable` require writable (non-null) dates instead of modelling the exception.
- Loading.Loader.GetDateField / LoaderSpec.DateFieldStep: the load follows the intended catch (`Codecs.DecodeDate`): a rejected date is a DateParseError and loading goes on. The `DateTimeParseException` that escapes `loadTable` in the code as written (see "## Findings", `Codecs.DecodeDateAsWritten`) is not modelled as ending the load.
- `LocalDate.parse`, `new URL` and `LocalDate.format` are parameters. Apart from the date catch clause above, the model does not state which of their failures are exceptions a catch clause sees.
- `GTFSFeed` beyond its error list and its set of checked references is not part of this model.

## Findings

| source | as written | input that shows it | evidently intended | confidence | as-written member | corrected member |
|---|---|---|---|---|---|---|
| src/main/java/com/conveyal/gtfs/model/Entity.java:191-196 | `getDateField` catches `IllegalArgumentException`, but `LocalDate.parse` rejects a malformed date with `DateTimeParseException`, which is not an `IllegalArgumentException`; the exception escapes `loadTable` | a `start_date` cell `2023-01-01` (extended ISO form; BASIC_ISO_DATE wants `20230101`) | the cell is recorded as a DateParseError and loading goes on with a null date | not executed | Codecs.DecodeDateAsWritten (shown by Codecs.ExtendedDateEscapes) | Codecs.DecodeDate (proved by Codecs.DateCatchMismatch and Codecs.DecodeDateOutcome) |
