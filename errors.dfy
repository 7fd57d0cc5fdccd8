/**
 * The diagnostics a GTFS load appends to the feed's error list. Each constructor is one of
 * the error classes the loader creates; every one of them names the table it was found in.
 * `row` is the loader's 1-based row counter at the time of the report (0 before any row).
 */
module Errors {

  datatype Diagnostic =
    /** A value outside an inclusive range. The source reports it without a column name. */
    | RangeError(table: string, row: int, min: int, max: int, actual: int)
    | MissingColumnError(table: string, column: string)
    | EmptyFieldError(table: string, row: int, column: string)
    | NumberParseError(table: string, row: int, column: string)
    | TimeParseError(table: string, row: int, column: string)
    | DateParseError(table: string, row: int, column: string)
    | URLParseError(table: string, row: int, column: string)
    | ReferentialIntegrityError(table: string, row: int, column: string, badValue: string)
    | MissingKeyError(table: string, row: int, keyField: string)
    | DuplicateKeyError(table: string, row: int, keyField: string, key: string)
    /** The table was found under a directory prefix instead of at the archive root. */
    | TableInSubdirectoryError(table: string, directory: string)
    | MissingTableError(table: string)
    | EmptyTableError(table: string)
}
