/**
 * The field codecs of `Entity.Loader` and `Entity.Writer`. A decoder turns the text of a cell
 * (None when the column is absent or the cell empty) into a value and the diagnostics it
 * reports; it never fails. An encoder turns a value back into cell text.
 */
module Codecs {
  import opened Wrappers
  import opened JavaInt
  import opened GtfsTime
  import opened Errors
  import opened Gtfs

  datatype Decoded<T> = Decoded(value: T, diags: seq<Diagnostic>)

  /** The text a present cell contributes: an empty cell reads as null. */
  function NonEmpty(cell: string): (r: Option<string>)
    ensures r.Some? ==> r.value == cell && cell != ""
    ensures cell != "" ==> r == Some(cell)
    ensures cell == "" ==> r.None?
  {
    if cell == "" then None else Some(cell)
  }

  /** `checkRangeInclusive`'s verdict: whether actual lies in [min, max]. */
  predicate InRange(min: int, max: int, actual: int)
  {
    !(actual < min || actual > max)
  }

  /** What `checkRangeInclusive` reports: one RangeError exactly when the value is out of range. */
  function RangeDiags(table: string, row: int, min: int, max: int, actual: int): (d: seq<Diagnostic>)
    ensures d == [] <==> min <= actual <= max
    ensures d != [] ==> d == [RangeError(table, row, min, max, actual)]
  {
    if InRange(min, max, actual) then [] else [RangeError(table, row, min, max, actual)]
  }

  /**
   * `getIntField` after the presence check: no text gives the default value and no
   * diagnostic; text that `Integer.parseInt` rejects gives INT_MISSING and a
   * NumberParseError; a parsed value is kept even when it is out of range.
   */
  function DecodeInt(text: Option<string>, min: int32, max: int32, defaultValue: int32,
                     table: string, row: int, column: string): (r: Decoded<int32>)
  {
    match text
    case None => Decoded(defaultValue, [])
    case Some(s) =>
      match ParseInt(s)
      case None => Decoded(INT_MISSING, [NumberParseError(table, row, column)])
      case Some(v) => Decoded(v, RangeDiags(table, row, min, max, v))
  }

  /**
   * `getTimeField` after the presence check: text that is not three ':'-separated ints
   * gives INT_MISSING and one TimeParseError; otherwise the number of seconds, plus a
   * RangeError for each of hours outside 0..72, minutes outside 0..59 and seconds outside
   * 0..59, the value being kept anyway.
   */
  function DecodeTime(text: Option<string>, table: string, row: int, column: string): (r: Decoded<int32>)
  {
    match text
    case None => Decoded(INT_MISSING, [])
    case Some(str) =>
      match TimeFields(str)
      case None => Decoded(INT_MISSING, [TimeParseError(table, row, column)])
      case Some((h, m, s)) =>
        Decoded(Seconds(h, m, s),
                RangeDiags(table, row, 0, 72, h) + RangeDiags(table, row, 0, 59, m) +
                RangeDiags(table, row, 0, 59, s))
  }

  /**
   * `getDateField` after the presence check, as its catch clause intends: a date the parser
   * rejects gives null and a DateParseError; a parsed date is kept, with a RangeError when
   * its year is outside 2000..2100. (`DecodeDateAsWritten` below is the code as it stands.)
   */
  function DecodeDate(parse: string -> Option<LocalDate>, text: Option<string>,
                      table: string, row: int, column: string): (r: Decoded<Option<LocalDate>>)
  {
    match text
    case None => Decoded(None, [])
    case Some(s) =>
      match parse(s)
      case None => Decoded(None, [DateParseError(table, row, column)])
      case Some(d) => Decoded(Some(d), RangeDiags(table, row, 2000, 2100, d.year))
  }

  /** `getUrlField` after the presence check: a rejected URL gives null and a URLParseError. */
  function DecodeUrl(parse: string -> Option<Url>, text: Option<string>,
                     table: string, row: int, column: string): (r: Decoded<Option<Url>>)
  {
    match text
    case None => Decoded(None, [])
    case Some(s) =>
      match parse(s)
      case None => Decoded(None, [URLParseError(table, row, column)])
      case Some(u) => Decoded(Some(u), [])
  }

  /** `writeIntField`: the empty cell for INT_MISSING, otherwise `Integer.toString`. */
  function IntText(v: int32): (r: string)
  {
    if v == INT_MISSING then "" else DecimalString(v)
  }

  /** `writeTimeField`: the empty cell for INT_MISSING, otherwise `convertToGtfsTime`. */
  function TimeText(secs: int32): (r: string)
  {
    if secs == INT_MISSING then "" else ConvertToGtfsTime(secs)
  }

  /** `writeUrlField`: the empty cell for null, otherwise the URL's `toString`. */
  function UrlText(u: Option<Url>): (r: string)
  {
    if u.Some? then u.value.form else ""
  }

  /**
   * An int written by `writeIntField` and read back by `getIntField` is the same int, with
   * a RangeError only when it is out of the read's range. INT_MISSING is written as the
   * empty cell and so reads back as the default value, without a diagnostic.
   */
  lemma IntRoundTrip(v: int32, min: int32, max: int32, defaultValue: int32,
                     table: string, row: int, column: string)
    ensures DecodeInt(NonEmpty(IntText(v)), min, max, defaultValue, table, row, column) ==
            if v == INT_MISSING then Decoded(defaultValue, [])
            else Decoded(v, RangeDiags(table, row, min, max, v))
  {
    if v != INT_MISSING {
      ParseDecimalString(v);
      assert DecimalString(v) != "" by { if v >= 0 { } else { } }
    }
  }

  /**
   * A time written by `writeTimeField` reads back as the same number of seconds, for every
   * int; INT_MISSING is written as the empty cell and reads back as INT_MISSING. The read
   * reports nothing exactly when the time lies in 00:00:00..72:59:59 (or is missing).
   */
  lemma TimeCellRoundTrip(secs: int32, table: string, row: int, column: string)
    ensures var r := DecodeTime(NonEmpty(TimeText(secs)), table, row, column);
      r.value == secs && (r.diags == [] <==> secs == INT_MISSING || 0 <= secs < 73 * 3600)
  {
    if secs != INT_MISSING {
      TimeRoundTrip(secs);
      assert ConvertToGtfsTime(secs) != "";
    }
  }

  /** `writeUrlField` and `getUrlField` agree whenever the URL parser reads back what `toString` gives. */
  lemma UrlRoundTrip(parse: string -> Option<Url>, u: Option<Url>, table: string, row: int, column: string)
    requires u.Some? ==> u.value.form != "" && parse(u.value.form) == u
    ensures DecodeUrl(parse, NonEmpty(UrlText(u)), table, row, column) == Decoded(u, [])
  {
  }

  /** `writeDateField` and `getDateField` agree whenever the date parser reads back the formatter's text. */
  lemma DateRoundTrip(parse: string -> Option<LocalDate>, format: LocalDate -> string, d: LocalDate,
                      table: string, row: int, column: string)
    requires format(d) != "" && parse(format(d)) == Some(d)
    ensures DecodeDate(parse, NonEmpty(format(d)), table, row, column) ==
            Decoded(Some(d), RangeDiags(table, row, 2000, 2100, d.year))
  {
  }

  /** A two-digit field, as in HH, MM or SS, reads as its decimal value. */
  lemma ParseTwoDigits(s: string, v: int)
    requires |s| == 2 && IsDigit(s[0]) && IsDigit(s[1]) && v == 10 * DigitValue(s[0]) + DigitValue(s[1])
    ensures ParseInt(s) == Some(v)
  {
    assert AllDigits(s);
    assert s[..1] == [s[0]];
    assert DigitsValue(s[..1]) == DigitValue(s[0]) by { assert s[..1][..0] == []; }
  }

  /**
   * Text that splits into three pieces `Integer.parseInt` accepts reads as those three ints.
   * A stepping stone for the worked time examples below, which name the pieces instead of
   * unfolding the split.
   */
  lemma TimeFieldsOf(text: string, a: string, b: string, c: string, h: int32, m: int32, s: int32)
    requires JavaSplit(text, ':') == [a, b, c]
    requires ParseInt(a) == Some(h) && ParseInt(b) == Some(m) && ParseInt(c) == Some(s)
    ensures TimeFields(text) == Some((h, m, s))
  {
  }

  /**
   * DecodeTime on text that splits into three ints: the second stepping stone of the worked
   * time examples, giving the seconds and the three range checks in order.
   */
  lemma DecodeTimeFields(str: string, h: int32, m: int32, s: int32, table: string, row: int, column: string)
    requires TimeFields(str) == Some((h, m, s))
    ensures DecodeTime(Some(str), table, row, column) ==
            Decoded(Seconds(h, m, s), RangeDiags(table, row, 0, 72, h) + RangeDiags(table, row, 0, 59, m) +
                                      RangeDiags(table, row, 0, 59, s))
  {
  }

  /** A time past midnight, 25:30:00, is accepted as it is. */
  lemma TimePastMidnight(table: string, row: int, column: string)
    ensures DecodeTime(Some("25:30:00"), table, row, column) == Decoded(91800, [])
  {
    assert "25:30:00" == "25" + [':'] + "30" + [':'] + "00";
    SplitThree("25", "30", "00", ':');
    ParseTwoDigits("25", 25);
    ParseTwoDigits("30", 30);
    ParseTwoDigits("00", 0);
    TimeFieldsOf("25:30:00", "25", "30", "00", 25, 30, 0);
    DecodeTimeFields("25:30:00", 25, 30, 0, table, row, column);
  }

  /** An hour past the 72-hour ceiling is kept, with a RangeError for the hours. */
  lemma TimePastCeiling(table: string, row: int, column: string)
    ensures DecodeTime(Some("99:00:00"), table, row, column) ==
            Decoded(356400, [RangeError(table, row, 0, 72, 99)])
  {
    assert "99:00:00" == "99" + [':'] + "00" + [':'] + "00";
    SplitThree("99", "00", "00", ':');
    ParseTwoDigits("99", 99);
    ParseTwoDigits("00", 0);
    ParseTwoDigits("00", 0);
    TimeFieldsOf("99:00:00", "99", "00", "00", 99, 0, 0);
    DecodeTimeFields("99:00:00", 99, 0, 0, table, row, column);
  }

  /** A trailing ':' is dropped by the split, so 01:02:03: still reads as three fields. */
  lemma TimeTrailingSeparator(table: string, row: int, column: string)
    ensures DecodeTime(Some("01:02:03:"), table, row, column) == Decoded(3723, [])
  {
    assert "01:02:03:" == "01" + [':'] + "02" + [':'] + "03" + [':'];
    SplitThreeTrailing("01", "02", "03", ':');
    ParseTwoDigits("01", 1);
    ParseTwoDigits("02", 2);
    ParseTwoDigits("03", 3);
    TimeFieldsOf("01:02:03:", "01", "02", "03", 1, 2, 3);
    DecodeTimeFields("01:02:03:", 1, 2, 3, table, row, column);
  }

  /** Two fields are a malformed time: INT_MISSING and one TimeParseError. */
  lemma TimeTwoFields(table: string, row: int, column: string)
    ensures DecodeTime(Some("12:00"), table, row, column) == Decoded(INT_MISSING, [TimeParseError(table, row, column)])
  {
    SplitAllCons("12", ':', "00");
    SplitAllNoSeparator("00", ':');
    assert "12:00" == "12" + [':'] + "00";
  }

  /** The three outcomes of the integer decoder; the value is kept even when it is out of range. */
  lemma DecodeIntOutcome(text: Option<string>, min: int32, max: int32, defaultValue: int32, table: string, row: int, column: string)
    ensures |DecodeInt(text, min, max, defaultValue, table, row, column).diags| <= 1
    ensures text.None? ==> DecodeInt(text, min, max, defaultValue, table, row, column) == Decoded(defaultValue, [])
    ensures text.Some? && ParseInt(text.value).None? ==>
              DecodeInt(text, min, max, defaultValue, table, row, column) == Decoded(INT_MISSING, [NumberParseError(table, row, column)])
    ensures text.Some? && ParseInt(text.value).Some? ==>
              DecodeInt(text, min, max, defaultValue, table, row, column).value == ParseInt(text.value).value &&
              (DecodeInt(text, min, max, defaultValue, table, row, column).diags == [] <==> min <= DecodeInt(text, min, max, defaultValue, table, row, column).value <= max)
  {
  }

  /** The outcomes of the time decoder; a value out of range is kept. */
  lemma DecodeTimeOutcome(text: Option<string>, table: string, row: int, column: string)
    ensures text.None? ==> DecodeTime(text, table, row, column) == Decoded(INT_MISSING, [])
    ensures text.Some? && TimeFields(text.value).None? ==>
              DecodeTime(text, table, row, column) == Decoded(INT_MISSING, [TimeParseError(table, row, column)])
    ensures text.Some? && TimeFields(text.value).Some? ==>
              var (h, m, s) := TimeFields(text.value).value;
              DecodeTime(text, table, row, column).value == Seconds(h, m, s) && |DecodeTime(text, table, row, column).diags| <= 3 &&
              (DecodeTime(text, table, row, column).diags == [] <==> 0 <= h <= 72 && 0 <= m <= 59 && 0 <= s <= 59)
  {
  }

  /** The outcomes of the date decoder. */
  lemma DecodeDateOutcome(parse: string -> Option<LocalDate>, text: Option<string>, table: string, row: int, column: string)
    ensures text.None? ==> DecodeDate(parse, text, table, row, column) == Decoded(None, [])
    ensures text.Some? ==> DecodeDate(parse, text, table, row, column).value == parse(text.value)
    ensures text.Some? && parse(text.value).None? ==> DecodeDate(parse, text, table, row, column).diags == [DateParseError(table, row, column)]
    ensures text.Some? && parse(text.value).Some? ==>
              (DecodeDate(parse, text, table, row, column).diags == [] <==> 2000 <= parse(text.value).value.year <= 2100)
  {
  }

  /** The outcomes of the URL decoder. */
  lemma DecodeUrlOutcome(parse: string -> Option<Url>, text: Option<string>, table: string, row: int, column: string)
    ensures text.None? ==> DecodeUrl(parse, text, table, row, column) == Decoded(None, [])
    ensures text.Some? ==> DecodeUrl(parse, text, table, row, column).value == parse(text.value)
    ensures DecodeUrl(parse, text, table, row, column).diags == (if text.Some? && parse(text.value).None? then [URLParseError(table, row, column)] else [])
  {
  }

  // ---------------------------------------------------------------- getDateField as written

  /**
   * What `getDateField` does with a present cell as its catch clause is written: it catches
   * IllegalArgumentException, but `LocalDate.parse` signals a malformed date with
   * DateTimeParseException, which is not one, so the failure leaves `getDateField` (and
   * `loadTable`) as an exception instead of becoming a DateParseError.
   */
  datatype DateOutcome = Read(decoded: Decoded<Option<LocalDate>>) | Escapes

  function DecodeDateAsWritten(parse: string -> Option<LocalDate>, text: Option<string>,
                               table: string, row: int, column: string): (r: DateOutcome)
  {
    match text
    case None => Read(Decoded(None, []))
    case Some(s) =>
      match parse(s)
      case None => Escapes
      case Some(d) => Read(Decoded(Some(d), RangeDiags(table, row, 2000, 2100, d.year)))
  }

  /**
   * The two readings differ exactly on a cell the parser rejects: as written the exception
   * escapes the loader, while the intended reading records a DateParseError and goes on
   * with a null date. On every other cell they agree.
   */
  lemma DateCatchMismatch(parse: string -> Option<LocalDate>, text: Option<string>,
                          table: string, row: int, column: string)
    ensures DecodeDateAsWritten(parse, text, table, row, column).Escapes? <==> text.Some? && parse(text.value).None?
    ensures DecodeDateAsWritten(parse, text, table, row, column).Escapes? ==>
              DecodeDate(parse, text, table, row, column) == Decoded(None, [DateParseError(table, row, column)])
    ensures DecodeDateAsWritten(parse, text, table, row, column).Read? ==>
              DecodeDateAsWritten(parse, text, table, row, column).decoded == DecodeDate(parse, text, table, row, column)
  {
  }

  /** A cell in ISO extended form, 2023-01-01, which BASIC_ISO_DATE rejects, escapes the loader as written. */
  lemma ExtendedDateEscapes(parse: string -> Option<LocalDate>, table: string, row: int, column: string)
    requires parse("2023-01-01") == None
    ensures DecodeDateAsWritten(parse, Some("2023-01-01"), table, row, column) == Escapes
    ensures DecodeDate(parse, Some("2023-01-01"), table, row, column) ==
            Decoded(None, [DateParseError(table, row, column)])
  {
  }
}
