/**
 * GTFS time of day (`HH:MM:SS`, the hour may pass 24) as the loader reads it with
 * `String.split(":")` and three `Integer.parseInt` calls, and as the writer produces it with
 * `convertToGtfsTime` and `String.format("%02d:%02d:%02d", ...)`.
 */
module GtfsTime {
  import opened Wrappers
  import opened JavaInt

  /** Every piece between separators, empty pieces included; there is always at least one. */
  function SplitAll(s: string, sep: char): (parts: seq<string>)
    ensures |parts| >= 1
    ensures forall i :: 0 <= i < |parts| ==> sep !in parts[i]
    decreases |s|
  {
    if s == [] then [""]
    else
      var rest := SplitAll(s[1..], sep);
      if s[0] == sep then [""] + rest else [[s[0]] + rest[0]] + rest[1..]
  }

  /** The trailing empty pieces that `String.split` with limit 0 removes. */
  function DropTrailingEmpty(parts: seq<string>): (r: seq<string>)
    ensures r <= parts
    ensures r != [] ==> r[|r| - 1] != ""
    ensures forall i :: |r| <= i < |parts| ==> parts[i] == ""
    decreases |parts|
  {
    if parts != [] && parts[|parts| - 1] == "" then
      var init := parts[..|parts| - 1];
      assert forall i :: 0 <= i < |init| ==> init[i] == parts[i];
      DropTrailingEmpty(init)
    else parts
  }

  /**
   * `s.split(String.valueOf(sep))` for a separator that is not a regular-expression
   * metacharacter: the whole string when the separator does not occur, otherwise the pieces
   * with trailing empty pieces removed (leading empty pieces are kept).
   */
  function JavaSplit(s: string, sep: char): (r: seq<string>)
  {
    if sep !in s then [s] else DropTrailingEmpty(SplitAll(s, sep))
  }

  lemma {:induction false} SplitAllNoSeparator(a: string, sep: char)
    requires sep !in a
    ensures SplitAll(a, sep) == [a]
    decreases |a|
  {
    if a != [] {
      assert sep !in a[1..];
      SplitAllNoSeparator(a[1..], sep);
      assert [a[0]] + a[1..] == a;
    }
  }

  lemma {:induction false} SplitAllCons(a: string, sep: char, b: string)
    requires sep !in a
    ensures SplitAll(a + [sep] + b, sep) == [a] + SplitAll(b, sep)
    decreases |a|
  {
    var s := a + [sep] + b;
    if a == [] {
      assert s[1..] == b;
    } else {
      assert s[1..] == a[1..] + [sep] + b;
      assert sep !in a[1..];
      SplitAllCons(a[1..], sep, b);
      assert [a[0]] + a[1..] == a;
    }
  }

  /** Three separator-free pieces, the last one non-empty, split back into themselves. */
  lemma SplitThree(a: string, b: string, c: string, sep: char)
    requires sep !in a && sep !in b && sep !in c && c != ""
    ensures JavaSplit(a + [sep] + b + [sep] + c, sep) == [a, b, c]
  {
    var s := a + [sep] + b + [sep] + c;
    assert s[|a|] == sep;
    assert s == a + [sep] + (b + [sep] + c);
    SplitAllCons(a, sep, b + [sep] + c);
    SplitAllCons(b, sep, c);
    SplitAllNoSeparator(c, sep);
  }

  /** The same pieces followed by one more separator: the trailing empty piece is dropped. */
  lemma SplitThreeTrailing(a: string, b: string, c: string, sep: char)
    requires sep !in a && sep !in b && sep !in c && c != ""
    ensures JavaSplit(a + [sep] + b + [sep] + c + [sep], sep) == [a, b, c]
  {
    var s := a + [sep] + b + [sep] + c + [sep];
    assert s[|a|] == sep;
    assert s == a + [sep] + (b + [sep] + (c + [sep] + ""));
    SplitAllCons(a, sep, b + [sep] + (c + [sep] + ""));
    SplitAllCons(b, sep, c + [sep] + "");
    SplitAllCons(c, sep, "");
    var parts := [a, b, c, ""];
    assert SplitAll(s, sep) == parts;
    assert DropTrailingEmpty(parts) == parts[..3] by {
      assert parts[..3][2] != "";
    }
  }

  /** `String.format("%02d", n)`: zero-padded to two characters; a minus sign counts as one. */
  function Pad2(n: int): (s: string)
    ensures ':' !in s && s != []
    ensures 0 <= n < 100 ==> |s| == 2 && AllDigits(s)
    ensures 0 <= n ==> |s| >= 2
  {
    if 0 <= n < 10 then "0" + DecimalString(n)
    else
      assert 10 <= n ==> |NatString(n)| == |NatString(n / 10)| + 1;
      DecimalString(n)
  }

  lemma ParsePad2(n: int32)
    ensures ParseInt(Pad2(n)) == Some(n)
  {
    if 0 <= n < 10 {
      var s := Pad2(n);
      assert s == [DigitChar(0), DigitChar(n)];
      assert s[..1] == [DigitChar(0)];
      assert DigitsValue(s[..1]) == 0 by { assert s[..1][..0] == []; }
    } else {
      ParseDecimalString(n);
    }
  }

  /**
   * The hour, minute and second numbers `convertToGtfsTime` computes with Java's truncating
   * `%` and `/` (minutes and hours stay expressed in seconds until the final division).
   */
  function Clock(secsSinceMidnight: int32): (c: (int, int, int))
  {
    var seconds := Rem(secsSinceMidnight, 60);
    var rest := secsSinceMidnight - seconds;
    var minutes := Rem(rest, 3600);
    var hours := rest - minutes;
    (Quot(hours, 3600), Quot(minutes, 60), seconds)
  }

  /** `Writer.convertToGtfsTime`: seconds since midnight as `HH:MM:SS`; the hour is not clamped. */
  function ConvertToGtfsTime(secsSinceMidnight: int32): (r: string)
  {
    var (h, m, s) := Clock(secsSinceMidnight);
    Pad2(h) + ":" + Pad2(m) + ":" + Pad2(s)
  }

  /**
   * The hour, minute and second numbers of a time of day, or None when the text does not
   * split into exactly three pieces at ':' or one of the pieces is not an int.
   */
  function TimeFields(text: string): (r: Option<(int32, int32, int32)>)
  {
    var fields := JavaSplit(text, ':');
    if |fields| != 3 then None
    else match (ParseInt(fields[0]), ParseInt(fields[1]), ParseInt(fields[2]))
      case (Some(h), Some(m), Some(s)) => Some((h, m, s))
      case _ => None
  }

  /**
   * `(hours * 60 * 60) + minutes * 60 + seconds` in int arithmetic. Wrap-around after each
   * operation gives the same int as wrapping the exact sum once.
   */
  function Seconds(h: int32, m: int32, s: int32): (r: int32)
  {
    ToInt32(h * 3600 + m * 60 + s)
  }

  /** Euclidean division by 3600 is determined by any quotient-remainder decomposition. */
  lemma DivMod3600(a: int, q: int, r: int)
    requires a == 3600 * q + r && 0 <= r < 3600
    ensures a / 3600 == q && a % 3600 == r
  {
  }

  /** Euclidean division by 60 is determined by any quotient-remainder decomposition. */
  lemma DivMod60(a: int, q: int, r: int)
    requires a == 60 * q + r && 0 <= r < 60
    ensures a / 60 == q && a % 60 == r
  {
  }

  /** The clock arithmetic of `convertToGtfsTime` on a non-negative number of seconds. */
  lemma NatClock(a: nat)
    ensures var rest := a - a % 60;
      rest % 3600 == 60 * ((a % 3600) / 60) && rest - rest % 3600 == 3600 * (a / 3600)
  {
    var k, j := a / 60, a / 60 / 60;
    var r := k % 60;
    assert a == 60 * k + a % 60;
    assert k == 60 * j + r;
    var rest := a - a % 60;
    assert rest == 3600 * j + 60 * r;
    DivMod3600(rest, j, 60 * r);
    DivMod3600(a, j, 60 * r + a % 60);
    DivMod60(a % 3600, r, a % 60);
  }

  /** The clock numbers of a non-negative time are its hours, minutes and seconds. */
  lemma ClockNonNegative(secs: int32)
    requires secs >= 0
    ensures Clock(secs) == (secs / 3600, (secs % 3600) / 60, secs % 60)
    ensures Clock(secs).0 * 3600 + Clock(secs).1 * 60 + Clock(secs).2 == secs
  {
    NatClock(secs);
    var hn, mn, sn := secs / 3600, (secs % 3600) / 60, secs % 60;
    assert secs % 3600 == 60 * mn + sn;
    assert secs == 3600 * hn + 60 * mn + sn;
  }

  /** Java's truncating `%` and `/` give a negative time the negated numbers of its magnitude. */
  lemma ClockNegative(secs: int32)
    requires secs < 0
    ensures Clock(secs).0 <= 0 && Clock(secs).1 <= 0 && Clock(secs).2 <= 0
    ensures Clock(secs).0 * 3600 + Clock(secs).1 * 60 + Clock(secs).2 == secs
  {
    var a: nat := -(secs as int);
    NatClock(a);
    var hn, mn, sn := a / 3600, (a % 3600) / 60, a % 60;
    assert a % 3600 == 60 * mn + sn;
    assert a == 3600 * hn + 60 * mn + sn;
    var rest := a - sn;
    assert Rem(secs, 60) == -sn;
    assert Rem(-rest, 3600) == -60 * mn;
    assert Quot(-3600 * hn, 3600) == -hn;
    assert Quot(-60 * mn, 60) == -mn;
    assert Clock(secs) == (-hn, -mn, -sn);
  }

  /** The three numbers the writer formats, for a time of day in seconds. */
  lemma ClockParts(secs: int32)
    ensures var (h, m, s) := Clock(secs);
      && h * 3600 + m * 60 + s == secs
      && (secs >= 0 ==> h == secs / 3600 && m == (secs % 3600) / 60 && s == secs % 60)
      && (secs < 0 ==> h <= 0 && m <= 0 && s <= 0 && (h < 0 || m < 0 || s < 0))
  {
    if secs >= 0 {
      ClockNonNegative(secs);
    } else {
      ClockNegative(secs);
    }
  }

  /** Three digit fields joined by ':', the last two of two digits each. */
  lemma JoinedFields(hh: string, mm: string, ss: string)
    requires AllDigits(hh) && AllDigits(mm) && AllDigits(ss) && |mm| == 2 && |ss| == 2
    ensures var t := hh + ":" + mm + ":" + ss;
      && |t| == |hh| + 6 && t[|t| - 6] == ':' && t[|t| - 3] == ':'
      && AllDigits(t[..|t| - 6]) && AllDigits(t[|t| - 5..|t| - 3]) && AllDigits(t[|t| - 2..])
  {
    var t := hh + ":" + mm + ":" + ss;
    assert t[..|t| - 6] == hh;
    assert t[|t| - 5..|t| - 3] == mm;
    assert t[|t| - 2..] == ss;
  }

  /** The hour field of a non-negative time: digits only, exactly two of them below 100. */
  lemma HourField(h: int)
    requires h >= 0
    ensures AllDigits(Pad2(h)) && (h < 100 <==> |Pad2(h)| == 2)
  {
    if h >= 10 {
      assert Pad2(h) == NatString(h);
    }
    if h >= 100 {
      assert |NatString(h)| == |NatString(h / 10)| + 1;
      assert |NatString(h / 10)| >= 2;
    }
  }

  /**
   * The shape `%02d:%02d:%02d` gives a non-negative time: two-digit minutes and seconds after
   * the last two ':', and an hour of at least two digits, exactly two below 100 hours.
   */
  lemma TimeTextShape(secs: int32)
    requires secs >= 0
    ensures var t := ConvertToGtfsTime(secs);
      && |t| >= 8 && t[|t| - 6] == ':' && t[|t| - 3] == ':'
      && AllDigits(t[..|t| - 6]) && AllDigits(t[|t| - 5..|t| - 3]) && AllDigits(t[|t| - 2..])
      && (secs < 100 * 3600 <==> |t| == 8)
  {
    ClockNonNegative(secs);
    var (h, m, s) := Clock(secs);
    HourField(h);
    JoinedFields(Pad2(h), Pad2(m), Pad2(s));
  }

  /** 91800 seconds, past midnight, is written as 25:30:00. */
  lemma EncodePastMidnight()
    ensures ConvertToGtfsTime(91800) == "25:30:00"
  {
    assert Rem(91800, 60) == 0 && Rem(91800, 3600) == 1800;
    assert Quot(90000, 3600) == 25 && Quot(1800, 60) == 30;
    assert Clock(91800) == (25, 30, 0);
    assert NatString(2) == "2";
    assert NatString(25) == "25" by { assert NatString(25) == NatString(2) + [DigitChar(5)]; }
    assert NatString(3) == "3";
    assert NatString(30) == "30" by { assert NatString(30) == NatString(3) + [DigitChar(0)]; }
    assert Pad2(25) == "25" && Pad2(30) == "30" && Pad2(0) == "00";
  }

  /**
   * What `convertToGtfsTime` writes, the time decoder reads back: for every int the text
   * splits into three ints that add up to the same number of seconds. The components lie in
   * the ranges the loader checks (hours 0..72, minutes and seconds 0..59) exactly when the
   * time is between 00:00:00 and 72:59:59.
   */
  lemma TimeRoundTrip(secs: int32)
    ensures TimeFields(ConvertToGtfsTime(secs)).Some?
    ensures var (h, m, s) := TimeFields(ConvertToGtfsTime(secs)).value;
      Seconds(h, m, s) == secs &&
      ((0 <= h <= 72 && 0 <= m <= 59 && 0 <= s <= 59) <==> 0 <= secs < 73 * 3600)
  {
    ClockParts(secs);
    var (h, m, s) := Clock(secs);
    SplitThree(Pad2(h), Pad2(m), Pad2(s), ':');
    assert Pad2(h) + ":" + Pad2(m) + ":" + Pad2(s) == Pad2(h) + [':'] + Pad2(m) + [':'] + Pad2(s);
    ParsePad2(h);
    ParsePad2(m);
    ParsePad2(s);
    assert TimeFields(ConvertToGtfsTime(secs)) == Some((h, m, s));
  }
}
