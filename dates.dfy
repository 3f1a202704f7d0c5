/** Publication dates: Go's time.Parse with the layout "2006-01-02" (the
    full-date form of section 5.6 of RFC 3339, YYYY-MM-DD), the matching
    time.Format, and getParsedTime, which falls back to the current time when
    parsing fails. The current time is a parameter. */
module Dates {

  datatype Option<T> = None | Some(value: T)

  /** A proleptic Gregorian calendar date, as Go's time package counts it. */
  datatype Date = Date(year: int, month: int, day: int)

  /** An instant in UTC: a date and the nanoseconds elapsed since its
      midnight. */
  datatype Timestamp = Timestamp(date: Date, nanoOfDay: nat)

  function Midnight(d: Date): Timestamp {
    Timestamp(d, 0)
  }

  /** Go's isLeap. Dafny's `%` is Euclidean and Go's truncates, but a
      remainder is zero under one exactly when it is zero under the other. */
  predicate IsLeap(year: int)
    ensures year % 4 != 0 ==> !IsLeap(year)
    ensures year % 4 == 0 && year % 100 != 0 ==> IsLeap(year)
    ensures year % 100 == 0 && year % 400 != 0 ==> !IsLeap(year)
    ensures year % 400 == 0 ==> IsLeap(year)
  {
    year % 4 == 0 && (year % 100 != 0 || year % 400 == 0)
  }

  /** Go's daysIn for a month in 1..12. */
  function DaysIn(month: int, year: int): (n: int)
    requires 1 <= month <= 12
    ensures 28 <= n <= 31
    ensures n == 29 <==> month == 2 && IsLeap(year)
  {
    if month == 2 then (if IsLeap(year) then 29 else 28)
    else if month == 4 || month == 6 || month == 9 || month == 11 then 30
    else 31
  }

  /** A real day of the calendar: the month is 1..12 and the day exists in
      that month of that year. */
  predicate IsValidDate(d: Date) {
    1 <= d.month <= 12 && 1 <= d.day <= DaysIn(d.month, d.year)
  }

  /** A valid date whose year has the four digits the layout prints. */
  predicate IsFormattable(d: Date) {
    0 <= d.year <= 9999 && IsValidDate(d)
  }

  predicate IsDigit(c: char) {
    '0' <= c <= '9'
  }

  function DigitValue(c: char): (n: int)
    requires IsDigit(c)
    ensures 0 <= n <= 9
  {
    c as int - '0' as int
  }

  function DigitChar(n: int): (c: char)
    requires 0 <= n <= 9
    ensures IsDigit(c) && DigitValue(c) == n
  {
    ('0' as int + n) as char
  }

  /** Go's getnum(s, true): exactly two leading digits, and the text after
      them. */
  function ZeroPaddedNum(s: string): (r: Option<(int, string)>)
    ensures r.Some? <==> |s| >= 2 && IsDigit(s[0]) && IsDigit(s[1])
    ensures r.Some? ==> r.value.1 == s[2..]
    ensures r.Some? ==> r.value.0 == 10 * DigitValue(s[0]) + DigitValue(s[1])
  {
    if |s| < 2 || !IsDigit(s[0]) || !IsDigit(s[1]) then None
    else Some((10 * DigitValue(s[0]) + DigitValue(s[1]), s[2..]))
  }

  /** The stdLongYear element: at least four bytes remain and the first four
      are digits (Go's atoi on them refuses anything else), and the text after
      them. */
  function LongYear(s: string): (r: Option<(int, string)>)
    ensures r.Some? <==> |s| >= 4 && IsDigit(s[0]) && IsDigit(s[1]) && IsDigit(s[2]) && IsDigit(s[3])
    ensures r.Some? ==> r.value.1 == s[4..]
    ensures r.Some? ==> r.value.0 == 1000 * DigitValue(s[0]) + 100 * DigitValue(s[1]) + 10 * DigitValue(s[2]) + DigitValue(s[3])
  {
    if |s| < 4 || !IsDigit(s[0]) || !IsDigit(s[1]) || !IsDigit(s[2]) || !IsDigit(s[3]) then None
    else Some((1000 * DigitValue(s[0]) + 100 * DigitValue(s[1]) + 10 * DigitValue(s[2]) + DigitValue(s[3]), s[4..]))
  }

  /** A literal layout character must be matched exactly. */
  function Literal(s: string, c: char): (r: Option<string>)
    ensures r.Some? <==> |s| > 0 && s[0] == c
    ensures r.Some? ==> r.value == s[1..]
  {
    if |s| == 0 || s[0] != c then None else Some(s[1..])
  }

  /** time.Parse("2006-01-02", s), element by element: year, '-', month
      (rejected outside 1..12), '-', day; then any text left over is an error,
      and the day must exist in that month of that year. */
  function ParseFullDate(s: string): (r: Option<Date>)
    ensures r.Some? ==> IsFormattable(r.value)
    ensures r.Some? ==> |s| == 10 && s[4] == '-' && s[7] == '-'
  {
    match LongYear(s)
    case None => None
    case Some((year, afterYear)) =>
      match Literal(afterYear, '-')
      case None => None
      case Some(beforeMonth) =>
        match ZeroPaddedNum(beforeMonth)
        case None => None
        case Some((month, afterMonth)) =>
          if month < 1 || 12 < month then None
          else
            match Literal(afterMonth, '-')
            case None => None
            case Some(beforeDay) =>
              match ZeroPaddedNum(beforeDay)
              case None => None
              case Some((day, rest)) =>
                if |rest| > 0 then None
                else if day < 1 || day > DaysIn(month, year) then None
                else Some(Date(year, month, day))
  }

  /** A success is a valid date whose canonical rendering is the parsed
      text itself. */
  lemma ParseFullDateSound(s: string)
    ensures ParseFullDate(s).Some? ==> IsFormattable(ParseFullDate(s).value) && FormatDate(ParseFullDate(s).value) == s
  {
    if ParseFullDate(s).Some? {
      var afterYear := LongYear(s).value.1;
      var beforeMonth := Literal(afterYear, '-').value;
      assert beforeMonth == s[5..];
      var afterMonth := ZeroPaddedNum(beforeMonth).value.1;
      var beforeDay := Literal(afterMonth, '-').value;
      assert afterMonth == s[7..] && beforeDay == s[8..];
      assert |ZeroPaddedNum(beforeDay).value.1| == 0;
      FormatParsedDigits(s);
    }
  }

  /** Reading a digit and printing it back gives the same character. */
  lemma DigitRoundTrip(c: char)
    requires IsDigit(c)
    ensures DigitChar(DigitValue(c)) == c
  {
  }

  /** Four digits read as a number print back as the same four digits. */
  lemma Pad4OfDigits(a: char, b: char, c: char, d: char)
    requires IsDigit(a) && IsDigit(b) && IsDigit(c) && IsDigit(d)
    ensures var n := 1000 * DigitValue(a) + 100 * DigitValue(b) + 10 * DigitValue(c) + DigitValue(d);
      0 <= n <= 9999 && Pad4(n) == [a, b, c, d]
  {
    var high := 10 * DigitValue(a) + DigitValue(b);
    var low := 10 * DigitValue(c) + DigitValue(d);
    var n := 100 * high + low;
    assert n / 100 == high && n % 100 == low;
    Pad2OfDigits(a, b);
    Pad2OfDigits(c, d);
  }

  /** Two digits read as a number print back as the same two digits. */
  lemma Pad2OfDigits(a: char, b: char)
    requires IsDigit(a) && IsDigit(b)
    ensures var n := 10 * DigitValue(a) + DigitValue(b);
      0 <= n <= 99 && Pad2(n) == [a, b]
  {
    var n := 10 * DigitValue(a) + DigitValue(b);
    assert n / 10 == DigitValue(a) && n % 10 == DigitValue(b);
    DigitRoundTrip(a);
    DigitRoundTrip(b);
  }

  /** The text that ParseFullDate accepts is the canonical rendering of what
      it reads from it. */
  lemma FormatParsedDigits(s: string)
    requires |s| == 10 && s[4] == '-' && s[7] == '-'
    requires IsDigit(s[0]) && IsDigit(s[1]) && IsDigit(s[2]) && IsDigit(s[3])
    requires IsDigit(s[5]) && IsDigit(s[6]) && IsDigit(s[8]) && IsDigit(s[9])
    ensures
      var year := 1000 * DigitValue(s[0]) + 100 * DigitValue(s[1]) + 10 * DigitValue(s[2]) + DigitValue(s[3]);
      var month := 10 * DigitValue(s[5]) + DigitValue(s[6]);
      var day := 10 * DigitValue(s[8]) + DigitValue(s[9]);
      0 <= year <= 9999 && 0 <= month <= 99 && 0 <= day <= 99
      && Pad4(year) + "-" + Pad2(month) + "-" + Pad2(day) == s
  {
    Pad4OfDigits(s[0], s[1], s[2], s[3]);
    Pad2OfDigits(s[5], s[6]);
    Pad2OfDigits(s[8], s[9]);
    assert s == [s[0], s[1], s[2], s[3]] + "-" + [s[5], s[6]] + "-" + [s[8], s[9]];
  }

  /** Four decimal digits, zero-padded, as the layout element "2006" prints a
      year in 0..9999. */
  function Pad4(n: int): (r: string)
    requires 0 <= n <= 9999
    ensures |r| == 4 && forall k :: 0 <= k < 4 ==> IsDigit(r[k])
  {
    Pad2(n / 100) + Pad2(n % 100)
  }

  /** Reading back the two digits Pad2 prints gives the number. */
  lemma Pad2Value(n: int)
    requires 0 <= n <= 99
    ensures 10 * DigitValue(Pad2(n)[0]) + DigitValue(Pad2(n)[1]) == n
  {
  }

  /** Reading back the four digits Pad4 prints gives the number. */
  lemma Pad4Value(n: int)
    requires 0 <= n <= 9999
    ensures var p := Pad4(n);
      1000 * DigitValue(p[0]) + 100 * DigitValue(p[1]) + 10 * DigitValue(p[2]) + DigitValue(p[3]) == n
  {
    var high, low := n / 100, n % 100;
    Pad2Value(high);
    Pad2Value(low);
    assert Pad4(n)[..2] == Pad2(high) && Pad4(n)[2..] == Pad2(low);
    assert n == 100 * high + low;
  }

  /** Two decimal digits, zero-padded, as "01" and "02" print a month and a
      day. */
  function Pad2(n: int): (r: string)
    requires 0 <= n <= 99
    ensures |r| == 2 && IsDigit(r[0]) && IsDigit(r[1])
  {
    [DigitChar(n / 10), DigitChar(n % 10)]
  }

  /** time.Format("2006-01-02") for a date whose year has four digits. */
  function FormatDate(d: Date): (s: string)
    requires IsFormattable(d)
    ensures |s| == 10 && s[4] == '-' && s[7] == '-'
    ensures forall k :: 0 <= k < 10 && k != 4 && k != 7 ==> IsDigit(s[k])
  {
    Pad4(d.year) + "-" + Pad2(d.month) + "-" + Pad2(d.day)
  }

  /** Parsing the canonical rendering of a valid date gives the date back. */
  lemma ParseFormat(d: Date)
    requires IsFormattable(d)
    ensures ParseFullDate(FormatDate(d)) == Some(d)
  {
    var s := FormatDate(d);
    Pad4Value(d.year);
    Pad2Value(d.month);
    Pad2Value(d.day);
    assert s[..4] == Pad4(d.year);
    assert s[5..7] == Pad2(d.month);
    assert s[8..] == Pad2(d.day);
    assert LongYear(s) == Some((d.year, s[4..]));
    assert Literal(s[4..], '-') == Some(s[5..]);
    assert ZeroPaddedNum(s[5..]) == Some((d.month, s[7..]));
    assert Literal(s[7..], '-') == Some(s[8..]);
    assert ZeroPaddedNum(s[8..]) == Some((d.day, s[10..]));
  }

  /** Parsing fails exactly on the strings that render no valid date. */
  lemma ParseFailsOnlyOnNonDates(s: string)
    ensures ParseFullDate(s).None? <==> forall d :: IsFormattable(d) ==> FormatDate(d) != s
  {
    ParseFullDateSound(s);
    if ParseFullDate(s).None? {
      forall d | IsFormattable(d) ensures FormatDate(d) != s {
        ParseFormat(d);
      }
    }
  }

  /** getParsedTime: the date the string renders, at midnight UTC, or `now`
      when the string renders no valid date. It never fails. */
  function GetParsedTime(strDate: string, now: Timestamp): (t: Timestamp)
    ensures t == now || (t.nanoOfDay == 0 && IsFormattable(t.date) && FormatDate(t.date) == strDate)
  {
    ParseFullDateSound(strDate);
    match ParseFullDate(strDate)
    case Some(d) => Midnight(d)
    case None => now
  }

  /** A valid YYYY-MM-DD date is taken as written. */
  lemma GetParsedTimeOfDate(d: Date, now: Timestamp)
    requires IsFormattable(d)
    ensures GetParsedTime(FormatDate(d), now) == Midnight(d)
  {
    ParseFormat(d);
  }

  /** Every other string gives the supplied current time. */
  lemma GetParsedTimeFallback(s: string, now: Timestamp)
    requires forall d :: IsFormattable(d) ==> FormatDate(d) != s
    ensures GetParsedTime(s, now) == now
  {
    ParseFailsOnlyOnNonDates(s);
  }

  /** Normalising the rendering of a normalised valid date changes nothing,
      whatever the current time is at either call. */
  lemma GetParsedTimeIdempotentOnDates(s: string, now: Timestamp, later: Timestamp)
    requires ParseFullDate(s).Some?
    ensures IsFormattable(GetParsedTime(s, now).date)
    ensures GetParsedTime(FormatDate(GetParsedTime(s, now).date), later) == GetParsedTime(s, now)
  {
    ParseFullDateSound(s);
    ParseFormat(ParseFullDate(s).value);
  }

  /** On the fallback path only the date of `now` survives a second
      normalisation: its time of day is reset to midnight. */
  lemma GetParsedTimeFallbackDropsClock(s: string, now: Timestamp, later: Timestamp)
    requires ParseFullDate(s).None? && IsFormattable(now.date)
    ensures GetParsedTime(FormatDate(GetParsedTime(s, now).date), later) == Midnight(now.date)
  {
    ParseFormat(now.date);
  }
}
