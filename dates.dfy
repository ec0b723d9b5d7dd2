/**
 * The date handling of the consolidation step: `pd.to_datetime(..., format="%Y%m%d",
 * errors="coerce")` on one cell, the text `str()` gives a timestamp, and the start of a
 * timestamp's year.
 */
module Dates {
  import opened Values
  import opened Text

  predicate IsLeap(year: int) {
    year % 4 == 0 && (year % 100 != 0 || year % 400 == 0)
  }

  function DaysInMonth(year: int, month: int): (n: int)
    requires 1 <= month <= 12
    ensures 28 <= n <= 31
  {
    if month == 2 then (if IsLeap(year) then 29 else 28)
    else if month == 4 || month == 6 || month == 9 || month == 11 then 30
    else 31
  }

  /** Lexicographic order on (year, month, day). */
  predicate NotAfter(a: DateVal, b: DateVal) {
    a.year < b.year || (a.year == b.year && (a.month < b.month || (a.month == b.month && a.day <= b.day)))
  }

  /** The first and last midnights a nanosecond `Timestamp` can hold. */
  const FirstTimestamp := DateVal(1677, 9, 22)
  const LastTimestamp := DateVal(2262, 4, 11)

  /** A real calendar day that a `Timestamp` can represent. */
  predicate ValidDate(d: DateVal) {
    && 1 <= d.month <= 12
    && 1 <= d.day <= DaysInMonth(d.year, d.month)
    && NotAfter(FirstTimestamp, d) && NotAfter(d, LastTimestamp)
  }

  function Pow10(w: nat): (p: nat)
    ensures p >= 1
  {
    if w == 0 then 1 else 10 * Pow10(w - 1)
  }

  function DigitChar(d: nat): (c: char)
    requires d < 10
    ensures IsDigit(c) && DigitValue(c) == d
  {
    '0' + d as char
  }

  /** `n` written with exactly `w` decimal digits, zero-padded (`f"{n:0{w}d}"`). */
  function Fixed(n: nat, w: nat): (s: string)
    ensures |s| == w && AllDigits(s)
  {
    if w == 0 then [] else Fixed(n / 10, w - 1) + [DigitChar(n % 10)]
  }

  /** Reading back a zero-padded number that fits its width gives the number. */
  lemma {:induction false} FixedValue(n: nat, w: nat)
    requires n < Pow10(w)
    ensures DigitsValue(Fixed(n, w)) == n
  {
    if w > 0 {
      var s := Fixed(n, w);
      FixedValue(n / 10, w - 1);
      assert s[..|s| - 1] == Fixed(n / 10, w - 1);
    }
  }

  /** A run of digits is the zero-padded form of the number it denotes. */
  lemma {:induction false} FixedOfDigits(s: string)
    requires AllDigits(s)
    ensures Fixed(DigitsValue(s), |s|) == s
  {
    if s != [] {
      var init := s[..|s| - 1];
      FixedOfDigits(init);
      var n := DigitsValue(s);
      assert n / 10 == DigitsValue(init) && n % 10 == DigitValue(s[|s| - 1]);
      assert s == init + [s[|s| - 1]];
    }
  }

  /** The eight characters `YYYYMMDD` of a date. */
  function YmdDigits(d: DateVal): (s: string)
    ensures |s| == 8 && AllDigits(s)
  {
    Fixed(d.year, 4) + Fixed(d.month, 2) + Fixed(d.day, 2)
  }

  /**
   * Date parsing of one string in the `%Y%m%d` format, errors coerced: eight digits that
   * name a representable calendar day, otherwise no date.
   */
  function ParseYmd(s: string): Option<DateVal> {
    if |s| == 8 && AllDigits(s) then
      var d := DateVal(DigitsValue(s[..4]), DigitsValue(s[4..6]), DigitsValue(s[6..]));
      if ValidDate(d) then Some(d) else None
    else None
  }

  /** A parsed date is valid and is written exactly as the string it was parsed from. */
  lemma {:induction false} ParseYmdSpec(s: string)
    ensures ParseYmd(s).Some? ==> ValidDate(ParseYmd(s).value) && YmdDigits(ParseYmd(s).value) == s
  {
    if ParseYmd(s).Some? {
      FixedOfDigits(s[..4]);
      FixedOfDigits(s[4..6]);
      FixedOfDigits(s[6..]);
      assert s == s[..4] + s[4..6] + s[6..];
    }
  }

  /**
   * Formatting then parsing gives back every representable day and rejects every other
   * (year, month, day) that fits the eight digits, such as February 29th of a common year.
   */
  lemma {:induction false} ParseYmdRoundTrip(d: DateVal)
    requires d.year < 10000 && d.month < 100 && d.day < 100
    ensures ParseYmd(YmdDigits(d)) == if ValidDate(d) then Some(d) else None
  {
    var s := YmdDigits(d);
    assert s[..4] == Fixed(d.year, 4);
    assert s[4..6] == Fixed(d.month, 2);
    assert s[6..] == Fixed(d.day, 2);
    assert Pow10(4) == 10000 && Pow10(2) == 100;
    FixedValue(d.year, 4);
    FixedValue(d.month, 2);
    FixedValue(d.day, 2);
  }

  /**
   * One cell of a column parsed as `%Y%m%d` dates, errors coerced to missing: a string
   * becomes the date it spells, or a missing date when it spells none; a missing cell
   * stays missing.
   */
  function ToDatetime(v: Value): (r: Value)
    ensures r == Null || (r.Date? && ValidDate(r.date))
    ensures v.Str? ==> (r == Null <==> ParseYmd(v.s).None?)
    ensures v.Str? && ParseYmd(v.s).Some? ==> r == Date(ParseYmd(v.s).value)
    ensures v == Null ==> r == Null
  {
    match v
    case Str(s) => (match ParseYmd(s) case Some(d) => Date(d) case None => Null)
    case Int(n) => (match ParseYmd(IntToString(n)) case Some(d) => Date(d) case None => Null)
    case Date(d) => if ValidDate(d) then v else Null
    case _ => Null
  }

  /**
   * An `upload_date` written as the `YYYYMMDD` digits of a day parses to that day when the
   * day is representable, and to a missing date otherwise.
   */
  lemma {:induction false} ToDatetimeOfDigits(d: DateVal)
    requires d.year < 10000 && d.month < 100 && d.day < 100
    ensures ToDatetime(Str(YmdDigits(d))) == if ValidDate(d) then Date(d) else Null
  {
    ParseYmdRoundTrip(d);
  }

  /**
   * The year of a parsed date read back as a `%Y` date, errors coerced, on one cell: January 1st of
   * the date's year, or no date when the date is missing or that midnight is not representable.
   */
  function YearStart(v: Value): (r: Value)
    ensures r == Null || (r.Date? && ValidDate(r.date) && r.date.month == 1 && r.date.day == 1)
    ensures r.Date? ==> v.Date? && r.date.year == v.date.year
  {
    match v
    case Date(d) => if ValidDate(DateVal(d.year, 1, 1)) then Date(DateVal(d.year, 1, 1)) else Null
    case _ => Null
  }

  /** A valid date after 1677 has a representable January 1st. */
  lemma {:induction false} YearStartDefined(v: Value)
    requires v.Date? && ValidDate(v.date) && v.date.year > 1677
    ensures YearStart(v) == Date(DateVal(v.date.year, 1, 1))
  {
  }

  /**
   * A valid date late in 1677 has no representable January 1st, so its year start is
   * missing although the date is present.
   */
  lemma {:induction false} YearStartBeforeRange()
    ensures ValidDate(DateVal(1677, 10, 1))
    ensures YearStart(Date(DateVal(1677, 10, 1))) == Null
  {
  }

  /** `str(timestamp)`: `YYYY-MM-DD 00:00:00`. */
  function TimestampText(d: DateVal): (s: string)
    ensures |s| == 19
  {
    Fixed(d.year, 4) + "-" + Fixed(d.month, 2) + "-" + Fixed(d.day, 2) + " 00:00:00"
  }
}
