/** Proleptic Gregorian calendar arithmetic in the form ECMAScript's `Date`
    uses it (day numbers counted from 1970-01-01, a Thursday), and the
    `YYYY-MM-DD` calendar-date format of ISO 8601 (the extended complete
    representation of section 4.1.2.2) that trade dates are written in. */
module Gregorian {
  import opened Base
  import opened Strings

  /** A calendar date; `month` is 1-based (January is 1). */
  datatype CivilDate = CivilDate(year: int, month: int, day: int)

  predicate IsLeapYear(y: int)
  {
    y % 4 == 0 && (y % 100 != 0 || y % 400 == 0)
  }

  function DaysInYear(y: int): int
  {
    if IsLeapYear(y) then 366 else 365
  }

  /** Length of month `m` of year `y`: what `new Date(Date.UTC(y, m, 0)).getUTCDate()`
      yields for the 0-based month index `m - 1`. */
  function DaysInMonth(y: int, m: int): int
    requires 1 <= m <= 12
  {
    if m == 2 then (if IsLeapYear(y) then 29 else 28)
    else if m == 4 || m == 6 || m == 9 || m == 11 then 30
    else 31
  }

  predicate IsValid(d: CivilDate)
  {
    1 <= d.month <= 12 && 1 <= d.day <= DaysInMonth(d.year, d.month)
  }

  /** Days of year `y` before the first of month `m` (ECMAScript's month table). */
  function DaysBeforeMonth(y: int, m: int): int
    requires 1 <= m <= 12
  {
    var leap := if IsLeapYear(y) && m >= 3 then 1 else 0;
    leap + (
      if m == 1 then 0 else if m == 2 then 31 else if m == 3 then 59
      else if m == 4 then 90 else if m == 5 then 120 else if m == 6 then 151
      else if m == 7 then 181 else if m == 8 then 212 else if m == 9 then 243
      else if m == 10 then 273 else if m == 11 then 304 else 334)
  }

  /** ECMAScript's DayFromYear: the day number of January 1 of year `y`. */
  function DayFromYear(y: int): int
  {
    365 * (y - 1970) + (y - 1969) / 4 - (y - 1901) / 100 + (y - 1601) / 400
  }

  /** Days since 1970-01-01 (negative before it). */
  function DayNumber(d: CivilDate): int
    requires 1 <= d.month <= 12
  {
    DayFromYear(d.year) + DaysBeforeMonth(d.year, d.month) + d.day - 1
  }

  /** `getUTCDay()`: 0 is Sunday, 6 is Saturday; 1970-01-01 was a Thursday. */
  function Weekday(d: CivilDate): (w: int)
    requires 1 <= d.month <= 12
    ensures 0 <= w < 7
  {
    (DayNumber(d) + 4) % 7
  }

  /** The calendar day after `d`. */
  function NextDay(d: CivilDate): CivilDate
    requires IsValid(d)
  {
    if d.day < DaysInMonth(d.year, d.month) then CivilDate(d.year, d.month, d.day + 1)
    else if d.month < 12 then CivilDate(d.year, d.month + 1, 1)
    else CivilDate(d.year + 1, 1, 1)
  }

  /** The month table and the month lengths agree: each month starts where the
      previous one ends, and December ends where the year does. */
  lemma MonthTableAgreesWithLengths(y: int, m: int)
    requires 1 <= m <= 12
    ensures m < 12 ==> DaysBeforeMonth(y, m + 1) == DaysBeforeMonth(y, m) + DaysInMonth(y, m)
    ensures m == 12 ==> DaysBeforeMonth(y, m) + DaysInMonth(y, m) == DaysInYear(y)
  {
  }

  /** Consecutive new years are a year length apart: the leap-year rule and
      DayFromYear's correction terms agree. */
  lemma YearStep(y: int)
    ensures DayFromYear(y + 1) == DayFromYear(y) + DaysInYear(y)
  {
    LeapTerm4(y);
    LeapTerm100(y);
    LeapTerm400(y);
    DivisibilityChain(y);
  }

  /** Years divisible by 400 are divisible by 100, and those by 4. */
  lemma DivisibilityChain(y: int)
    ensures y % 400 == 0 ==> y % 100 == 0
    ensures y % 100 == 0 ==> y % 4 == 0
  {
    if y % 400 == 0 {
      MultipleOf100(4 * (y / 400), y);
    }
    if y % 100 == 0 {
      MultipleOf4(25 * (y / 100), y);
    }
  }

  lemma MultipleOf100(q: int, y: int)
    requires y == 100 * q
    ensures y % 100 == 0
  {
  }

  lemma MultipleOf4(q: int, y: int)
    requires y == 4 * q
    ensures y % 4 == 0
  {
  }

  /** Each correction term of DayFromYear goes up by one exactly after a year
      divisible by its divisor. */
  lemma LeapTerm4(y: int)
    ensures (y + 1 - 1969) / 4 - (y - 1969) / 4 == if y % 4 == 0 then 1 else 0
  {
    var q, r := (y - 1969) / 4, (y - 1969) % 4;
    assert y == 4 * q + r + 1969;
    if r == 3 {
      assert y + 1 - 1969 == 4 * (q + 1);
    } else {
      assert y + 1 - 1969 == 4 * q + r + 1;
    }
  }

  lemma LeapTerm100(y: int)
    ensures (y + 1 - 1901) / 100 - (y - 1901) / 100 == if y % 100 == 0 then 1 else 0
  {
    var q, r := (y - 1901) / 100, (y - 1901) % 100;
    assert y == 100 * q + r + 1901;
    if r == 99 {
      assert y + 1 - 1901 == 100 * (q + 1);
    } else {
      assert y + 1 - 1901 == 100 * q + r + 1;
    }
  }

  lemma LeapTerm400(y: int)
    ensures (y + 1 - 1601) / 400 - (y - 1601) / 400 == if y % 400 == 0 then 1 else 0
  {
    var q, r := (y - 1601) / 400, (y - 1601) % 400;
    assert y == 400 * q + r + 1601;
    if r == 399 {
      assert y + 1 - 1601 == 400 * (q + 1);
    } else {
      assert y + 1 - 1601 == 400 * q + r + 1;
    }
  }

  /** Adding to a remainder modulo 7 is adding before taking it. */
  lemma Mod7Shift(a: int, k: int)
    ensures (a % 7 + k) % 7 == (a + k) % 7
  {
  }

  /** The day after `d` is valid, has the next day number and the next weekday. */
  lemma NextDayIsNext(d: CivilDate)
    requires IsValid(d)
    ensures IsValid(NextDay(d))
    ensures DayNumber(NextDay(d)) == DayNumber(d) + 1
    ensures Weekday(NextDay(d)) == (Weekday(d) + 1) % 7
  {
    MonthTableAgreesWithLengths(d.year, d.month);
    if d.day == DaysInMonth(d.year, d.month) && d.month == 12 {
      YearStep(d.year);
    }
    Mod7Shift(DayNumber(d) + 4, 1);
  }

  /** Within a month the weekday advances by one per day. */
  lemma WeekdayWithinMonth(y: int, m: int, day: int)
    requires 1 <= m <= 12
    ensures Weekday(CivilDate(y, m, day)) == (Weekday(CivilDate(y, m, 1)) + day - 1) % 7
  {
    var first := DayNumber(CivilDate(y, m, 1));
    assert DayNumber(CivilDate(y, m, day)) == first + day - 1;
    Mod7Shift(first + 4, day - 1);
  }

  /** Where one month's grid ends, the next month's grid begins. */
  lemma NextMonthStartsAfterLastDay(y: int, m: int)
    requires 1 <= m <= 12
    ensures var next := if m < 12 then CivilDate(y, m + 1, 1) else CivilDate(y + 1, 1, 1);
      Weekday(next) == (Weekday(CivilDate(y, m, 1)) + DaysInMonth(y, m)) % 7
  {
    var dim := DaysInMonth(y, m);
    var last := CivilDate(y, m, dim);
    var next := if m < 12 then CivilDate(y, m + 1, 1) else CivilDate(y + 1, 1, 1);
    assert NextDay(last) == next;
    NextDayIsNext(last);
    WeekdayWithinMonth(y, m, dim);
    Mod7Shift(Weekday(CivilDate(y, m, 1)) + dim - 1, 1);
  }

  // ---------------------------------------------------------------------------
  // The ISO 8601 calendar-date format YYYY-MM-DD

  predicate AllDigits(s: string)
  {
    forall i :: 0 <= i < |s| ==> IsDigit(s[i])
  }

  function Pad2(n: nat): (r: string)
    requires n < 100
    ensures |r| == 2 && AllDigits(r)
  {
    [DigitChar(n / 10), DigitChar(n % 10)]
  }

  function Pad4(n: nat): (r: string)
    requires n < 10000
    ensures |r| == 4 && AllDigits(r)
  {
    Pad2(n / 100) + Pad2(n % 100)
  }

  /** The `YYYY-MM-DD` text of a date, as `toISOString` writes its date part. */
  function FormatIsoDate(d: CivilDate): (r: string)
    requires 0 <= d.year <= 9999 && IsValid(d)
    ensures |r| == 10
  {
    Pad4(d.year) + "-" + Pad2(d.month) + "-" + Pad2(d.day)
  }

  /** Reads a `YYYY-MM-DD` date-only string the way `new Date(s)` does; strings
      that are not of that form, or name a month or day that does not exist,
      give `None` (an Invalid Date). */
  function ParseIsoDate(s: string): (r: Option<CivilDate>)
    ensures r.Some? ==> IsValid(r.value) && 0 <= r.value.year <= 9999
  {
    if |s| == 10 && s[4] == '-' && s[7] == '-'
       && AllDigits(s[..4]) && AllDigits(s[5..7]) && AllDigits(s[8..])
    then
      var y, m, d := DecimalValue(s[..4]), DecimalValue(s[5..7]), DecimalValue(s[8..]);
      Pad4Bound(s[..4]);
      if 1 <= m <= 12 && 1 <= d <= DaysInMonth(y, m) then Some(CivilDate(y, m, d)) else None
    else None
  }

  lemma Pad4Bound(s: string)
    requires |s| == 4 && AllDigits(s)
    ensures DecimalValue(s) < 10000
  {
    DecimalValue4(s);
  }

  /** The value of two decimal digits. */
  lemma DecimalValue2(s: string)
    requires |s| == 2 && AllDigits(s)
    ensures DecimalValue(s) == 10 * DigitValue(s[0]) + DigitValue(s[1])
  {
    assert s[..1][..0] == [];
    assert DecimalValue(s[..1]) == DigitValue(s[0]);
  }

  /** The value of four decimal digits. */
  lemma DecimalValue4(s: string)
    requires |s| == 4 && AllDigits(s)
    ensures DecimalValue(s) == 1000 * DigitValue(s[0]) + 100 * DigitValue(s[1])
      + 10 * DigitValue(s[2]) + DigitValue(s[3])
  {
    var s3 := s[..3];
    var s2 := s3[..2];
    DecimalValue2(s2);
    assert DecimalValue(s3) == DecimalValue(s2) * 10 + DigitValue(s[2]);
    assert DecimalValue(s) == DecimalValue(s3) * 10 + DigitValue(s[3]);
  }

  lemma DigitRoundTrip(n: nat)
    requires n < 10
    ensures IsDigit(DigitChar(n)) && DigitValue(DigitChar(n)) == n
  {
  }

  lemma Pad2Value(n: nat)
    requires n < 100
    ensures DecimalValue(Pad2(n)) == n
  {
    DecimalValue2(Pad2(n));
  }

  /** Four digits are two pairs of digits. */
  lemma DecimalValuePairs(s: string)
    requires |s| == 4 && AllDigits(s)
    ensures DecimalValue(s) == 100 * DecimalValue(s[..2]) + DecimalValue(s[2..])
  {
    DecimalValue4(s);
    DecimalValue2(s[..2]);
    DecimalValue2(s[2..]);
  }

  lemma Pad4Value(n: nat)
    requires n < 10000
    ensures DecimalValue(Pad4(n)) == n
  {
    var s := Pad4(n);
    assert s[..2] == Pad2(n / 100) && s[2..] == Pad2(n % 100);
    DecimalValuePairs(s);
    Pad2Value(n / 100);
    Pad2Value(n % 100);
  }

  lemma Pad2OfValue(s: string)
    requires |s| == 2 && AllDigits(s)
    ensures DecimalValue(s) < 100 && Pad2(DecimalValue(s)) == s
  {
    DecimalValue2(s);
    var r := Pad2(DecimalValue(s));
    assert r[0] == s[0] && r[1] == s[1];
  }

  lemma Pad4OfValue(s: string)
    requires |s| == 4 && AllDigits(s)
    ensures DecimalValue(s) < 10000 && Pad4(DecimalValue(s)) == s
  {
    DecimalValuePairs(s);
    Pad2OfValue(s[..2]);
    Pad2OfValue(s[2..]);
    var hi, lo := DecimalValue(s[..2]), DecimalValue(s[2..]);
    var n := 100 * hi + lo;
    assert n / 100 == hi && n % 100 == lo;
    assert s == s[..2] + s[2..];
  }

  /** Formatting a date and reading it back gives the same date. */
  lemma ParseFormat(d: CivilDate)
    requires 0 <= d.year <= 9999 && IsValid(d)
    ensures ParseIsoDate(FormatIsoDate(d)) == Some(d)
  {
    var s := FormatIsoDate(d);
    assert s[..4] == Pad4(d.year);
    assert s[5..7] == Pad2(d.month);
    assert s[8..] == Pad2(d.day);
    Pad4Value(d.year);
    Pad2Value(d.month);
    Pad2Value(d.day);
  }

  /** A string that reads as a date is exactly that date's `YYYY-MM-DD` text. */
  lemma FormatParse(s: string)
    requires ParseIsoDate(s).Some?
    ensures FormatIsoDate(ParseIsoDate(s).value) == s
  {
    Pad4OfValue(s[..4]);
    Pad2OfValue(s[5..7]);
    Pad2OfValue(s[8..]);
    assert s == s[..4] + "-" + s[5..7] + "-" + s[8..];
  }

  /** `new Date(s).toISOString()` for a date-only string read as UTC midnight. */
  function IsoTimestamp(d: CivilDate): string
    requires 0 <= d.year <= 9999 && IsValid(d)
  {
    FormatIsoDate(d) + ['T'] + "00:00:00.000Z"
  }

  /** `new Date(s).toISOString().split('T')[0]`: the normalised day key of a date
      string; `None` where `toISOString` throws on an Invalid Date. */
  function IsoDayKey(s: string): Option<string>
  {
    match ParseIsoDate(s)
    case Some(d) => Some(Split(IsoTimestamp(d), 'T')[0])
    case None => None
  }

  /** The part of the timestamp before its `T` is the formatted date. */
  lemma DayKeyOfTimestamp(d: CivilDate)
    requires 0 <= d.year <= 9999 && IsValid(d)
    ensures Split(IsoTimestamp(d), 'T')[0] == FormatIsoDate(d)
  {
    var f := FormatIsoDate(d);
    FormatHasNoT(d);
    SplitAtFirst(f, 'T', "00:00:00.000Z");
  }

  lemma FormatHasNoT(d: CivilDate)
    requires 0 <= d.year <= 9999 && IsValid(d)
    ensures 'T' !in FormatIsoDate(d)
  {
    NoTInDigits(Pad4(d.year));
    NoTInDigits(Pad2(d.month));
    NoTInDigits(Pad2(d.day));
  }

  lemma NoTInDigits(s: string)
    requires AllDigits(s)
    ensures 'T' !in s
  {
  }

  /** A well-formed date string is its own day key, and only those have a key. */
  lemma IsoDayKeyOfValid(s: string)
    ensures IsoDayKey(s).Some? <==> ParseIsoDate(s).Some?
    ensures IsoDayKey(s).Some? ==> IsoDayKey(s).value == s
  {
    if ParseIsoDate(s).Some? {
      var d := ParseIsoDate(s).value;
      FormatParse(s);
      DayKeyOfTimestamp(d);
    }
  }

  /** The key of a valid date is that date's formatted text. */
  lemma IsoDayKeyOfDate(d: CivilDate)
    requires 0 <= d.year <= 9999 && IsValid(d)
    ensures IsoDayKey(FormatIsoDate(d)) == Some(FormatIsoDate(d))
  {
    ParseFormat(d);
    IsoDayKeyOfValid(FormatIsoDate(d));
  }

  const ShortWeekdayNames: seq<string> := ["Sun", "Mon", "Tue", "Wed", "Thu", "Fri", "Sat"]
  const LongWeekdayNames: seq<string> :=
    ["Sunday", "Monday", "Tuesday", "Wednesday", "Thursday", "Friday", "Saturday"]

  /** The weekday (0 is Sunday) of a trade date string, if it is a valid date. */
  function WeekdayOfDateString(s: string): (r: Option<int>)
    ensures r.Some? ==> 0 <= r.value < 7
  {
    match ParseIsoDate(s)
    case Some(d) => Some(Weekday(d))
    case None => None
  }

  /** `new Date(s + 'T00:00:00').toLocaleString('en-us', { weekday })` for the
      given list of names; an unreadable date renders as "Invalid Date". */
  function WeekdayLabel(s: string, names: seq<string>): string
    requires |names| == 7
  {
    match WeekdayOfDateString(s)
    case Some(w) => names[w]
    case None => "Invalid Date"
  }
}
