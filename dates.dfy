/**
 * The calendar-day filter of the transaction listing: `getTime` appends
 * "T00:00:00Z" to the requested day and parses it as an RFC 3339 timestamp,
 * so it accepts exactly the `full-date` production of section 5.6 of
 * RFC 3339 (four-digit year, two-digit month and day, a day that exists in
 * that month) and yields midnight UTC of that day, in Unix seconds.
 */
module Dates {
  import opened Common

  datatype Date = Date(year: int, month: int, day: int)

  predicate IsLeapYear(y: int) {
    y % 4 == 0 && (y % 100 != 0 || y % 400 == 0)
  }

  function DaysInMonth(month: int, year: int): int
    requires 1 <= month <= 12
  {
    if month == 2 then (if IsLeapYear(year) then 29 else 28)
    else if month == 4 || month == 6 || month == 9 || month == 11 then 30
    else 31
  }

  /** A day `time.Parse` accepts in a four-digit year. */
  predicate ValidDate(d: Date) {
    0 <= d.year <= 9999 && 1 <= d.month <= 12 && 1 <= d.day <= DaysInMonth(d.month, d.year)
  }

  function DigitValue(c: char): int
    requires IsDigit(c)
  {
    c as int - '0' as int
  }

  predicate DigitsAt(s: string, lo: int, hi: int)
    requires 0 <= lo <= hi <= |s|
  {
    forall i :: lo <= i < hi ==> IsDigit(s[i])
  }

  /** The "YYYY-MM-DD" shape, before any range check. */
  predicate FullDateShape(s: string) {
    |s| == 10 && DigitsAt(s, 0, 4) && s[4] == '-' && DigitsAt(s, 5, 7) && s[7] == '-' && DigitsAt(s, 8, 10)
  }

  function DateOfShape(s: string): Date
    requires FullDateShape(s)
  {
    Date(DigitValue(s[0]) * 1000 + DigitValue(s[1]) * 100 + DigitValue(s[2]) * 10 + DigitValue(s[3]),
         DigitValue(s[5]) * 10 + DigitValue(s[6]),
         DigitValue(s[8]) * 10 + DigitValue(s[9]))
  }

  /** The day a `full-date` string names, if it names one. */
  function ParseFullDate(s: string): (r: Option<Date>)
    ensures r.Some? ==> ValidDate(r.value)
  {
    if FullDateShape(s) && ValidDate(DateOfShape(s)) then Some(DateOfShape(s)) else None
  }

  function FormatFullDate(d: Date): (s: string)
    requires ValidDate(d)
    ensures FullDateShape(s)
  {
    [DigitChar(d.year / 1000), DigitChar((d.year / 100) % 10), DigitChar((d.year / 10) % 10),
     DigitChar(d.year % 10), '-', DigitChar(d.month / 10), DigitChar(d.month % 10), '-',
     DigitChar(d.day / 10), DigitChar(d.day % 10)]
  }

  lemma FourDigits(y: int)
    requires 0 <= y <= 9999
    ensures (y / 1000) * 1000 + ((y / 100) % 10) * 100 + ((y / 10) % 10) * 10 + y % 10 == y
    ensures y / 1000 < 10
  {
    assert y == (y / 10) * 10 + y % 10;
    assert (y / 10) / 10 == y / 100;
    assert y / 10 == (y / 100) * 10 + (y / 10) % 10;
    assert (y / 100) / 10 == y / 1000;
    assert y / 100 == (y / 1000) * 10 + (y / 100) % 10;
  }

  lemma DigitsOfFour(a: int, b: int, c: int, e: int)
    requires 0 <= a < 10 && 0 <= b < 10 && 0 <= c < 10 && 0 <= e < 10
    ensures var y := a * 1000 + b * 100 + c * 10 + e;
      y / 1000 == a && (y / 100) % 10 == b && (y / 10) % 10 == c && y % 10 == e
  {
    var y := a * 1000 + b * 100 + c * 10 + e;
    assert y / 10 == a * 100 + b * 10 + c;
    assert y / 100 == a * 10 + b;
  }

  /** Every valid day has exactly one `full-date` spelling: formatting then
      parsing gives the day back ... */
  lemma ParseFormat(d: Date)
    requires ValidDate(d)
    ensures ParseFullDate(FormatFullDate(d)) == Some(d)
  {
    var s := FormatFullDate(d);
    FourDigits(d.year);
    assert DigitValue(s[0]) == d.year / 1000;
    assert DigitValue(s[1]) == (d.year / 100) % 10;
    assert DigitValue(s[2]) == (d.year / 10) % 10;
    assert DigitValue(s[3]) == d.year % 10;
    assert DigitValue(s[5]) * 10 + DigitValue(s[6]) == d.month;
    assert DigitValue(s[8]) * 10 + DigitValue(s[9]) == d.day;
    assert DateOfShape(s) == d;
  }

  /** ... and parsing then formatting gives the string back. */
  lemma FormatParse(s: string)
    requires ParseFullDate(s).Some?
    ensures FormatFullDate(ParseFullDate(s).value) == s
  {
    var d := DateOfShape(s);
    DigitsOfFour(DigitValue(s[0]), DigitValue(s[1]), DigitValue(s[2]), DigitValue(s[3]));
    var t := FormatFullDate(d);
    assert t[0] == s[0] && t[1] == s[1] && t[2] == s[2] && t[3] == s[3];
    assert t[5] == s[5] && t[6] == s[6] && t[8] == s[8] && t[9] == s[9];
    assert forall i :: 0 <= i < 10 ==> t[i] == s[i];
  }

  /** Days from 1970-01-01 to March 1 of year `y` in the proleptic
      Gregorian calendar, counting in 400-year eras of 146097 days. */
  function MarchFirst(y: int): int {
    var era := y / 400;
    var yoe := y - era * 400;
    era * 146097 + yoe * 365 + yoe / 4 - yoe / 100 - 719468
  }

  /** Days from March 1 to the first of the month `mp` months later. */
  function DaysBeforeMonth(mp: int): int
    requires 0 <= mp < 12
  {
    (153 * mp + 2) / 5
  }

  /** Days from 1970-01-01 to `d` (the civil-from-days algorithm run
      backwards): years start on March 1, so January and February count
      in the year before. */
  function DaysFromCivil(d: Date): int
    requires ValidDate(d)
  {
    var y := if d.month <= 2 then d.year - 1 else d.year;
    var mp := if d.month > 2 then d.month - 3 else d.month + 9;
    MarchFirst(y) + DaysBeforeMonth(mp) + d.day - 1
  }

  /** The day after `d`. */
  function NextDay(d: Date): (n: Date)
    requires ValidDate(d) && d != Date(9999, 12, 31)
    ensures ValidDate(n)
  {
    if d.day < DaysInMonth(d.month, d.year) then d.(day := d.day + 1)
    else if d.month < 12 then Date(d.year, d.month + 1, 1)
    else Date(d.year + 1, 1, 1)
  }

  lemma MarchFirstOfEra(y: int, era: int, yoe: int)
    requires y == era * 400 + yoe && 0 <= yoe < 400
    ensures MarchFirst(y) == era * 146097 + yoe * 365 + yoe / 4 - yoe / 100 - 719468
  {
    assert y / 400 == era;
  }

  /** Whole eras do not change a year's remainders by 4, 100 and 400. */
  lemma EraRemainders(y: int, era: int, n: int)
    requires y == era * 400 + n
    ensures y % 4 == n % 4 && y % 100 == n % 100 && y % 400 == n % 400
  {
    RemainderBy4(y, era * 100, n);
    RemainderBy100(y, era * 4, n);
    RemainderBy400(y, era, n);
  }

  lemma RemainderBy4(y: int, q: int, n: int)
    requires y == 4 * q + n
    ensures y % 4 == n % 4
  {
    assert y == 4 * (q + n / 4) + n % 4;
  }

  lemma RemainderBy100(y: int, q: int, n: int)
    requires y == 100 * q + n
    ensures y % 100 == n % 100
  {
    assert y == 100 * (q + n / 100) + n % 100;
  }

  lemma RemainderBy400(y: int, q: int, n: int)
    requires y == 400 * q + n
    ensures y % 400 == n % 400
  {
    assert y == 400 * (q + n / 400) + n % 400;
  }

  /** Leap days counted up to a year of an era grow by one at each year
      divisible by 4, except at each one divisible by 100. */
  lemma LeapDaysStep(yoe: int)
    requires 0 <= yoe < 399
    ensures (yoe + 1) / 4 - yoe / 4 == (if (yoe + 1) % 4 == 0 then 1 else 0)
    ensures (yoe + 1) / 100 - yoe / 100 == (if (yoe + 1) % 100 == 0 then 1 else 0)
  {
  }

  lemma LeapInEra(y: int, era: int, n: int)
    requires y == era * 400 + n && 1 <= n <= 400
    ensures IsLeapYear(y) <==> n % 4 == 0 && (n % 100 != 0 || n == 400)
  {
    EraRemainders(y, era, n);
  }

  /** The year from March 1 of `y` to March 1 of `y + 1` has 366 days
      exactly when its February is a leap one. */
  lemma MarchFirstStep(y: int)
    ensures MarchFirst(y + 1) == MarchFirst(y) + 365 + (if IsLeapYear(y + 1) then 1 else 0)
  {
    var era, yoe := y / 400, y % 400;
    MarchFirstOfEra(y, era, yoe);
    LeapInEra(y + 1, era, yoe + 1);
    if yoe == 399 {
      MarchFirstOfEra(y + 1, era + 1, 0);
    } else {
      MarchFirstOfEra(y + 1, era, yoe + 1);
      LeapDaysStep(yoe);
    }
    YearLength(MarchFirst(y), MarchFirst(y + 1), era, yoe, IsLeapYear(y + 1));
  }

  /** The arithmetic of `MarchFirstStep`, away from the divisions that
      define the era and the year of era. */
  lemma YearLength(before: int, after: int, era: int, yoe: int, leap: bool)
    requires 0 <= yoe < 400
    requires before == era * 146097 + yoe * 365 + yoe / 4 - yoe / 100 - 719468
    requires yoe == 399 ==> after == (era + 1) * 146097 - 719468 && leap
    requires yoe < 399 ==>
      && after == era * 146097 + (yoe + 1) * 365 + (yoe + 1) / 4 - (yoe + 1) / 100 - 719468
      && (yoe + 1) / 4 - yoe / 4 == (if (yoe + 1) % 4 == 0 then 1 else 0)
      && (yoe + 1) / 100 - yoe / 100 == (if (yoe + 1) % 100 == 0 then 1 else 0)
      && (leap <==> (yoe + 1) % 4 == 0 && (yoe + 1) % 100 != 0)
    ensures after == before + 365 + (if leap then 1 else 0)
  {
  }

  /** Consecutive days are one day apart. */
  lemma NextDayStep(d: Date)
    requires ValidDate(d) && d != Date(9999, 12, 31)
    ensures DaysFromCivil(NextDay(d)) == DaysFromCivil(d) + 1
  {
    if d.day == DaysInMonth(d.month, d.year) {
      if d.month == 2 {
        MarchFirstStep(d.year - 1);
      } else if d.month == 12 {
        assert DaysBeforeMonth(9) == 275 && DaysBeforeMonth(10) == 306;
      } else {
        var mp := if d.month > 2 then d.month - 3 else d.month + 9;
        assert DaysBeforeMonth(mp + 1) == DaysBeforeMonth(mp) + DaysInMonth(d.month, d.year);
      }
    }
  }

  const SecondsPerDay: int := 86400

  /** `getTime`: midnight UTC of the requested day, or the InvalidArgument
      error "failed to parse date to time". */
  function GetTime(dateStr: string): (r: Result<int>)
    ensures r.Success? <==> ParseFullDate(dateStr).Some?
    ensures r.Failure? ==> r.error == InvalidArgument("failed to parse date to time")
    ensures r.Success? ==> r.value % SecondsPerDay == 0
    ensures r.Success? ==> r.value == SecondsPerDay * DaysFromCivil(ParseFullDate(dateStr).value)
  {
    match ParseFullDate(dateStr)
    case None => Failure(InvalidArgument("failed to parse date to time"))
    case Some(d) => Success(SecondsPerDay * DaysFromCivil(d))
  }

  lemma UnixEpochIsDayZero()
    ensures GetTime("1970-01-01") == Success(0)
  {
    var s := "1970-01-01";
    assert s[0] == '1' && s[1] == '9' && s[2] == '7' && s[3] == '0' && s[4] == '-';
    assert s[5] == '0' && s[6] == '1' && s[7] == '-' && s[8] == '0' && s[9] == '1';
    assert FullDateShape(s);
    var d := Date(1970, 1, 1);
    assert DateOfShape(s) == d;
    assert ValidDate(d);
    assert MarchFirst(1969) == 4 * 146097 + 369 * 365 + 92 - 3 - 719468;
    assert DaysFromCivil(d) == MarchFirst(1969) + DaysBeforeMonth(10) == 0;
  }
}
