/**
 * Calendar dates as the tracker uses them: a day is identified by its
 * `YYYY-MM-DD` key, abstracted here to the three fields of that key.
 * Months of a key are 1-based (as in the key); the month arguments of
 * `GetDaysInMonth` and `GetDatesForMonth` are 0-based (as in JavaScript's
 * `Date`), and out-of-range months are normalised into neighbouring years
 * the way the `Date` constructor does.
 */
module Dates {
  import opened Wrappers

  /** The fields of a `YYYY-MM-DD` key; `month` is 1..12. */
  datatype DateKey = DateKey(year: int, month: int, day: int)

  /** Gregorian leap years (proleptic, as JavaScript's `Date` computes them). */
  predicate IsLeapYear(year: int) {
    year % 4 == 0 && (year % 100 != 0 || year % 400 == 0)
  }

  /** The number of days of 0-based month `m` of `year`. */
  function MonthLength(year: int, m: int): (n: int)
    requires 0 <= m < 12
    ensures 28 <= n <= 31
    ensures n == 31 <==> m in {0, 2, 4, 6, 7, 9, 11}
    ensures n < 30 <==> m == 1
    ensures m == 1 ==> (n == 29 <==> IsLeapYear(year))
  {
    if m == 1 then (if IsLeapYear(year) then 29 else 28)
    else if m == 3 || m == 5 || m == 8 || m == 10 then 30
    else 31
  }

  /** Sum of the lengths of the 0-based months `0 .. k-1` of `year`. */
  function DaysBeforeMonth(year: int, k: int): int
    requires 0 <= k <= 12
  {
    if k == 0 then 0 else DaysBeforeMonth(year, k - 1) + MonthLength(year, k - 1)
  }

  /** The twelve month lengths add up to the length of the Gregorian year. */
  lemma YearLength(year: int)
    ensures DaysBeforeMonth(year, 12) == if IsLeapYear(year) then 366 else 365
  {
    assert DaysBeforeMonth(year, 1) == DaysBeforeMonth(year, 0) + MonthLength(year, 0);
    assert DaysBeforeMonth(year, 2) == DaysBeforeMonth(year, 1) + MonthLength(year, 1);
    assert DaysBeforeMonth(year, 3) == DaysBeforeMonth(year, 2) + MonthLength(year, 2);
    assert DaysBeforeMonth(year, 4) == DaysBeforeMonth(year, 3) + MonthLength(year, 3);
    assert DaysBeforeMonth(year, 5) == DaysBeforeMonth(year, 4) + MonthLength(year, 4);
    assert DaysBeforeMonth(year, 6) == DaysBeforeMonth(year, 5) + MonthLength(year, 5);
    assert DaysBeforeMonth(year, 7) == DaysBeforeMonth(year, 6) + MonthLength(year, 6);
    assert DaysBeforeMonth(year, 8) == DaysBeforeMonth(year, 7) + MonthLength(year, 7);
    assert DaysBeforeMonth(year, 9) == DaysBeforeMonth(year, 8) + MonthLength(year, 8);
    assert DaysBeforeMonth(year, 10) == DaysBeforeMonth(year, 9) + MonthLength(year, 9);
    assert DaysBeforeMonth(year, 11) == DaysBeforeMonth(year, 10) + MonthLength(year, 10);
    assert DaysBeforeMonth(year, 12) == DaysBeforeMonth(year, 10) + 30 + 31;
  }

  /** A key that names a real calendar day. */
  predicate IsValid(d: DateKey) {
    1 <= d.month <= 12 && 1 <= d.day <= MonthLength(d.year, d.month - 1)
  }

  /**
   * `getDaysInMonth(year, month)`: the day number of "day 0 of the next
   * month", i.e. the length of the month after `Date` has normalised
   * `month` into 0..11 by moving whole years.
   */
  function GetDaysInMonth(year: int, month: int): (n: int)
    ensures 28 <= n <= 31
    ensures 0 <= month < 12 ==> n == MonthLength(year, month)
  {
    MonthLength(year + month / 12, month % 12)
  }

  /** Month `month + 12` of `year` is month `month` of the following year. */
  lemma {:induction false} MonthNormalisation(year: int, month: int)
    ensures GetDaysInMonth(year, month + 12) == GetDaysInMonth(year + 1, month)
    ensures GetDatesForMonth(year, month + 12) == GetDatesForMonth(year + 1, month)
  {
    assert (month + 12) / 12 == month / 12 + 1;
    assert (month + 12) % 12 == month % 12;
  }

  /** The key of day `i + 1` of 0-based month `month` of `year`, normalised. */
  function KeyOfDay(year: int, month: int, i: int): (d: DateKey)
    requires 0 <= i < GetDaysInMonth(year, month)
    ensures IsValid(d) && d.day == i + 1
    ensures d.year == year + month / 12 && d.month == month % 12 + 1
  {
    DateKey(year + month / 12, month % 12 + 1, i + 1)
  }

  /**
   * `getDatesForMonth(year, month)`: the key of every day of the month,
   * a list as long as the month, in ascending order, and every day of
   * that month appears in it.
   */
  function GetDatesForMonth(year: int, month: int): (dates: seq<DateKey>)
    ensures |dates| == GetDaysInMonth(year, month)
    ensures forall i :: 0 <= i < |dates| ==>
              IsValid(dates[i]) && dates[i].day == i + 1
              && dates[i].year == year + month / 12 && dates[i].month == month % 12 + 1
    ensures forall i, j :: 0 <= i < j < |dates| ==> Before(dates[i], dates[j])
  {
    var n := GetDaysInMonth(year, month);
    seq(n, i requires 0 <= i < n => KeyOfDay(year, month, i))
  }

  /** Every day of the month is listed, at the position of its day number. */
  lemma GetDatesForMonthComplete(year: int, month: int, d: DateKey)
    requires IsValid(d) && d.year == year + month / 12 && d.month == month % 12 + 1
    ensures d.day <= |GetDatesForMonth(year, month)| && GetDatesForMonth(year, month)[d.day - 1] == d
  {
  }

  /**
   * Chronological order of two keys: lexicographic on (year, month, day),
   * the order of the zero-padded `YYYY-MM-DD` strings.
   */
  predicate Before(a: DateKey, b: DateKey): (r: bool)
    ensures r ==> a != b
    ensures a.year != b.year ==> (r <==> a.year < b.year)
    ensures a.year == b.year && a.month != b.month ==> (r <==> a.month < b.month)
    ensures a.year == b.year && a.month == b.month ==> (r <==> a.day < b.day)
  {
    a.year < b.year
    || (a.year == b.year && (a.month < b.month || (a.month == b.month && a.day < b.day)))
  }

  /** `Before` is a strict total order. */
  lemma BeforeIsStrictTotalOrder(a: DateKey, b: DateKey, c: DateKey)
    ensures !Before(a, a)
    ensures Before(a, b) ==> !Before(b, a)
    ensures Before(a, b) && Before(b, c) ==> Before(a, c)
    ensures a == b || Before(a, b) || Before(b, a)
  {
  }

  /**
   * `isToday`: the key is the key of the current day; for four-digit years
   * this is exactly `isToday`'s `===` on the two key texts.
   */
  predicate IsToday(date: DateKey, today: DateKey): (r: bool)
    ensures IsFormattable(date) && IsFormattable(today) ==>
              (r <==> FormatKey(date) == FormatKey(today))
  {
    if IsFormattable(date) && IsFormattable(today) then
      FormatKeyInjective(date, today);
      date == today
    else
      date == today
  }

  /** `isFutureDate`: the day comes chronologically after the current day, so it is neither today nor earlier. */
  predicate IsFutureDate(date: DateKey, today: DateKey): (r: bool)
    ensures r <==> date != today && !Before(date, today)
  {
    BeforeIsStrictTotalOrder(date, today, date);
    Before(today, date)
  }

  /** Every day is exactly one of past, today and future. */
  lemma Classification(date: DateKey, today: DateKey)
    ensures IsToday(date, today) ==> !IsFutureDate(date, today) && !Before(date, today)
    ensures IsFutureDate(date, today) ==> !Before(date, today)
    ensures IsToday(date, today) || IsFutureDate(date, today) || Before(date, today)
  {
  }

  // ----- The `YYYY-MM-DD` text of a key -----

  /** A key that `formatDate` writes with a four-digit year. */
  predicate IsFormattable(d: DateKey) {
    0 <= d.year <= 9999 && 1 <= d.month <= 12 && 1 <= d.day <= 31
  }

  function DigitChar(k: int): char
    requires 0 <= k <= 9
  {
    (48 + k) as char
  }

  predicate IsDigitChar(c: char) {
    '0' <= c <= '9'
  }

  function DigitValue(c: char): (k: int)
    requires IsDigitChar(c)
    ensures 0 <= k <= 9 && DigitChar(k) == c
  {
    c as int - 48
  }

  /** The zero-padded key text: four year digits, two month digits, two day digits. */
  function FormatKey(d: DateKey): (s: string)
    requires IsFormattable(d)
    ensures |s| == 10 && s[4] == '-' && s[7] == '-'
  {
    [DigitChar(d.year / 10 / 10 / 10), DigitChar(d.year / 10 / 10 % 10),
     DigitChar(d.year / 10 % 10), DigitChar(d.year % 10), '-',
     DigitChar(d.month / 10), DigitChar(d.month % 10), '-',
     DigitChar(d.day / 10), DigitChar(d.day % 10)]
  }

  /** Reads a `YYYY-MM-DD` text back into its fields. */
  function ParseKey(s: string): Option<DateKey> {
    if |s| == 10 && s[4] == '-' && s[7] == '-'
       && IsDigitChar(s[0]) && IsDigitChar(s[1]) && IsDigitChar(s[2]) && IsDigitChar(s[3])
       && IsDigitChar(s[5]) && IsDigitChar(s[6]) && IsDigitChar(s[8]) && IsDigitChar(s[9])
    then
      Some(DateKey(
        DigitValue(s[0]) * 1000 + DigitValue(s[1]) * 100 + DigitValue(s[2]) * 10 + DigitValue(s[3]),
        DigitValue(s[5]) * 10 + DigitValue(s[6]),
        DigitValue(s[8]) * 10 + DigitValue(s[9])))
    else None
  }

  /** A year of at most four digits is the sum of its digits' place values. */
  lemma FourDigits(y: int)
    requires 0 <= y <= 9999
    ensures (y / 10 / 10 / 10) * 1000 + (y / 10 / 10 % 10) * 100 + (y / 10 % 10) * 10 + y % 10 == y
    ensures 0 <= y / 10 / 10 / 10 <= 9
  {
    var q1 := y / 10;
    var q2 := q1 / 10;
    var q3 := q2 / 10;
    assert y == q1 * 10 + y % 10;
    assert q1 == q2 * 10 + q1 % 10;
    assert q2 == q3 * 10 + q2 % 10;
    assert q1 <= 999 && q2 <= 99 && q3 <= 9;
  }

  /** Reading the key text back gives the key. */
  lemma {:induction false} ParseFormat(d: DateKey)
    requires IsFormattable(d)
    ensures ParseKey(FormatKey(d)) == Some(d)
  {
    FourDigits(d.year);
    var s := FormatKey(d);
    assert DigitValue(s[0]) == d.year / 10 / 10 / 10;
    assert DigitValue(s[1]) == d.year / 10 / 10 % 10;
    assert DigitValue(s[2]) == d.year / 10 % 10;
    assert DigitValue(s[3]) == d.year % 10;
    assert DigitValue(s[5]) == d.month / 10;
    assert DigitValue(s[6]) == d.month % 10;
    assert DigitValue(s[8]) == d.day / 10;
    assert DigitValue(s[9]) == d.day % 10;
  }

  /**
   * Two keys are equal exactly when their texts are: comparing keys is
   * the same as `isToday`'s `===` on date strings.
   */
  lemma {:induction false} FormatKeyInjective(a: DateKey, b: DateKey)
    requires IsFormattable(a) && IsFormattable(b)
    ensures FormatKey(a) == FormatKey(b) <==> a == b
  {
    if FormatKey(a) == FormatKey(b) {
      ParseFormat(a);
      ParseFormat(b);
    }
  }
}
