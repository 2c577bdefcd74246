/** `parseDate`, `diffDate` and `addDate` over `YYYY-MM-DD` strings read as midnight
    at UTC+09:00, with `Date.parse` and the `getUTC*` getters replaced by the
    proleptic Gregorian day count of the Calendar module. */
module JsDate {
  import opened Wrappers
  import opened Calendar
  import opened DateText

  const MsPerDay: int := 86400000
  const MsPerHour: int := 3600000

  /** The largest time value a JavaScript `Date` holds, 8.64e15 ms either side of 1970-01-01. */
  const MaxTime: int := 8640000000000000

  /** `MaxTime` in whole days. */
  const MaxDays: int := 100000000

  /** The day number (days since 1970-01-01) of the date a well-formed string names. */
  function DayNumber(s: string): int
    requires WellFormed(s)
  {
    DaysFromCivil(ParseCivil(s))
  }

  /** The day a string's day number counts to is the date the string names, so
      `Date.parse` reads the year, month and day of the string and nothing else. */
  lemma DayNumberDate(s: string)
    requires WellFormed(s)
    ensures CivilFromDays(DayNumber(s)) == ParseCivil(s)
  {
    CivilRoundTrip(ParseCivil(s));
  }

  lemma DivModDay(q: int, r: int)
    requires 0 <= r < MsPerDay
    ensures (q * MsPerDay + r) / MsPerDay == q && (q * MsPerDay + r) % MsPerDay == r
  {
  }

  /** `parseDate(str)`: the time value of `${str}T00:00+09:00`, in milliseconds. */
  function ParseDate(s: string): (ms: int)
    requires WellFormed(s)
    ensures (ms + 9 * MsPerHour) % MsPerDay == 0
    ensures (ms + 9 * MsPerHour) / MsPerDay == DayNumber(s)
  {
    DivModDay(DayNumber(s), 0);
    DayNumber(s) * MsPerDay - 9 * MsPerHour
  }

  /** The time value `parseDate` returns is midnight, UTC+09:00, of the date the string names. */
  lemma ParseDateMidnight(s: string)
    requires WellFormed(s)
    ensures CivilFromDays((ParseDate(s) + 9 * MsPerHour) / MsPerDay) == ParseCivil(s)
  {
    CivilRoundTrip(ParseCivil(s));
  }

  /** `diffDate({start, end})`: the millisecond difference divided by a day's length. */
  function DiffDate(start: string, end: string): (n: int)
    requires WellFormed(start) && WellFormed(end)
    ensures n == DayNumber(end) - DayNumber(start)
    ensures n * MsPerDay == ParseDate(end) - ParseDate(start)
  {
    DivModDay(DayNumber(end) - DayNumber(start), 0);
    (ParseDate(end) - ParseDate(start)) / MsPerDay
  }

  /** `new Date(t)` followed by the `${yyyy}-${mm}-${dd}` template of `addDate`.
      Beyond `MaxTime` the date is invalid, every getter yields NaN, and
      `padZero(NaN, 2)` asks `repeat` for a count of -1, which throws with the
      message V8 gives. */
  function FormatUtc(t: int): (r: Result<string>)
    ensures r.Success? <==> -MaxTime <= t <= MaxTime
  {
    if t < -MaxTime || t > MaxTime then Failure("RangeError: Invalid count value: -1")
    else FormatCivil(CivilFromDays(t / MsPerDay))
  }

  /** `addDate(date, diff)`: the date `diff` days after `date`, as text. */
  function AddDate(date: string, diff: int): (r: Result<string>)
    requires WellFormed(date)
    ensures r.Success? <==> -MaxDays <= DayNumber(date) + diff <= MaxDays
  {
    FormatUtc(ParseDate(date) + diff * MsPerDay + 9 * MsPerHour)
  }

  /** Day numbers of 1000-01-01 and 9999-12-31. */
  const FirstSupportedDay: int := -354285
  const LastSupportedDay: int := 2932896

  /** A day from 1000-01-01 to 9999-12-31: a year of exactly four digits, which
      `addDate` writes as a string `parseDate` reads back. */
  predicate Supported(n: int)
  {
    FirstSupportedDay <= n <= LastSupportedDay
  }

  /** `Supported` is exactly "the year has four digits". */
  lemma SupportedYear(n: int)
    ensures Supported(n) <==> 1000 <= CivilFromDays(n).year <= 9999
  {
    assert YearStart(1000) == FirstSupportedDay;
    assert YearStart(10000) == LastSupportedDay + 1;
    YearRange(CivilFromDays(n), 1000, 9999);
  }

  /** The time value `addDate` builds is midnight UTC of the target day. */
  lemma AddDateTime(date: string, diff: int)
    requires WellFormed(date)
    ensures var t := ParseDate(date) + diff * MsPerDay + 9 * MsPerHour;
      t == (DayNumber(date) + diff) * MsPerDay && t / MsPerDay == DayNumber(date) + diff
  {
    DivModDay(DayNumber(date) + diff, 0);
  }

  /** The template writes a day of a four-digit year as a well-formed string on that day. */
  lemma FormatDay(n: int)
    requires Supported(n)
    ensures FormatCivil(CivilFromDays(n)).Success?
    ensures WellFormed(FormatCivil(CivilFromDays(n)).value)
    ensures DayNumber(FormatCivil(CivilFromDays(n)).value) == n
  {
    SupportedYear(n);
    FormatWellFormed(CivilFromDays(n));
  }

  /** A time value on a supported day is written as a well-formed string on that day. */
  lemma FormatUtcDay(t: int)
    requires -MaxTime <= t <= MaxTime && Supported(t / MsPerDay)
    ensures FormatUtc(t).Success?
    ensures WellFormed(FormatUtc(t).value) && DayNumber(FormatUtc(t).value) == t / MsPerDay
  {
    FormatDay(t / MsPerDay);
  }

  /** `addDate` lands on the day `diff` days later and writes it well-formed,
      whenever that day's year has four digits. */
  lemma AddDateRoundTrip(date: string, diff: int)
    requires WellFormed(date) && Supported(DayNumber(date) + diff)
    ensures AddDate(date, diff).Success?
    ensures WellFormed(AddDate(date, diff).value)
    ensures DayNumber(AddDate(date, diff).value) == DayNumber(date) + diff
  {
    AddDateTime(date, diff);
    FormatUtcDay(ParseDate(date) + diff * MsPerDay + 9 * MsPerHour);
  }

  /** `addDate` where its result is read back: the date `diff` days later. */
  function ShiftDate(date: string, diff: int): (r: string)
    requires WellFormed(date) && Supported(DayNumber(date) + diff)
    ensures WellFormed(r) && DayNumber(r) == DayNumber(date) + diff
    ensures AddDate(date, diff) == Success(r)
  {
    AddDateRoundTrip(date, diff);
    AddDate(date, diff).value
  }

  /** Two well-formed strings on the same day are the same string. */
  lemma SameDaySameString(a: string, b: string)
    requires WellFormed(a) && WellFormed(b) && DayNumber(a) == DayNumber(b)
    ensures a == b
  {
    DaysFromCivilInjective(ParseCivil(a), ParseCivil(b));
    ParseInjective(a, b);
  }

  /** Adding no days writes the date back unchanged. */
  lemma AddDateZero(date: string)
    requires WellFormed(date) && ParseCivil(date).year >= 1000
    ensures AddDate(date, 0) == Success(date)
  {
    CivilRoundTrip(ParseCivil(date));
    SupportedYear(DayNumber(date));
    AddDateRoundTrip(date, 0);
    SameDaySameString(AddDate(date, 0).value, date);
  }

  /** `diffDate` undoes `addDate`. */
  lemma DiffAddDate(date: string, diff: int)
    requires WellFormed(date) && Supported(DayNumber(date) + diff)
    ensures AddDate(date, diff).Success? && WellFormed(AddDate(date, diff).value)
    ensures DiffDate(date, AddDate(date, diff).value) == diff
  {
    AddDateRoundTrip(date, diff);
  }

  /** `addDate` depends only on the target day, not on how it is reached. */
  lemma AddDateSameDay(x: string, n: int, y: string, m: int)
    requires WellFormed(x) && WellFormed(y)
    requires DayNumber(x) + n == DayNumber(y) + m
    ensures AddDate(x, n) == AddDate(y, m)
  {
    TimeValue(x, n);
    TimeValue(y, m);
  }

  /** The time value `addDate` builds is midnight UTC of the target day. */
  lemma TimeValue(date: string, diff: int)
    requires WellFormed(date)
    ensures ParseDate(date) + diff * MsPerDay + 9 * MsPerHour == (DayNumber(date) + diff) * MsPerDay
  {
  }
}
