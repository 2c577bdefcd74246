/**
 * The proleptic Gregorian calendar behind JavaScript's `Date`: conversion
 * between a civil date (year, month, day) and a day number counted from the
 * Unix epoch (1970-01-01 is day 0).  Days are grouped into 400-year cycles
 * of 146097 days, each starting on January 1st of a year 400 * c + 1.
 */
module Calendar {

  datatype Civil = Civil(year: int, month: int, day: int)

  /** Days from 0001-01-01 to 1970-01-01. */
  const EpochDays: int := 719162

  /** Days in one 400-year cycle. */
  const DaysPerCycle: int := 146097

  predicate IsLeapYear(y: int) {
    y % 4 == 0 && (y % 100 != 0 || y % 400 == 0)
  }

  function DaysInYear(y: int): int {
    if IsLeapYear(y) then 366 else 365
  }

  function DaysInMonth(y: int, m: int): (n: int)
    requires 1 <= m <= 12
    ensures 28 <= n <= 31
    ensures n == 29 <==> m == 2 && IsLeapYear(y)
  {
    if m == 2 then (if IsLeapYear(y) then 29 else 28)
    else if m == 4 || m == 6 || m == 9 || m == 11 then 30
    else 31
  }

  /** A real calendar date: the month exists and the day exists in that month. */
  predicate ValidCivil(c: Civil) {
    1 <= c.month <= 12 && 1 <= c.day <= DaysInMonth(c.year, c.month)
  }

  /** Days of year `y` before the first of month `m`; month 13 stands for the next year. */
  function DaysBeforeMonth(y: int, m: int): (n: int)
    requires 1 <= m <= 13
    ensures m == 13 ==> n == DaysInYear(y)
  {
    var common :=
      if m == 1 then 0 else if m == 2 then 31 else if m == 3 then 59
      else if m == 4 then 90 else if m == 5 then 120 else if m == 6 then 151
      else if m == 7 then 181 else if m == 8 then 212 else if m == 9 then 243
      else if m == 10 then 273 else if m == 11 then 304 else if m == 12 then 334
      else 365;
    if m > 2 && IsLeapYear(y) then common + 1 else common
  }

  lemma DaysBeforeMonthStep(y: int, m: int)
    requires 1 <= m <= 12
    ensures DaysBeforeMonth(y, m) + DaysInMonth(y, m) == DaysBeforeMonth(y, m + 1)
  {
  }

  /** Days from the start of a cycle to the start of its year `k` (0 <= k <= 400). */
  function DaysBeforeYearInCycle(k: int): int
    requires 0 <= k <= 400
  {
    365 * k + k / 4 - k / 100 + k / 400
  }

  /** Year `k` of cycle `c` is the civil year 400 * c + k + 1, and its length is a step of the table. */
  lemma {:induction false} CycleYearLength(c: int, k: int)
    requires 0 <= k < 400
    ensures DaysBeforeYearInCycle(k + 1) - DaysBeforeYearInCycle(k) == DaysInYear(400 * c + k + 1)
  {
    var j := k + 1;
    ShiftedMod(c, j);
    FloorStep4(k);
    FloorStep100(k);
    FloorStep400(k);
  }

  lemma ShiftedMod(c: int, j: int)
    ensures (400 * c + j) % 4 == j % 4
    ensures (400 * c + j) % 100 == j % 100
    ensures (400 * c + j) % 400 == j % 400
  {
    ShiftedMod4(c, j);
    ShiftedMod100(c, j);
    ShiftedMod400(c, j);
  }

  lemma ShiftedMod4(c: int, j: int)
    ensures (400 * c + j) % 4 == j % 4
  {
    DivMod4(100 * c + j / 4, j % 4);
  }

  lemma DivMod4(q: int, r: int)
    requires 0 <= r < 4
    ensures (4 * q + r) / 4 == q && (4 * q + r) % 4 == r
  {
  }

  lemma DivMod400(q: int, r: int)
    requires 0 <= r < 400
    ensures (400 * q + r) / 400 == q && (400 * q + r) % 400 == r
  {
  }

  lemma DivModCycle(q: int, r: int)
    requires 0 <= r < DaysPerCycle
    ensures (DaysPerCycle * q + r) / DaysPerCycle == q && (DaysPerCycle * q + r) % DaysPerCycle == r
  {
  }

  lemma ShiftedMod100(c: int, j: int)
    ensures (400 * c + j) % 100 == j % 100
  {
  }

  lemma ShiftedMod400(c: int, j: int)
    ensures (400 * c + j) % 400 == j % 400
  {
  }

  lemma FloorStep4(k: int)
    ensures (k + 1) / 4 - k / 4 == if (k + 1) % 4 == 0 then 1 else 0
  {
  }

  lemma FloorStep100(k: int)
    ensures (k + 1) / 100 - k / 100 == if (k + 1) % 100 == 0 then 1 else 0
  {
  }

  lemma FloorStep400(k: int)
    ensures (k + 1) / 400 - k / 400 == if (k + 1) % 400 == 0 then 1 else 0
  {
  }

  lemma {:induction false} CycleMonotone(a: int, b: int)
    requires 0 <= a <= b <= 400
    ensures DaysBeforeYearInCycle(b) - DaysBeforeYearInCycle(a) >= 365 * (b - a)
    decreases b - a
  {
    if a < b {
      CycleMonotone(a, b - 1);
      CycleYearLength(0, b - 1);
    }
  }

  /** The day number of a civil date. */
  function DaysFromCivil(c: Civil): int
    requires 1 <= c.month <= 12
  {
    var cycle := (c.year - 1) / 400;
    var k := (c.year - 1) % 400;
    DaysPerCycle * cycle + DaysBeforeYearInCycle(k) + DaysBeforeMonth(c.year, c.month) + c.day - 1 - EpochDays
  }

  /** The year of a cycle that holds day `r` of the cycle, searched from year `k` on. */
  function YearInCycle(r: int, k: int): (y: int)
    requires 0 <= k < 400 && DaysBeforeYearInCycle(k) <= r < DaysPerCycle
    ensures k <= y < 400
    ensures DaysBeforeYearInCycle(y) <= r < DaysBeforeYearInCycle(y + 1)
    decreases 400 - k
  {
    if r < DaysBeforeYearInCycle(k + 1) then k else YearInCycle(r, k + 1)
  }

  /** The month of year `y` that holds day `r` of the year, searched from month `m` on. */
  function MonthInYear(y: int, r: int, m: int): (mo: int)
    requires 1 <= m <= 12 && DaysBeforeMonth(y, m) <= r < DaysInYear(y)
    ensures m <= mo <= 12
    ensures DaysBeforeMonth(y, mo) <= r < DaysBeforeMonth(y, mo + 1)
    decreases 12 - m
  {
    if r < DaysBeforeMonth(y, m + 1) then m else MonthInYear(y, r, m + 1)
  }

  /** The civil date of a day number: a valid date whose day number is `n`. */
  function CivilFromDays(n: int): (c: Civil)
    ensures ValidCivil(c) && DaysFromCivil(c) == n
  {
    var z := n + EpochDays;
    CivilInCycleDays(z / DaysPerCycle, z % DaysPerCycle);
    CivilInCycle(z / DaysPerCycle, z % DaysPerCycle)
  }

  /** The civil date of day `r` (counted from 0) of cycle `cycle`. */
  function CivilInCycle(cycle: int, r: int): (c: Civil)
    requires 0 <= r < DaysPerCycle
    ensures ValidCivil(c)
  {
    var k := YearInCycle(r, 0);
    var y := 400 * cycle + k + 1;
    var rem := r - DaysBeforeYearInCycle(k);
    InYearBound(cycle, r, k, y, rem);
    DateInYear(y, rem)
  }

  /** The date of day `r` of a cycle lies in year `k` of the cycle, on day `r - DaysBeforeYearInCycle(k)` of that year. */
  lemma CivilInCycleFacts(cycle: int, r: int) returns (k: int)
    requires 0 <= r < DaysPerCycle
    ensures k == YearInCycle(r, 0)
    ensures CivilInCycle(cycle, r).year == 400 * cycle + k + 1
    ensures var c := CivilInCycle(cycle, r);
            DaysBeforeMonth(c.year, c.month) + c.day - 1 == r - DaysBeforeYearInCycle(k)
  {
    k := YearInCycle(r, 0);
    var y := 400 * cycle + k + 1;
    var rem := r - DaysBeforeYearInCycle(k);
    InYearBound(cycle, r, k, y, rem);
    var c := DateInYear(y, rem);
    assert CivilInCycle(cycle, r) == c;
    assert c.year == y;
  }

  /** The civil date of day `rem` (counted from 0) of year `y`. */
  function DateInYear(y: int, rem: int): (c: Civil)
    requires 0 <= rem < DaysInYear(y)
    ensures ValidCivil(c) && c.year == y
    ensures DaysBeforeMonth(y, c.month) + c.day - 1 == rem
  {
    var m := MonthInYear(y, rem, 1);
    DaysBeforeMonthStep(y, m);
    Civil(y, m, rem - DaysBeforeMonth(y, m) + 1)
  }

  /** Day `r` of a cycle falls inside year `k` of the cycle, which is calendar year `y`. */
  lemma InYearBound(cycle: int, r: int, k: int, y: int, rem: int)
    requires 0 <= r < DaysPerCycle && k == YearInCycle(r, 0)
    requires y == 400 * cycle + k + 1 && rem == r - DaysBeforeYearInCycle(k)
    ensures 0 <= rem < DaysInYear(y)
  {
    assert DaysBeforeYearInCycle(k) <= r < DaysBeforeYearInCycle(k + 1);
    CycleYearLength(cycle, k);
    assert DaysBeforeYearInCycle(k + 1) - DaysBeforeYearInCycle(k) == DaysInYear(y);
  }

  lemma CivilInCycleDays(cycle: int, r: int)
    requires 0 <= r < DaysPerCycle
    ensures DaysFromCivil(CivilInCycle(cycle, r)) == DaysPerCycle * cycle + r - EpochDays
  {
    var k := CivilInCycleFacts(cycle, r);
    var c := CivilInCycle(cycle, r);
    assert (c.year - 1) / 400 == cycle && (c.year - 1) % 400 == k by { DivMod400(cycle, k); }
    DaysFromCivilOf(c, cycle, k);
  }

  /** The day number of a valid date, given its cycle and its year within the cycle. */
  lemma DaysFromCivilOf(c: Civil, cycle: int, k: int)
    requires 1 <= c.month <= 12
    requires (c.year - 1) / 400 == cycle && (c.year - 1) % 400 == k
    ensures DaysFromCivil(c)
            == DaysPerCycle * cycle + DaysBeforeYearInCycle(k) + DaysBeforeMonth(c.year, c.month) + c.day - 1 - EpochDays
  {
  }

  lemma {:induction false} YearInCycleFinds(r: int, k0: int, k: int)
    requires 0 <= k0 <= k < 400
    requires DaysBeforeYearInCycle(k0) <= r
    requires DaysBeforeYearInCycle(k) <= r < DaysBeforeYearInCycle(k + 1)
    ensures YearInCycle(r, k0) == k
    decreases k - k0
  {
    if k0 < k {
      CycleMonotone(k0 + 1, k);
      YearInCycleFinds(r, k0 + 1, k);
    }
  }

  lemma {:induction false} MonthsMonotone(y: int, a: int, b: int)
    requires 1 <= a <= b <= 13
    ensures DaysBeforeMonth(y, a) + 28 * (b - a) <= DaysBeforeMonth(y, b)
    decreases b - a
  {
    if a < b {
      MonthsMonotone(y, a, b - 1);
      DaysBeforeMonthStep(y, b - 1);
    }
  }

  /** Two valid dates of one year on the same day of that year are the same date. */
  lemma SameDayOfYear(a: Civil, b: Civil)
    requires ValidCivil(a) && ValidCivil(b) && a.year == b.year
    requires DaysBeforeMonth(a.year, a.month) + a.day == DaysBeforeMonth(b.year, b.month) + b.day
    ensures a == b
  {
    if a.month < b.month {
      DaysBeforeMonthStep(a.year, a.month);
      MonthsMonotone(a.year, a.month + 1, b.month);
    } else if b.month < a.month {
      DaysBeforeMonthStep(b.year, b.month);
      MonthsMonotone(b.year, b.month + 1, a.month);
    }
  }

  /** Where the day number of a valid date falls: its cycle, its year within the cycle and its day within the year. */
  lemma CivilPosition(c: Civil) returns (cycle: int, k: int, inYear: int)
    requires ValidCivil(c)
    ensures 0 <= k < 400 && c.year == 400 * cycle + k + 1
    ensures (DaysFromCivil(c) + EpochDays) / DaysPerCycle == cycle
    ensures (DaysFromCivil(c) + EpochDays) % DaysPerCycle == DaysBeforeYearInCycle(k) + inYear
    ensures 0 <= inYear && DaysBeforeYearInCycle(k) + inYear < DaysBeforeYearInCycle(k + 1)
    ensures inYear == DaysBeforeMonth(c.year, c.month) + c.day - 1
  {
    cycle := (c.year - 1) / 400;
    k := (c.year - 1) % 400;
    CycleYearLength(cycle, k);
    inYear := DaysBeforeMonth(c.year, c.month) + c.day - 1;
    DaysBeforeMonthStep(c.year, c.month);
    assert inYear < DaysBeforeMonth(c.year, c.month + 1) <= DaysInYear(c.year);
    var r := DaysBeforeYearInCycle(k) + inYear;
    CycleMonotone(k + 1, 400);
    DaysFromCivilOf(c, cycle, k);
    DivModCycle(cycle, r);
  }

  /** Converting a valid date to its day number and back gives the same date. */
  lemma {:induction false} CivilRoundTrip(c: Civil)
    requires ValidCivil(c)
    ensures CivilFromDays(DaysFromCivil(c)) == c
  {
    var cycle, k, inYear := CivilPosition(c);
    var r := DaysBeforeYearInCycle(k) + inYear;
    CycleMonotone(k + 1, 400);
    YearInCycleFinds(r, 0, k);
    var k' := CivilInCycleFacts(cycle, r);
    CivilFromDaysIn(DaysFromCivil(c), cycle, r);
    SameDayOfYear(CivilInCycle(cycle, r), c);
  }

  lemma CivilFromDaysIn(n: int, cycle: int, r: int)
    requires 0 <= r < DaysPerCycle
    requires (n + EpochDays) / DaysPerCycle == cycle && (n + EpochDays) % DaysPerCycle == r
    ensures CivilFromDays(n) == CivilInCycle(cycle, r)
  {
  }

  /** Day numbers and valid dates are in one-to-one correspondence. */
  lemma DaysFromCivilInjective(a: Civil, b: Civil)
    requires ValidCivil(a) && ValidCivil(b)
    requires DaysFromCivil(a) == DaysFromCivil(b)
    ensures a == b
  {
    CivilRoundTrip(a);
    CivilRoundTrip(b);
  }

  /** The day number of January 1 of year `y`. */
  function YearStart(y: int): int
  {
    DaysFromCivil(Civil(y, 1, 1))
  }

  /** Consecutive years start a year's length apart, across a cycle boundary too. */
  lemma YearStartStep(y: int)
    ensures YearStart(y + 1) == YearStart(y) + DaysInYear(y)
  {
    var cycle := (y - 1) / 400;
    var k := (y - 1) % 400;
    assert YearStart(y) == DaysPerCycle * cycle + DaysBeforeYearInCycle(k) - EpochDays;
    CycleYearLength(cycle, k);
    if k < 399 {
      NextYearSameCycle(y, cycle, k);
    } else {
      NextYearNextCycle(y, cycle);
    }
  }

  lemma NextYearSameCycle(y: int, cycle: int, k: int)
    requires 0 <= k < 399 && y - 1 == 400 * cycle + k
    ensures YearStart(y + 1) == DaysPerCycle * cycle + DaysBeforeYearInCycle(k + 1) - EpochDays
  {
    DivMod400(cycle, k + 1);
  }

  lemma NextYearNextCycle(y: int, cycle: int)
    requires y - 1 == 400 * cycle + 399
    ensures YearStart(y + 1) == DaysPerCycle * (cycle + 1) - EpochDays
  {
    DivMod400(cycle + 1, 0);
  }

  lemma {:induction false} YearStartMonotone(a: int, b: int)
    requires a <= b
    ensures YearStart(a) + 365 * (b - a) <= YearStart(b)
    decreases b - a
  {
    if a < b {
      YearStartMonotone(a, b - 1);
      YearStartStep(b - 1);
    }
  }

  /** A valid date lies in its own year: on or after its January 1, before the next. */
  lemma WithinYear(c: Civil)
    requires ValidCivil(c)
    ensures YearStart(c.year) <= DaysFromCivil(c) < YearStart(c.year + 1)
  {
    YearStartStep(c.year);
    DaysBeforeMonthStep(c.year, c.month);
    MonthsMonotone(c.year, c.month + 1, 13);
  }

  /** The year of a day number is bounded exactly as the day number is bounded by year starts. */
  lemma YearRange(c: Civil, lo: int, hi: int)
    requires ValidCivil(c) && lo <= hi
    ensures lo <= c.year <= hi <==> YearStart(lo) <= DaysFromCivil(c) < YearStart(hi + 1)
  {
    WithinYear(c);
    if c.year < lo {
      YearStartMonotone(c.year + 1, lo);
    } else if c.year > hi {
      YearStartMonotone(hi + 1, c.year);
    } else {
      YearStartMonotone(lo, c.year);
      YearStartMonotone(c.year + 1, hi + 1);
    }
  }
}
