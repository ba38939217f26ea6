/** Day numbers since 1970-01-01 as dates of the Gregorian calendar. */
module CivilDate {
  import opened ByteStrings

  datatype Date = Date(year: int, month: int, day: int)

  // Days from 0000-03-01 to 1970-01-01.
  const SHIFT: nat := 719_468

  /** The sum is one of 64-bit numbers and comes round to zero for the last ones. */
  function EpochDaysToYmd(days: U64): Date {
    DateFromMarch((days + SHIFT) % TWO_64)
  }

  /** Whole eras of 400 years, then centuries, leap years and months counted from March.
      Every value is unsigned in the program: no subtraction may go below zero. */
  function DateFromMarch(z: nat): Date {
    var era := z / 146_097;
    DateInEra(era, z - era * 146_097)
  }

  function DateInEra(era: nat, doe: nat): Date
    requires doe < 146_097
  {
    var yoe := YearOfEra(doe);
    DayWithinYear(doe);
    var doy: nat := doe - (365 * yoe + yoe / 4 - yoe / 100);
    var mp := (5 * doy + 2) / 153;
    var d: nat := doy - (153 * mp + 2) / 5 + 1;
    var m := if mp < 10 then mp + 3 else mp - 9;
    var y := yoe + era * 400;
    Date(if m <= 2 then y + 1 else y, m, d)
  }

  function YearOfEra(doe: nat): nat
    requires doe < 146_097
  {
    (doe - doe / 1460 + doe / 36_524 - doe / 146_096) / 365
  }

  // ---------------------------------------------------------------- the calendar

  predicate LeapYear(y: int) {
    y % 4 == 0 && (y % 100 != 0 || y % 400 == 0)
  }

  function MonthLength(y: int, m: int): int {
    if m == 2 then (if LeapYear(y) then 29 else 28)
    else if m == 4 || m == 6 || m == 9 || m == 11 then 30
    else 31
  }

  predicate Valid(t: Date) {
    1 <= t.month <= 12 && 1 <= t.day <= MonthLength(t.year, t.month)
  }

  function NextDay(t: Date): Date {
    if t.day < MonthLength(t.year, t.month) then t.(day := t.day + 1)
    else if t.month < 12 then Date(t.year, t.month + 1, 1)
    else Date(t.year + 1, 1, 1)
  }

  /** Days from 1970-01-01 by counting whole years and months. */
  function DayNumber(t: Date): int
    requires t.year >= 1970
  {
    DaysBeforeYear(t.year) + DaysBeforeMonth(t.year, t.month) + t.day - 1
  }

  function DaysBeforeYear(y: int): int
    requires y >= 1970
  {
    if y == 1970 then 0 else DaysBeforeYear(y - 1) + (if LeapYear(y - 1) then 366 else 365)
  }

  function DaysBeforeMonth(y: int, m: int): int {
    if m <= 1 then 0 else DaysBeforeMonth(y, m - 1) + MonthLength(y, m - 1)
  }

  // ---------------------------------------------------------------- the year of an era

  // Days of an era before its y-th year, years starting in March.
  function YearStart(y: nat): nat {
    365 * y + y / 4 - y / 100
  }

  // A day of an era is a century, a four-year cycle in it and a day of that cycle.
  lemma SplitEra(doe: nat) returns (c: nat, q: nat, s: nat)
    requires doe < 146_097
    ensures doe == 36_524 * c + 1461 * q + s
    ensures c <= 3 && q <= 24 && s <= 1460
    ensures q == 24 && c < 3 ==> s <= 1459
  {
    c := if doe == 146_096 then 3 else doe / 36_524;
    var r := doe - 36_524 * c;
    assert r <= 36_524 && (c < 3 ==> r <= 36_523);
    q := r / 1461;
    s := r - 1461 * q;
  }

  lemma {:induction false} Multiples(d: nat, a: int, b: int)
    ensures a < b ==> d * a + d <= d * b
    decreases b - a
  {
    if a + 1 < b {
      Multiples(d, a, b - 1);
      assert d * b == d * (b - 1) + d;
    } else if a + 1 == b {
      assert d * b == d * a + d;
    }
  }

  lemma Quotient(n: nat, d: nat, k: nat)
    requires d > 0 && d * k <= n < d * k + d
    ensures n / d == k
  {
    var q := n / d;
    assert n == d * q + n % d;
    Multiples(d, q, k);
    Multiples(d, k, q);
  }

  /** The correction terms count exactly the leap days, so the quotient is the year. */
  lemma YearOfEraIs(c: nat, q: nat, s: nat)
    requires c <= 3 && q <= 24 && s <= 1460 && (q == 24 && c < 3 ==> s <= 1459)
    ensures var doe := 36_524 * c + 1461 * q + s;
            doe < 146_097 && YearOfEra(doe) == 100 * c + 4 * q + (if s == 1460 then 3 else s / 365)
  {
    var doe := 36_524 * c + 1461 * q + s;
    var t := if 24 * c + q + s >= 1460 then 1 else 0;
    Quotient(doe, 1460, 25 * c + q + t);
    var last := if doe == 146_096 then 1 else 0;
    Quotient(doe, 146_096, last);
    Quotient(doe, 36_524, c + last);
    var y := if s == 1460 then 3 else s / 365;
    Quotient(36_500 * c + 1460 * q + s - t, 365, 100 * c + 4 * q + y);
  }

  lemma YearStartIs(c: nat, q: nat, y: nat)
    requires q <= 24 && y <= 3
    ensures YearStart(100 * c + 4 * q + y) == 36_524 * c + 1461 * q + 365 * y
  {}

  // Whether the year that starts in March of this year of the era ends with a leap day.
  predicate LongYear(yoe: nat) {
    LeapYear(yoe + 1)
  }

  /** The day falls inside the year that the formula names. */
  lemma DayWithinYear(doe: nat)
    requires doe < 146_097
    ensures var y := YearOfEra(doe);
            y < 400 && YearStart(y) <= doe <= YearStart(y) + (if LongYear(y) then 365 else 364)
  {
    hide YearOfEra, YearStart;
    var c, q, s := SplitEra(doe);
    YearOfEraIs(c, q, s);
    var y := if s == 1460 then 3 else s / 365;
    YearStartIs(c, q, y);
    if s == 1460 {
      assert (100 * c + 4 * q + 4) % 4 == 0;
      assert q < 24 ==> (100 * c + 4 * q + 4) % 100 != 0;
    }
  }

  // ---------------------------------------------------------------- years and months counted from March

  // Leap days in the years 1 to y.
  function LeapDays(y: nat): int {
    y / 4 - y / 100 + y / 400
  }

  lemma LeapDaysStep(y: nat)
    ensures LeapDays(y + 1) == LeapDays(y) + (if LeapYear(y + 1) then 1 else 0)
  {
    QuotientStep(y, 4);
    QuotientStep(y, 100);
    QuotientStep(y, 400);
  }

  lemma QuotientStep(n: nat, d: nat)
    requires d == 4 || d == 100 || d == 400
    ensures (n + 1) / d == n / d + (if (n + 1) % d == 0 then 1 else 0)
  {}

  lemma {:induction false} DaysBeforeYearIs(y: int)
    requires y >= 1970
    ensures DaysBeforeYear(y) == 365 * (y - 1970) + LeapDays(y - 1) - 477
  {
    if y > 1970 {
      DaysBeforeYearIs(y - 1);
      LeapDaysStep(y - 2);
    }
  }

  // Days before the month, counted from the first of March.
  function MarchOffset(mp: nat): nat {
    (153 * mp + 2) / 5
  }

  lemma DaysBeforeMonthIs(y: int, m: int)
    requires 1 <= m <= 12
    ensures m <= 2 ==> DaysBeforeMonth(y, m) == MarchOffset(m + 9) - 306
    ensures m > 2 ==> DaysBeforeMonth(y, m) == MarchOffset(m - 3) + (if LeapYear(y) then 60 else 59)
  {
    if m > 1 { DaysBeforeMonthIs(y, m - 1); }
  }

  /** Month and day of a year that starts on the first of March. */
  lemma MonthOfYear(doy: nat)
    requires doy <= 365
    ensures var mp := (5 * doy + 2) / 153;
            mp <= 11 && MarchOffset(mp) <= doy &&
            doy - MarchOffset(mp) < (if mp == 11 then 29 else if mp in {1, 3, 6, 8} then 30 else 31) &&
            (mp == 11 && doy < 365 ==> doy - MarchOffset(mp) < 28) &&
            (mp >= 10 <==> doy >= 306)
  {}

  // The day number as a year that starts in March and a day of it.
  lemma YearAndDay(z: nat) returns (year: nat, doy: nat)
    ensures doy <= 365 && (doy == 365 ==> LeapYear(year + 1))
    ensures z == 365 * year + LeapDays(year) + doy
    ensures var mp := (5 * doy + 2) / 153; var k := doy - MarchOffset(mp);
            DateFromMarch(z) == (if mp < 10 then Date(year, mp + 3, k + 1) else Date(year + 1, mp - 9, k + 1))
  {
    hide YearOfEra, LeapYear, LeapDays;
    var era := z / 146_097;
    var doe := z - era * 146_097;
    var yoe := YearOfEra(doe);
    DayWithinYear(doe);
    doy := doe - YearStart(yoe);
    year := yoe + 400 * era;
    EraLeapDays(yoe, era);
    EraLeapYear(yoe + 1, era);
  }

  // The same with a month counted from March.
  lemma Decompose(z: nat) returns (year: nat, mp: nat, k: nat)
    ensures mp <= 11
    ensures z == 365 * year + LeapDays(year) + MarchOffset(mp) + k
    ensures DateFromMarch(z) == (if mp < 10 then Date(year, mp + 3, k + 1) else Date(year + 1, mp - 9, k + 1))
    ensures z >= SHIFT <==> year > 1969 || (year == 1969 && mp >= 10)
    ensures k < (if mp == 11 then (if LeapYear(year + 1) then 29 else 28) else if mp in {1, 3, 6, 8} then 30 else 31)
  {
    hide DateFromMarch, LeapYear, LeapDays;
    var doy;
    year, doy := YearAndDay(z);
    MonthOfYear(doy);
    mp := (5 * doy + 2) / 153;
    k := doy - MarchOffset(mp);
    FromTheEpoch(year, doy);
  }

  lemma EraLeapDays(yoe: nat, era: nat)
    requires yoe < 400
    ensures LeapDays(yoe + 400 * era) == yoe / 4 - yoe / 100 + 97 * era
  {
    Quotient(yoe + 400 * era, 4, yoe / 4 + 100 * era);
    Quotient(yoe + 400 * era, 100, yoe / 100 + 4 * era);
    Quotient(yoe + 400 * era, 400, era);
  }

  lemma Remainder(y: nat, e: nat, d: nat)
    requires d > 0
    ensures (y + e * d) % d == y % d
  {
    Quotient(y + e * d, d, y / d + e);
  }

  lemma EraLeapYear(y: nat, era: nat)
    ensures LeapYear(y + 400 * era) == LeapYear(y)
  {
    Remainder(y, 100 * era, 4);
    Remainder(y, 4 * era, 100);
    Remainder(y, era, 400);
  }

  lemma FromTheEpoch(year: nat, doy: nat)
    requires doy <= 365
    ensures 365 * year + LeapDays(year) + doy >= SHIFT <==> year > 1969 || (year == 1969 && doy >= 306)
  {
    if year < 1969 {
      assert LeapDays(year) <= 492 + 4;
    }
  }

  // ---------------------------------------------------------------- main results

  lemma NumberFromMarch(z: nat)
    ensures var t := DateFromMarch(z);
            && Valid(t) && (t.year >= 1970 <==> z >= SHIFT)
            && (z >= SHIFT ==> DayNumber(t) == z - SHIFT)
  {
    hide DateFromMarch, DaysBeforeYear, DaysBeforeMonth, LeapDays, LeapYear;
    var year, mp, k := Decompose(z);
    var t := DateFromMarch(z);
    if z >= SHIFT {
      DaysBeforeYearIs(t.year);
      DaysBeforeMonthIs(t.year, t.month);
      if mp < 10 { LeapDaysStep(year - 1); }
    }
  }

  /** Every day number is turned into a date of the calendar. It is the right one, from 1970 on and with that many days
      before it, if and only if the 64-bit sum does not come round. */
  lemma NumberOfDate(days: U64)
    ensures var t := EpochDaysToYmd(days);
            && Valid(t)
            && (t.year >= 1970 && DayNumber(t) == days <==> days + SHIFT < TWO_64)
  {
    hide DateFromMarch, DayNumber, Valid;
    NumberFromMarch((days + SHIFT) % TWO_64);
  }

  /** No clock reading in seconds gets there. */
  lemma ClockDaysFit(seconds: U64)
    ensures seconds / 86_400 + 1 + SHIFT < TWO_64
  {}

  lemma {:induction false} YearsAddUp(y: int, w: int)
    requires 1970 <= y < w
    ensures DaysBeforeYear(y) + (if LeapYear(y) then 366 else 365) <= DaysBeforeYear(w)
  {
    if y + 1 < w { YearsAddUp(y, w - 1); }
  }

  lemma {:induction false} MonthsAddUp(y: int, m: int, w: int)
    requires 1 <= m < w <= 13
    ensures DaysBeforeMonth(y, m) + MonthLength(y, m) <= DaysBeforeMonth(y, w)
  {
    if m + 1 < w { MonthsAddUp(y, m, w - 1); }
  }

  lemma YearOfMonths(y: int)
    ensures DaysBeforeMonth(y, 13) == if LeapYear(y) then 366 else 365
  {
    DaysBeforeMonthIs(y, 12);
  }

  predicate Before(a: Date, b: Date) {
    a.year < b.year || (a.year == b.year && (a.month < b.month || (a.month == b.month && a.day < b.day)))
  }

  /** Later dates have larger numbers. */
  lemma NumbersFollowDates(a: Date, b: Date)
    requires Valid(a) && Valid(b) && a.year >= 1970 && b.year >= 1970 && Before(a, b)
    ensures DayNumber(a) < DayNumber(b)
  {
    hide DaysBeforeYear, DaysBeforeMonth;
    if a.year < b.year {
      YearsAddUp(a.year, b.year);
      MonthsAddUp(a.year, a.month, 13);
      YearOfMonths(a.year);
      DaysBeforeMonthNonNegative(b.year, b.month);
    } else if a.month < b.month {
      MonthsAddUp(a.year, a.month, b.month);
    }
  }

  lemma {:induction false} DaysBeforeMonthNonNegative(y: int, m: int)
    ensures DaysBeforeMonth(y, m) >= 0
    decreases m
  {
    if m > 1 { DaysBeforeMonthNonNegative(y, m - 1); }
  }

  lemma DayNumberNonNegative(t: Date)
    requires Valid(t) && t.year >= 1970
    ensures DayNumber(t) >= 0
  {
    DaysBeforeMonthNonNegative(t.year, t.month);
    DaysBeforeYearIs(t.year);
  }

  /** Every date from 1970 on whose number leaves room for the sum is the date of exactly that number. */
  lemma DateOfNumber(t: Date)
    requires Valid(t) && t.year >= 1970 && DayNumber(t) + SHIFT < TWO_64
    ensures DayNumber(t) >= 0 && EpochDaysToYmd(DayNumber(t)) == t
  {
    hide DateFromMarch;
    DayNumberNonNegative(t);
    NumberFromMarch(DayNumber(t) + SHIFT);
    OneDatePerNumber(t, DateFromMarch(DayNumber(t) + SHIFT));
  }

  lemma OneDatePerNumber(a: Date, b: Date)
    requires Valid(a) && Valid(b) && a.year >= 1970 && b.year >= 1970 && DayNumber(a) == DayNumber(b)
    ensures a == b
  {
    hide DayNumber, Valid;
    if Before(a, b) {
      NumbersFollowDates(a, b);
    } else if Before(b, a) {
      NumbersFollowDates(b, a);
    }
  }

  lemma NextDayNumber(t: Date)
    requires Valid(t) && t.year >= 1970
    ensures Valid(NextDay(t)) && NextDay(t).year >= 1970 && DayNumber(NextDay(t)) == DayNumber(t) + 1
  {
    if t.day == MonthLength(t.year, t.month) && t.month == 12 {
      YearOfMonths(t.year);
    }
  }

  // The same day some eras later.
  function Later(t: Date, eras: nat): Date {
    t.(year := t.year + 400 * eras)
  }

  lemma ErasLater(z: nat, eras: nat)
    ensures DateFromMarch(z + 146_097 * eras) == Later(DateFromMarch(z), eras) && DateFromMarch(z).year >= 0
  {
    hide DateInEra;
    Quotient(z + 146_097 * eras, 146_097, z / 146_097 + eras);
    EraLater(z / 146_097, z - z / 146_097 * 146_097, eras);
  }

  lemma EraLater(era: nat, doe: nat, eras: nat)
    requires doe < 146_097
    ensures DateInEra(era + eras, doe) == Later(DateInEra(era, doe), eras) && DateInEra(era, doe).year >= 0
  {
    hide YearOfEra;
  }

  lemma NextDayLater(t: Date, eras: nat)
    requires t.year >= 0
    ensures NextDay(Later(t, eras)) == Later(NextDay(t), eras)
  {
    EraLeapYear(t.year, eras);
  }

  lemma NextFromMarch(z: nat)
    ensures DateFromMarch(z + 1) == NextDay(DateFromMarch(z))
  {
    hide DateFromMarch, DayNumber, NextDay, Valid;
    var e := 5;
    var t := DateFromMarch(z + 146_097 * e);
    NumberFromMarch(z + 146_097 * e);
    NumberFromMarch(z + 1 + 146_097 * e);
    NextDayNumber(t);
    OneDatePerNumber(NextDay(t), DateFromMarch(z + 1 + 146_097 * e));
    ErasLater(z, e);
    ErasLater(z + 1, e);
    NextDayLater(DateFromMarch(z), e);
    SameLater(DateFromMarch(z + 1), NextDay(DateFromMarch(z)), e);
  }

  lemma SameLater(a: Date, b: Date, eras: nat)
    requires Later(a, eras) == Later(b, eras)
    ensures a == b
  {}

  /** Consecutive day numbers are consecutive dates, except where the 64-bit sum comes round between them. */
  lemma ConsecutiveDays(days: U64)
    requires days + 1 < TWO_64
    ensures EpochDaysToYmd(days + 1) == NextDay(EpochDaysToYmd(days)) <==> days + 1 + SHIFT != TWO_64
  {
    hide DateFromMarch, DayNumber, NextDay, Valid;
    var z := (days + SHIFT) % TWO_64;
    NextFromMarch(z);
    if days + 1 + SHIFT == TWO_64 {
      NumberFromMarch(0);
      NumberFromMarch(z);
      NextDayNumber(DateFromMarch(z));
    }
  }
}
