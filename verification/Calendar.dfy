/** Day and date arithmetic of ECMAScript's `Date`, as `Date.UTC` and the `getUTC...` accessors use it.

    Days are counted from 1 January 1970; months are numbered 1 to 12 in a `CivilDate` and
    0 to 11 where ECMAScript does so.  The civil successor `NextDate` is the reference that the
    arithmetic is compared with: it knows only month lengths and the leap-year rule. */
module Calendar {

  datatype CivilDate = CivilDate(year: int, month: int, day: int)

  predicate IsLeap(y: int) {
    y % 4 == 0 && (y % 100 != 0 || y % 400 == 0)
  }

  function DaysInYear(y: int): int {
    if IsLeap(y) then 366 else 365
  }

  function DaysInMonth(y: int, m: int): int
    requires 1 <= m <= 12
  {
    if m == 2 then (if IsLeap(y) then 29 else 28)
    else if m == 4 || m == 6 || m == 9 || m == 11 then 30
    else 31
  }

  predicate ValidDate(c: CivilDate) {
    1 <= c.month <= 12 && 1 <= c.day <= DaysInMonth(c.year, c.month)
  }

  /** The day after `c` in the Gregorian calendar. */
  function NextDate(c: CivilDate): CivilDate
    requires ValidDate(c)
  {
    if c.day < DaysInMonth(c.year, c.month) then CivilDate(c.year, c.month, c.day + 1)
    else if c.month < 12 then CivilDate(c.year, c.month + 1, 1)
    else CivilDate(c.year + 1, 1, 1)
  }

  /** DayFromYear of section 21.4.1.3 of ECMA-262. */
  function DayFromYear(y: int): int {
    365 * (y - 1970) + (y - 1969) / 4 - (y - 1901) / 100 + (y - 1601) / 400
  }

  /** Days before month `m` (0-based; 12 is the whole year). */
  function MonthStart(m: int, leap: bool): int
    requires 0 <= m <= 12
  {
    var extra := if leap then 1 else 0;
    if m == 0 then 0 else if m == 1 then 31 else if m == 2 then 59 + extra else if m == 3 then 90 + extra
    else if m == 4 then 120 + extra else if m == 5 then 151 + extra else if m == 6 then 181 + extra
    else if m == 7 then 212 + extra else if m == 8 then 243 + extra else if m == 9 then 273 + extra
    else if m == 10 then 304 + extra else if m == 11 then 334 + extra else 365 + extra
  }

  /** MakeDay: months and days outside their usual range carry over. */
  function MakeDay(year: int, month: int, date: int): int {
    var y := year + month / 12;
    DayFromYear(y) + MonthStart(month % 12, IsLeap(y)) + date - 1
  }

  /** Upward search for the last year that starts no later than `day`. */
  function SearchYear(day: int, low: int): (y: int)
    requires DayFromYear(low) <= day
    ensures DayFromYear(y) <= day < DayFromYear(y + 1)
    decreases day - DayFromYear(low)
  {
    YearLength(low);
    if day < DayFromYear(low + 1) then low else SearchYear(day, low + 1)
  }

  /** YearFromTime: the largest year whose first day is not after `day`. */
  function YearOf(day: int): (y: int)
    ensures DayFromYear(y) <= day < DayFromYear(y + 1)
  {
    SearchYear(day, 1970 + if day >= 0 then day / 366 else day / 365)
  }

  function MonthIn(dayInYear: int, leap: bool): (m: int)
    requires 0 <= dayInYear < MonthStart(12, leap)
    ensures 0 <= m < 12 && MonthStart(m, leap) <= dayInYear < MonthStart(m + 1, leap)
  {
    var extra := if leap then 1 else 0;
    if dayInYear < 31 then 0 else if dayInYear < 59 + extra then 1 else if dayInYear < 90 + extra then 2
    else if dayInYear < 120 + extra then 3 else if dayInYear < 151 + extra then 4
    else if dayInYear < 181 + extra then 5 else if dayInYear < 212 + extra then 6
    else if dayInYear < 243 + extra then 7 else if dayInYear < 273 + extra then 8
    else if dayInYear < 304 + extra then 9 else if dayInYear < 334 + extra then 10 else 11
  }

  /** The date `within` days into year `y`. */
  function DateInYear(y: int, within: int): (c: CivilDate)
    requires 0 <= within < DaysInYear(y)
    ensures ValidDate(c) && c.year == y
  {
    var m := MonthIn(within, IsLeap(y));
    MonthLength(y, m);
    CivilDate(y, m + 1, within - MonthStart(m, IsLeap(y)) + 1)
  }

  /** getUTCFullYear, getUTCMonth + 1 and getUTCDate of a day number. */
  function Civil(day: int): (c: CivilDate)
    ensures ValidDate(c)
  {
    var y := YearOf(day);
    YearLength(y);
    DateInYear(y, day - DayFromYear(y))
  }

  lemma YearLength(y: int)
    ensures DayFromYear(y + 1) == DayFromYear(y) + DaysInYear(y)
    ensures DaysInYear(y) == MonthStart(12, IsLeap(y))
  {
    Fours(y);
    Hundreds(y);
    FourHundreds(y);
  }

  lemma Fours(y: int)
    ensures (y - 1968) / 4 - (y - 1969) / 4 == if y % 4 == 0 then 1 else 0
  {
  }

  lemma Hundreds(y: int)
    ensures (y - 1900) / 100 - (y - 1901) / 100 == if y % 100 == 0 then 1 else 0
    ensures y % 100 == 0 ==> y % 4 == 0
  {
  }

  lemma FourHundreds(y: int)
    ensures (y - 1600) / 400 - (y - 1601) / 400 == if y % 400 == 0 then 1 else 0
    ensures y % 400 == 0 ==> y % 100 == 0
  {
  }

  lemma MonthLength(y: int, m: int)
    requires 0 <= m < 12
    ensures MonthStart(m + 1, IsLeap(y)) == MonthStart(m, IsLeap(y)) + DaysInMonth(y, m + 1)
  {
  }

  lemma {:induction false} YearsIncrease(y: int, z: int)
    requires y <= z
    ensures DayFromYear(y) + 365 * (z - y) <= DayFromYear(z)
    decreases z - y
  {
    if y < z {
      YearsIncrease(y, z - 1);
      YearLength(z - 1);
    }
  }

  lemma YearOfIs(day: int, y: int)
    requires DayFromYear(y) <= day < DayFromYear(y + 1)
    ensures YearOf(day) == y
  {
    hide YearOf, DayFromYear;
    var found := YearOf(day);
    if found < y { YearsIncrease(found + 1, y); }
    if y < found { YearsIncrease(y + 1, found); }
  }

  lemma MonthInIs(dayInYear: int, leap: bool, m: int)
    requires 0 <= m < 12 && MonthStart(m, leap) <= dayInYear < MonthStart(m + 1, leap)
    ensures 0 <= dayInYear < MonthStart(12, leap) && MonthIn(dayInYear, leap) == m
  {
  }

  /** The day number of a date whose month is in range. */
  function DayOf(c: CivilDate): (day: int)
    requires 1 <= c.month <= 12
    ensures day == DayFromYear(c.year) + MonthStart(c.month - 1, IsLeap(c.year)) + c.day - 1
  {
    assert (c.month - 1) / 12 == 0 && (c.month - 1) % 12 == c.month - 1;
    MakeDay(c.year, c.month - 1, c.day)
  }

  /** Reading a day number back as a date and making the day again gives the same day. */
  lemma DayRoundTrip(day: int)
    ensures DayOf(Civil(day)) == day
  {
    YearLength(YearOf(day));
  }

  /** Days of the year before `c`. */
  function DaysBefore(c: CivilDate): (within: int)
    requires ValidDate(c)
    ensures 0 <= within < DaysInYear(c.year)
  {
    MonthLength(c.year, c.month - 1);
    MonthStart(c.month - 1, IsLeap(c.year)) + c.day - 1
  }

  lemma DateInYearOf(c: CivilDate)
    requires ValidDate(c)
    ensures DateInYear(c.year, DaysBefore(c)) == c
  {
    MonthLength(c.year, c.month - 1);
    MonthInIs(DaysBefore(c), IsLeap(c.year), c.month - 1);
  }

  lemma CivilOfYearDay(y: int, within: int)
    requires 0 <= within < DaysInYear(y)
    ensures Civil(DayFromYear(y) + within) == DateInYear(y, within)
  {
    YearLength(y);
    YearOfIs(DayFromYear(y) + within, y);
  }

  lemma DayOfIsYearDay(c: CivilDate)
    requires ValidDate(c)
    ensures DayOf(c) == DayFromYear(c.year) + DaysBefore(c)
  {
  }

  /** Every valid date is the date of exactly the day number that is made for it. */
  lemma DateRoundTrip(c: CivilDate)
    requires ValidDate(c)
    ensures Civil(DayOf(c)) == c
  {
    hide *;
    DateInYearOf(c);
    CivilOfYearDay(c.year, DaysBefore(c));
    DayOfIsYearDay(c);
  }

  lemma NextDateDay(c: CivilDate)
    requires ValidDate(c)
    ensures ValidDate(NextDate(c)) && DayOf(NextDate(c)) == DayOf(c) + 1
  {
    hide DayFromYear, MakeDay, IsLeap;
    YearLength(c.year);
    MonthLength(c.year, c.month - 1);
  }

  const EPOCH := CivilDate(1970, 1, 1)

  lemma EpochDay()
    ensures ValidDate(EPOCH) && DayOf(EPOCH) == 0
  {
    hide MakeDay;
    assert 1 / 4 == 0 && 69 / 100 == 0 && 369 / 400 == 0;
  }

  /** The arithmetic agrees with the calendar's own rule: consecutive days are consecutive dates. */
  lemma CivilAdvances(day: int)
    ensures Civil(day + 1) == NextDate(Civil(day))
  {
    hide *;
    DayRoundTrip(day);
    NextDateDay(Civil(day));
    DateRoundTrip(NextDate(Civil(day)));
  }

  /** The date reached by counting `n` days on from 1 January 1970. */
  function Counted(n: nat): (c: CivilDate)
    ensures ValidDate(c)
  {
    if n == 0 then EPOCH
    else
      NextDateDay(Counted(n - 1));
      NextDate(Counted(n - 1))
  }

  lemma {:induction false} CivilCounts(n: nat)
    ensures Civil(n) == Counted(n)
  {
    hide Civil, DayOf, NextDate, ValidDate;
    if n == 0 {
      EpochDay();
      DateRoundTrip(EPOCH);
    } else {
      CivilCounts(n - 1);
      CivilAdvances(n - 1);
    }
  }
}
