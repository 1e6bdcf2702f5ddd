/** The campus clock of dash_mcp: civil dates and wall times of America/New_York.

    A zone is a function from an instant (milliseconds since the epoch) to the amount by which
    the local clock is ahead of UTC.  The formatter of the runtime is modelled as reading that
    function; `Date.UTC` is the arithmetic of module `Calendar`. */
module CampusTime {
  import opened Calendar
  import opened Text

  const SECOND := 1_000
  const MINUTE := 60_000
  const HOUR := 3_600_000
  const DAY := 86_400_000
  const EST := -5 * HOUR
  const EDT := -4 * HOUR

  type Zone = int -> int

  ghost predicate ChangesAt(off: Zone, t: int) {
    off(t - 1) != off(t)
  }

  /** Offsets are -5 h or -4 h and change only when the clock in force so far reaches 02:00. */
  ghost predicate EasternRules(off: Zone) {
    && (forall t :: off(t) == EST || off(t) == EDT)
    && (forall t :: ChangesAt(off, t) ==> (t + off(t - 1)) % DAY == 2 * HOUR)
  }

  /** Two changes are more than a day apart (by law they are months apart). */
  ghost predicate ChangesApart(off: Zone) {
    forall t, u :: t < u && ChangesAt(off, t) && ChangesAt(off, u) ==> u - t > DAY
  }

  function Local(off: Zone, t: int): int {
    t + off(t)
  }

  function LocalDay(off: Zone, t: int): int {
    Local(off, t) / DAY
  }

  function FullYear(y: int): int {
    if 0 <= y <= 99 then 1900 + y else y
  }

  /** `Date.UTC`; `month` counts from 0 and every field may overflow into the next. */
  function DateUtc(year: int, month: int, day: int, hour: int, minute: int, second: int): int {
    MakeDay(FullYear(year), month, day) * DAY + hour * HOUR + minute * MINUTE + second * SECOND
  }

  datatype Parts = Parts(date: CivilDate, hour: int, minute: int, second: int)

  /** `formatToParts` with `hour12: false`, which writes midnight as hour 24. */
  function FormatParts(off: Zone, t: int): Parts {
    var local := Local(off, t);
    var hour := local % DAY / HOUR;
    Parts(Civil(local / DAY), if hour == 0 then 24 else hour, local % HOUR / MINUTE, local % MINUTE / SECOND)
  }

  function Guess(date: CivilDate, hour: int, minute: int): int {
    DateUtc(date.year, date.month - 1, date.day, hour, minute, 0)
  }

  function CampusWallTime(off: Zone, date: CivilDate, hour: int, minute: int): int {
    var guess := Guess(date, hour, minute);
    var parts := FormatParts(off, guess);
    var represented := DateUtc(parts.date.year, parts.date.month - 1, parts.date.day,
                               parts.hour % 24, parts.minute, parts.second);
    guess - (represented - guess)
  }

  function CampusMidnight(off: Zone, date: CivilDate): int {
    CampusWallTime(off, date, 0, 0)
  }

  function Pad2(n: nat): string {
    if n < 10 then "0" + Decimal(n) else Decimal(n)
  }

  function DateText(c: CivilDate): string
    requires ValidDate(c)
  {
    (if c.year < 0 then "-" + Decimal(-c.year) else Decimal(c.year)) + "-" + Pad2(c.month) + "-" + Pad2(c.day)
  }

  function CurrentCampusDate(off: Zone, now: int): string {
    DateText(Civil(LocalDay(off, now)))
  }

  predicate DatePattern(text: string) {
    |text| == 10 && text[4] == '-' && text[7] == '-'
    && AllDigits(text[..4]) && AllDigits(text[5..7]) && AllDigits(text[8..])
  }

  function SplitDate(text: string): CivilDate
    requires DatePattern(text)
  {
    CivilDate(ParseDigits(text[..4]), ParseDigits(text[5..7]), ParseDigits(text[8..]))
  }

  datatype Range = Range(start: int, end: int)

  /** The day that the fields of a date name, after overflowing months and days have carried over. */
  function NamedDay(c: CivilDate): int {
    MakeDay(c.year, c.month - 1, c.day)
  }

  /** The day that `Date.UTC` makes of the same fields: it takes the years 0 to 99 for 1900 to 1999. */
  function UtcDay(c: CivilDate): int {
    MakeDay(FullYear(c.year), c.month - 1, c.day)
  }

  /** None stands for the error thrown on a text that is not `YYYY-MM-DD`. */
  function CampusDayRange(off: Zone, text: string): Option<Range> {
    if !DatePattern(text) then None
    else
      var date := SplitDate(text);
      var next := Civil(MakeDay(FullYear(date.year), date.month - 1, date.day + 1));
      Some(Range(CampusMidnight(off, date), CampusMidnight(off, next)))
  }

  ghost predicate InRange(r: Range, t: int) {
    r.start <= t < r.end
  }

  // ----- the zone

  lemma ChangeHours(off: Zone, t: int)
    requires EasternRules(off) && ChangesAt(off, t)
    ensures || (t % DAY == 6 * HOUR && off(t - 1) == EDT && off(t) == EST)
            || (t % DAY == 7 * HOUR && off(t - 1) == EST && off(t) == EDT)
  {
    assert off(t - 1) == EST || off(t - 1) == EDT;
    assert (t + off(t - 1)) % DAY == 2 * HOUR;
  }

  lemma {:induction false} OffsetConstant(off: Zone, a: int, b: int)
    requires a <= b
    requires forall t :: a < t <= b ==> !ChangesAt(off, t)
    ensures off(a) == off(b)
    decreases b - a
  {
    if a < b {
      OffsetConstant(off, a, b - 1);
      assert !ChangesAt(off, b);
    }
  }

  lemma TimeOfDay(t: int, day: int, r: int)
    requires t == day * DAY + r && 0 <= r < DAY
    ensures t % DAY == r
  {
  }

  lemma QuietAt(off: Zone, day: int, t: int)
    requires EasternRules(off)
    requires (day - 1) * DAY + 7 * HOUR < t < day * DAY + 6 * HOUR
    ensures !ChangesAt(off, t)
  {
    hide ChangesAt, EasternRules;
    if t < day * DAY { TimeOfDay(t, day - 1, t - (day - 1) * DAY); } else { TimeOfDay(t, day, t - day * DAY); }
    if ChangesAt(off, t) { ChangeHours(off, t); }
  }

  /** Between the 07:00 UTC of one day and the 06:00 UTC of the next nothing changes. */
  lemma QuietHours(off: Zone, day: int, a: int, b: int)
    requires EasternRules(off)
    requires (day - 1) * DAY + 7 * HOUR <= a <= b < day * DAY + 6 * HOUR
    ensures off(a) == off(b)
  {
    hide ChangesAt, EasternRules;
    forall t | a < t <= b { QuietAt(off, day, t); }
    OffsetConstant(off, a, b);
  }

  // ----- days

  /** The first instant of a campus day. */
  function DayStart(off: Zone, day: int): int {
    day * DAY - off(day * DAY)
  }

  /** The campus clock shows day `day` from its first instant up to the first instant of the next. */
  lemma DayBoundaries(off: Zone, day: int, t: int)
    requires EasternRules(off)
    ensures LocalDay(off, t) == day <==> DayStart(off, day) <= t < DayStart(off, day + 1)
  {
    var u := t / DAY;
    assert off(t) == EST || off(t) == EDT;
    assert off(u * DAY) == EST || off(u * DAY) == EDT;
    if t < u * DAY + 6 * HOUR {
      QuietHours(off, u, u * DAY, t);
    }
    assert LocalDay(off, t) == if t >= DayStart(off, u) then u else u - 1;
    forall d ensures d * DAY + 4 * HOUR <= DayStart(off, d) <= d * DAY + 5 * HOUR {
      assert off(d * DAY) == EST || off(d * DAY) == EDT;
    }
  }

  lemma DayLength(off: Zone, day: int)
    requires EasternRules(off)
    ensures DayStart(off, day + 1) - DayStart(off, day) in {23 * HOUR, 24 * HOUR, 25 * HOUR}
    ensures DayStart(off, day + 1) - DayStart(off, day) == 23 * HOUR <==>
            off(day * DAY) == EST && off((day + 1) * DAY) == EDT
    ensures DayStart(off, day + 1) - DayStart(off, day) == 25 * HOUR <==>
            off(day * DAY) == EDT && off((day + 1) * DAY) == EST
  {
    assert off(day * DAY) == EST || off(day * DAY) == EDT;
    assert off((day + 1) * DAY) == EST || off((day + 1) * DAY) == EDT;
  }

  // ----- wall times

  lemma DateUtcOfDate(c: CivilDate, hour: int, minute: int, second: int)
    requires ValidDate(c) && c.year >= 100
    ensures DateUtc(c.year, c.month - 1, c.day, hour, minute, second)
            == DayOf(c) * DAY + hour * HOUR + minute * MINUTE + second * SECOND
  {
    hide Calendar.MakeDay, Calendar.DayFromYear, Calendar.IsLeap;
  }

  lemma ClockOfLocal(local: int)
    ensures local == local / DAY * DAY + local % DAY / HOUR * HOUR + local % HOUR / MINUTE * MINUTE
                     + local % MINUTE / SECOND * SECOND + local % SECOND
  {
    var d, r := local / DAY, local % DAY;
    assert local == d * DAY + r && 0 <= r < DAY;
    HoursOfDay(local, d, r);
    MinutesOfHour(local, 24 * d + r / HOUR, local % HOUR);
    SecondsOfMinute(local, (24 * d + r / HOUR) * 60 + local % HOUR / MINUTE, local % MINUTE);
  }

  lemma HoursOfDay(x: int, d: int, r: int)
    requires x == d * DAY + r && 0 <= r < DAY
    ensures x % HOUR == r % HOUR && r == r / HOUR * HOUR + x % HOUR
    ensures x == (24 * d + r / HOUR) * HOUR + x % HOUR
  {
  }

  lemma MinutesOfHour(x: int, h: int, r: int)
    requires x == h * HOUR + r && 0 <= r < HOUR
    ensures x % MINUTE == r % MINUTE && r == r / MINUTE * MINUTE + x % MINUTE
    ensures x == (h * 60 + r / MINUTE) * MINUTE + x % MINUTE
  {
  }

  lemma SecondsOfMinute(x: int, m: int, r: int)
    requires x == m * MINUTE + r && 0 <= r < MINUTE
    ensures x % SECOND == r % SECOND && r == r / SECOND * SECOND + x % SECOND
  {
  }

  lemma YearOfCivil(day: int)
    ensures Civil(day).year == YearOf(day)
  {
  }

  /** Formatting an instant and rebuilding it with `Date.UTC` gives its local time, from the year 100 on. */
  lemma UtcOfParts(off: Zone, t: int)
    requires Local(off, t) % SECOND == 0
    requires YearOf(LocalDay(off, t)) >= 100
    ensures var p := FormatParts(off, t);
            DateUtc(p.date.year, p.date.month - 1, p.date.day, p.hour % 24, p.minute, p.second) == Local(off, t)
  {
    hide Calendar.Civil, Calendar.MakeDay, Calendar.DayFromYear, Calendar.YearOf, DateUtc, Calendar.DayOf,
         Calendar.ValidDate;
    var p := FormatParts(off, t);
    YearOfCivil(LocalDay(off, t));
    DateUtcOfDate(p.date, p.hour % 24, p.minute, p.second);
    DayRoundTrip(LocalDay(off, t));
    ClockOfLocal(Local(off, t));
  }

  /** What `campusWallTime` computes: the guess corrected by the offset in force at the guess. */
  lemma WallTimeByGuess(off: Zone, date: CivilDate, hour: int, minute: int)
    requires EasternRules(off)
    requires YearOf(LocalDay(off, Guess(date, hour, minute))) >= 100
    ensures var guess := Guess(date, hour, minute);
            CampusWallTime(off, date, hour, minute) == guess - off(guess)
  {
    hide DateUtc, FormatParts, LocalDay, Calendar.YearOf;
    var guess := Guess(date, hour, minute);
    WholeSeconds(off, date, hour, minute);
    UtcOfParts(off, guess);
  }

  lemma WholeSeconds(off: Zone, date: CivilDate, hour: int, minute: int)
    requires EasternRules(off)
    ensures Local(off, Guess(date, hour, minute)) % SECOND == 0
  {
    hide Calendar.MakeDay, FullYear;
    var guess := Guess(date, hour, minute);
    assert off(guess) == EST || off(guess) == EDT;
    var seconds := MakeDay(FullYear(date.year), date.month - 1, date.day) * 86_400 + hour * 3_600 + minute * 60;
    SecondsOnly(seconds + if off(guess) == EST then -5 * 3_600 else -4 * 3_600);
  }

  lemma SecondsOnly(n: int)
    ensures n * SECOND % SECOND == 0
  {
  }

  // ----- day ranges

  lemma YearFrom(day: int, y: int)
    ensures DayFromYear(y) <= day <==> YearOf(day) >= y
  {
    hide Calendar.DayFromYear, Calendar.YearOf;
    var found := YearOf(day);
    if found >= y { YearsIncrease(y, found); } else { YearsIncrease(found + 1, y); }
  }

  lemma GuessOfMidnight(date: CivilDate)
    ensures Guess(date, 0, 0) == UtcDay(date) * DAY
  {
    hide Calendar.MakeDay, FullYear;
  }

  lemma MidnightIsDayStart(off: Zone, date: CivilDate)
    requires EasternRules(off)
    requires UtcDay(date) > DayFromYear(100)
    ensures CampusMidnight(off, date) == DayStart(off, UtcDay(date))
  {
    hide CampusWallTime, UtcDay, Calendar.DayFromYear, Calendar.YearOf, Guess;
    var day := UtcDay(date);
    GuessOfMidnight(date);
    assert off(day * DAY) == EST || off(day * DAY) == EDT;
    assert LocalDay(off, day * DAY) == day - 1;
    YearFrom(day - 1, 100);
    WallTimeByGuess(off, date, 0, 0);
  }

  lemma UtcDayOfCivil(day: int)
    requires YearOf(day) >= 100
    ensures UtcDay(Civil(day)) == day
  {
    hide Calendar.Civil, Calendar.MakeDay, Calendar.DayFromYear, Calendar.YearOf, Calendar.ValidDate;
    YearOfCivil(day);
    DayRoundTrip(day);
  }

  lemma DayAfter(date: CivilDate)
    ensures MakeDay(FullYear(date.year), date.month - 1, date.day + 1) == UtcDay(date) + 1
  {
    hide FullYear, Calendar.DayFromYear, Calendar.IsLeap;
  }

  /** From 2 January 100 on, the range of an accepted text is the campus day it denotes, and the
      next day's range begins where it ends. */
  lemma RangeIsDayStarts(off: Zone, text: string)
    requires EasternRules(off) && DatePattern(text)
    requires UtcDay(SplitDate(text)) > DayFromYear(100)
    ensures var day := UtcDay(SplitDate(text));
            CampusDayRange(off, text) == Some(Range(DayStart(off, day), DayStart(off, day + 1)))
  {
    hide UtcDay, DatePattern, SplitDate, CampusMidnight, DayStart, Calendar.DayFromYear, Calendar.MakeDay,
         Calendar.Civil, Calendar.YearOf, FullYear;
    var date := SplitDate(text);
    var day := UtcDay(date);
    MidnightIsDayStart(off, date);
    DayAfter(date);
    YearFrom(day + 1, 100);
    UtcDayOfCivil(day + 1);
    MidnightIsDayStart(off, Civil(day + 1));
  }

  ghost predicate IsRangeOfDay(off: Zone, r: Range, day: int) {
    forall t :: InRange(r, t) <==> LocalDay(off, t) == day
  }

  lemma EarlyUtcDay(text: string)
    requires DatePattern(text)
    requires UtcDay(SplitDate(text)) <= DayFromYear(100)
    ensures YearOf(UtcDay(SplitDate(text)) - 1) == 99
  {
    hide DatePattern, SplitDate, Calendar.YearOf, Calendar.DayFromYear, Calendar.IsLeap;
    var date := SplitDate(text);
    SplitFields(text);
    var year := FullYear(date.year);
    assert year >= 100;
    var y := year + (date.month - 1) / 12;
    YearLength(99);
    if y >= 100 { YearsIncrease(100, y); }
    YearFrom(UtcDay(date) - 1, 99);
    YearFrom(UtcDay(date) - 1, 100);
  }

  lemma SplitFields(text: string)
    requires DatePattern(text)
    ensures SplitDate(text).year >= 0 && SplitDate(text).month >= 0 && SplitDate(text).day >= 0
  {
  }

  /** The days by which `Date.UTC` moves a date of the year 99. */
  const SHIFT_DAYS := 693_960

  lemma Year99Shift(c: CivilDate, hour: int, minute: int, second: int)
    requires ValidDate(c) && c.year == 99
    ensures DateUtc(c.year, c.month - 1, c.day, hour, minute, second)
            == DayOf(c) * DAY + hour * HOUR + minute * MINUTE + second * SECOND + SHIFT_DAYS * DAY
  {
    hide Calendar.DayFromYear, Calendar.IsLeap, Calendar.MonthStart, Calendar.DaysInMonth;
    assert FullYear(99) == 1999;
    CommonYears();
  }

  lemma CommonYears()
    ensures !IsLeap(99) && !IsLeap(1999) && DayFromYear(1999) == DayFromYear(99) + SHIFT_DAYS
  {
  }

  /** Where the guess is shown with the year 99, the result is 1900 years too early. */
  lemma EarlyWallTime(off: Zone, date: CivilDate, hour: int, minute: int)
    requires EasternRules(off)
    requires YearOf(LocalDay(off, Guess(date, hour, minute))) == 99
    ensures var guess := Guess(date, hour, minute);
            CampusWallTime(off, date, hour, minute) == guess - off(guess) - SHIFT_DAYS * DAY
  {
    hide DateUtc, Calendar.Civil, Calendar.DayFromYear, Calendar.YearOf, Calendar.ValidDate, Calendar.DayOf, Guess;
    var guess := Guess(date, hour, minute);
    WholeSeconds(off, date, hour, minute);
    var p := FormatParts(off, guess);
    YearOfCivil(LocalDay(off, guess));
    Year99Shift(p.date, p.hour % 24, p.minute, p.second);
    DayRoundTrip(LocalDay(off, guess));
    ClockOfLocal(Local(off, guess));
  }

  lemma EarlyMidnight(off: Zone, text: string)
    requires EasternRules(off) && DatePattern(text)
    requires UtcDay(SplitDate(text)) <= DayFromYear(100)
    ensures CampusMidnight(off, SplitDate(text)) < DayStart(off, UtcDay(SplitDate(text)))
  {
    hide DatePattern, SplitDate, CampusWallTime, UtcDay, Calendar.DayFromYear, Calendar.YearOf, Guess;
    var date := SplitDate(text);
    var guess := UtcDay(date) * DAY;
    GuessOfMidnight(date);
    EarlyUtcDay(text);
    assert off(guess) == EST || off(guess) == EDT;
    assert LocalDay(off, guess) == UtcDay(date) - 1;
    EarlyWallTime(off, date, 0, 0);
  }

  /** The range of an accepted text holds exactly the instants of the day that `Date.UTC` makes of it
      if and only if that day is after 1 January 100. */
  lemma UtcDayRange(off: Zone, text: string)
    requires EasternRules(off) && DatePattern(text)
    ensures var date := SplitDate(text);
            IsRangeOfDay(off, CampusDayRange(off, text).value, UtcDay(date)) <==> UtcDay(date) > DayFromYear(100)
  {
    hide UtcDay, DatePattern, SplitDate, CampusDayRange, DayStart, LocalDay, Calendar.DayFromYear;
    var day := UtcDay(SplitDate(text));
    assert CampusDayRange(off, text).Some? by { PatternGivesRange(off, text); }
    var r := CampusDayRange(off, text).value;
    if day > DayFromYear(100) {
      RangeIsDayStarts(off, text);
      forall t ensures InRange(r, t) <==> LocalDay(off, t) == day { DayBoundaries(off, day, t); }
    } else {
      var first := DayStart(off, day);
      PatternGivesRange(off, text);
      EarlyMidnight(off, text);
      DayBoundaries(off, day, r.start);
      DayBoundaries(off, day, first);
      DayStartsIncrease(off, day);
      assert if r.start < r.end then InRange(r, r.start) else !InRange(r, first);
    }
  }

  lemma UnshiftedDay(c: CivilDate)
    requires c.year >= 100
    ensures UtcDay(c) == NamedDay(c)
  {
  }

  /** In the years 0 to 99 `Date.UTC` makes another day than the one named, about 1900 years later. */
  lemma ShiftedDay(c: CivilDate)
    requires 0 <= c.year <= 99
    ensures UtcDay(c) >= NamedDay(c) + 365 * 1900 - 1
    ensures c.month >= 0 && c.day >= 0 ==> UtcDay(c) > DayFromYear(101)
  {
    hide Calendar.DayFromYear, Calendar.IsLeap;
    var y := c.year + (c.month - 1) / 12;
    assert FullYear(c.year) + (c.month - 1) / 12 == y + 1900;
    YearsIncrease(y, y + 1900);
    if c.month >= 0 { YearsIncrease(101, y + 1900); }
  }

  /** For every accepted text, the range holds exactly the instants of the day that the text names if
      and only if its year is at least 100 and that day is after 1 January 100. */
  lemma DayRangeExact(off: Zone, text: string)
    requires EasternRules(off) && DatePattern(text)
    ensures var date := SplitDate(text);
            IsRangeOfDay(off, CampusDayRange(off, text).value, NamedDay(date))
            <==> date.year >= 100 && NamedDay(date) > DayFromYear(100)
  {
    hide UtcDay, NamedDay, DatePattern, SplitDate, CampusDayRange, DayStart, LocalDay, Calendar.DayFromYear;
    var date := SplitDate(text);
    SplitFields(text);
    UtcDayRange(off, text);
    PatternGivesRange(off, text);
    if date.year >= 100 {
      UnshiftedDay(date);
    } else {
      ShiftedDay(date);
      YearsIncrease(100, 101);
      var first := DayStart(off, UtcDay(date));
      DayStartsIncrease(off, UtcDay(date));
      DayBoundaries(off, UtcDay(date), first);
      assert InRange(CampusDayRange(off, text).value, first);
    }
  }

  /** For the text of a valid date, of any year from 0 to 9999, the range is that date's day exactly
      when the date is after 1 January 100. */
  lemma DateRangeExact(off: Zone, text: string)
    requires EasternRules(off) && DatePattern(text) && ValidDate(SplitDate(text))
    ensures var date := SplitDate(text);
            IsRangeOfDay(off, CampusDayRange(off, text).value, DayOf(date)) <==> DayOf(date) > DayFromYear(100)
  {
    hide DatePattern, SplitDate, CampusDayRange, LocalDay, Calendar.DayFromYear, Calendar.MakeDay, Calendar.IsLeap;
    var date := SplitDate(text);
    DayRangeExact(off, text);
    if date.year < 100 {
      DayOfIsYearDay(date);
      YearLength(date.year);
      YearsIncrease(date.year + 1, 100);
    }
  }

  lemma PatternGivesRange(off: Zone, text: string)
    requires DatePattern(text)
    ensures CampusDayRange(off, text).Some?
    ensures CampusDayRange(off, text).value.start == CampusMidnight(off, SplitDate(text))
  {
    hide DatePattern, SplitDate, CampusMidnight, Calendar.MakeDay, Calendar.Civil;
  }

  lemma DayStartsIncrease(off: Zone, day: int)
    requires EasternRules(off)
    ensures DayStart(off, day) < DayStart(off, day + 1)
  {
    DayLength(off, day);
  }

  // ----- texts of dates

  lemma Pad2Reads(n: nat)
    requires 1 <= n <= 99
    ensures |Pad2(n)| == 2 && AllDigits(Pad2(n)) && ParseDigits(Pad2(n)) == n
  {
    ParseDecimal(n);
    if n < 10 {
      assert Pad2(n)[..1] == "0" && "0"[..0] == [];
      assert Decimal(n)[..0] == [];
    } else {
      assert |Decimal(n / 10)| == 1;
    }
  }

  /** A date's text has the accepted pattern exactly for years of four digits, and then names that date. */
  lemma DateTextPattern(c: CivilDate)
    requires ValidDate(c)
    ensures DatePattern(DateText(c)) <==> 1000 <= c.year <= 9999
    ensures DatePattern(DateText(c)) ==> SplitDate(DateText(c)) == c
  {
    hide Calendar.IsLeap, Calendar.DaysInMonth;
    DaysInMonthRange(c);
    Pad2Reads(c.month);
    Pad2Reads(c.day);
    var text := DateText(c);
    if c.year < 0 {
      assert text[0] == '-';
      assert |text| >= 4 ==> text[..4][0] == '-';
    } else {
      var y := Decimal(c.year);
      FourDigits(c.year);
      ParseDecimal(c.year);
      assert |text| == |y| + 6;
      if |y| == 4 {
        assert text[..4] == y && text[5..7] == Pad2(c.month) && text[8..] == Pad2(c.day);
      }
    }
  }

  lemma DaysInMonthRange(c: CivilDate)
    requires ValidDate(c)
    ensures 1 <= c.month <= 12 && 1 <= c.day <= 31
  {
  }

  /** The day range of an accepted date holds exactly the instants at which the campus clock shows
      that date, so the ranges of consecutive dates tile the timeline across zone changes; each
      lasts 23, 24 or 25 hours. */
  lemma DayRangeIsCampusDate(off: Zone, c: CivilDate)
    requires EasternRules(off)
    requires ValidDate(c) && 1000 <= c.year <= 9999
    ensures DatePattern(DateText(c))
    ensures CampusDayRange(off, DateText(c)).Some?
    ensures var r := CampusDayRange(off, DateText(c)).value;
            && (forall t :: CurrentCampusDate(off, t) == DateText(c) <==> InRange(r, t))
            && r.end - r.start in {23 * HOUR, 24 * HOUR, 25 * HOUR}
            && (c.year < 9999 ==> CampusDayRange(off, DateText(NextDate(c))).Some?
                                  && CampusDayRange(off, DateText(NextDate(c))).value.start == r.end)
  {
    hide DatePattern, SplitDate, CampusDayRange, DateText, LocalDay, DayStart, UtcDay, Calendar.DayFromYear,
         Calendar.ValidDate, Calendar.NextDate, Calendar.DayOf, Calendar.Civil;
    var day := UtcDay(c);
    FourDigitDay(c);
    DateTextPattern(c);
    RangeIsDayStarts(off, DateText(c));
    DayLength(off, day);
    var r := CampusDayRange(off, DateText(c)).value;
    forall t ensures CurrentCampusDate(off, t) == DateText(c) <==> InRange(r, t) {
      DayBoundaries(off, day, t);
      CampusDateIsDay(off, t, c);
    }
    if c.year < 9999 {
      var next := NextDate(c);
      NextYear(c);
      NextDateDay(c);
      FourDigitDay(next);
      DateTextPattern(next);
      RangeIsDayStarts(off, DateText(next));
    }
  }

  lemma NextYear(c: CivilDate)
    requires ValidDate(c)
    ensures c.year <= NextDate(c).year <= c.year + 1
  {
  }

  lemma FourDigitDay(c: CivilDate)
    requires ValidDate(c) && c.year >= 1000
    ensures UtcDay(c) == DayOf(c) > DayFromYear(100)
  {
    YearsIncrease(100, c.year);
  }

  lemma CampusDateIsDay(off: Zone, t: int, c: CivilDate)
    requires ValidDate(c) && 1000 <= c.year <= 9999
    ensures CurrentCampusDate(off, t) == DateText(c) <==> LocalDay(off, t) == UtcDay(c)
  {
    hide DatePattern, SplitDate, LocalDay, DateText, Calendar.Civil, Calendar.DayOf, UtcDay, Calendar.ValidDate;
    FourDigitDay(c);
    DateRoundTrip(c);
    var shown := Civil(LocalDay(off, t));
    DayRoundTrip(LocalDay(off, t));
    DateTextPattern(c);
    DateTextPattern(shown);
  }

  // ----- reading wall times back

  ghost predicate SpringsForward(off: Zone, day: int) {
    ChangesAt(off, day * DAY + 7 * HOUR)
  }

  ghost predicate FallsBack(off: Zone, day: int) {
    ChangesAt(off, day * DAY + 6 * HOUR)
  }

  /** The requested wall clock, as a local time. */
  function Wall(date: CivilDate, hour: int, minute: int): int {
    NamedDay(date) * DAY + hour * HOUR + minute * MINUTE
  }

  /** `Date.UTC` does not shift the guess, and the guess is shown with the year 100 or a later one. */
  predicate FromYear100(off: Zone, date: CivilDate, hour: int, minute: int) {
    date.year >= 100 && LocalDay(off, Wall(date, hour, minute)) >= DayFromYear(100)
  }

  lemma GuessOnDay(date: CivilDate, hour: int, minute: int)
    ensures Guess(date, hour, minute) == UtcDay(date) * DAY + hour * HOUR + minute * MINUTE
    ensures date.year >= 100 ==> Guess(date, hour, minute) == Wall(date, hour, minute)
  {
    hide Calendar.MakeDay;
  }

  lemma WallTimeCorrects(off: Zone, date: CivilDate, hour: int, minute: int)
    requires EasternRules(off) && LocalDay(off, Guess(date, hour, minute)) >= DayFromYear(100)
    ensures var guess := Guess(date, hour, minute);
            CampusWallTime(off, date, hour, minute) == guess - off(guess)
  {
    hide CampusWallTime, Guess, Calendar.DayFromYear, Calendar.YearOf;
    YearFrom(LocalDay(off, Guess(date, hour, minute)), 100);
    WallTimeByGuess(off, date, hour, minute);
  }

  lemma QuietBetween(off: Zone, day: int, u: int)
    requires EasternRules(off) && day * DAY + 6 * HOUR < u < day * DAY + 7 * HOUR
    ensures !ChangesAt(off, u)
  {
    hide ChangesAt, EasternRules;
    TimeOfDay(u, day, u - day * DAY);
    if ChangesAt(off, u) { ChangeHours(off, u); }
  }

  /** A day's change at 06:00 UTC ends daylight time, one at 07:00 begins it. */
  lemma ChangeOfDay(off: Zone, day: int)
    requires EasternRules(off)
    ensures var six, seven := day * DAY + 6 * HOUR, day * DAY + 7 * HOUR;
            && (ChangesAt(off, six) ==> off(six - 1) == EDT && off(six) == EST)
            && (ChangesAt(off, seven) ==> off(seven - 1) == EST && off(seven) == EDT)
  {
    hide ChangesAt, EasternRules;
    var six, seven := day * DAY + 6 * HOUR, day * DAY + 7 * HOUR;
    TimeOfDay(six, day, 6 * HOUR);
    TimeOfDay(seven, day, 7 * HOUR);
    if ChangesAt(off, six) { ChangeHours(off, six); }
    if ChangesAt(off, seven) { ChangeHours(off, seven); }
  }

  /** Offsets around the two change hours of a day, when at most one change happens near it. */
  lemma OffsetsOfDay(off: Zone, day: int, t: int)
    requires EasternRules(off) && ChangesApart(off)
    requires day * DAY <= t < day * DAY + 30 * HOUR
    ensures SpringsForward(off, day) ==> !FallsBack(off, day) && off(t) == if t < day * DAY + 7 * HOUR then EST else EDT
    ensures FallsBack(off, day) ==> !SpringsForward(off, day) && off(t) == if t < day * DAY + 6 * HOUR then EDT else EST
    ensures !SpringsForward(off, day) && !FallsBack(off, day) ==> off(t) == off(day * DAY)
  {
    var six, seven := day * DAY + 6 * HOUR, day * DAY + 7 * HOUR;
    if t < six {
      QuietHours(off, day, day * DAY, t);
    }
    QuietHours(off, day, day * DAY, six - 1);
    forall u | six < u < seven { QuietBetween(off, day, u); }
    OffsetConstant(off, six, seven - 1);
    if six <= t < seven { OffsetConstant(off, six, t); }
    if seven <= t { QuietHours(off, day + 1, seven, t); }
    ChangeOfDay(off, day);
  }

  lemma ReadsBackFromYear100(off: Zone, date: CivilDate, hour: int, minute: int)
    requires EasternRules(off) && ChangesApart(off)
    requires FromYear100(off, date, hour, minute)
    requires 0 <= hour < 24 && 0 <= minute < 60
    ensures var day, wall := NamedDay(date), Wall(date, hour, minute);
            var result := CampusWallTime(off, date, hour, minute);
            && (Local(off, result) == wall <==> !IsLate(off, day, hour) && !IsEarly(off, day, hour))
            && (IsLate(off, day, hour) ==> Local(off, result) == wall + HOUR)
            && (IsEarly(off, day, hour) ==> Local(off, result) == wall - HOUR)
            && (IsLate(off, day, hour) && hour >= 3 ==> Local(off, result - HOUR) == wall)
            && (IsEarly(off, day, hour) ==> Local(off, result + HOUR) == wall)
  {
    hide CampusWallTime, NamedDay, Guess, Calendar.DayFromYear, SpringsForward, FallsBack, EasternRules, ChangesApart;
    var day, wall := NamedDay(date), Wall(date, hour, minute);
    GuessOnDay(date, hour, minute);
    WallTimeCorrects(off, date, hour, minute);
    OffsetsOfDay(off, day, wall);
    EasternOffset(off, wall);
    EasternOffset(off, day * DAY);
    var result := wall - off(wall);
    OffsetsOfDay(off, day, result);
    OffsetsOfDay(off, day, result + HOUR);
    if result - HOUR >= day * DAY { OffsetsOfDay(off, day, result - HOUR); }
  }

  ghost predicate IsLate(off: Zone, day: int, hour: int) {
    SpringsForward(off, day) && 2 <= hour < 7
  }

  ghost predicate IsEarly(off: Zone, day: int, hour: int) {
    FallsBack(off, day) && 2 <= hour < 6
  }

  /** A guess of the years 1900 to 1999 is corrected to within hours of itself, far from the wall
      time of the years 0 to 99 that was asked for. */
  lemma ShiftedWallTime(off: Zone, date: CivilDate, hour: int, minute: int)
    requires EasternRules(off)
    requires 0 <= date.year <= 99 && date.month >= 0 && date.day >= 0
    requires 0 <= hour < 24 && 0 <= minute < 60
    ensures Local(off, CampusWallTime(off, date, hour, minute)) > Wall(date, hour, minute)
  {
    hide CampusWallTime, NamedDay, UtcDay, Guess, Calendar.DayFromYear, EasternRules;
    var guess := Guess(date, hour, minute);
    ShiftedDay(date);
    YearsIncrease(100, 101);
    GuessOnDay(date, hour, minute);
    EasternOffset(off, guess);
    WallTimeCorrects(off, date, hour, minute);
    EasternOffset(off, guess - off(guess));
  }

  /** A guess that is shown with a year before 100 is shown with the year 99. */
  lemma Year99Guess(off: Zone, date: CivilDate, hour: int, minute: int)
    requires EasternRules(off)
    requires date.year >= 100 && date.month >= 0 && date.day >= 0 && hour >= 0 && minute >= 0
    requires !FromYear100(off, date, hour, minute)
    ensures YearOf(LocalDay(off, Guess(date, hour, minute))) == 99
  {
    hide Calendar.YearOf, Calendar.DayFromYear, Calendar.IsLeap, Guess;
    var guess := Guess(date, hour, minute);
    GuessOnDay(date, hour, minute);
    EasternOffset(off, guess);
    var y := date.year + (date.month - 1) / 12;
    YearLength(99);
    if y >= 100 { YearsIncrease(100, y); }
    YearFrom(LocalDay(off, guess), 99);
    YearFrom(LocalDay(off, guess), 100);
  }

  /** `campusWallTime` gives an instant at which the campus clock reads the requested wall time if and
      only if the year is at least 100, the guess is not shown with the year 99, and it is not from
      02:00 to 06:59 on a day that springs forward, when the result is an hour late although from
      03:00 the requested time exists, nor from 02:00 to 05:59 on a day that falls back, when it is an
      hour early.  The fields of a date text carry no sign. */
  lemma WallTimeReadsBack(off: Zone, date: CivilDate, hour: int, minute: int)
    requires EasternRules(off) && ChangesApart(off)
    requires date.year >= 0 && date.month >= 0 && date.day >= 0
    requires 0 <= hour < 24 && 0 <= minute < 60
    ensures var day, wall := NamedDay(date), Wall(date, hour, minute);
            var result := CampusWallTime(off, date, hour, minute);
            var late, early := IsLate(off, day, hour), IsEarly(off, day, hour);
            var plain := FromYear100(off, date, hour, minute);
            && (Local(off, result) == wall <==> plain && !late && !early)
            && (plain && late ==> Local(off, result) == wall + HOUR)
            && (plain && early ==> Local(off, result) == wall - HOUR)
            && (plain && late && hour >= 3 ==> Local(off, result - HOUR) == wall)
            && (plain && early ==> Local(off, result + HOUR) == wall)
  {
    hide CampusWallTime, NamedDay, Guess, EasternRules, ChangesApart, IsLate, IsEarly, FromYear100;
    if FromYear100(off, date, hour, minute) {
      ReadsBackFromYear100(off, date, hour, minute);
    } else if date.year <= 99 {
      ShiftedWallTime(off, date, hour, minute);
    } else {
      Year99Guess(off, date, hour, minute);
      EarlyWallTime(off, date, hour, minute);
      GuessOnDay(date, hour, minute);
      EasternOffset(off, Guess(date, hour, minute));
      EasternOffset(off, CampusWallTime(off, date, hour, minute));
    }
  }

  lemma EasternOffset(off: Zone, t: int)
    requires EasternRules(off)
    ensures off(t) == EST || off(t) == EDT
  {
  }

  /** A wall time that the zone never skips nor repeats near it is read back by exactly one instant. */
  lemma WallTimeUnique(off: Zone, date: CivilDate, hour: int, minute: int, t: int)
    requires EasternRules(off) && ChangesApart(off)
    requires FromYear100(off, date, hour, minute)
    requires 0 <= hour < 24 && 0 <= minute < 60
    requires !SpringsForward(off, NamedDay(date)) && !FallsBack(off, NamedDay(date))
    ensures Local(off, t) == Wall(date, hour, minute) <==> t == CampusWallTime(off, date, hour, minute)
  {
    hide CampusWallTime, NamedDay, Guess, Calendar.DayFromYear, SpringsForward, FallsBack, EasternRules, ChangesApart;
    var day, wall := NamedDay(date), Wall(date, hour, minute);
    GuessOnDay(date, hour, minute);
    WallTimeCorrects(off, date, hour, minute);
    EasternOffset(off, t);
    EasternOffset(off, wall);
    OffsetsOfDay(off, day, wall);
    OffsetsOfDay(off, day, wall - off(wall));
    if Local(off, t) == wall { OffsetsOfDay(off, day, t); }
  }

  /** The rules leave room for a change on any day, in either direction. */
  lemma ChangesExist(day: int)
    ensures exists off: Zone :: EasternRules(off) && ChangesApart(off) && SpringsForward(off, day)
    ensures exists off: Zone :: EasternRules(off) && ChangesApart(off) && FallsBack(off, day)
  {
    var six, seven := day * DAY + 6 * HOUR, day * DAY + 7 * HOUR;
    TimeOfDay(six + EDT, day, 2 * HOUR);
    TimeOfDay(seven + EST, day, 2 * HOUR);
    var spring := OneChange(seven, EST, EDT);
    var fall := OneChange(six, EDT, EST);
    assert EasternRules(spring) && ChangesApart(spring) && SpringsForward(spring, day);
    assert EasternRules(fall) && ChangesApart(fall) && FallsBack(fall, day);
  }

  /** The zone that changes once, at `at`. */
  function OneChange(at: int, before: int, after: int): Zone {
    (t: int) => if t < at then before else after
  }
}
