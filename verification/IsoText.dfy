/** Texts of `Date.prototype.toISOString` and the order in which JavaScript compares strings. */
module IsoText {
  import opened Calendar
  import opened Text
  import opened CampusTime

  /** `n` in `width` digits, with leading zeros. */
  function Fixed(n: nat, width: nat): (s: string)
    ensures |s| == width && AllDigits(s)
  {
    if width == 0 then [] else Fixed(n / 10, width - 1) + [Digit(n % 10)]
  }

  function YearText(y: int): string {
    if 0 <= y <= 9999 then Fixed(y, 4) else if y < 0 then "-" + Fixed(-y, 6) else "+" + Fixed(y, 6)
  }

  function ClockText(ms: nat): string {
    Fixed(ms / HOUR, 2) + ":" + Fixed(ms % HOUR / MINUTE, 2) + ":" + Fixed(ms % MINUTE / SECOND, 2) + "."
    + Fixed(ms % SECOND, 3)
  }

  function MonthDayText(c: CivilDate): string
    requires ValidDate(c)
  {
    "-" + Fixed(c.month, 2) + "-" + Fixed(c.day, 2) + "T"
  }

  function Iso(t: int): string {
    var c := Civil(t / DAY);
    YearText(c.year) + MonthDayText(c) + ClockText(t % DAY) + "Z"
  }

  /** Texts of fixed-width fields compare field by field. */
  lemma {:induction false} LexFields(a: string, b: string, c: string, d: string)
    requires |a| == |c|
    ensures LexLess(a + b, c + d) <==> LexLess(a, c) || (a == c && LexLess(b, d))
  {
    if a == [] {
      assert a + b == b && c + d == d;
    } else {
      LexFields(a[1..], b, c[1..], d);
      assert (a + b)[1..] == a[1..] + b && (c + d)[1..] == c[1..] + d;
      assert a == c <==> a[0] == c[0] && a[1..] == c[1..];
    }
  }

  function Power10(width: nat): nat {
    if width == 0 then 1 else 10 * Power10(width - 1)
  }

  lemma {:induction false} FixedOrder(m: nat, n: nat, width: nat)
    requires m < Power10(width) && n < Power10(width)
    ensures LexLess(Fixed(m, width), Fixed(n, width)) <==> m < n
    ensures Fixed(m, width) == Fixed(n, width) <==> m == n
  {
    if width > 0 {
      FixedOrder(m / 10, n / 10, width - 1);
      LexFields(Fixed(m / 10, width - 1), [Digit(m % 10)], Fixed(n / 10, width - 1), [Digit(n % 10)]);
      assert Fixed(m, width)[..width - 1] == Fixed(m / 10, width - 1) && Fixed(m, width)[width - 1] == Digit(m % 10);
      assert Fixed(n, width)[..width - 1] == Fixed(n / 10, width - 1) && Fixed(n, width)[width - 1] == Digit(n % 10);
    }
  }

  lemma {:induction false} FixedField(p: string, m: nat, q: string, n: nat, width: nat)
    requires |p| == |q| && m < Power10(width) && n < Power10(width)
    ensures LexLess(p + Fixed(m, width), q + Fixed(n, width)) <==> LexLess(p, q) || (p == q && m < n)
    ensures p + Fixed(m, width) == q + Fixed(n, width) <==> p == q && m == n
  {
    FixedOrder(m, n, width);
    LexFields(p, Fixed(m, width), q, Fixed(n, width));
    SplitEqual(p, Fixed(m, width), q, Fixed(n, width));
  }

  lemma SplitEqual(p: string, s: string, q: string, t: string)
    requires |p| == |q|
    ensures p + s == q + t <==> p == q && s == t
  {
    assert (p + s)[..|p|] == p && (p + s)[|p|..] == s;
    assert (q + t)[..|q|] == q && (q + t)[|q|..] == t;
  }

  lemma Separator(p: string, q: string, sep: string)
    requires |p| == |q|
    ensures LexLess(p + sep, q + sep) <==> LexLess(p, q)
    ensures p + sep == q + sep <==> p == q
  {
    LexFields(p, sep, q, sep);
    LexTrichotomy(sep, sep);
    SplitEqual(p, sep, q, sep);
  }

  lemma Powers()
    ensures Power10(2) == 100 && Power10(3) == 1000 && Power10(4) == 10_000 && Power10(6) == 1_000_000
  {
  }

  lemma ClockOrder(x: nat, y: nat)
    requires x < DAY && y < DAY
    ensures LexLess(ClockText(x), ClockText(y)) <==> x < y
    ensures ClockText(x) == ClockText(y) <==> x == y
    ensures |ClockText(x)| == |ClockText(y)|
  {
    hide LexLess, Fixed, Power10;
    Powers();
    var a, b := Fixed(x / HOUR, 2), Fixed(y / HOUR, 2);
    FixedOrder(x / HOUR, y / HOUR, 2);
    Separator(a, b, ":");
    FixedField(a + ":", x % HOUR / MINUTE, b + ":", y % HOUR / MINUTE, 2);
    a, b := a + ":" + Fixed(x % HOUR / MINUTE, 2), b + ":" + Fixed(y % HOUR / MINUTE, 2);
    Separator(a, b, ":");
    FixedField(a + ":", x % MINUTE / SECOND, b + ":", y % MINUTE / SECOND, 2);
    a, b := a + ":" + Fixed(x % MINUTE / SECOND, 2), b + ":" + Fixed(y % MINUTE / SECOND, 2);
    Separator(a, b, ".");
    FixedField(a + ".", x % SECOND, b + ".", y % SECOND, 3);
    ClockFields(x);
    ClockFields(y);
  }

  lemma ClockFields(x: nat)
    requires x < DAY
    ensures x == x / HOUR * HOUR + x % HOUR / MINUTE * MINUTE + x % MINUTE / SECOND * SECOND + x % SECOND
  {
    ClockOfLocal(x);
    assert x % HOUR % MINUTE == x % MINUTE;
  }

  function DateIso(c: CivilDate): string
    requires ValidDate(c)
  {
    YearText(c.year) + MonthDayText(c)
  }

  /** Calendar order of dates. */
  predicate DateBefore(a: CivilDate, b: CivilDate) {
    a.year < b.year || (a.year == b.year && (a.month < b.month || (a.month == b.month && a.day < b.day)))
  }

  /** The first character of a year's text: `+` sorts before `-`, and `-` before every digit. */
  function YearClass(y: int): int {
    if y > 9999 then 0 else if y < 0 then 1 else 2
  }

  lemma YearTextOrder(y: int, z: int)
    requires -999_999 <= y <= 999_999 && -999_999 <= z <= 999_999 && YearClass(y) == YearClass(z)
    ensures |YearText(y)| == |YearText(z)| && (YearText(y) == YearText(z) <==> y == z)
    ensures LexLess(YearText(y), YearText(z)) <==> if y < 0 then z < y else y < z
  {
    hide LexLess, Fixed, Power10;
    Powers();
    if 0 <= y <= 9999 {
      FixedOrder(y, z, 4);
    } else if y < 0 {
      FixedField("-", -y, "-", -z, 6);
      LexTrichotomy("-", "-");
    } else {
      FixedField("+", y, "+", z, 6);
      LexTrichotomy("+", "+");
    }
  }

  lemma DateIsoOrder(a: CivilDate, b: CivilDate)
    requires ValidDate(a) && ValidDate(b) && |YearText(a.year)| == |YearText(b.year)|
    requires YearText(a.year) == YearText(b.year) <==> a.year == b.year
    ensures LexLess(DateIso(a), DateIso(b)) <==>
            LexLess(YearText(a.year), YearText(b.year)) || (a.year == b.year && DateBefore(a, b))
    ensures DateIso(a) == DateIso(b) <==> a == b
    ensures |DateIso(a)| == |DateIso(b)|
  {
    hide LexLess, Fixed, Power10, Calendar.ValidDate, YearText;
    Powers();
    DaysInMonthRange(a);
    DaysInMonthRange(b);
    var p, q := YearText(a.year), YearText(b.year);
    Separator(p, q, "-");
    FixedField(p + "-", a.month, q + "-", b.month, 2);
    p, q := p + "-" + Fixed(a.month, 2), q + "-" + Fixed(b.month, 2);
    Separator(p, q, "-");
    FixedField(p + "-", a.day, q + "-", b.day, 2);
    p, q := p + "-" + Fixed(a.day, 2), q + "-" + Fixed(b.day, 2);
    Separator(p, q, "T");
    assert DateIso(a) == p + "T" && DateIso(b) == q + "T";
  }

  lemma DaysFollowDates(i: int, j: int)
    ensures DateBefore(Civil(i), Civil(j)) <==> i < j
    ensures Civil(i) == Civil(j) <==> i == j
  {
    hide Calendar.Civil, Calendar.DayFromYear, Calendar.YearOf;
    DayRoundTrip(i);
    DayRoundTrip(j);
    YearOfCivil(i);
    YearOfCivil(j);
    if Civil(i).year < Civil(j).year { YearsIncrease(YearOf(i) + 1, YearOf(j)); }
    if Civil(j).year < Civil(i).year { YearsIncrease(YearOf(j) + 1, YearOf(i)); }
    MonthStartsIncrease(Civil(i), Civil(j));
    MonthStartsIncrease(Civil(j), Civil(i));
  }

  lemma MonthStartsIncrease(a: CivilDate, b: CivilDate)
    requires ValidDate(a) && ValidDate(b)
    ensures a.year == b.year && (a.month < b.month || (a.month == b.month && a.day < b.day)) ==> DayOf(a) < DayOf(b)
  {
    hide Calendar.DayFromYear;
    MonthLength(a.year, a.month - 1);
  }

  // ----- the order of instants and of their texts

  /** The instants that a `Date` can hold (section 21.4.1.1 of ECMA-262). */
  predicate TimeValue(t: int) {
    -8_640_000_000_000_000 <= t <= 8_640_000_000_000_000
  }

  function Year(t: int): int {
    Civil(t / DAY).year
  }

  lemma YearsOfTimeValues(t: int)
    requires TimeValue(t)
    ensures -999_999 <= Year(t) <= 999_999
  {
    hide Calendar.YearOf, Calendar.Civil;
    YearFrom(t / DAY, -300_000);
    YearFrom(t / DAY, 300_000);
    YearOfCivil(t / DAY);
  }

  lemma SameClassOrder(t: int, u: int)
    requires TimeValue(t) && TimeValue(u) && YearClass(Year(t)) == YearClass(Year(u))
    ensures LexLess(Iso(t), Iso(u)) <==>
            if Year(t) == Year(u) then t < u else if Year(t) < 0 then Year(u) < Year(t) else Year(t) < Year(u)
    ensures Iso(t) == Iso(u) <==> t == u
  {
    hide LexLess, Calendar.Civil, DateIso, ClockText, DateBefore, MonthDayText, YearText, YearClass;
    YearsOfTimeValues(t);
    YearsOfTimeValues(u);
    YearTextOrder(Year(t), Year(u));
    var a, b := Civil(t / DAY), Civil(u / DAY);
    DaysFollowDates(t / DAY, u / DAY);
    DateIsoOrder(a, b);
    ClockOrder(t % DAY, u % DAY);
    LexFields(DateIso(a), ClockText(t % DAY), DateIso(b), ClockText(u % DAY));
    SplitEqual(DateIso(a), ClockText(t % DAY), DateIso(b), ClockText(u % DAY));
    Separator(DateIso(a) + ClockText(t % DAY), DateIso(b) + ClockText(u % DAY), "Z");
    IsoIsDateAndClock(t);
    IsoIsDateAndClock(u);
  }

  lemma IsoIsDateAndClock(t: int)
    ensures Iso(t) == DateIso(Civil(t / DAY)) + ClockText(t % DAY) + "Z"
  {
    hide LexLess, Calendar.Civil, ClockText, MonthDayText, YearText;
  }

  lemma OtherClassOrder(t: int, u: int)
    requires YearClass(Year(t)) != YearClass(Year(u))
    ensures LexLess(Iso(t), Iso(u)) <==> YearClass(Year(t)) < YearClass(Year(u))
  {
    hide Calendar.Civil, MonthDayText, ClockText;
    IsoStarts(t);
    IsoStarts(u);
  }

  lemma IsoStarts(t: int)
    ensures Iso(t) != []
    ensures if Year(t) > 9999 then Iso(t)[0] == '+' else if Year(t) < 0 then Iso(t)[0] == '-' else IsDigit(Iso(t)[0])
  {
    hide Calendar.Civil, MonthDayText, ClockText;
  }

  lemma YearsFollow(t: int, u: int)
    requires t < u
    ensures Year(t) <= Year(u)
  {
    hide Calendar.Civil, Calendar.YearOf, Calendar.DayFromYear;
    YearOfCivil(t / DAY);
    YearOfCivil(u / DAY);
    YearFrom(u / DAY, YearOf(t / DAY));
  }

  /** When the texts of an instant and of a later one sort like the instants: not across the end of the
      year 9999, and not between two different years before 0. */
  predicate TextsInOrder(earlier: int, later: int) {
    && (Year(later) <= 9999 || Year(earlier) > 9999)
    && (Year(later) >= 0 || Year(earlier) == Year(later))
  }

  /** For all instants that a `Date` can hold: different instants have different texts, and the text of
      the earlier one is the smaller if and only if the two are `TextsInOrder`. */
  lemma IsoOrderExact(t: int, u: int)
    requires TimeValue(t) && TimeValue(u) && t < u
    ensures LexLess(Iso(t), Iso(u)) <==> TextsInOrder(t, u)
    ensures LexLess(Iso(u), Iso(t)) <==> !TextsInOrder(t, u)
    ensures Iso(t) != Iso(u)
  {
    hide Iso, LexLess, Year;
    YearsFollow(t, u);
    LexTrichotomy(Iso(t), Iso(u));
    if YearClass(Year(t)) == YearClass(Year(u)) {
      SameClassOrder(t, u);
      SameClassOrder(u, t);
    } else {
      OtherClassOrder(t, u);
      OtherClassOrder(u, t);
    }
  }

  /** Between the years 0 and 9999 comparing texts as strings compares the instants. */
  lemma IsoOrder(t: int, u: int)
    requires TimeValue(t) && TimeValue(u) && 0 <= Year(t) <= 9999 && 0 <= Year(u) <= 9999
    ensures LexLess(Iso(t), Iso(u)) <==> t < u
    ensures Iso(t) == Iso(u) <==> t == u
  {
    hide Iso, LexLess, Year;
    SameClassOrder(t, u);
    if t < u { IsoOrderExact(t, u); }
    if u < t { IsoOrderExact(u, t); }
    LexTrichotomy(Iso(t), Iso(u));
  }

  // ----- reading a text back

  lemma {:induction false} ParseFixed(n: nat, width: nat)
    requires n < Power10(width)
    ensures ParseDigits(Fixed(n, width)) == n
  {
    if width > 0 {
      ParseFixed(n / 10, width - 1);
      assert Fixed(n, width)[..width - 1] == Fixed(n / 10, width - 1);
    }
  }

  /** The part after the year, from its first hyphen to the `Z`. */
  predicate RestPattern(r: string) {
    && |r| == 20
    && r[0] == '-' && r[3] == '-' && r[6] == 'T' && r[9] == ':' && r[12] == ':' && r[15] == '.' && r[19] == 'Z'
    && AllDigits(r[1..3]) && AllDigits(r[4..6]) && AllDigits(r[7..9]) && AllDigits(r[10..12])
    && AllDigits(r[13..15]) && AllDigits(r[16..19])
  }

  function ReadRest(year: int, r: string): int
    requires RestPattern(r)
  {
    MakeDay(year, ParseDigits(r[1..3]) - 1, ParseDigits(r[4..6])) * DAY
    + ParseDigits(r[7..9]) * HOUR + ParseDigits(r[10..12]) * MINUTE + ParseDigits(r[13..15]) * SECOND
    + ParseDigits(r[16..19])
  }

  /** The instant of a text in the date-time string format (section 21.4.1.32 of ECMA-262): four digits
      or a sign and six digits for the year, then the other fields. */
  function ReadIso(text: string): Option<int> {
    var signed := text != [] && text[0] in {'+', '-'};
    var width := if signed then 7 else 4;
    if |text| < width || !AllDigits(text[if signed then 1 else 0..width]) || !RestPattern(text[width..]) then None
    else
      var digits: int := ParseDigits(text[if signed then 1 else 0..width]);
      Some(ReadRest(if text[0] == '-' then -digits else digits, text[width..]))
  }

  function RestText(t: int): string {
    MonthDayText(Civil(t / DAY)) + ClockText(t % DAY) + "Z"
  }

  lemma ReadsMonthDay(c: CivilDate, s: string)
    requires ValidDate(c)
    ensures var r := MonthDayText(c) + s;
            && |r| == 7 + |s| && r[7..] == s
            && r[0] == '-' && r[3] == '-' && r[6] == 'T' && AllDigits(r[1..3]) && AllDigits(r[4..6])
            && ParseDigits(r[1..3]) == c.month && ParseDigits(r[4..6]) == c.day
  {
    hide Fixed, Power10;
    Powers();
    DaysInMonthRange(c);
    ParseFixed(c.month, 2);
    ParseFixed(c.day, 2);
    var r := MonthDayText(c) + s;
    assert r[1..3] == Fixed(c.month, 2) && r[4..6] == Fixed(c.day, 2);
  }

  lemma ReadsClock(ms: nat)
    requires ms < DAY
    ensures var r := ClockText(ms) + "Z";
            && |r| == 13 && r[2] == ':' && r[5] == ':' && r[8] == '.' && r[12] == 'Z'
            && AllDigits(r[..2]) && AllDigits(r[3..5]) && AllDigits(r[6..8]) && AllDigits(r[9..12])
            && ms == ParseDigits(r[..2]) * HOUR + ParseDigits(r[3..5]) * MINUTE + ParseDigits(r[6..8]) * SECOND
                     + ParseDigits(r[9..12])
  {
    hide Fixed, Power10;
    Powers();
    ParseFixed(ms / HOUR, 2);
    ParseFixed(ms % HOUR / MINUTE, 2);
    ParseFixed(ms % MINUTE / SECOND, 2);
    ParseFixed(ms % SECOND, 3);
    ClockFields(ms);
    var r := ClockText(ms) + "Z";
    assert r[..2] == Fixed(ms / HOUR, 2) && r[3..5] == Fixed(ms % HOUR / MINUTE, 2);
    assert r[6..8] == Fixed(ms % MINUTE / SECOND, 2) && r[9..12] == Fixed(ms % SECOND, 3);
  }

  lemma ReadsRest(t: int)
    ensures RestPattern(RestText(t)) && ReadRest(Year(t), RestText(t)) == t
  {
    hide MonthDayText, ClockText, Calendar.Civil, Calendar.MakeDay, ParseDigits;
    var c, clock, r := Civil(t / DAY), ClockText(t % DAY) + "Z", RestText(t);
    assert r == MonthDayText(c) + clock;
    ReadsMonthDay(c, clock);
    ReadsClock(t % DAY);
    assert r[7..9] == clock[..2] && r[10..12] == clock[3..5] && r[13..15] == clock[6..8] && r[16..19] == clock[9..12];
    DayRoundTrip(t / DAY);
  }

  lemma ReadsYear(y: int, r: string)
    requires -999_999 <= y <= 999_999
    ensures var text := YearText(y) + r;
            var signed := y < 0 || y > 9999;
            var first, width := if signed then 1 else 0, if signed then 7 else 4;
            && |text| == width + |r| && text[width..] == r && AllDigits(text[first..width])
            && (text[0] in {'+', '-'} <==> signed) && (text[0] == '-' <==> y < 0)
            && ParseDigits(text[first..width]) == if y < 0 then -y else y
  {
    hide Fixed, Power10;
    Powers();
    var text := YearText(y) + r;
    if 0 <= y <= 9999 {
      ParseFixed(y, 4);
      var digits := Fixed(y, 4);
      assert text[0..4] == digits && text[4..] == r;
      assert IsDigit(digits[0]) && text[0] == digits[0];
    } else {
      var n := if y < 0 then -y else y;
      ParseFixed(n, 6);
      var sign, digits := if y < 0 then '-' else '+', Fixed(n, 6);
      assert YearText(y) == [sign] + digits;
      hide YearText, ParseDigits;
      assert text == [sign] + digits + r;
      assert text[1..7] == digits && text[7..] == r && text[0] == sign;
    }
  }

  /** The text of every instant that a `Date` can hold reads back as that instant. */
  lemma IsoReadsBack(t: int)
    requires TimeValue(t)
    ensures ReadIso(Iso(t)) == Some(t)
  {
    hide YearText, RestPattern, ReadRest, MonthDayText, ClockText, Calendar.Civil, ParseDigits;
    YearsOfTimeValues(t);
    ReadsYear(Year(t), RestText(t));
    ReadsRest(t);
    assert Iso(t) == YearText(Year(t)) + RestText(t);
  }
}
