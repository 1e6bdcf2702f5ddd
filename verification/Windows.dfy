/** Which records fall inside a range of campus days (`dash_mcp/src/service.ts`). */
module Windows {
  import opened Calendar
  import opened Text
  import opened CampusTime

  /** Overlap with the half-open window from `start` to `end`. */
  predicate OverlapsWindow(itemStart: int, itemEnd: int, start: int, end: int) {
    if itemStart >= end then false else itemEnd > start || itemStart >= start
  }

  // ----- windows made of campus days

  /** The last campus day an item touches; an item that does not end after its start has one instant. */
  function LastDay(off: Zone, itemStart: int, itemEnd: int): int {
    LocalDay(off, if itemEnd > itemStart then itemEnd - 1 else itemStart)
  }

  lemma {:induction false} DayStartsOrdered(off: Zone, a: int, b: int)
    requires EasternRules(off) && a <= b
    ensures DayStart(off, a) + (b - a) <= DayStart(off, b)
    decreases b - a
  {
    if a < b {
      DayStartsOrdered(off, a, b - 1);
      DayLength(off, b - 1);
    }
  }

  lemma DayNotBefore(off: Zone, day: int, t: int)
    requires EasternRules(off)
    ensures DayStart(off, day) <= t <==> day <= LocalDay(off, t)
  {
    hide LocalDay, DayStart, EasternRules;
    var shown := LocalDay(off, t);
    DayBoundaries(off, shown, t);
    if day <= shown { DayStartsOrdered(off, day, shown); } else { DayStartsOrdered(off, shown + 1, day); }
  }

  /** An item overlaps the days from `first` up to `last`, exclusive, exactly when it touches one of
      them: it starts before the last is over and its own last day is not before the first.  An item
      that ends at midnight therefore belongs to the day before, and one without length to one day. */
  lemma OverlapsDays(off: Zone, itemStart: int, itemEnd: int, first: int, last: int)
    requires EasternRules(off) && first < last
    ensures OverlapsWindow(itemStart, itemEnd, DayStart(off, first), DayStart(off, last))
            <==> LocalDay(off, itemStart) < last && first <= LastDay(off, itemStart, itemEnd)
  {
    hide LocalDay, DayStart, EasternRules;
    DayNotBefore(off, last, itemStart);
    DayNotBefore(off, first, itemStart);
    DayNotBefore(off, first, itemEnd - 1);
    if itemEnd > itemStart {
      DayNotBefore(off, LocalDay(off, itemStart), itemEnd - 1);
      DayNotBefore(off, LocalDay(off, itemStart), itemStart);
    }
  }

  ghost predicate OverlapsDay(off: Zone, itemStart: int, itemEnd: int, day: int) {
    OverlapsWindow(itemStart, itemEnd, DayStart(off, day), DayStart(off, day + 1))
  }

  lemma DaysOfItem(off: Zone, itemStart: int, itemEnd: int, day: int)
    requires EasternRules(off)
    ensures LocalDay(off, itemStart) <= LastDay(off, itemStart, itemEnd)
    ensures OverlapsDay(off, itemStart, itemEnd, day)
            <==> LocalDay(off, itemStart) <= day <= LastDay(off, itemStart, itemEnd)
  {
    hide LocalDay, DayStart, EasternRules;
    OverlapsDays(off, itemStart, itemEnd, day, day + 1);
    DayNotBefore(off, LocalDay(off, itemStart), itemStart);
    DayNotBefore(off, LocalDay(off, itemStart), itemEnd - 1);
  }

  /** Consecutive days select exactly the items that one of them selects, and an item without length
      is selected by exactly one day, the one the campus clock shows at its start. */
  lemma DaysSelect(off: Zone, itemStart: int, itemEnd: int, first: int, last: int)
    requires EasternRules(off) && first < last
    ensures OverlapsWindow(itemStart, itemEnd, DayStart(off, first), DayStart(off, last))
            <==> exists day :: first <= day < last && OverlapsDay(off, itemStart, itemEnd, day)
    ensures itemEnd <= itemStart ==>
              forall day :: OverlapsDay(off, itemStart, itemEnd, day) <==> day == LocalDay(off, itemStart)
  {
    hide LocalDay, DayStart, EasternRules, OverlapsWindow, OverlapsDay, LastDay;
    var low, high := LocalDay(off, itemStart), LastDay(off, itemStart, itemEnd);
    OverlapsDays(off, itemStart, itemEnd, first, last);
    forall day ensures OverlapsDay(off, itemStart, itemEnd, day) <==> low <= day <= high {
      DaysOfItem(off, itemStart, itemEnd, day);
    }
    DaysOfItem(off, itemStart, itemEnd, first);
    if low < last && first <= high {
      var day := if low < first then first else low;
      assert OverlapsDay(off, itemStart, itemEnd, day);
    }
    if itemEnd <= itemStart { InstantLastDay(off, itemStart, itemEnd); }
  }

  lemma InstantLastDay(off: Zone, itemStart: int, itemEnd: int)
    requires itemEnd <= itemStart
    ensures LastDay(off, itemStart, itemEnd) == LocalDay(off, itemStart)
  {
  }

  /** The window that a first and a last date make. */
  predicate Selects(off: Zone, itemStart: int, itemEnd: int, first: string, last: string) {
    var low, high := CampusDayRange(off, first), CampusDayRange(off, last);
    low.Some? && high.Some? && OverlapsWindow(itemStart, itemEnd, low.value.start, high.value.end)
  }

  predicate FourDigitDate(c: CivilDate) {
    ValidDate(c) && 1000 <= c.year <= 9999
  }

  /** `c` is a date from `first` to `last`. */
  predicate Between(first: CivilDate, c: CivilDate, last: CivilDate) {
    FourDigitDate(c) && FourDigitDate(first) && FourDigitDate(last) && DayOf(first) <= DayOf(c) <= DayOf(last)
  }

  lemma RangeOfDates(off: Zone, itemStart: int, itemEnd: int, first: CivilDate, last: CivilDate)
    requires EasternRules(off) && FourDigitDate(first) && FourDigitDate(last)
    ensures Selects(off, itemStart, itemEnd, DateText(first), DateText(last))
        <==> OverlapsWindow(itemStart, itemEnd, DayStart(off, DayOf(first)), DayStart(off, DayOf(last) + 1))
  {
    hide DateText, CampusDayRange, DatePattern, SplitDate, DayStart, UtcDay, OverlapsWindow, EasternRules,
         Calendar.DayFromYear, Calendar.DayOf, Calendar.ValidDate;
    DateTextPattern(first);
    FourDigitDay(first);
    RangeIsDayStarts(off, DateText(first));
    DateTextPattern(last);
    FourDigitDay(last);
    RangeIsDayStarts(off, DateText(last));
  }

  lemma DateBetween(first: CivilDate, day: int, last: CivilDate)
    requires FourDigitDate(first) && FourDigitDate(last) && DayOf(first) <= day <= DayOf(last)
    ensures Between(first, Civil(day), last) && DayOf(Civil(day)) == day
  {
    hide Calendar.Civil, Calendar.DayOf, Calendar.YearOf, Calendar.DayFromYear;
    DayRoundTrip(day);
    YearOfCivil(day);
    DayInYears(first);
    DayInYears(last);
    YearsIncrease(1000, first.year);
    YearsIncrease(last.year + 1, 10000);
    YearFrom(day, 1000);
    YearFrom(day, 10000);
  }

  lemma DayInYears(c: CivilDate)
    requires ValidDate(c)
    ensures DayFromYear(c.year) <= DayOf(c) < DayFromYear(c.year + 1)
  {
    hide Calendar.DayFromYear;
    DayOfIsYearDay(c);
    YearLength(c.year);
  }

  /** The window from the start of a first date's range to the end of a last date's range selects
      exactly the items that the range of one of the dates between them selects. */
  lemma MultiDayRange(off: Zone, itemStart: int, itemEnd: int, first: CivilDate, last: CivilDate)
    requires EasternRules(off) && Between(first, first, last)
    ensures Selects(off, itemStart, itemEnd, DateText(first), DateText(last))
        <==> exists c :: Between(first, c, last) && Selects(off, itemStart, itemEnd, DateText(c), DateText(c))
  {
    hide Selects, OverlapsWindow, DayStart, DateText, EasternRules, Calendar.DayOf, Calendar.DaysInMonth,
         Calendar.Civil, Calendar.YearOf, Calendar.DayFromYear;
    var low, high := DayOf(first), DayOf(last) + 1;
    RangeOfDates(off, itemStart, itemEnd, first, last);
    DaysSelect(off, itemStart, itemEnd, low, high);
    if c :| Between(first, c, last) && Selects(off, itemStart, itemEnd, DateText(c), DateText(c)) {
      RangeOfDates(off, itemStart, itemEnd, c, c);
      assert OverlapsDay(off, itemStart, itemEnd, DayOf(c));
    }
    if day :| low <= day < high && OverlapsDay(off, itemStart, itemEnd, day) {
      DateBetween(first, day, last);
      RangeOfDates(off, itemStart, itemEnd, Civil(day), Civil(day));
    }
  }

  /** An item without length is selected by exactly one date, the one that the campus clock shows at its start. */
  lemma InstantHasOneDate(off: Zone, itemStart: int, itemEnd: int, c: CivilDate)
    requires EasternRules(off) && FourDigitDate(c) && itemEnd <= itemStart
    ensures Selects(off, itemStart, itemEnd, DateText(c), DateText(c))
        <==> CurrentCampusDate(off, itemStart) == DateText(c)
  {
    hide Selects, DayStart, DateText, EasternRules, Calendar.DayOf, Calendar.DaysInMonth, CurrentCampusDate, LocalDay,
         UtcDay, OverlapsWindow;
    assert OverlapsDay(off, itemStart, itemEnd, DayOf(c))
      <==> OverlapsWindow(itemStart, itemEnd, DayStart(off, DayOf(c)), DayStart(off, DayOf(c) + 1));
    RangeOfDates(off, itemStart, itemEnd, c, c);
    DaysSelect(off, itemStart, itemEnd, DayOf(c), DayOf(c) + 1);
    CampusDateIsDay(off, itemStart, c);
    FourDigitDay(c);
  }

  // ----- live and cached filters

  /** The instant that `new Date(text)` stands for, None for an invalid date. */
  type DateParser = string -> Option<int>

  datatype Record = Record(start: Option<string>, end: Option<string>, published: Option<string>)

  /** A field of a JSON item: absent, a string, or something else. */
  datatype Field = Absent | Str(text: string) | Other

  datatype Item = Item(start: Field, end: Field, published: Field)

  function PublicField(value: Option<string>): Field {
    match value case None => Absent case Some(s) => Str(s)
  }

  /** The date fields of `toPublicRecord`, which drops undefined ones. */
  function ToPublicRecord(r: Record): Item {
    Item(PublicField(r.start), PublicField(r.end), PublicField(r.published))
  }

  function FieldText(f: Field): Option<string> {
    if f.Str? then Some(f.text) else None
  }

  function OrElse(a: Option<string>, b: Option<string>): Option<string> {
    if a.Some? then a else b
  }

  predicate Truthy(value: Option<string>) {
    value.Some? && value.value != ""
  }

  function ParsedEnd(parse: DateParser, value: Option<string>, fallback: int): int {
    if !Truthy(value) then fallback else match parse(value.value) case None => fallback case Some(t) => t
  }

  /** The test inside `filterRange`: an unreadable date is dropped. */
  predicate KeptLive(parse: DateParser, r: Record, start: int, end: int) {
    var value := OrElse(r.start, r.published);
    if !Truthy(value) then true
    else match parse(value.value)
         case None => false
         case Some(date) => OverlapsWindow(date, ParsedEnd(parse, r.end, date), start, end)
  }

  /** The test of the cached path: an unreadable date is kept. */
  predicate RecordOverlapsRange(parse: DateParser, item: Item, start: int, end: int) {
    var rawStart := OrElse(FieldText(item.start), FieldText(item.published));
    if !Truthy(rawStart) then true
    else match parse(rawStart.value)
         case None => true
         case Some(itemStart) =>
           OverlapsWindow(itemStart, ParsedEnd(parse, FieldText(item.end), itemStart), start, end)
  }

  function Kept<T(!new)>(xs: seq<T>, keep: T -> bool): (r: seq<T>)
    ensures forall x :: x in r <==> x in xs && keep(x)
  {
    if xs == [] then [] else (if keep(xs[0]) then [xs[0]] else []) + Kept(xs[1..], keep)
  }

  lemma KeptOne<T(!new)>(x: T, keep: T -> bool)
    ensures Kept([x], keep) == if keep(x) then [x] else []
  {
    assert Kept([x][1..], keep) == [];
  }

  lemma KeptStep<T(!new)>(xs: seq<T>, keep: T -> bool)
    ensures xs == [] ==> Kept(xs, keep) == []
    ensures xs != [] ==> Kept(xs, keep) == (if keep(xs[0]) then [xs[0]] else []) + Kept(xs[1..], keep)
  {
  }

  /** What is kept of two lists in a row is what is kept of the one, then what is kept of the other. */
  lemma {:induction false} KeptSplits<T(!new)>(xs: seq<T>, ys: seq<T>, keep: T -> bool)
    ensures Kept(xs + ys, keep) == Kept(xs, keep) + Kept(ys, keep)
  {
    hide Kept;
    KeptStep(xs, keep);
    if xs == [] {
      assert xs + ys == ys;
    } else {
      assert (xs + ys)[1..] == xs[1..] + ys;
      KeptStep(xs + ys, keep);
      KeptSplits(xs[1..], ys, keep);
    }
  }

  /** None stands for the error thrown on an invalid range. */
  function FilterRange(parse: DateParser, records: seq<Record>, start: Option<int>, end: Option<int>)
    : (r: Option<seq<Record>>)
    ensures r.None? <==> start.None? || end.None?
  {
    if start.None? || end.None? then None
    else Some(Kept(records, r => KeptLive(parse, r, start.value, end.value)))
  }

  /** Nothing is written in the date: the start is empty, or it is missing and the publication date too. */
  predicate Undated(r: Record) {
    r.start == Some("") || (r.start == None && r.published in {None, Some("")})
  }

  /** `s` is the instant of the start, or of the publication if there is no start. */
  ghost predicate StartsAt(parse: DateParser, r: Record, s: int) {
    exists text: string :: text != "" && parse(text) == Some(s)
      && (r.start == Some(text) || (r.start == None && r.published == Some(text)))
  }

  /** `e` is the instant of a readable end, and the start for an end that is missing or cannot be read. */
  ghost predicate EndsAt(parse: DateParser, r: Record, s: int, e: int) {
    || (exists text: string :: text != "" && r.end == Some(text) && parse(text) == Some(e))
    || (e == s && forall text: string :: text != "" && r.end == Some(text) ==> parse(text) == None)
  }

  /** The item runs from `s` to `e` and touches the window, or is an instant of it. */
  ghost predicate Touches(parse: DateParser, r: Record, start: int, end: int) {
    exists s, e :: StartsAt(parse, r, s) && EndsAt(parse, r, s, e) && s < end && (start < e || start <= s)
  }

  /** The live filter keeps a record exactly when it is undated or its item touches the window. */
  lemma KeptLiveExactly(parse: DateParser, r: Record, start: int, end: int)
    ensures KeptLive(parse, r, start, end) <==> Undated(r) || Touches(parse, r, start, end)
  {
    var value := OrElse(r.start, r.published);
    if Truthy(value) && parse(value.value).Some? {
      var s := parse(value.value).value;
      var e := ParsedEnd(parse, r.end, s);
      assert StartsAt(parse, r, s);
      EndIs(parse, r, s, e);
      if OverlapsWindow(s, e, start, end) { assert Touches(parse, r, start, end); }
    }
  }

  lemma EndIs(parse: DateParser, r: Record, s: int, e: int)
    ensures EndsAt(parse, r, s, e) <==> e == ParsedEnd(parse, r.end, s)
  {
    if Truthy(r.end) {
      assert r.end == Some(r.end.value);
    }
  }

  /** A cached item is kept exactly when the record with the strings of its fields is undated, its date
      cannot be read, or its item touches the window. */
  lemma KeptCachedExactly(parse: DateParser, item: Item, r: Record, start: int, end: int)
    requires forall text :: item.start == Str(text) <==> r.start == Some(text)
    requires forall text :: item.end == Str(text) <==> r.end == Some(text)
    requires forall text :: item.published == Str(text) <==> r.published == Some(text)
    ensures RecordOverlapsRange(parse, item, start, end)
            <==> Undated(r) || !DateReadable(parse, r) || Touches(parse, r, start, end)
  {
    KeptLiveExactly(parse, r, start, end);
  }

  predicate DateReadable(parse: DateParser, r: Record) {
    var value := OrElse(r.start, r.published);
    Truthy(value) ==> parse(value.value).Some?
  }

  /** The two filters agree on a record exactly when its date is readable or missing. */
  lemma FiltersAgree(parse: DateParser, r: Record, start: int, end: int)
    ensures KeptLive(parse, r, start, end) == RecordOverlapsRange(parse, ToPublicRecord(r), start, end)
            <==> DateReadable(parse, r)
  {
  }

  function PublicRecords(records: seq<Record>): seq<Item> {
    seq(|records|, i requires 0 <= i < |records| => ToPublicRecord(records[i]))
  }

  /** On lists of records with readable dates the live and the cached filter select the same records in
      the same order. */
  lemma {:induction false} FilteredListsAgree(parse: DateParser, records: seq<Record>, start: int, end: int)
    requires forall i :: 0 <= i < |records| ==> DateReadable(parse, records[i])
    ensures FilterRange(parse, records, Some(start), Some(end)).Some?
    ensures PublicRecords(FilterRange(parse, records, Some(start), Some(end)).value)
            == Kept(PublicRecords(records), item => RecordOverlapsRange(parse, item, start, end))
  {
    var live := r => KeptLive(parse, r, start, end);
    var cached := item => RecordOverlapsRange(parse, item, start, end);
    KeptCorresponds(parse, records, start, end, live, cached);
  }

  lemma {:induction false} KeptCorresponds(parse: DateParser, records: seq<Record>, start: int, end: int,
                                           live: Record -> bool, cached: Item -> bool)
    requires forall i :: 0 <= i < |records| ==> DateReadable(parse, records[i])
    requires forall r :: live(r) == KeptLive(parse, r, start, end)
    requires forall item :: cached(item) == RecordOverlapsRange(parse, item, start, end)
    ensures PublicRecords(Kept(records, live)) == Kept(PublicRecords(records), cached)
  {
    hide KeptLive, RecordOverlapsRange, DateReadable, ToPublicRecord;
    if records != [] {
      KeptCorresponds(parse, records[1..], start, end, live, cached);
      FiltersAgree(parse, records[0], start, end);
      assert PublicRecords(records)[1..] == PublicRecords(records[1..]);
      var head := if live(records[0]) then [records[0]] else [];
      assert PublicRecords(head + Kept(records[1..], live))
          == PublicRecords(head) + PublicRecords(Kept(records[1..], live));
    }
  }
}
