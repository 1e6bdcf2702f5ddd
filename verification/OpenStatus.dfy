/** Which places are open at an instant, derived from rows of hours in any order (`openStatusByPlace`). */
module OpenStatus {
  import opened Calendar
  import opened Text
  import opened CampusTime
  import opened IsoText
  import opened Sorting

  /** The fields of an hours row that are read: strings, and start and end when they are readable dates. */
  datatype Row = Row(source: Option<string>, category: Option<string>, title: Option<string>,
                     start: Option<int>, end: Option<int>)

  datatype Hours = Hours(title: string, start: string, end: string)

  /** `open` is None for the source's null; times are ISO texts. */
  datatype Entry = Entry(place: string, category: Option<string>, open: Option<bool>, hours: seq<Hours>,
                         closesAt: Option<string>, opensAt: Option<string>)

  function PlaceOf(row: Row): string {
    if row.source.Some? then row.source.value else "Unknown place"
  }

  function EndOf(row: Row): int
    requires row.start.Some?
  {
    if row.end.Some? then row.end.value else row.start.value
  }

  // ----- what a row says about a place

  predicate RowOf(row: Row, place: string) {
    PlaceOf(row) == place
  }

  ghost predicate HasRow(rows: seq<Row>, place: string) {
    exists row :: row in rows && RowOf(row, place)
  }

  predicate TimedRow(row: Row, place: string) {
    RowOf(row, place) && row.start.Some?
  }

  predicate OpenRow(row: Row, place: string, now: int) {
    TimedRow(row, place) && row.start.value <= now < EndOf(row)
  }

  predicate LaterRow(row: Row, place: string, now: int) {
    TimedRow(row, place) && row.start.value > now
  }

  function HoursOf(rows: seq<Row>, place: string): seq<Hours> {
    if rows == [] then []
    else
      var row := rows[|rows| - 1];
      HoursOf(rows[..|rows| - 1], place)
      + if TimedRow(row, place)
        then [Hours(if row.title.Some? then row.title.value else place, Iso(row.start.value), Iso(EndOf(row)))]
        else []
  }

  /** The category in the first row of a place. */
  function CategoryOf(rows: seq<Row>, place: string): Option<string> {
    if rows == [] then None
    else if RowOf(rows[0], place) then rows[0].category
    else CategoryOf(rows[1..], place)
  }

  /** `e` answers for `place` over all the rows: open exactly when a row contains `now`, unknown
      exactly when no row is timed, closing at the greatest end among the rows that contain `now`
      and opening at the least start after it. */
  ghost predicate Describes(e: Entry, place: string, rows: seq<Row>, now: int) {
    && e.place == place
    && e.category == CategoryOf(rows, place)
    && e.hours == HoursOf(rows, place)
    && State(e.open, place, rows, now)
    && Closing(e.closesAt, place, rows, now)
    && Opening(e.opensAt, place, rows, now)
  }

  ghost predicate State(open: Option<bool>, place: string, rows: seq<Row>, now: int) {
    && (open == Some(true) <==> exists row :: row in rows && OpenRow(row, place, now))
    && (open != None <==> exists row :: row in rows && TimedRow(row, place))
  }

  ghost predicate Closing(at: Option<string>, place: string, rows: seq<Row>, now: int) {
    && (at.None? ==> forall row :: row in rows ==> !OpenRow(row, place, now))
    && (at.Some? ==> exists row :: row in rows && OpenRow(row, place, now) && at.value == Iso(EndOf(row)))
    && (at.Some? ==> forall row :: row in rows && OpenRow(row, place, now) ==> !LexLess(at.value, Iso(EndOf(row))))
  }

  ghost predicate Opening(at: Option<string>, place: string, rows: seq<Row>, now: int) {
    && (at.None? ==> forall row :: row in rows ==> !LaterRow(row, place, now))
    && (at.Some? ==> exists row :: row in rows && LaterRow(row, place, now) && at.value == Iso(row.start.value))
    && (at.Some? ==>
          forall row :: row in rows && LaterRow(row, place, now) ==> !LexLess(Iso(row.start.value), at.value))
  }

  // ----- the loop

  function NewEntry(row: Row): Entry {
    Entry(PlaceOf(row), row.category, None, [], None, None)
  }

  /** What the loop body does to the entry of the row's place. */
  function Absorb(e: Entry, row: Row, now: int): Entry {
    if row.start.None? then e
    else
      var start, end := row.start.value, EndOf(row);
      var title := if row.title.Some? then row.title.value else PlaceOf(row);
      var seen := e.(hours := e.hours + [Hours(title, Iso(start), Iso(end))]);
      if start <= now < end then
        seen.(open := Some(true),
              closesAt := if e.closesAt.None? || LexLess(e.closesAt.value, Iso(end)) then Some(Iso(end))
                          else e.closesAt)
      else
        seen.(open := if e.open.None? then Some(false) else e.open,
              opensAt := if start > now && (e.opensAt.None? || LexLess(Iso(start), e.opensAt.value))
                         then Some(Iso(start)) else e.opensAt)
  }

  lemma {:induction false} CategoryExtends(rows: seq<Row>, row: Row, place: string)
    ensures CategoryOf(rows + [row], place)
            == if HasRow(rows, place) then CategoryOf(rows, place)
               else if RowOf(row, place) then row.category else None
  {
    if rows != [] {
      CategoryExtends(rows[1..], row, place);
      assert (rows + [row])[1..] == rows[1..] + [row];
      if !RowOf(rows[0], place) {
        assert rows == [rows[0]] + rows[1..];
        assert HasRow(rows, place) <==> HasRow(rows[1..], place);
      } else {
        assert rows[0] in rows;
      }
    }
  }

  lemma StateExtends(open: Option<bool>, place: string, rows: seq<Row>, row: Row, now: int)
    requires State(open, place, rows, now)
    ensures State(if OpenRow(row, place, now) then Some(true)
                  else if TimedRow(row, place) && open.None? then Some(false) else open, place, rows + [row], now)
  {
    assert row in rows + [row];
    assert forall r :: r in rows + [row] <==> r in rows || r == row;
    if open == Some(true) {
      var r :| r in rows && OpenRow(r, place, now);
      assert r in rows + [row];
    }
    if open == Some(false) {
      var r :| r in rows && TimedRow(r, place);
      assert r in rows + [row];
    }
  }

  lemma ClosingExtends(at: Option<string>, place: string, rows: seq<Row>, row: Row, now: int)
    requires Closing(at, place, rows, now)
    ensures var better := OpenRow(row, place, now) && (at.None? || LexLess(at.value, Iso(EndOf(row))));
            Closing(if better then Some(Iso(EndOf(row))) else at, place, rows + [row], now)
  {
    hide Iso, LexLess;
    assert row in rows + [row];
    assert forall r :: r in rows + [row] <==> r in rows || r == row;
    if OpenRow(row, place, now) && (at.None? || LexLess(at.value, Iso(EndOf(row)))) {
      var best := Iso(EndOf(row));
      forall r | r in rows + [row] && OpenRow(r, place, now) ensures !LexLess(best, Iso(EndOf(r))) {
        LexTrichotomy(best, best);
        if r in rows && LexLess(best, Iso(EndOf(r))) { LexTransitive(at.value, best, Iso(EndOf(r))); }
      }
    } else if at.Some? {
      var r :| r in rows && OpenRow(r, place, now) && at.value == Iso(EndOf(r));
      assert r in rows + [row];
    }
  }

  lemma OpeningExtends(at: Option<string>, place: string, rows: seq<Row>, row: Row, now: int)
    requires Opening(at, place, rows, now)
    ensures var better := LaterRow(row, place, now) && (at.None? || LexLess(Iso(row.start.value), at.value));
            Opening(if better then Some(Iso(row.start.value)) else at, place, rows + [row], now)
  {
    hide Iso, LexLess;
    assert row in rows + [row];
    assert forall r :: r in rows + [row] <==> r in rows || r == row;
    if LaterRow(row, place, now) && (at.None? || LexLess(Iso(row.start.value), at.value)) {
      var best := Iso(row.start.value);
      forall r | r in rows + [row] && LaterRow(r, place, now) ensures !LexLess(Iso(r.start.value), best) {
        LexTrichotomy(best, best);
        if r in rows && LexLess(Iso(r.start.value), best) { LexTransitive(Iso(r.start.value), best, at.value); }
      }
    } else if at.Some? {
      var r :| r in rows && LaterRow(r, place, now) && at.value == Iso(r.start.value);
      assert r in rows + [row];
    }
  }

  /** Absorbing the next row keeps an entry right, and rows of other places do not matter to it. */
  lemma AbsorbDescribes(e: Entry, place: string, rows: seq<Row>, row: Row, now: int)
    requires Describes(e, place, rows, now)
    requires RowOf(row, place) ==> HasRow(rows, place)
    ensures Describes(if RowOf(row, place) then Absorb(e, row, now) else e, place, rows + [row], now)
  {
    hide Closing, Opening, State, Iso, LexLess, HasRow;
    CategoryExtends(rows, row, place);
    if !HasRow(rows, place) { NoCategory(rows, place); }
    assert (rows + [row])[..|rows| + 1 - 1] == rows;
    StateExtends(e.open, place, rows, row, now);
    ClosingExtends(e.closesAt, place, rows, row, now);
    OpeningExtends(e.opensAt, place, rows, row, now);
  }

  lemma {:induction false} NoCategory(rows: seq<Row>, place: string)
    requires !HasRow(rows, place)
    ensures CategoryOf(rows, place) == None
  {
    if rows != [] {
      assert rows[0] in rows;
      NoCategory(rows[1..], place);
    }
  }

  lemma {:induction false} NoHours(rows: seq<Row>, place: string)
    requires !HasRow(rows, place)
    ensures HoursOf(rows, place) == []
  {
    if rows != [] {
      assert rows[|rows| - 1] in rows;
      NoHours(rows[..|rows| - 1], place);
    }
  }

  /** The first row of a place makes an entry that already describes it. */
  lemma NewEntryDescribes(rows: seq<Row>, row: Row, now: int)
    requires !HasRow(rows, PlaceOf(row))
    ensures Describes(Absorb(NewEntry(row), row, now), PlaceOf(row), rows + [row], now)
  {
    hide Closing, Opening, State, Iso, LexLess, HasRow;
    var place := PlaceOf(row);
    CategoryExtends(rows, row, place);
    NoHours(rows, place);
    assert (rows + [row])[..|rows| + 1 - 1] == rows;
    NothingYet(rows, place, now);
    StateExtends(None, place, rows, row, now);
    ClosingExtends(None, place, rows, row, now);
    OpeningExtends(None, place, rows, row, now);
  }

  lemma NothingYet(rows: seq<Row>, place: string, now: int)
    requires !HasRow(rows, place)
    ensures State(None, place, rows, now) && Closing(None, place, rows, now) && Opening(None, place, rows, now)
  {
  }

  // ----- ranking

  /** `localeCompare`: a total order on the texts that occur. */
  type Collation = (string, string) -> int

  ghost predicate TotalCollation(collate: Collation) {
    && (forall a, b :: collate(a, b) == 0 <==> a == b)
    && (forall a, b :: collate(a, b) < 0 <==> collate(b, a) > 0)
    && (forall a, b, c :: collate(a, b) <= 0 && collate(b, c) <= 0 ==> collate(a, c) <= 0)
  }

  function Rank(e: Entry): int {
    if e.open == Some(true) then 0 else if e.opensAt.Some? then 1 else if e.open == Some(false) then 2 else 3
  }

  function OpensText(e: Entry): string {
    if e.opensAt.Some? then e.opensAt.value else ""
  }

  function CompareOpenStatus(collate: Collation, a: Entry, b: Entry): int {
    var byRank := Rank(a) - Rank(b);
    if byRank != 0 then byRank
    else
      var byTime := collate(OpensText(a), OpensText(b));
      if byTime != 0 then byTime else collate(a.place, b.place)
  }

  function Before(collate: Collation): (Entry, Entry) -> bool {
    (a, b) => CompareOpenStatus(collate, a, b) <= 0
  }

  lemma RankingIsTotal(collate: Collation)
    requires TotalCollation(collate)
    ensures TotalPreorder(Before(collate))
    ensures forall a, b :: Before(collate)(a, b) && Before(collate)(b, a) ==> a.place == b.place
  {
    var le := Before(collate);
    forall a, b, c | le(a, b) && le(b, c) ensures le(a, c) {
      BeforeTransitive(collate, a, b, c);
    }
  }

  lemma BeforeTransitive(collate: Collation, a: Entry, b: Entry, c: Entry)
    requires TotalCollation(collate)
    requires CompareOpenStatus(collate, a, b) <= 0 && CompareOpenStatus(collate, b, c) <= 0
    ensures CompareOpenStatus(collate, a, c) <= 0
  {
    assert collate(OpensText(a), OpensText(b)) <= 0 && collate(OpensText(b), OpensText(c)) <= 0
           ==> collate(OpensText(a), OpensText(c)) <= 0;
    if Rank(a) == Rank(b) == Rank(c) && collate(OpensText(a), OpensText(c)) == 0 {
      assert OpensText(a) == OpensText(c);
      assert collate(OpensText(b), OpensText(a)) >= 0 && collate(OpensText(b), OpensText(c)) <= 0;
      assert OpensText(b) == OpensText(a);
    }
  }

  // ----- what the ranking means

  predicate OpenNow(e: Entry) {
    e.open == Some(true)
  }

  predicate OpensLater(e: Entry) {
    e.open != Some(true) && e.opensAt.Some?
  }

  predicate OverForNow(e: Entry) {
    e.open == Some(false) && e.opensAt.None?
  }

  predicate Unknown(e: Entry) {
    e.open == None && e.opensAt.None?
  }

  /** Open places come first, then those that open later, then those that are over, then the unknown
      ones.  Among places of one kind the smaller opening text comes first, where a place without one
      has the empty text, and among equal ones the smaller name. */
  predicate ListedBefore(collate: Collation, a: Entry, b: Entry) {
    && (OpenNow(b) ==> OpenNow(a))
    && (OpensLater(b) ==> OpenNow(a) || OpensLater(a))
    && (OverForNow(b) ==> !Unknown(a))
    && ((OpenNow(a) && OpenNow(b)) || (OpensLater(a) && OpensLater(b)) ==>
          var x, y := if a.opensAt.None? then "" else a.opensAt.value, if b.opensAt.None? then "" else b.opensAt.value;
          collate(x, y) < 0 || (x == y && collate(a.place, b.place) < 0))
    && ((OverForNow(a) && OverForNow(b)) || (Unknown(a) && Unknown(b)) ==> collate(a.place, b.place) < 0)
  }

  lemma AnswerIsListed(entries: seq<Entry>, rows: seq<Row>, now: int, collate: Collation)
    requires TotalCollation(collate) && IsOpenStatus(entries, rows, now, collate)
    ensures forall i, j :: 0 <= i < j < |entries| ==> ListedBefore(collate, entries[i], entries[j])
  {
    hide Describes, HasRow;
    var place := (e: Entry) => e.place;
    forall i, j | 0 <= i < j < |entries| ensures ListedBefore(collate, entries[i], entries[j]) {
      assert place(entries[i]) != place(entries[j]);
      assert Before(collate)(entries[i], entries[j]);
      BeforeIsListed(collate, entries[i], entries[j]);
    }
  }

  lemma BeforeIsListed(collate: Collation, a: Entry, b: Entry)
    requires TotalCollation(collate) && CompareOpenStatus(collate, a, b) <= 0 && a.place != b.place
    ensures ListedBefore(collate, a, b)
  {
    KnownStates(a.open);
    KnownStates(b.open);
  }

  // ----- the answer

  ghost predicate DistinctPlaces(entries: seq<Entry>) {
    DistinctBy((e: Entry) => e.place, entries)
  }

  /** One entry for each place that has a row, each right over all rows. */
  ghost predicate Answers(entries: seq<Entry>, rows: seq<Row>, now: int) {
    && DistinctPlaces(entries)
    && (forall e :: e in entries ==> HasRow(rows, e.place) && Describes(e, e.place, rows, now))
    && (forall row :: row in rows ==> Listed(entries, PlaceOf(row)))
  }

  ghost predicate Listed(entries: seq<Entry>, place: string) {
    exists e :: e in entries && e.place == place
  }

  ghost predicate IsOpenStatus(entries: seq<Entry>, rows: seq<Row>, now: int, collate: Collation) {
    Answers(entries, rows, now) && SortedBy(Before(collate), entries)
  }

  /** The map built by the loop and the order in which its keys were added. */
  ghost predicate Collected(byPlace: map<string, Entry>, order: seq<string>, rows: seq<Row>, now: int) {
    && (forall p :: p in order <==> p in byPlace)
    && DistinctBy((p: string) => p, order)
    && (forall p :: p in byPlace <==> HasRow(rows, p))
    && (forall p :: p in byPlace ==> Describes(byPlace[p], p, rows, now))
  }

  lemma CollectRow(byPlace: map<string, Entry>, order: seq<string>, rows: seq<Row>, row: Row, now: int)
    requires Collected(byPlace, order, rows, now)
    ensures var place := PlaceOf(row);
            var entry := if place in byPlace then byPlace[place] else NewEntry(row);
            Collected(byPlace[place := Absorb(entry, row, now)], if place in byPlace then order else order + [place],
                      rows + [row], now)
  {
    hide Describes, HasRow, Absorb, NewEntry;
    var place := PlaceOf(row);
    PlacesExtend(rows, row);
    forall p | p in byPlace
      ensures Describes(if RowOf(row, p) then Absorb(byPlace[p], row, now) else byPlace[p], p, rows + [row], now)
    {
      AbsorbDescribes(byPlace[p], p, rows, row, now);
    }
    if place !in byPlace { NewEntryDescribes(rows, row, now); }
  }

  method OpenStatusByPlace(rows: seq<Row>, now: int, collate: Collation) returns (entries: seq<Entry>)
    requires TotalCollation(collate)
    ensures IsOpenStatus(entries, rows, now, collate)
    ensures forall i, j :: 0 <= i < j < |entries| ==> ListedBefore(collate, entries[i], entries[j])
  {
    hide Collected, IsOpenStatus, TotalCollation, ListedBefore;
    var byPlace: map<string, Entry> := map[];
    var order: seq<string> := [];
    NothingCollected(now);
    for i := 0 to |rows|
      invariant Collected(byPlace, order, rows[..i], now)
    {
      var row := rows[i];
      var place := PlaceOf(row);
      CollectRow(byPlace, order, rows[..i], row, now);
      assert rows[..i + 1] == rows[..i] + [row];
      var entry := if place in byPlace then byPlace[place] else NewEntry(row);
      if place !in byPlace {
        order := order + [place];
      }
      byPlace := byPlace[place := Absorb(entry, row, now)];
    }
    assert rows[..|rows|] == rows;
    CollectedValues(byPlace, order, rows, now);
    var values := Values(byPlace, order);
    entries := SortBy(Before(collate), values);
    SortedAnswer(values, rows, now, collate);
    AnswerIsListed(entries, rows, now, collate);
  }

  function Values(byPlace: map<string, Entry>, order: seq<string>): (values: seq<Entry>)
    requires forall p :: p in order ==> p in byPlace
  {
    seq(|order|, k requires 0 <= k < |order| => byPlace[order[k]])
  }

  lemma NothingCollected(now: int)
    ensures Collected(map[], [], [], now)
  {
  }

  lemma CollectedValues(byPlace: map<string, Entry>, order: seq<string>, rows: seq<Row>, now: int)
    requires Collected(byPlace, order, rows, now)
    ensures forall p :: p in order ==> p in byPlace
    ensures Answers(Values(byPlace, order), rows, now)
  {
    hide HasRow, Describes, Listed;
    var values := Values(byPlace, order);
    forall k | 0 <= k < |order|
      ensures HasRow(rows, order[k]) && Describes(values[k], order[k], rows, now) && values[k].place == order[k]
    {
      assert order[k] in order;
      DescribedPlace(values[k], order[k], rows, now);
    }
    forall row | row in rows ensures Listed(values, PlaceOf(row)) {
      RowHas(rows, row);
      var k :| 0 <= k < |order| && order[k] == PlaceOf(row);
      ListedAt(values, k);
    }
  }

  lemma DescribedPlace(e: Entry, place: string, rows: seq<Row>, now: int)
    requires Describes(e, place, rows, now)
    ensures e.place == place
  {
  }

  lemma ListedAt(entries: seq<Entry>, k: nat)
    requires k < |entries|
    ensures Listed(entries, entries[k].place)
  {
    assert entries[k] in entries;
  }

  lemma RowHas(rows: seq<Row>, row: Row)
    requires row in rows
    ensures HasRow(rows, PlaceOf(row))
  {
    assert RowOf(row, PlaceOf(row));
  }

  lemma SortedAnswer(values: seq<Entry>, rows: seq<Row>, now: int, collate: Collation)
    requires TotalCollation(collate) && Answers(values, rows, now)
    ensures IsOpenStatus(SortBy(Before(collate), values), rows, now, collate)
  {
    hide Describes, HasRow, TotalCollation, SortBy, Before;
    var entries := SortBy(Before(collate), values);
    RankingIsTotal(collate);
    SortBySorted(Before(collate), values);
    SameElements(entries, values);
    PermutationDistinct((e: Entry) => e.place, values, entries);
    forall row | row in rows ensures Listed(entries, PlaceOf(row)) {
      var e :| e in values && e.place == PlaceOf(row);
      assert e in entries;
    }
  }

  lemma PlacesExtend(rows: seq<Row>, row: Row)
    ensures forall p :: HasRow(rows + [row], p) <==> p == PlaceOf(row) || HasRow(rows, p)
  {
    forall p ensures HasRow(rows + [row], p) <==> p == PlaceOf(row) || HasRow(rows, p) {
      assert row in rows + [row];
      if r :| r in rows && RowOf(r, p) { assert r in rows + [row]; }
    }
  }

  // ----- the order of the rows does not matter

  datatype Summary = Summary(place: string, open: Option<bool>, closesAt: Option<string>, opensAt: Option<string>)

  function Summarize(e: Entry): Summary {
    Summary(e.place, e.open, e.closesAt, e.opensAt)
  }

  function Summaries(entries: seq<Entry>): seq<Summary> {
    seq(|entries|, i requires 0 <= i < |entries| => Summarize(entries[i]))
  }

  lemma ClosingDetermined(x: Option<string>, y: Option<string>, place: string,
                          rows: seq<Row>, others: seq<Row>, now: int)
    requires forall row :: row in rows <==> row in others
    requires Closing(x, place, rows, now) && Closing(y, place, others, now)
    ensures x == y
  {
    hide Iso, LexLess;
    if x.Some? && y.Some? { LexTrichotomy(x.value, y.value); }
  }

  lemma OpeningDetermined(x: Option<string>, y: Option<string>, place: string,
                          rows: seq<Row>, others: seq<Row>, now: int)
    requires forall row :: row in rows <==> row in others
    requires Opening(x, place, rows, now) && Opening(y, place, others, now)
    ensures x == y
  {
    hide Iso, LexLess;
    if x.Some? && y.Some? { LexTrichotomy(x.value, y.value); }
  }

  lemma KnownStates(open: Option<bool>)
    ensures open == None || open == Some(true) || open == Some(false)
  {
    if open.Some? { assert open == if open.value then Some(true) else Some(false); }
  }

  lemma StateDetermined(x: Option<bool>, y: Option<bool>, place: string, rows: seq<Row>, others: seq<Row>, now: int)
    requires forall row :: row in rows <==> row in others
    requires State(x, place, rows, now) && State(y, place, others, now)
    ensures x == y
  {
    KnownStates(x);
    KnownStates(y);
    if x == Some(true) || y == Some(true) {
      var row :| row in rows && OpenRow(row, place, now);
      assert row in others;
    } else if x == Some(false) || y == Some(false) {
      var row :| row in rows && TimedRow(row, place);
      assert row in others;
    }
  }

  lemma SummaryDetermined(d: Entry, e: Entry, rows: seq<Row>, others: seq<Row>, now: int)
    requires forall row :: row in rows <==> row in others
    requires d.place == e.place && Describes(d, d.place, rows, now) && Describes(e, e.place, others, now)
    ensures Summarize(d) == Summarize(e)
  {
    hide Iso, LexLess, Closing, Opening, State;
    StateDetermined(d.open, e.open, d.place, rows, others, now);
    ClosingDetermined(d.closesAt, e.closesAt, d.place, rows, others, now);
    OpeningDetermined(d.opensAt, e.opensAt, d.place, rows, others, now);
  }

  function BeforeSummary(collate: Collation): (Summary, Summary) -> bool {
    (a: Summary, b: Summary) =>
      CompareOpenStatus(collate, Entry(a.place, None, a.open, [], a.closesAt, a.opensAt),
                        Entry(b.place, None, b.open, [], b.closesAt, b.opensAt)) <= 0
  }

  lemma SummariesSorted(entries: seq<Entry>, collate: Collation)
    requires TotalCollation(collate) && DistinctPlaces(entries) && SortedBy(Before(collate), entries)
    ensures StrictlySorted(BeforeSummary(collate), Summaries(entries))
  {
    RankingIsTotal(collate);
    var s, lt := Summaries(entries), BeforeSummary(collate);
    forall i, j | 0 <= i < j < |s| ensures lt(s[i], s[j]) && !lt(s[j], s[i]) && s[i] != s[j] {
      assert Before(collate)(entries[i], entries[j]);
      assert lt(s[i], s[j]) == Before(collate)(entries[i], entries[j]);
      assert lt(s[j], s[i]) == Before(collate)(entries[j], entries[i]);
    }
  }

  lemma SummaryFound(a: Entry, e: seq<Entry>, rows: seq<Row>, others: seq<Row>, now: int, collate: Collation)
    requires forall row :: row in rows <==> row in others
    requires HasRow(rows, a.place) && Describes(a, a.place, rows, now)
    requires IsOpenStatus(e, others, now, collate)
    ensures Summarize(a) in Summaries(e)
  {
    hide Describes, DistinctPlaces, SortedBy;
    var row :| row in rows && RowOf(row, a.place);
    var x :| x in e && x.place == PlaceOf(row);
    var j :| 0 <= j < |e| && e[j] == x;
    SummaryDetermined(a, x, rows, others, now);
    assert Summaries(e)[j] == Summarize(a);
  }

  lemma SummariesCovered(d: seq<Entry>, e: seq<Entry>, rows: seq<Row>, others: seq<Row>, now: int, collate: Collation)
    requires forall row :: row in rows <==> row in others
    requires IsOpenStatus(d, rows, now, collate) && IsOpenStatus(e, others, now, collate)
    ensures forall s :: s in Summaries(d) ==> s in Summaries(e)
  {
    hide Describes, DistinctPlaces, SortedBy;
    forall i | 0 <= i < |d| ensures Summarize(d[i]) in Summaries(e) {
      assert d[i] in d;
      SummaryFound(d[i], e, rows, others, now, collate);
    }
  }

  /** Places, states, times and their ranking are the same for every order of the rows. */
  lemma RowOrderIrrelevant(d: seq<Entry>, e: seq<Entry>, rows: seq<Row>, others: seq<Row>, now: int, collate: Collation)
    requires TotalCollation(collate)
    requires multiset(rows) == multiset(others)
    requires IsOpenStatus(d, rows, now, collate) && IsOpenStatus(e, others, now, collate)
    ensures Summaries(d) == Summaries(e)
  {
    SameElements(rows, others);
    SummariesCovered(d, e, rows, others, now, collate);
    SummariesCovered(e, d, others, rows, now, collate);
    SummariesSorted(d, collate);
    SummariesSorted(e, collate);
    StrictlySortedUnique(BeforeSummary(collate), Summaries(d), Summaries(e));
  }

  // ----- the texts and the instants they stand for

  /** `row` contains the instant and ends no earlier than any other row of its place that does. */
  ghost predicate IsLastEnd(row: Row, place: string, rows: seq<Row>, now: int) {
    row in rows && OpenRow(row, place, now)
    && forall r :: r in rows && OpenRow(r, place, now) ==> EndOf(r) <= EndOf(row)
  }

  /** `row` starts after the instant and no later than any other row of its place that does. */
  ghost predicate IsNextStart(row: Row, place: string, rows: seq<Row>, now: int) {
    row in rows && LaterRow(row, place, now)
    && forall r :: r in rows && LaterRow(r, place, now) ==> row.start.value <= r.start.value
  }

  /** The dates of the place's rows are dates that a `Date` can hold. */
  ghost predicate HeldDates(rows: seq<Row>, place: string) {
    forall r :: r in rows && TimedRow(r, place) ==> TimeValue(r.start.value) && TimeValue(EndOf(r))
  }

  /** `closes_at` is the text of the greatest end among the rows that contain the instant if and only
      if every smaller end among them has its text in order with that one. */
  lemma ClosesAtExact(e: Entry, rows: seq<Row>, now: int, last: Row)
    requires Describes(e, e.place, rows, now) && HeldDates(rows, e.place)
    requires IsLastEnd(last, e.place, rows, now)
    ensures e.closesAt == Some(Iso(EndOf(last))) <==>
            forall r :: r in rows && OpenRow(r, e.place, now) && EndOf(r) < EndOf(last)
              ==> TextsInOrder(EndOf(r), EndOf(last))
  {
    hide Iso, LexLess, TextsInOrder, TimeValue, EndOf, State, Opening;
    forall r | r in rows && OpenRow(r, e.place, now) && EndOf(r) < EndOf(last) {
      IsoOrderExact(EndOf(r), EndOf(last));
    }
  }

  /** `opens_at` is the text of the least start after the instant if and only if every other later
      start has its text in order with that one. */
  lemma OpensAtExact(e: Entry, rows: seq<Row>, now: int, next: Row)
    requires Describes(e, e.place, rows, now) && HeldDates(rows, e.place)
    requires IsNextStart(next, e.place, rows, now)
    ensures e.opensAt == Some(Iso(next.start.value)) <==>
            forall r :: r in rows && LaterRow(r, e.place, now) && next.start.value < r.start.value
              ==> TextsInOrder(next.start.value, r.start.value)
  {
    hide Iso, LexLess, TextsInOrder, TimeValue, EndOf, State, Closing;
    forall r | r in rows && LaterRow(r, e.place, now) && next.start.value < r.start.value {
      IsoOrderExact(next.start.value, r.start.value);
    }
  }

  /** There is such a row as soon as one row contains the instant, or starts later. */
  lemma {:induction false} ExtremesExist(rows: seq<Row>, place: string, now: int)
    ensures (exists r :: r in rows && OpenRow(r, place, now)) ==> exists r :: IsLastEnd(r, place, rows, now)
    ensures (exists r :: r in rows && LaterRow(r, place, now)) ==> exists r :: IsNextStart(r, place, rows, now)
  {
    hide OpenRow, LaterRow, EndOf;
    if rows != [] {
      ExtremesExist(rows[1..], place, now);
      LastEndOfMore(rows, place, now);
      NextStartOfMore(rows, place, now);
    }
  }

  lemma LastEndOfMore(rows: seq<Row>, place: string, now: int)
    requires rows != []
    requires (exists r :: r in rows[1..] && OpenRow(r, place, now)) ==> exists r :: IsLastEnd(r, place, rows[1..], now)
    ensures (exists r :: r in rows && OpenRow(r, place, now)) ==> exists r :: IsLastEnd(r, place, rows, now)
  {
    assert forall r :: r in rows <==> r == rows[0] || r in rows[1..];
    if r :| IsLastEnd(r, place, rows[1..], now) {
      var best := if OpenRow(rows[0], place, now) && EndOf(rows[0]) > EndOf(r) then rows[0] else r;
      assert IsLastEnd(best, place, rows, now);
    } else if OpenRow(rows[0], place, now) {
      assert IsLastEnd(rows[0], place, rows, now);
    }
  }

  lemma NextStartOfMore(rows: seq<Row>, place: string, now: int)
    requires rows != []
    requires (exists r :: r in rows[1..] && LaterRow(r, place, now)) ==>
               exists r :: IsNextStart(r, place, rows[1..], now)
    ensures (exists r :: r in rows && LaterRow(r, place, now)) ==> exists r :: IsNextStart(r, place, rows, now)
  {
    assert forall r :: r in rows <==> r == rows[0] || r in rows[1..];
    if r :| IsNextStart(r, place, rows[1..], now) {
      var best := if LaterRow(rows[0], place, now) && rows[0].start.value < r.start.value then rows[0] else r;
      assert IsNextStart(best, place, rows, now);
    } else if LaterRow(rows[0], place, now) {
      assert IsNextStart(rows[0], place, rows, now);
    }
  }

  // ----- two rows around the end of the year 9999

  const YEAR_10000 := 253_402_300_800_000

  lemma AroundYear10000()
    ensures Year(EARLIER) == 9999 && Year(LATER) == 10000 && EARLIER < LATER
    ensures !TextsInOrder(EARLIER, LATER)
  {
    YearOfIs(EARLIER / DAY, 9999);
    YearOfIs(LATER / DAY, 10000);
    YearOfCivil(EARLIER / DAY);
    YearOfCivil(LATER / DAY);
  }

  const EARLIER := YEAR_10000 - HOUR
  const LATER := YEAR_10000 + 5 * HOUR - SECOND

  function HoursRow(start: int, end: int): Row {
    Row(Some("Library"), None, None, Some(start), Some(end))
  }

  const TWO_ENDS := [HoursRow(0, EARLIER), HoursRow(0, LATER)]
  const TWO_STARTS := [HoursRow(EARLIER, EARLIER), HoursRow(LATER, LATER)]

  lemma TwoRows()
    ensures OpenRow(TWO_ENDS[0], "Library", 0) && IsLastEnd(TWO_ENDS[1], "Library", TWO_ENDS, 0)
    ensures LaterRow(TWO_STARTS[1], "Library", 0) && IsNextStart(TWO_STARTS[0], "Library", TWO_STARTS, 0)
    ensures HeldDates(TWO_ENDS, "Library") && HeldDates(TWO_STARTS, "Library")
    ensures TWO_ENDS[0] in TWO_ENDS && TWO_STARTS[1] in TWO_STARTS
    ensures EndOf(TWO_ENDS[0]) == EARLIER < EndOf(TWO_ENDS[1]) == LATER
    ensures TWO_STARTS[0].start.value == EARLIER && TWO_STARTS[1].start.value == LATER
    ensures PlaceOf(TWO_ENDS[0]) == PlaceOf(TWO_STARTS[0]) == "Library"
  {
  }

  lemma OneOfTwo(e: Entry)
    ensures Describes(e, "Library", TWO_ENDS, 0) ==> e.closesAt in {Some(Iso(EARLIER)), Some(Iso(LATER))}
    ensures Describes(e, "Library", TWO_STARTS, 0) ==> e.opensAt in {Some(Iso(EARLIER)), Some(Iso(LATER))}
  {
    hide Iso, LexLess, State, CategoryOf, HoursOf;
    TwoRows();
    assert forall r :: r in TWO_ENDS ==> EndOf(r) in {EARLIER, LATER};
    assert forall r :: r in TWO_STARTS ==> r.start.value in {EARLIER, LATER};
  }

  /** Two rows that contain the instant, one until 31 December 9999 and one until 23:59:59 of that day
      in New York: the answer is the smaller end. */
  lemma ClosesAtFails(entries: seq<Entry>, collate: Collation)
    requires IsOpenStatus(entries, TWO_ENDS, 0, collate)
    ensures exists e :: e in entries && e.place == "Library" && e.closesAt == Some(Iso(EARLIER)) != Some(Iso(LATER))
    ensures IsLastEnd(TWO_ENDS[1], "Library", TWO_ENDS, 0) && EndOf(TWO_ENDS[1]) == LATER
  {
    hide *;
    TwoRows();
    AroundYear10000();
    var e := EntryOf(entries, TWO_ENDS, 0, collate);
    OneOfTwo(e);
    ClosesAtExact(e, TWO_ENDS, 0, TWO_ENDS[1]);
  }

  /** The same two instants as starts: the answer is the later one. */
  lemma OpensAtFails(entries: seq<Entry>, collate: Collation)
    requires IsOpenStatus(entries, TWO_STARTS, 0, collate)
    ensures exists e :: e in entries && e.place == "Library" && e.opensAt == Some(Iso(LATER)) != Some(Iso(EARLIER))
    ensures IsNextStart(TWO_STARTS[0], "Library", TWO_STARTS, 0) && TWO_STARTS[0].start.value == EARLIER
  {
    hide *;
    TwoRows();
    AroundYear10000();
    var e := EntryOf(entries, TWO_STARTS, 0, collate);
    OneOfTwo(e);
    OpensAtExact(e, TWO_STARTS, 0, TWO_STARTS[0]);
  }

  lemma EntryOf(entries: seq<Entry>, rows: seq<Row>, now: int, collate: Collation) returns (e: Entry)
    requires rows != [] && IsOpenStatus(entries, rows, now, collate)
    ensures e in entries && e.place == PlaceOf(rows[0]) && Describes(e, e.place, rows, now)
  {
    assert rows[0] in rows;
    e :| e in entries && e.place == PlaceOf(rows[0]);
  }
}
