/** Instants of train departures, whose clock times come without a date. */
module Departures {
  import opened Calendar
  import opened Text
  import opened CampusTime

  const HALF_DAY := DAY / 2

  /** The fields matched in `orig_departure_time`: up to two digits, two digits, and A or P. */
  datatype Clock = Clock(hour: nat, minute: nat, pm: bool)

  function Hour24(c: Clock): (h: int)
    ensures 0 <= h < 24
  {
    c.hour % 12 + if c.pm then 12 else 0
  }

  function Scheduled(off: Zone, c: Clock, observedAt: int): int {
    CampusWallTime(off, Civil(LocalDay(off, observedAt)), Hour24(c), c.minute)
  }

  function Rollover(offset: int): int {
    if offset < -HALF_DAY then DAY else if offset > HALF_DAY then -DAY else 0
  }

  /** None stands for a time that does not have the clock format. */
  function DepartureInstant(off: Zone, clock: Option<Clock>, delayMinutes: nat, observedAt: int): Option<int> {
    match clock
    case None => None
    case Some(c) =>
      var scheduled := Scheduled(off, c, observedAt);
      Some(scheduled + Rollover(scheduled - observedAt) + delayMinutes * MINUTE)
  }

  /** `hour` is the hour of the day that the printed clock names: the half of the day is the letter's,
      and within it the printed hour counts from 12 as 0. */
  predicate PrintedHour(c: Clock, hour: int) {
    0 <= hour < 24 && (hour - c.hour) % 12 == 0 && (c.pm <==> hour >= 12)
  }

  /** The hours of a twelve-hour clock. */
  lemma PrintedHours(c: Clock, hour: int)
    requires 1 <= c.hour <= 12
    ensures PrintedHour(c, hour) <==>
            hour == if c.hour == 12 then (if c.pm then 12 else 0) else if c.pm then c.hour + 12 else c.hour
  {
  }

  lemma Hour24IsPrinted(c: Clock, hour: int)
    ensures PrintedHour(c, hour) <==> hour == Hour24(c)
  {
    var r := c.hour % 12;
    assert (r - c.hour) % 12 == 0 && (r + 12 - c.hour) % 12 == 0;
    if PrintedHour(c, hour) { assert hour % 12 == r; }
  }

  /** The local clock reads the hour and the minute at `t`; a printed minute above 59 runs into the next hour. */
  ghost predicate ReadsClock(off: Zone, t: int, hour: int, minute: int) {
    (Local(off, t) - hour * HOUR - minute * MINUTE) % DAY == 0
  }

  /** The clock time on the campus date of the observation, as if in UTC. */
  function PrintedGuess(off: Zone, hour: int, minute: int, observedAt: int): int {
    LocalDay(off, observedAt) * DAY + hour * HOUR + minute * MINUTE
  }

  lemma ScheduledByGuess(off: Zone, c: Clock, hour: int, observedAt: int)
    requires EasternRules(off) && c.minute <= 99 && PrintedHour(c, hour)
    requires LocalDay(off, observedAt) > DayFromYear(100)
    ensures var guess := PrintedGuess(off, hour, c.minute, observedAt);
            Scheduled(off, c, observedAt) == guess - off(guess)
  {
    hide Calendar.Civil, UtcDay, CampusWallTime, Guess, Calendar.DayFromYear, Calendar.YearOf, EasternRules,
         PrintedHour, Hour24;
    var day := LocalDay(off, observedAt);
    Hour24IsPrinted(c, hour);
    YearFrom(day, 100);
    UtcDayOfCivil(day);
    GuessOnDay(Civil(day), hour, c.minute);
    EasternOffset(off, Guess(Civil(day), hour, c.minute));
    WallTimeCorrects(off, Civil(day), hour, c.minute);
  }

  /** Whatever the zone does, the departure before its delay is within twelve hours of the
      observation, and no instant a whole number of days from the scheduled one is nearer; the
      scheduled one is kept when it is near enough.  The departure reads the printed clock time exactly
      when the zone offset there is the one at the guess, so certainly when the zone does not change
      from 29 hours before to 21 hours after the observation. */
  lemma DepartureNearObservation(off: Zone, c: Clock, hour: int, delayMinutes: nat, observedAt: int)
    requires EasternRules(off) && c.minute <= 99 && PrintedHour(c, hour)
    requires LocalDay(off, observedAt) > DayFromYear(100)
    ensures var departure := DepartureInstant(off, Some(c), delayMinutes, observedAt).value - delayMinutes * MINUTE;
            && -HALF_DAY <= departure - observedAt <= HALF_DAY
            && (departure - Scheduled(off, c, observedAt)) % DAY == 0
            && (Distance(Scheduled(off, c, observedAt), observedAt) <= HALF_DAY ==>
                  departure == Scheduled(off, c, observedAt))
            && (forall k: int :: Distance(departure, observedAt) <= Distance(departure + k * DAY, observedAt))
            && (ReadsClock(off, departure, hour, c.minute)
                <==> off(departure) == off(PrintedGuess(off, hour, c.minute, observedAt)))
            && ((forall t :: observedAt - 29 * HOUR < t <= observedAt + 21 * HOUR ==> !ChangesAt(off, t))
                ==> ReadsClock(off, departure, hour, c.minute))
  {
    hide Scheduled, LocalDay, Calendar.DayFromYear, Hour24, EasternRules;
    var guess := PrintedGuess(off, hour, c.minute, observedAt);
    ScheduledByGuess(off, c, hour, observedAt);
    EasternOffset(off, guess);
    ObservationWithinDay(off, observedAt);
    var departure := DepartureInstant(off, Some(c), delayMinutes, observedAt).value - delayMinutes * MINUTE;
    EasternOffset(off, departure);
    if forall t :: observedAt - 29 * HOUR < t <= observedAt + 21 * HOUR ==> !ChangesAt(off, t) {
      if guess <= departure {
        OffsetConstant(off, guess, departure);
      } else {
        OffsetConstant(off, departure, guess);
      }
    }
  }

  function Distance(a: int, b: int): int {
    if a < b then b - a else a - b
  }

  lemma ObservationWithinDay(off: Zone, t: int)
    requires EasternRules(off)
    ensures LocalDay(off, t) * DAY + 4 * HOUR <= t < (LocalDay(off, t) + 1) * DAY + 5 * HOUR
  {
    assert off(t) == EST || off(t) == EDT;
  }
}
