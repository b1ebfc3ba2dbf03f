/** The bucket anchors of packages/data-platform/src/d1/summary-aggregation.ts, on epoch milliseconds. */
module IsoWeek {

  type Instant = int

  const DAY_MS := 86_400_000

  /** UTC calendar day, counted from 1970-01-01. */
  function Day(t: Instant): (day: int) { t / DAY_MS }

  /** `getUTCDay`: 0 is Sunday; 1970-01-01 was a Thursday. */
  function WeekdayOf(day: int): (weekday: int)
  {
    (day + 4) % 7
  }

  function StartOfUtcDay(t: Instant): (start: Instant) { Day(t) * DAY_MS }

  /** `startOfIsoWeek`: Monday 00:00 UTC of the instant's ISO 8601 week. */
  function StartOfIsoWeek(t: Instant): (monday: Instant)
  {
    var day := StartOfUtcDay(t);
    var daysSinceMonday := (WeekdayOf(Day(day)) + 6) % 7;
    day - daysSinceMonday * DAY_MS
  }

  /** The anchor in day numbers. */
  function MondayOf(day: int): (monday: int) { day - (day + 3) % 7 }

  lemma AnchorIsMonday(t: Instant)
    ensures StartOfIsoWeek(t) == MondayOf(Day(t)) * DAY_MS
  {
    var day := Day(t);
    assert (WeekdayOf(day) + 6) % 7 == (day + 3) % 7;
  }

  /** The calendar arithmetic: each block of seven days from a Monday on shares that Monday. */
  lemma MondayLaws(d: int, e: int)
    ensures WeekdayOf(MondayOf(d)) == 1 && 0 <= d - MondayOf(d) < 7
    ensures MondayOf(MondayOf(d)) == MondayOf(d)
    ensures d <= e ==> MondayOf(d) <= MondayOf(e)
    ensures MondayOf(e) <= d < MondayOf(e) + 7 <==> MondayOf(d) == MondayOf(e)
  {
    assert (MondayOf(d) + 3) % 7 == 0 && (MondayOf(e) + 3) % 7 == 0;
  }

  /**
   * The anchor is a Monday midnight at most 6 days and some hours before its instant; it is
   * idempotent and monotone, and two instants share it exactly when they share the week.
   */
  lemma AnchorLaws(s: Instant, t: Instant)
    ensures WeekdayOf(Day(StartOfIsoWeek(t))) == 1 && StartOfIsoWeek(t) == StartOfUtcDay(StartOfIsoWeek(t))
    ensures 0 <= t - StartOfIsoWeek(t) < 7 * DAY_MS
    ensures StartOfIsoWeek(StartOfIsoWeek(t)) == StartOfIsoWeek(t)
    ensures s <= t ==> StartOfIsoWeek(s) <= StartOfIsoWeek(t)
    ensures StartOfIsoWeek(t) <= s < StartOfIsoWeek(t) + 7 * DAY_MS <==> StartOfIsoWeek(s) == StartOfIsoWeek(t)
  {
    AnchorIsMonday(s);
    AnchorIsMonday(t);
    var a, b := MondayOf(Day(s)), MondayOf(Day(t));
    MondayLaws(Day(s), Day(t));
    MondayLaws(Day(t), Day(s));
    AnchorIsMonday(b * DAY_MS);
    hide MondayOf, StartOfIsoWeek, WeekdayOf;
    assert b * DAY_MS <= s < (b + 7) * DAY_MS <==> b <= Day(s) < b + 7;
  }

  /** 2024-01-01 was a Monday: its week's instants are anchored at its midnight. */
  lemma KnownMonday(t: Instant)
    ensures 1_704_067_200_000 <= t < 1_704_672_000_000 <==> StartOfIsoWeek(t) == 1_704_067_200_000
    ensures Day(1_704_067_200_000) == 19_723 && Day(1_704_153_599_999) == 19_723
  {
    AnchorIsMonday(t);
    AnchorLaws(t, 1_704_067_200_000);
  }
}
