/** Calendar days and instants. A JavaScript `Date` is modelled as a
    calendar day plus the milliseconds elapsed since that day's midnight;
    the conversion from wall-clock milliseconds and the time zone used for
    it are abstracted away. */
module Calendar {

  const MS_PER_DAY: int := 86_400_000

  datatype Day = Day(year: int, month: int, dom: int)

  /** A point in time: its calendar day and the time of day in ms. */
  datatype Instant = Instant(day: Day, msOfDay: int)

  predicate Valid(t: Instant) {
    0 <= t.msOfDay < MS_PER_DAY
  }

  predicate IsMidnight(t: Instant) {
    t.msOfDay == 0
  }

  /** `d.setHours(0, 0, 0, 0)`: the midnight that starts the day of `t`. */
  function StartOfDay(t: Instant): (r: Instant)
    ensures Valid(r) && IsMidnight(r)
    ensures r.day == t.day
  {
    Instant(t.day, 0)
  }

  /** The `$month` / `$year` test of the aggregation pipelines. */
  predicate InMonth(t: Instant, month: int, year: int) {
    t.day.month == month && t.day.year == year
  }

  /** Normalising twice is normalising once. */
  lemma StartOfDayIdempotent(t: Instant)
    ensures StartOfDay(StartOfDay(t)) == StartOfDay(t)
  {
  }

  /** Two instants give the same day key exactly when they fall on the same
      calendar day; this is why the mark and daily paths agree. */
  lemma SameKeyIffSameDay(a: Instant, b: Instant)
    ensures StartOfDay(a) == StartOfDay(b) <==> a.day == b.day
  {
  }

  /** Normalisation leaves an instant unchanged exactly when it is already a
      midnight. */
  lemma StartOfDayFixesMidnights(t: Instant)
    ensures StartOfDay(t) == t <==> IsMidnight(t)
  {
  }
}
