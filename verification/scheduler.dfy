/** The re-fetch schedule (`determine_next_update_timestamp` in
    src/update.rs): when a tracked series is next due for a fetch, and why. */
module Scheduler {
  import opened Wrappers
  import opened Dates
  import opened TmdbSeries
  import opened Store

  datatype Reason = NextEpisodeRelease | SeriesOverForLong | SeriesRecentlyOver | SeriesInProduction

  function ReasonText(r: Reason): string {
    match r
    case NextEpisodeRelease => "next episode release"
    case SeriesOverForLong => "series is over for long"
    case SeriesRecentlyOver => "series is recently over"
    case SeriesInProduction => "series in production"
  }

  const Week: int := 7 * SecondsPerDay

  /** chrono's `Duration::num_weeks` for a whole number of days: the quotient
      by seven, truncated toward zero. */
  function NumWeeks(days: int): (w: int)
    ensures days >= 0 ==> 0 <= 7 * w <= days < 7 * (w + 1)
    ensures days < 0 ==> 7 * (w - 1) < days <= 7 * w <= 0
    ensures w >= 4 <==> days >= 28
  {
    if days >= 0 then days / 7 else 0 - (0 - days) / 7
  }

  /** The last second (23:59:59 UTC) of the given date. */
  function EndOfDay(d: Date): (t: int)
    ensures DayOfTimestamp(t) == DayNumber(d)
    ensures DayOfTimestamp(t + 1) == DayNumber(d) + 1
  {
    DayNumber(d) * SecondsPerDay + SecondsPerDay - 1
  }

  /** When `s` is next due for a fetch and the reason; `now` is the clock
      reading the schedule takes for itself. */
  function NextUpdate(s: Series, now: int): (r: (int, Reason))
    ensures s.nextEpisodeAirDate.Some? ==>
      && r.1 == NextEpisodeRelease
      && DayOfTimestamp(r.0) == DayNumber(s.nextEpisodeAirDate.value)
      && DayOfTimestamp(r.0 + 1) == DayNumber(s.nextEpisodeAirDate.value) + 1
    ensures s.nextEpisodeAirDate.None? && (s.status == InProduction || s.status == ReturningSeries) ==>
      r == (s.updateTimestamp + Week, SeriesInProduction)
    ensures s.nextEpisodeAirDate.None? && (s.status == Ended || s.status == Canceled) ==>
      if s.lastEpisodeAirDate.None? || DayOfTimestamp(now) - DayNumber(s.lastEpisodeAirDate.value) >= 28
      then r == (s.updateTimestamp + 4 * Week, SeriesOverForLong)
      else r == (s.updateTimestamp + Week, SeriesRecentlyOver)
  {
    match s.nextEpisodeAirDate
    case Some(d) => (EndOfDay(d), NextEpisodeRelease)
    case None =>
      match s.status
      case Ended | Canceled =>
        var lastIsOld := MapOr(s.lastEpisodeAirDate, (d: Date) => NumWeeks(DayOfTimestamp(now) - DayNumber(d)) >= 4, true);
        if lastIsOld then (s.updateTimestamp + 4 * Week, SeriesOverForLong)
        else (s.updateTimestamp + Week, SeriesRecentlyOver)
      case InProduction | ReturningSeries =>
        (s.updateTimestamp + Week, SeriesInProduction)
  }

  /** Without a known next episode the series is due one or four weeks after
      its last fetch. */
  lemma IntervalIsOneOrFourWeeks(s: Series, now: int)
    requires s.nextEpisodeAirDate.None?
    ensures var due := NextUpdate(s, now).0;
      due - s.updateTimestamp == Week || due - s.updateTimestamp == 4 * Week
  {
  }

  /** A known next episode decides the schedule alone: status, last episode,
      last fetch time and the clock make no difference. */
  lemma NextEpisodeDominates(s1: Series, s2: Series, now1: int, now2: int)
    requires s1.nextEpisodeAirDate.Some? && s1.nextEpisodeAirDate == s2.nextEpisodeAirDate
    ensures NextUpdate(s1, now1) == NextUpdate(s2, now2)
  {
  }

  /** The clock only matters for an ended or canceled series with a known
      last episode. */
  lemma ClockMattersOnlyForEndedSeries(s: Series, now1: int, now2: int)
    requires s.nextEpisodeAirDate.Some? || s.lastEpisodeAirDate.None?
          || s.status == InProduction || s.status == ReturningSeries
    ensures NextUpdate(s, now1) == NextUpdate(s, now2)
  {
  }

  /** As time passes a series never becomes due sooner: the interval only
      grows from one week to four once its last episode is four weeks old. */
  lemma {:induction false} DueNeverMovesEarlier(s: Series, now1: int, now2: int)
    requires now1 <= now2
    ensures NextUpdate(s, now1).0 <= NextUpdate(s, now2).0
  {
    assert DayOfTimestamp(now1) <= DayOfTimestamp(now2) by {
      DayOfTimestampMonotone(now1, now2);
    }
  }

  lemma DayOfTimestampMonotone(t1: int, t2: int)
    requires t1 <= t2
    ensures DayOfTimestamp(t1) <= DayOfTimestamp(t2)
  {
  }

  /** A returning series whose next episode airs on 2024-05-01 is due at
      2024-05-01T23:59:59Z (1714607999 seconds after the epoch), whenever it
      was last fetched. */
  lemma NextEpisodeExample(s: Series, now: int)
    requires s.status == ReturningSeries
    requires s.nextEpisodeAirDate == Some(Ymd(2024, 5, 1))
    ensures NextUpdate(s, now) == (1714607999, NextEpisodeRelease)
  {
    assert DayNumber(Ymd(2024, 5, 1)) == 19844;
  }
}
