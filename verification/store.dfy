/** The rows the core reads from and writes to the database
    (src/db/series.rs, src/db/user.rs, src/db/poster.rs): a tracked series
    with the columns that mirror its snapshot, a subscriber, a stored poster.
    The database itself is a collaborator and is not modelled. */
module Store {
  import opened Wrappers
  import opened Encodings
  import opened OptionalDates
  import opened TmdbSeries
  import opened MimeTypes

  datatype User = User(id: int, name: string, email: string)

  datatype Poster = Poster(id: int, imgData: seq<byte>, mimeType: MimeType, sourceUrl: Option<string>)

  /** A tracked series: its identity columns, the columns the update engine
      keeps in step with the snapshot, the snapshot, and the time of the last
      successful fetch (seconds since the epoch). The JSON copy of the
      snapshot (`details_json`) is the same snapshot serialized and is not
      kept separately here. */
  datatype Series = Series(
    tmdbId: int,
    posterId: int,
    title: string,
    firstAirDate: OptionalDate,
    status: SeriesStatus,
    inProduction: bool,
    lastEpisodeAirDate: OptionalDate,
    nextEpisodeAirDate: OptionalDate,
    details: SeriesDetails,
    updateTimestamp: int)

  /** The mirrored columns agree with the snapshot they were taken from. */
  predicate MirrorsDetails(s: Series) {
    && s.inProduction == s.details.inProduction
    && s.status == s.details.status
    && s.lastEpisodeAirDate == LastEpisodeDate(s.details)
    && s.nextEpisodeAirDate == NextEpisodeDate(s.details)
  }

  /** `Series::set_details`: adopt a new snapshot and update time. */
  function SetDetails(s: Series, newDetails: SeriesDetails, updateTimestamp: int): (r: Series)
    ensures r.details == newDetails && r.updateTimestamp == updateTimestamp
    ensures MirrorsDetails(r)
    ensures r.tmdbId == s.tmdbId && r.posterId == s.posterId
    ensures r.title == s.title && r.firstAirDate == s.firstAirDate
  {
    s.(
      inProduction := newDetails.inProduction,
      status := newDetails.status,
      lastEpisodeAirDate := LastEpisodeDate(newDetails),
      nextEpisodeAirDate := NextEpisodeDate(newDetails),
      details := newDetails,
      updateTimestamp := updateTimestamp)
  }

  /** Applying the same snapshot and time twice is the same as once. */
  lemma SetDetailsIdempotent(s: Series, d: SeriesDetails, t: int)
    ensures SetDetails(SetDetails(s, d, t), d, t) == SetDetails(s, d, t)
  {
  }

  /** The result depends on the old row only through its identity columns:
      nothing of the old snapshot, status or timestamps survives. */
  lemma SetDetailsForgetsOldSnapshot(s1: Series, s2: Series, d: SeriesDetails, t: int)
    requires s1.tmdbId == s2.tmdbId && s1.posterId == s2.posterId
    requires s1.title == s2.title && s1.firstAirDate == s2.firstAirDate
    ensures SetDetails(s1, d, t) == SetDetails(s2, d, t)
  {
  }
}
