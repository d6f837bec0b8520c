/** Series metadata as the catalogue service returns it (src/tmdb/series.rs):
    the production-status enumeration with its display-string mapping and the
    serde and SQL encodings built on it, and the `SeriesDetails` snapshot with
    the derived dates, poster extension and one-line identification. */
module TmdbSeries {
  import opened Wrappers
  import opened Errors
  import opened Text
  import opened Encodings
  import opened Dates
  import opened OptionalDates
  import opened Episodes
  import Paths

  datatype SeriesStatus = InProduction | ReturningSeries | Ended | Canceled

  /** The display strings, which are also the wire and column forms. */
  function StatusText(s: SeriesStatus): string {
    match s
    case InProduction => "In Production"
    case ReturningSeries => "Returning Series"
    case Ended => "Ended"
    case Canceled => "Canceled"
  }

  /** strum's `EnumString` with the `to_string` names: exactly one of the four
      display strings, case-sensitive; anything else is an error. */
  function ParseStatus(text: string): (r: Result<SeriesStatus, Error>)
    ensures r.Ok? ==> StatusText(r.value) == text
    ensures r.Err? ==> r.error == UnknownVariant(text)
  {
    if text == "In Production" then Ok(InProduction)
    else if text == "Returning Series" then Ok(ReturningSeries)
    else if text == "Ended" then Ok(Ended)
    else if text == "Canceled" then Ok(Canceled)
    else Err(UnknownVariant(text))
  }

  /** Parsing is exactly the inverse of the display mapping: it accepts the
      display string of every status and nothing else. */
  lemma ParseStatusInverse(text: string, s: SeriesStatus)
    ensures ParseStatus(text) == Ok(s) <==> StatusText(s) == text
  {
  }

  function StatusToJson(s: SeriesStatus): JsonValue {
    JsonString(StatusText(s))
  }

  /** The serde visitor: a JSON string parsed through the display mapping,
      reported as an unknown variant when it names none. */
  function StatusFromJson(v: JsonValue): (r: Result<SeriesStatus, Error>)
    ensures !v.JsonString? ==> r == Err(InvalidJsonType)
    ensures v.JsonString? ==> r == ParseStatus(v.text)
  {
    match v
    case JsonString(text) => ParseStatus(text)
    case _ => Err(InvalidJsonType)
  }

  function StatusToSql(s: SeriesStatus): SqlValue {
    SqlText(StatusText(s))
  }

  function StatusFromSql(v: SqlValue): (r: Result<SeriesStatus, Error>)
    ensures !v.SqlText? ==> r == Err(InvalidSqlType)
    ensures v.SqlText? ==> r == ParseStatus(v.text)
  {
    match v
    case SqlText(text) => ParseStatus(text)
    case _ => Err(InvalidSqlType)
  }

  /** Both encodings decode what they encode. */
  lemma StatusRoundTrips(s: SeriesStatus)
    ensures ParseStatus(StatusText(s)) == Ok(s)
    ensures StatusFromJson(StatusToJson(s)) == Ok(s)
    ensures StatusFromSql(StatusToSql(s)) == Ok(s)
  {
  }

  /** The display mapping is injective, so distinct statuses never encode to
      the same text. */
  /** No display string of a status contains '&'. */
  lemma StatusTextHasNoAmpersand(s: SeriesStatus)
    ensures '&' !in StatusText(s)
  {
  }

  lemma StatusTextInjective(a: SeriesStatus, b: SeriesStatus)
    ensures StatusText(a) == StatusText(b) ==> a == b
  {
    StatusRoundTrips(a);
    StatusRoundTrips(b);
  }

  datatype SeriesDetails = SeriesDetails(
    id: int,
    name: string,
    firstAirDate: OptionalDate,
    numberOfSeasons: int,
    numberOfEpisodes: int,
    lastEpisodeToAir: Option<EpisodeDetails>,
    nextEpisodeToAir: Option<EpisodeDetails>,
    status: SeriesStatus,
    inProduction: bool,
    posterPath: string)

  /** The air date of an optional episode; an absent episode and an episode
      without an air date are alike. */
  function EpisodeAirDate(e: Option<EpisodeDetails>): (r: OptionalDate)
    ensures e.None? ==> r.None?
    ensures e.Some? ==> r == e.value.airDate
  {
    match e
    case None => None
    case Some(ep) => ep.airDate
  }

  function LastEpisodeDate(d: SeriesDetails): OptionalDate {
    EpisodeAirDate(d.lastEpisodeToAir)
  }

  function NextEpisodeDate(d: SeriesDetails): OptionalDate {
    EpisodeAirDate(d.nextEpisodeToAir)
  }

  /** The extension of the poster path, if it has one. */
  function PosterExtension(d: SeriesDetails): Option<string> {
    Paths.Extension(d.posterPath)
  }

  /** The year shown after a title: the first-air year, or "unreleased". */
  function ReleaseYear(firstAirDate: OptionalDate): (y: string)
    ensures y == "unreleased" <==> firstAirDate.None?
    ensures firstAirDate.Some? ==> y == IntToString(firstAirDate.value.year)
  {
    match firstAirDate
    case Some(date) =>
      IntToStringChars(date.year);
      IntToString(date.year)
    case None => "unreleased"
  }

  /** `Display` (and `identify`): "[id] name (year)" or "[id] name (unreleased)". */
  function Identify(d: SeriesDetails): string {
    "[" + IntToString(d.id) + "] " + d.name + " (" + ReleaseYear(d.firstAirDate) + ")"
  }

  /** The identification shows "(unreleased)" exactly when the first air
      date is unknown: a known year ends in a digit, not in 'd'. */
  lemma IdentifyUnreleasedIff(d: SeriesDetails)
    ensures EndsWith(Identify(d), "(unreleased)") <==> d.firstAirDate.None?
  {
    var s := Identify(d);
    var y := ReleaseYear(d.firstAirDate);
    assert s == ("[" + IntToString(d.id) + "] " + d.name + " (") + y + ")";
    if d.firstAirDate.Some? {
      FormatIntEndsInDigit(d.firstAirDate.value.year, 0, false);
      assert s[|s| - 2] == y[|y| - 1];
    }
  }
}
