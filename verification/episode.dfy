/** Episodes as the catalogue service describes them (src/tmdb/episode.rs):
    the episode-type enumeration with its three encodings, and the one-line
    identification the notifications show. */
module Episodes {
  import opened Wrappers
  import opened Errors
  import opened Text
  import opened Encodings
  import opened OptionalDates

  datatype EpisodeType = Standard | Finale

  /** `#[default]`: an episode is a standard one unless said otherwise. */
  const DefaultEpisodeType: EpisodeType := Standard

  /** strum's `Display`: the variant name. */
  function EpisodeTypeName(t: EpisodeType): string {
    match t
    case Standard => "Standard"
    case Finale => "Finale"
  }

  /** strum's `EnumString`: exactly the variant name, case-sensitive. */
  function ParseEpisodeType(s: string): (r: Result<EpisodeType, Error>)
    ensures r.Ok? <==> s == "Standard" || s == "Finale"
    ensures r.Ok? ==> EpisodeTypeName(r.value) == s
  {
    if s == "Standard" then Ok(Standard)
    else if s == "Finale" then Ok(Finale)
    else Err(UnknownVariant(s))
  }

  /** serde with `rename_all = "lowercase"`. */
  function EpisodeTypeToJson(t: EpisodeType): JsonValue {
    match t
    case Standard => JsonString("standard")
    case Finale => JsonString("finale")
  }

  function EpisodeTypeFromJson(v: JsonValue): (r: Result<EpisodeType, Error>)
    ensures r.Ok? <==> v == JsonString("standard") || v == JsonString("finale")
    ensures r.Ok? ==> EpisodeTypeToJson(r.value) == v
  {
    match v
    case JsonString(s) =>
      if s == "standard" then Ok(Standard)
      else if s == "finale" then Ok(Finale)
      else Err(UnknownVariant(s))
    case _ => Err(InvalidJsonType)
  }

  /** The SQL column holds the `Display` form. */
  function EpisodeTypeToSql(t: EpisodeType): SqlValue {
    SqlText(EpisodeTypeName(t))
  }

  function EpisodeTypeFromSql(v: SqlValue): (r: Result<EpisodeType, Error>)
    ensures !v.SqlText? ==> r == Err(InvalidSqlType)
  {
    match v
    case SqlText(s) => ParseEpisodeType(s)
    case _ => Err(InvalidSqlType)
  }

  /** All three encodings decode what they encode. */
  lemma EpisodeTypeRoundTrips(t: EpisodeType)
    ensures ParseEpisodeType(EpisodeTypeName(t)) == Ok(t)
    ensures EpisodeTypeFromJson(EpisodeTypeToJson(t)) == Ok(t)
    ensures EpisodeTypeFromSql(EpisodeTypeToSql(t)) == Ok(t)
  {
  }

  datatype EpisodeDetails = EpisodeDetails(
    id: int,
    seasonNumber: int,
    episodeNumber: int,
    name: string,
    episodeType: EpisodeType,
    airDate: OptionalDate)

  /** `{:02}`: at least two characters, zero-padded after any sign. */
  function Pad2(n: int): string {
    FormatInt(n, 2, false)
  }

  /** "S01E05 Name on 2024-05-01", followed by " (Finale)" for a non-standard
      episode. */
  function Identify(e: EpisodeDetails): string {
    var core := "S" + Pad2(e.seasonNumber) + "E" + Pad2(e.episodeNumber) + " " + e.name + " on " + Display(e.airDate);
    if e.episodeType != Standard then core + " (" + EpisodeTypeName(e.episodeType) + ")" else core
  }

  /** The padded number field keeps every digit: it is never shorter than the
      plain decimal form, never shorter than two characters, and denotes the
      number again. */
  lemma Pad2NeverTruncates(n: nat)
    ensures |Pad2(n)| == if |NatToDigits(n)| < 2 then 2 else |NatToDigits(n)|
    ensures AllDigits(Pad2(n)) && DigitsValue(Pad2(n)) == n
  {
    FormatIntShape(n, 2, false);
  }

  /** Identification starts with the season/episode code, the name and the
      air date. */
  lemma IdentifyPrefix(e: EpisodeDetails)
    ensures var p := "S" + Pad2(e.seasonNumber) + "E" + Pad2(e.episodeNumber) + " " + e.name + " on " + Display(e.airDate);
      |p| <= |Identify(e)| && Identify(e)[..|p|] == p
  {
  }

  /** An identification starts with 'S', so it is never one of the words
      shown when an episode is missing. */
  lemma IdentifyStartsWithS(e: EpisodeDetails)
    ensures |Identify(e)| > 0 && Identify(e)[0] == 'S'
  {
    IdentifyPrefix(e);
    var p := "S" + Pad2(e.seasonNumber) + "E" + Pad2(e.episodeNumber) + " " + e.name + " on " + Display(e.airDate);
    assert Identify(e)[0] == Identify(e)[..|p|][0] == p[0];
  }

  /** The " (Finale)" suffix appears exactly for non-standard episodes: without
      it the text ends in the air date, whose last character is a digit or
      the '>' of "<no date>", never ')'. */
  lemma IdentifyFinaleSuffix(e: EpisodeDetails)
    ensures var s := Identify(e);
      (e.episodeType != Standard) <==> (|s| >= 9 && s[|s| - 9..] == " (Finale)")
  {
    var s := Identify(e);
    var d := Display(e.airDate);
    var head := "S" + Pad2(e.seasonNumber) + "E" + Pad2(e.episodeNumber) + " " + e.name + " on ";
    if e.episodeType == Standard {
      assert s == head + d;
      assert s[|s| - 1] == d[|d| - 1];
      if e.airDate.Some? {
        IsoEndsInDigit(e.airDate.value);
      }
      assert s[|s| - 1] != ')';
    } else {
      assert s == head + d + " (Finale)";
    }
  }

  /** The ISO text of a date ends in the last digit of the day. */
  lemma IsoEndsInDigit(d: Dates.Date)
    ensures var s := Dates.FormatIso(d); |s| > 0 && IsDigit(s[|s| - 1])
  {
    FormatIntEndsInDigit(d.day, 2, false);
  }
}
