/** Change detection (src/update.rs): the diff of two snapshots of the same
    series, one optional (prev, cur) pair per watched field. */
module Changes {
  import opened Wrappers
  import opened Text
  import opened OptionalDates
  import opened Episodes
  import opened TmdbSeries

  datatype SeriesDetailsChanges = SeriesDetailsChanges(
    id: int,
    inProductionChange: Option<(bool, bool)>,
    statusChange: Option<(SeriesStatus, SeriesStatus)>,
    lastEpisodeChange: Option<(Option<EpisodeDetails>, Option<EpisodeDetails>)>,
    nextEpisodeChange: Option<(Option<EpisodeDetails>, Option<EpisodeDetails>)>,
    episodeCountChange: Option<(int, int)>)

  /** `SeriesDetailsChanges::new`: nothing changed yet. */
  function NoChanges(id: int): (c: SeriesDetailsChanges)
    ensures c.id == id && !HasAnyChanges(c)
  {
    SeriesDetailsChanges(id, None, None, None, None, None)
  }

  predicate HasAnyChanges(c: SeriesDetailsChanges) {
    || c.inProductionChange.Some?
    || c.statusChange.Some?
    || c.lastEpisodeChange.Some?
    || c.nextEpisodeChange.Some?
    || c.episodeCountChange.Some?
  }

  /** A change set without changes is `NoChanges` of its id. */
  lemma NoChangesIsUnique(c: SeriesDetailsChanges)
    ensures !HasAnyChanges(c) <==> c == NoChanges(c.id)
  {
  }

  function BoolText(b: bool): string {
    if b then "true" else "false"
  }

  function EpisodeOrUnknown(e: Option<EpisodeDetails>): string {
    match e
    case Some(ep) => Episodes.Identify(ep)
    case None => "unknown"
  }

  /** The log summary: "no changes", or one " - Field: old => new" line per
      changed field after a leading newline. */
  function Summary(c: SeriesDetailsChanges): (s: string)
    ensures s == "no changes" <==> !HasAnyChanges(c)
    ensures HasAnyChanges(c) ==> |s| > 0 && s[0] == '\n'
  {
    if !HasAnyChanges(c) then "no changes"
    else
      "\n"
      + (match c.inProductionChange
         case Some((o, n)) => " - In production: " + BoolText(o) + " => " + BoolText(n) + "\n"
         case None => "")
      + (match c.statusChange
         case Some((o, n)) => " - Status: " + StatusText(o) + " => " + StatusText(n) + "\n"
         case None => "")
      + (match c.lastEpisodeChange
         case Some((o, n)) => " - Last episode: " + EpisodeOrUnknown(o) + " => " + EpisodeOrUnknown(n) + "\n"
         case None => "")
      + (match c.nextEpisodeChange
         case Some((o, n)) => " - Next episode: " + EpisodeOrUnknown(o) + " => " + EpisodeOrUnknown(n) + "\n"
         case None => "")
      + (match c.episodeCountChange
         case Some((o, n)) => " - Episode count: " + IntToString(o) + " => " + IntToString(n) + "\n"
         case None => "")
  }

  /** `collect_series_details_changes`. The source asserts that both
      snapshots describe the same series; that is a programming error, not a
      recoverable condition, so it is a precondition here. */
  function CollectChanges(prev: SeriesDetails, cur: SeriesDetails): (c: SeriesDetailsChanges)
    requires prev.id == cur.id
    ensures c.id == cur.id
    ensures c.inProductionChange.Some? <==> prev.inProduction != cur.inProduction
    ensures c.statusChange.Some? <==> prev.status != cur.status
    ensures c.lastEpisodeChange.Some? <==> LastEpisodeDate(prev) != LastEpisodeDate(cur)
    ensures c.nextEpisodeChange.Some? <==> NextEpisodeDate(prev) != NextEpisodeDate(cur)
    ensures c.episodeCountChange.Some? <==> prev.numberOfEpisodes != cur.numberOfEpisodes
    ensures c.inProductionChange.Some? ==> c.inProductionChange.value == (prev.inProduction, cur.inProduction)
    ensures c.statusChange.Some? ==> c.statusChange.value == (prev.status, cur.status)
    ensures c.lastEpisodeChange.Some? ==> c.lastEpisodeChange.value == (prev.lastEpisodeToAir, cur.lastEpisodeToAir)
    ensures c.nextEpisodeChange.Some? ==> c.nextEpisodeChange.value == (prev.nextEpisodeToAir, cur.nextEpisodeToAir)
    ensures c.episodeCountChange.Some? ==> c.episodeCountChange.value == (prev.numberOfEpisodes, cur.numberOfEpisodes)
  {
    var c := NoChanges(cur.id);
    var c := if prev.inProduction != cur.inProduction then c.(inProductionChange := Some((prev.inProduction, cur.inProduction))) else c;
    var c := if prev.status != cur.status then c.(statusChange := Some((prev.status, cur.status))) else c;
    var c := if LastEpisodeDate(prev) != LastEpisodeDate(cur) then c.(lastEpisodeChange := Some((prev.lastEpisodeToAir, cur.lastEpisodeToAir))) else c;
    var c := if NextEpisodeDate(prev) != NextEpisodeDate(cur) then c.(nextEpisodeChange := Some((prev.nextEpisodeToAir, cur.nextEpisodeToAir))) else c;
    if prev.numberOfEpisodes != cur.numberOfEpisodes then c.(episodeCountChange := Some((prev.numberOfEpisodes, cur.numberOfEpisodes))) else c
  }

  /** The diff reports a change exactly when one of the five watched
      quantities differs. */
  lemma HasAnyChangesIff(prev: SeriesDetails, cur: SeriesDetails)
    requires prev.id == cur.id
    ensures HasAnyChanges(CollectChanges(prev, cur)) <==>
              || prev.inProduction != cur.inProduction
              || prev.status != cur.status
              || LastEpisodeDate(prev) != LastEpisodeDate(cur)
              || NextEpisodeDate(prev) != NextEpisodeDate(cur)
              || prev.numberOfEpisodes != cur.numberOfEpisodes
  {
  }

  /** A snapshot compared with itself has no changes. */
  lemma DiffSelfIsEmpty(x: SeriesDetails)
    ensures CollectChanges(x, x) == NoChanges(x.id)
  {
  }

  function SwapPair<T>(p: Option<(T, T)>): Option<(T, T)> {
    match p
    case Some((a, b)) => Some((b, a))
    case None => None
  }

  /** The same change set with every pair's old and new exchanged. */
  function Swapped(c: SeriesDetailsChanges): SeriesDetailsChanges {
    SeriesDetailsChanges(
      c.id,
      SwapPair(c.inProductionChange),
      SwapPair(c.statusChange),
      SwapPair(c.lastEpisodeChange),
      SwapPair(c.nextEpisodeChange),
      SwapPair(c.episodeCountChange))
  }

  /** Diffing in the other direction flags the same fields with each pair
      reversed. */
  lemma DiffIsSymmetric(a: SeriesDetails, b: SeriesDetails)
    requires a.id == b.id
    ensures CollectChanges(b, a) == Swapped(CollectChanges(a, b))
  {
  }

  /** Episodes are compared by air date only: a renamed or renumbered episode
      with the same air date, or an absent episode replaced by one without an
      air date, is not a change. */
  lemma EpisodesComparedByAirDate(prev: SeriesDetails, cur: SeriesDetails)
    requires prev.id == cur.id
    requires EpisodeAirDate(prev.lastEpisodeToAir) == EpisodeAirDate(cur.lastEpisodeToAir)
    requires EpisodeAirDate(prev.nextEpisodeToAir) == EpisodeAirDate(cur.nextEpisodeToAir)
    ensures CollectChanges(prev, cur).lastEpisodeChange.None?
    ensures CollectChanges(prev, cur).nextEpisodeChange.None?
  {
  }

  /** Only the five watched quantities matter: title, poster, season count and
      first air date never cause a change. */
  lemma UnwatchedFieldsIgnored(prev: SeriesDetails, cur: SeriesDetails, cur': SeriesDetails)
    requires prev.id == cur.id == cur'.id
    requires cur'.inProduction == cur.inProduction && cur'.status == cur.status
    requires cur'.numberOfEpisodes == cur.numberOfEpisodes
    requires cur'.lastEpisodeToAir == cur.lastEpisodeToAir && cur'.nextEpisodeToAir == cur.nextEpisodeToAir
    ensures CollectChanges(prev, cur') == CollectChanges(prev, cur)
  {
  }

  /** The new side of every pair is the new snapshot's value. Change sets
      with this property are the ones the renderer can trust. */
  predicate EndsIn(c: SeriesDetailsChanges, d: SeriesDetails) {
    && c.id == d.id
    && (c.inProductionChange.Some? ==> c.inProductionChange.value.1 == d.inProduction)
    && (c.statusChange.Some? ==> c.statusChange.value.1 == d.status)
    && (c.lastEpisodeChange.Some? ==> c.lastEpisodeChange.value.1 == d.lastEpisodeToAir)
    && (c.nextEpisodeChange.Some? ==> c.nextEpisodeChange.value.1 == d.nextEpisodeToAir)
    && (c.episodeCountChange.Some? ==> c.episodeCountChange.value.1 == d.numberOfEpisodes)
  }

  lemma DiffEndsInNew(prev: SeriesDetails, cur: SeriesDetails)
    requires prev.id == cur.id
    ensures EndsIn(CollectChanges(prev, cur), cur)
  {
  }
}
