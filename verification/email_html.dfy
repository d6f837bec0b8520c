/** The per-series part of the notification e-mail (src/notify/email_html.rs):
    what each placeholder of a series' block is replaced with, and which of
    those values are highlighted as changed. The surrounding page and the
    block's fixed markup are not modelled. */
module EmailHtml {
  import opened Wrappers
  import opened Text
  import opened Episodes
  import opened TmdbSeries
  import opened Store
  import opened Changes
  import opened Entries

  /** A placeholder value, shown plainly or highlighted as changed. */
  datatype Cell = Plain(text: string) | Highlighted(text: string)

  const HighlightOpen: string := "<span style=\"color: #b6004c;\">"
  const HighlightClose: string := "</span>"

  /** The markup a cell becomes (`wrap_changed` for highlighted cells). */
  function CellHtml(c: Cell): (h: string)
    ensures c.Plain? ==> h == c.text
    ensures c.Highlighted? ==> |h| == |HighlightOpen| + |c.text| + |HighlightClose|
    ensures c.Highlighted? ==> h[|HighlightOpen|..|HighlightOpen| + |c.text|] == c.text
  {
    match c
    case Plain(t) => t
    case Highlighted(t) =>
      var h := HighlightOpen + t + HighlightClose;
      assert h[|HighlightOpen|..|HighlightOpen| + |t|] == t;
      h
  }

  /** The "⇒" entity between an old and a new value. */
  const Arrow: string := " &#8658; "

  /** Unchanged, the cell tells whether the series is in production; changed,
      it tells only the new value. */
  function InProductionCell(d: SeriesDetails, change: Option<(bool, bool)>): (c: Cell)
    ensures c.Highlighted? <==> change.Some?
    ensures change.None? ==> (c.text == "In production" <==> d.inProduction)
    ensures change.None? ==> (c.text == "Not in production" <==> !d.inProduction)
    ensures change.Some? ==> (c.text == "Now in production" <==> change.value.1)
    ensures change.Some? ==> (c.text == "No longer in production" <==> !change.value.1)
  {
    match change
    case None => Plain(if d.inProduction then "In production" else "Not in production")
    case Some((_, false)) => Highlighted("No longer in production")
    case Some((_, true)) => Highlighted("Now in production")
  }

  /** Unchanged, the cell shows the current status; changed, "old ⇒ new". */
  function StatusCell(d: SeriesDetails, change: Option<(SeriesStatus, SeriesStatus)>): (c: Cell)
    ensures c.Highlighted? <==> change.Some?
    ensures change.None? ==> c.text == StatusText(d.status)
    ensures change.Some? ==> c.text == StatusText(change.value.0) + Arrow + StatusText(change.value.1)
  {
    match change
    case None => Plain(StatusText(d.status))
    case Some((was, now)) => Highlighted(StatusText(was) + Arrow + StatusText(now))
  }

  /** An episode's identification, or the word shown when there is none;
      the word is told apart from any identification by its first letter. */
  function EpisodeText(e: Option<EpisodeDetails>, missing: string): (t: string)
    ensures e.Some? ==> t == Episodes.Identify(e.value)
    ensures |missing| > 0 && missing[0] != 'S' ==> (t == missing <==> e.None?)
  {
    match e
    case Some(ep) =>
      IdentifyStartsWithS(ep);
      Episodes.Identify(ep)
    case None => missing
  }

  /** The last episode is shown but never highlighted, even when it changed;
      "none" stands exactly for a series without an aired episode. */
  function LastEpisodeCell(d: SeriesDetails): (c: Cell)
    ensures c.Plain?
    ensures c.text == "none" <==> d.lastEpisodeToAir.None?
    ensures d.lastEpisodeToAir.Some? ==> c.text == Episodes.Identify(d.lastEpisodeToAir.value)
  {
    Plain(EpisodeText(d.lastEpisodeToAir, "none"))
  }

  /** "unknown" stands exactly for a series without an announced episode. */
  function NextEpisodeCell(d: SeriesDetails, changed: bool): (c: Cell)
    ensures c.Highlighted? <==> changed
    ensures c.text == "unknown" <==> d.nextEpisodeToAir.None?
    ensures d.nextEpisodeToAir.Some? ==> c.text == Episodes.Identify(d.nextEpisodeToAir.value)
  {
    var info := EpisodeText(d.nextEpisodeToAir, "unknown");
    if changed then Highlighted(info) else Plain(info)
  }

  /** Unchanged, the cell shows the count; a growth shows how many episodes
      are new and the total; any other change shows "old ⇒ new". */
  function EpisodeCountCell(d: SeriesDetails, change: Option<(int, int)>): (c: Cell)
    ensures c.Highlighted? <==> change.Some?
    ensures change.None? ==> c.text == IntToString(d.numberOfEpisodes)
    ensures change.Some? && change.value.0 < change.value.1 ==>
      c.text == IntToString(change.value.1 - change.value.0) + " new (" + IntToString(change.value.1) + " total)"
    ensures change.Some? && change.value.1 <= change.value.0 ==>
      c.text == IntToString(change.value.0) + Arrow + IntToString(change.value.1)
  {
    match change
    case None => Plain(IntToString(d.numberOfEpisodes))
    case Some((was, now)) =>
      if was < now then Highlighted(IntToString(now - was) + " new (" + IntToString(now) + " total)")
      else Highlighted(IntToString(was) + Arrow + IntToString(now))
  }

  /** A changed status cell shows both statuses: its text determines the pair. */
  lemma StatusChangeTextDetermines(d: SeriesDetails, c1: (SeriesStatus, SeriesStatus), c2: (SeriesStatus, SeriesStatus))
    requires StatusCell(d, Some(c1)).text == StatusCell(d, Some(c2)).text
    ensures c1 == c2
  {
    StatusTextHasNoAmpersand(c1.0);
    StatusTextHasNoAmpersand(c2.0);
    assert Arrow[1] == '&' && Arrow[..1] == " ";
    SplitAtSeparator(StatusText(c1.0), StatusText(c1.1), StatusText(c2.0), StatusText(c2.1), Arrow, 1);
    StatusTextInjective(c1.0, c2.0);
    StatusTextInjective(c1.1, c2.1);
  }

  /** A growth is told apart from any other count change, and either text
      determines the old and new counts. */
  lemma CountChangeTextDetermines(d: SeriesDetails, c1: (int, int), c2: (int, int))
    requires EpisodeCountCell(d, Some(c1)).text == EpisodeCountCell(d, Some(c2)).text
    ensures c1 == c2
  {
    if c1.0 < c1.1 && c2.0 < c2.1 {
      GrowthTextDetermines(c1.1 - c1.0, c1.1, c2.1 - c2.0, c2.1);
    } else if c1.0 < c1.1 {
      GrowthTextHasNoAmpersand(c1.1 - c1.0, c1.1);
      ArrowTextHasAmpersand(c2.0, c2.1);
    } else if c2.0 < c2.1 {
      GrowthTextHasNoAmpersand(c2.1 - c2.0, c2.1);
      ArrowTextHasAmpersand(c1.0, c1.1);
    } else {
      ArrowTextDetermines(c1.0, c1.1, c2.0, c2.1);
    }
  }

  lemma ArrowTextHasAmpersand(was: int, now: int)
    ensures '&' in IntToString(was) + Arrow + IntToString(now)
  {
    var s := IntToString(was) + Arrow + IntToString(now);
    assert s[|IntToString(was)| + 1] == Arrow[1] == '&';
  }

  lemma ArrowTextDetermines(was1: int, now1: int, was2: int, now2: int)
    requires IntToString(was1) + Arrow + IntToString(now1) == IntToString(was2) + Arrow + IntToString(now2)
    ensures was1 == was2 && now1 == now2
  {
    IntToStringHasNo(was1, '&');
    IntToStringHasNo(was2, '&');
    assert Arrow[1] == '&' && Arrow[..1] == " ";
    SplitAtSeparator(IntToString(was1), IntToString(now1), IntToString(was2), IntToString(now2), Arrow, 1);
    IntToStringInjective(was1, was2);
    IntToStringInjective(now1, now2);
  }

  lemma GrowthTextHasNoAmpersand(added: int, total: int)
    ensures '&' !in IntToString(added) + " new (" + IntToString(total) + " total)"
  {
    IntToStringHasNo(added, '&');
    IntToStringHasNo(total, '&');
  }

  lemma GrowthTextDetermines(added1: int, total1: int, added2: int, total2: int)
    requires IntToString(added1) + " new (" + IntToString(total1) + " total)"
          == IntToString(added2) + " new (" + IntToString(total2) + " total)"
    ensures added1 == added2 && total1 == total2
  {
    var a1, a2 := IntToString(added1), IntToString(added2);
    var t1, t2 := IntToString(total1), IntToString(total2);
    IntToStringHasNo(added1, ' ');
    IntToStringHasNo(added2, ' ');
    IntToStringHasNo(total1, ' ');
    IntToStringHasNo(total2, ' ');
    SplitAtTwoSeparators(a1, t1, a2, t2, " new (", " total)");
    IntToStringInjective(added1, added2);
    IntToStringInjective(total1, total2);
  }

  /** The values substituted into one series' block. */
  datatype Block = Block(
    posterUri: string,
    title: string,
    url: string,
    releaseYear: string,
    marginBottom: string,
    inProduction: Cell,
    status: Cell,
    lastEpisode: Cell,
    nextEpisode: Cell,
    episodeCount: Cell)

  /** The texts a block shows for its entry's snapshot: the first-air year
      or "unreleased", each episode's identification or the word standing
      for its absence, and the plain count when the count did not change. */
  predicate ShowsCurrentValues(e: SeriesEntry, b: Block) {
    var d := e.series.details;
    && (e.changes.inProductionChange.None? ==> (b.inProduction.text == "In production" <==> d.inProduction))
    && (e.changes.inProductionChange.None? ==> (b.inProduction.text == "Not in production" <==> !d.inProduction))
    && (e.changes.statusChange.None? ==> b.status.text == StatusText(d.status))
    && (b.releaseYear == "unreleased" <==> d.firstAirDate.None?)
    && (d.firstAirDate.Some? ==> b.releaseYear == IntToString(d.firstAirDate.value.year))
    && (b.lastEpisode.text == "none" <==> d.lastEpisodeToAir.None?)
    && (d.lastEpisodeToAir.Some? ==> b.lastEpisode.text == Episodes.Identify(d.lastEpisodeToAir.value))
    && (b.nextEpisode.text == "unknown" <==> d.nextEpisodeToAir.None?)
    && (d.nextEpisodeToAir.Some? ==> b.nextEpisode.text == Episodes.Identify(d.nextEpisodeToAir.value))
    && (e.changes.episodeCountChange.None? ==> b.episodeCount.text == IntToString(d.numberOfEpisodes))
  }

  /** The texts a block shows for its entry's changes: the new production
      flag, "old ⇒ new" for the status, and for the episode count either the
      growth and total or "old ⇒ new". */
  predicate ShowsChanges(e: SeriesEntry, b: Block) {
    var ch := e.changes;
    && (ch.inProductionChange.Some? ==> (b.inProduction.text == "Now in production" <==> ch.inProductionChange.value.1))
    && (ch.inProductionChange.Some? ==> (b.inProduction.text == "No longer in production" <==> !ch.inProductionChange.value.1))
    && (ch.statusChange.Some? ==>
          b.status.text == StatusText(ch.statusChange.value.0) + Arrow + StatusText(ch.statusChange.value.1))
    && (ch.episodeCountChange.Some? && ch.episodeCountChange.value.0 < ch.episodeCountChange.value.1 ==>
          b.episodeCount.text == IntToString(ch.episodeCountChange.value.1 - ch.episodeCountChange.value.0)
            + " new (" + IntToString(ch.episodeCountChange.value.1) + " total)")
    && (ch.episodeCountChange.Some? && ch.episodeCountChange.value.1 <= ch.episodeCountChange.value.0 ==>
          b.episodeCount.text == IntToString(ch.episodeCountChange.value.0) + Arrow + IntToString(ch.episodeCountChange.value.1))
  }

  function RenderEntry(e: SeriesEntry, isLast: bool): (b: Block)
    requires HasPosterExtension(e)
    ensures b.posterUri == PosterAttachmentUri(e)
    ensures b.marginBottom == "0" <==> isLast
    ensures !isLast ==> b.marginBottom == "30"
    ensures b.inProduction.Highlighted? <==> e.changes.inProductionChange.Some?
    ensures b.status.Highlighted? <==> e.changes.statusChange.Some?
    ensures b.lastEpisode.Plain?
    ensures b.nextEpisode.Highlighted? <==> e.changes.nextEpisodeChange.Some?
    ensures b.episodeCount.Highlighted? <==> e.changes.episodeCountChange.Some?
    ensures ShowsCurrentValues(e, b)
    ensures ShowsChanges(e, b)
  {
    var d := e.series.details;
    Block(
      PosterAttachmentUri(e),
      d.name,
      e.url,
      ReleaseYear(d.firstAirDate),
      if isLast then "0" else "30",
      InProductionCell(d, e.changes.inProductionChange),
      StatusCell(d, e.changes.statusChange),
      LastEpisodeCell(d),
      NextEpisodeCell(d, e.changes.nextEpisodeChange.Some?),
      EpisodeCountCell(d, e.changes.episodeCountChange))
  }

  predicate AllHavePosterExtension(entries: seq<SeriesEntry>) {
    forall i :: 0 <= i < |entries| ==> HasPosterExtension(entries[i])
  }

  /** `make_email_html`: one block per entry, in order, each citing its own
      entry's poster and page; only the final block has no bottom margin,
      and the highlights follow the entry's changes. */
  function RenderBlocks(entries: seq<SeriesEntry>): (bs: seq<Block>)
    requires AllHavePosterExtension(entries)
    ensures |bs| == |entries|
    ensures forall i :: 0 <= i < |entries| ==>
      && bs[i].posterUri == PosterAttachmentUri(entries[i])
      && bs[i].title == entries[i].series.details.name
      && bs[i].url == entries[i].url
    ensures forall i :: 0 <= i < |entries| ==> (bs[i].marginBottom == "0" <==> i == |entries| - 1)
    ensures forall i :: 0 <= i < |entries| ==>
      && (bs[i].inProduction.Highlighted? <==> entries[i].changes.inProductionChange.Some?)
      && (bs[i].status.Highlighted? <==> entries[i].changes.statusChange.Some?)
      && bs[i].lastEpisode.Plain?
      && (bs[i].nextEpisode.Highlighted? <==> entries[i].changes.nextEpisodeChange.Some?)
      && (bs[i].episodeCount.Highlighted? <==> entries[i].changes.episodeCountChange.Some?)
    ensures forall i :: 0 <= i < |entries| - 1 ==> bs[i].marginBottom == "30"
    ensures forall i :: 0 <= i < |entries| ==> ShowsCurrentValues(entries[i], bs[i])
    ensures forall i :: 0 <= i < |entries| ==> ShowsChanges(entries[i], bs[i])
  {
    seq(|entries|, i requires 0 <= i < |entries| => RenderEntry(entries[i], i == |entries| - 1))
  }

  /** For an entry whose changes end in the series' current snapshot, every
      cell describes the current state: the production cell says whether it
      is in production now, the status cell ends in the current status, and
      a growing episode count shows the current total. */
  lemma CellsDescribeCurrentState(e: SeriesEntry)
    requires EndsIn(e.changes, e.series.details)
    ensures var d := e.series.details;
      var t := InProductionCell(d, e.changes.inProductionChange).text;
      d.inProduction <==> (t == "In production" || t == "Now in production")
    ensures var d := e.series.details;
      EndsWith(StatusCell(d, e.changes.statusChange).text, StatusText(d.status))
    ensures var d := e.series.details;
      e.changes.episodeCountChange.Some? && e.changes.episodeCountChange.value.0 < d.numberOfEpisodes ==>
      EpisodeCountCell(d, e.changes.episodeCountChange).text ==
        IntToString(d.numberOfEpisodes - e.changes.episodeCountChange.value.0) + " new ("
        + IntToString(d.numberOfEpisodes) + " total)"
  {
  }
}
