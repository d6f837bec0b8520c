/** One changed series prepared for the notification e-mail
    (src/notify/entry.rs): the series, its changes, its catalogue page and
    its stored poster, which travels as an inline attachment the HTML body
    refers to by content id. */
module Entries {
  import opened Wrappers
  import opened Errors
  import opened Text
  import opened Encodings
  import opened TmdbSeries
  import opened MimeTypes
  import opened Store
  import opened Changes

  datatype SeriesEntry = SeriesEntry(series: Series, changes: SeriesDetailsChanges, url: string, poster: Poster)

  const SeriesUrlBase: string := "https://www.themoviedb.org/tv/"

  /** The catalogue's public page of a series (`make_series_url`). */
  function SeriesUrl(id: int): (u: string)
    ensures |u| > |SeriesUrlBase| && u[..|SeriesUrlBase|] == SeriesUrlBase
  {
    SeriesUrlBase + IntToString(id)
  }

  /** The series id can be read back from its page address. */
  lemma SeriesUrlRoundTrip(id: int)
    requires I32Min <= id <= I32Max
    ensures ParseI32(SeriesUrl(id)[|SeriesUrlBase|..]) == Some(id)
  {
    assert SeriesUrl(id)[|SeriesUrlBase|..] == IntToString(id);
    ParseI32OfToString(id);
  }

  predicate HasPosterExtension(e: SeriesEntry) {
    PosterExtension(e.series.details).Some?
  }

  /** The content id of the entry's poster: "{series id}.{poster extension}".
      The source unwraps the extension, so an entry without one panics; callers
      here must rule that out first. */
  function PosterAttachmentId(e: SeriesEntry): string
    requires HasPosterExtension(e)
  {
    IntToString(e.series.details.id) + "." + PosterExtension(e.series.details).value
  }

  /** The address the HTML body uses for the poster. */
  function PosterAttachmentUri(e: SeriesEntry): string
    requires HasPosterExtension(e)
  {
    "cid:" + PosterAttachmentId(e)
  }

  /** An inline MIME part: content id, bytes and content type. */
  datatype Attachment = Attachment(contentId: string, body: seq<byte>, contentType: MimeType)

  function CreatePosterAttachment(e: SeriesEntry): (a: Attachment)
    requires HasPosterExtension(e)
    ensures "cid:" + a.contentId == PosterAttachmentUri(e)
    ensures a.body == e.poster.imgData && a.contentType == e.poster.mimeType
  {
    Attachment(PosterAttachmentId(e), e.poster.imgData, e.poster.mimeType)
  }

  /** Posters of different series get different content ids, whatever their
      extensions: the id part before the first '.' is the series id. */
  lemma PosterAttachmentIdsDistinct(e1: SeriesEntry, e2: SeriesEntry)
    requires HasPosterExtension(e1) && HasPosterExtension(e2)
    requires e1.series.details.id != e2.series.details.id
    ensures PosterAttachmentId(e1) != PosterAttachmentId(e2)
  {
    if PosterAttachmentId(e1) == PosterAttachmentId(e2) {
      var n1 := IntToString(e1.series.details.id);
      var n2 := IntToString(e2.series.details.id);
      FirstDotAfterNumber(n1, PosterExtension(e1.series.details).value, e1.series.details.id);
      FirstDotAfterNumber(n2, PosterExtension(e2.series.details).value, e2.series.details.id);
      IntToStringInjective(e1.series.details.id, e2.series.details.id);
    }
  }

  lemma PosterAttachmentUrisDistinct(e1: SeriesEntry, e2: SeriesEntry)
    requires HasPosterExtension(e1) && HasPosterExtension(e2)
    requires e1.series.details.id != e2.series.details.id
    ensures PosterAttachmentUri(e1) != PosterAttachmentUri(e2)
  {
    PosterAttachmentIdsDistinct(e1, e2);
    var u1 := PosterAttachmentUri(e1);
    var u2 := PosterAttachmentUri(e2);
    assert u1[4..] == PosterAttachmentId(e1);
    assert u2[4..] == PosterAttachmentId(e2);
  }

  lemma FirstDotAfterNumber(n: string, ext: string, id: int)
    requires n == IntToString(id)
    ensures IndexOf(n + "." + ext, '.') == Some(|n|)
    ensures (n + "." + ext)[..|n|] == n
  {
    IntToStringChars(id);
    var s := n + "." + ext;
    assert s[|n|] == '.';
    forall i | 0 <= i < |n| ensures s[i] != '.' {
      assert s[i] == n[i];
    }
  }

  /** Whether the poster lookup for a changed series yields a poster. */
  predicate PosterFound(p: (Series, SeriesDetailsChanges), posterById: int -> Result<Option<Poster>, Error>) {
    posterById(p.0.posterId).Ok? && posterById(p.0.posterId).value.Some?
  }

  /** The error a failed poster lookup reports. */
  function PosterLookupError(p: (Series, SeriesDetailsChanges), posterById: int -> Result<Option<Poster>, Error>): Error
    requires !PosterFound(p, posterById)
  {
    if posterById(p.0.posterId).Err? then posterById(p.0.posterId).error
    else PosterNotFound(p.0.posterId, p.0.details.id)
  }

  predicate FirstMissingPoster(
    changes: seq<(Series, SeriesDetailsChanges)>, posterById: int -> Result<Option<Poster>, Error>, k: int)
  {
    && 0 <= k < |changes|
    && !PosterFound(changes[k], posterById)
    && forall j :: 0 <= j < k ==> PosterFound(changes[j], posterById)
  }

  /** `series_changes_to_entries`: one entry per changed series, in order; the
      first poster that cannot be loaded ends the conversion with its error. */
  function SeriesChangesToEntries(
    changes: seq<(Series, SeriesDetailsChanges)>, posterById: int -> Result<Option<Poster>, Error>)
    : (r: Result<seq<SeriesEntry>, Error>)
    ensures r.Ok? <==> forall i :: 0 <= i < |changes| ==> PosterFound(changes[i], posterById)
    ensures r.Ok? ==> |r.value| == |changes|
    ensures r.Ok? ==> forall i :: 0 <= i < |changes| ==>
      && r.value[i].series == changes[i].0
      && r.value[i].changes == changes[i].1
      && r.value[i].url == SeriesUrl(changes[i].1.id)
      && Some(r.value[i].poster) == posterById(changes[i].0.posterId).value
    ensures r.Err? ==> exists k :: FirstMissingPoster(changes, posterById, k)
                                   && r.error == PosterLookupError(changes[k], posterById)
  {
    if |changes| == 0 then Ok([])
    else
      var (series, c) := changes[0];
      match posterById(series.posterId)
      case Err(e) => Err(e)
      case Ok(None) => Err(PosterNotFound(series.posterId, series.details.id))
      case Ok(Some(poster)) =>
        match SeriesChangesToEntries(changes[1..], posterById)
        case Err(e) =>
          assert forall j :: 1 <= j <= |changes[1..]| ==> changes[1..][j - 1] == changes[j];
          Err(e)
        case Ok(rest) => Ok([SeriesEntry(series, c, SeriesUrl(c.id), poster)] + rest)
  }
}
