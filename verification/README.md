# TVTrack core in Dafny

TVTrack keeps a local database of TV series a handful of users follow,
refreshes each series from the TMDB catalogue when it is due, works out what
changed, and e-mails every subscriber a digest of the changed series. This
project models the core of that program as pure functions over immutable
data and proves what it does:

- **change detection** (`Changes`): the five watched quantities of a series
  snapshot, diffed into optional (old, new) pairs;
- **the re-fetch schedule** (`Scheduler`): when a series is next due, from
  its next episode, its status, its last episode and its last fetch time;
- **the update engine** (`Update`): gate on the schedule, fetch, write back,
  diff, and adopt the new snapshot (`Store.SetDetails`), for one series or
  all of them;
- **notification fan-out** (`Entries`, `Fanout`, `Notify`): turn changed
  series into entries with posters, group them by subscriber, and compose and
  send one message per subscriber;
- **per-entry rendering** (`EmailHtml`): the values substituted into each
  series' block of the HTML body and which of them are highlighted;
- **codecs** (`TmdbSeries`, `Episodes`, `OptionalDates`, `MimeTypes`, with
  `Dates`, `Paths` and `Text` for the standard-library parts they rely on);
- **adding series** (`Add`): the bulk-add line format, which lines are read,
  the choice among search hits, and the already-tracked short-circuit;
- **the `update` command** (`Commands`): one series or all, then notify when
  something changed.

Collaborators — the TMDB client, the SQLite database, the SMTP transport,
the wall clock, the local calendar day, the mail library's address and
Content-Type validators — are function-typed parameters or plain values.
Every collaborator call can fail, and those that matter are recorded in a
trace of effects so contracts can say what was asked and in which order.
A Rust panic (`assert_eq!`, `unwrap` on `None`) becomes an `Err(Panic(..))`
that ends the run it occurs in.

Files, in dependency order: `wrappers.dfy`, `errors.dfy`, `text.dfy`,
`dates.dfy`, `encodings.dfy`, `optional_date.dfy`, `episode.dfy`,
`paths.dfy`, `series_details.dfy`, `mime_type.dfy`, `store.dfy`,
`changes.dfy`, `scheduler.dfy`, `update.dfy`, `entries.dfy`,
`email_html.dfy`, `fanout.dfy`, `notify.dfy`, `add.dfy`, `main_update.dfy`.

## Behaviour the model keeps as written

In these places the program does something a reader might not expect. The
model follows the code as written:

- Every subscriber's HTML body is rendered from *all* changed entries
  (src/notify/mod.rs:86). Only the poster attachments come from that
  subscriber's own entries (src/notify/mod.rs:89-91). So a body can refer to
  posters the message does not carry. `Notify.BodyRefersToUnattachedPoster`
  proves this.
- There is no shared "now" for a batch. Updating one series takes up to
  three clock readings of its own, and the next series takes fresh ones:
  - the due-time gate reads it (src/update.rs:165), unless the update is
    forced;
  - the schedule reads it for every series without a known next episode
    (src/update.rs:202), but only uses it for an ended or canceled series
    (src/update.rs:204-213);
  - the update stamp reads it (src/update.rs:141), only when the series is
    actually fetched.

  `Update.Clock` carries those three readings per series; a reading that is
  not taken is simply not looked at.
- A change of the last episode is recorded and logged, but the HTML never
  highlights it (src/notify/email_html.rs:187-196). `EmailHtml.LastEpisodeCell`
  states this.

## Model

| member | source | states |
|---|---|---|
| Text.ParseI32OfToString | src/add.rs:138 | printing any i32 and parsing the text back with `parse::<i32>` returns the same number |
| Text.IntToStringInjective | src/notify/entry.rs:16-18 | two numbers that print the same are equal, which is what makes per-series content ids unique |
| Dates.ParseFormatIso | src/tmdb/optional_date.rs:23-24 | chrono's ISO parser reads back every representable date from its printed form |
| OptionalDates.Deserialize | src/tmdb/optional_date.rs:15-27 | the empty string is "no date"; any other string is accepted exactly when it parses as an ISO date, yields that date, and otherwise fails naming the text |
| OptionalDates.Serialize | src/tmdb/optional_date.rs:39-48 | the wire form is empty exactly for "no date" |
| OptionalDates.Display | src/tmdb/optional_date.rs:51-57 | the display text is "<no date>" exactly when there is no date, and for a real date it is the same ISO text as the wire form |
| OptionalDates.RoundTrip | src/tmdb/optional_date.rs:15-48 | deserializing the serialized form of any optional date gives it back |
| OptionalDates.AtMostIsTotalOrder | src/add.rs:37-39 | the `Option<NaiveDate>` order the search-hit choice relies on is reflexive, antisymmetric, transitive and total, with no date lowest |
| Episodes.ParseEpisodeType | src/tmdb/episode.rs:28-45 | the string form is accepted exactly for the two variant names, and the parsed variant displays as the input |
| Episodes.EpisodeTypeFromJson | src/tmdb/episode.rs:40-45 | the JSON form is accepted exactly for "standard" and "finale", and re-encoding the result gives the input |
| Episodes.EpisodeTypeRoundTrips | src/tmdb/episode.rs:40-60 | the display, JSON and SQL encodings of an episode type all decode back to it |
| Episodes.Pad2NeverTruncates | src/tmdb/episode.rs:79-82 | `{:02}` padding keeps every digit: at least two characters, never shorter than the plain number, denoting the same value |
| Episodes.IdentifyPrefix | src/tmdb/episode.rs:78-82 | an episode's identification starts with "S<season>E<episode> <name> on <air date>" |
| Episodes.IdentifyStartsWithS | src/tmdb/episode.rs:78-82 | an identification starts with 'S', so it never reads as "none" or "unknown" |
| Episodes.IdentifyFinaleSuffix | src/tmdb/episode.rs:83-86 | the identification ends in " (Finale)" exactly when the episode is not a standard one |
| TmdbSeries.ParseStatus | src/tmdb/series.rs:30-44 | a status parses only from its exact display string, and a failure is an unknown-variant error naming the text |
| TmdbSeries.ParseStatusInverse | src/tmdb/series.rs:30-44 | parsing yields a status exactly when the text is that status' display string |
| TmdbSeries.StatusFromJson | src/tmdb/series.rs:55-80 | a JSON status must be a string and is then parsed like the display form; anything else is a type error |
| TmdbSeries.StatusFromSql | src/tmdb/series.rs:88-95 | a status column must hold text and is then parsed like the display form |
| TmdbSeries.StatusRoundTrips | src/tmdb/series.rs:46-95 | the display, JSON and SQL encodings of every status decode back to it |
| TmdbSeries.StatusTextInjective | src/tmdb/series.rs:36-43 | distinct statuses have distinct display strings |
| TmdbSeries.EpisodeAirDate | src/tmdb/series.rs:123-135 | the last or next episode date is "no date" when the episode is absent and the episode's air date otherwise |
| TmdbSeries.ReleaseYear | src/notify/email_html.rs:153-161 | the year shown is "unreleased" exactly when the first air date is unknown, and the first-air year otherwise |
| TmdbSeries.IdentifyUnreleasedIff | src/tmdb/series.rs:144-151 | a series is identified as "(unreleased)" exactly when its first air date is unknown |
| Paths.FileName | src/tmdb/series.rs:137-141 | a file name, when there is one, is a non-empty single component other than "." and ".." |
| Paths.Extension | src/tmdb/series.rs:137-141 | an extension never contains '.' or '/'; there is one exactly when the path has a file name with a '.' after its first character, and then the file name is a non-empty stem, '.', and the extension |
| Paths.ExtensionOfJoin | src/tmdb/series.rs:137-141 | a poster path "dir/stem.ext" has extension "ext" |
| MimeTypes.FileExtToMimeType | src/tmdb/mime_type.rs:10-20 | exactly "jpg" and "jpeg" map to image/jpeg and exactly "png" to image/png; nothing else maps |
| MimeTypes.NewMimeType | src/tmdb/mime_type.rs:22-32 | a MIME string is accepted exactly when the validator accepts it, is kept verbatim, and a rejection names the text |
| MimeTypes.MimeTypeOfPath | src/tmdb/mime_type.rs:71-85 | a path without an extension or with an unknown one fails with that error; a success is the mapped type of the path's extension |
| MimeTypes.MimeTypeOfPathKnown | src/tmdb/mime_type.rs:71-85 | a known extension whose MIME string validates yields exactly that MIME type |
| MimeTypes.MimeTypeFromSql | src/tmdb/mime_type.rs:55-60 | a MIME column must hold text and is accepted exactly when it validates |
| MimeTypes.MimeTypeSqlRoundTrip | src/tmdb/mime_type.rs:49-60 | a stored valid MIME type reads back unchanged |
| Store.SetDetails | src/db/series.rs:25-37 | after adopting a snapshot, the series holds that snapshot and update time, its mirrored columns agree with the snapshot, and its identity columns are unchanged |
| Store.SetDetailsIdempotent | src/db/series.rs:25-37 | adopting the same snapshot and time twice is the same as once |
| Store.SetDetailsForgetsOldSnapshot | src/db/series.rs:25-37 | the result depends on the old row only through its identity columns |
| Changes.NoChanges | src/update.rs:20-29 | a fresh change set has the given id and no changes |
| Changes.NoChangesIsUnique | src/update.rs:31-37 | a change set has no changes exactly when it is the fresh one for its id |
| Changes.Summary | src/update.rs:39-83 | the log summary is "no changes" exactly when nothing changed, and otherwise starts with a newline |
| Changes.CollectChanges | src/update.rs:86-128 | each of the five fields is reported exactly when it differs (episodes by air date), as the (old, new) pair, under the new snapshot's id |
| Changes.HasAnyChangesIff | src/update.rs:93-125 | the diff is non-empty exactly when production flag, status, last or next episode air date, or episode count differ |
| Changes.DiffSelfIsEmpty | src/update.rs:86-128 | a snapshot compared with itself yields no changes |
| Changes.DiffIsSymmetric | src/update.rs:86-128 | diffing in the opposite direction flags the same fields with every pair reversed |
| Changes.EpisodesComparedByAirDate | src/update.rs:101-118 | episodes whose air dates are equal never count as changed, whatever else about them differs |
| Changes.UnwatchedFieldsIgnored | src/update.rs:93-125 | title, poster, season count and first air date never affect the diff |
| Changes.DiffEndsInNew | src/update.rs:93-125 | the new side of every reported pair is the new snapshot's value |
| Scheduler.NumWeeks | src/update.rs:208 | whole weeks truncated toward zero, so "at least four weeks" is "at least 28 days" |
| Scheduler.EndOfDay | src/update.rs:197 | the result is the last second of the given day: it falls on that day, and one second later is the next day |
| Scheduler.NextUpdate | src/update.rs:191-222 | a known next episode makes the series due at the end of its air day; otherwise due one week after the last fetch, or four weeks for an ended or canceled series whose last episode is unknown or at least 28 days old |
| Scheduler.IntervalIsOneOrFourWeeks | src/update.rs:203-221 | without a known next episode the due time is exactly one or four weeks after the last fetch |
| Scheduler.NextEpisodeDominates | src/update.rs:194-200 | with a known next episode nothing but that date affects the schedule |
| Scheduler.ClockMattersOnlyForEndedSeries | src/update.rs:202-220 | the clock reading only matters for an ended or canceled series with a known last episode |
| Scheduler.DueNeverMovesEarlier | src/update.rs:202-221 | a later clock reading never makes a series due sooner |
| Scheduler.NextEpisodeExample | src/update.rs:194-200 | a series whose next episode airs on 2024-05-01 is due at 1714607999, 2024-05-01T23:59:59Z |
| Update.FetchAndPersist | src/update.rs:130-157 | the fetch comes first; a fetch error or a snapshot of another series stops there; otherwise the new columns are written whatever the diff, and success returns the diff, the snapshot and the stamp |
| Update.UpdateOne | src/update.rs:159-189 | a series not yet due and not forced makes no call and changes nothing; otherwise it is fetched and written back; changes are reported only when the write succeeded and the diff is non-empty, and then the series has adopted the new snapshot; conversely a due update whose fetch and write succeed reports exactly a non-empty diff and nothing otherwise |
| Update.NotDueExample | src/update.rs:164-172 | an ended series whose last episode is ten weeks old and which was fetched three weeks ago is skipped without a call |
| Update.ForceAlwaysFetches | src/update.rs:165 | a forced update always starts with a fetch |
| Update.UpdateAll | src/update.rs:224-244 | a failed load fails the run with no calls; otherwise a failing series is skipped, a panicking one aborts the run, and the result is the reported pairs in series order with every call made |
| Update.RunSteps | src/update.rs:231-243 | the loop result matches the per-series steps: all pairs and calls when nothing panics, else the first panic with the calls up to it |
| Update.CollectedAppend | src/update.rs:229-235 | pairs are collected in series order: a run's pairs are its first part's followed by the rest's |
| Update.CollectedMembers | src/update.rs:231-241 | a pair is collected exactly when some series reported it |
| Update.CollectedPairsConsistent | src/update.rs:176-188 | every collected pair has non-empty changes that end in that series' current snapshot |
| Entries.SeriesUrl | src/tmdb/client.rs:33-35 | a series page address starts with the catalogue's TV base address |
| Entries.SeriesUrlRoundTrip | src/tmdb/client.rs:33-35 | the series id can be read back from its page address |
| Entries.CreatePosterAttachment | src/notify/entry.rs:25-30 | the attachment carries the poster's bytes and MIME type under the content id the HTML refers to |
| Entries.PosterAttachmentIdsDistinct | src/notify/entry.rs:15-19 | posters of different series get different content ids, whatever their extensions |
| Entries.PosterAttachmentUrisDistinct | src/notify/entry.rs:21-23 | posters of different series get different "cid:" addresses |
| Entries.SeriesChangesToEntries | src/notify/entry.rs:33-64 | succeeds exactly when every poster is found, then yields one entry per change in order with its series, changes, page address and poster; otherwise the first missing poster's error |
| EmailHtml.CellHtml | src/notify/email_html.rs:145-147 | a plain value is shown as is, a highlighted one is wrapped with its text intact |
| EmailHtml.InProductionCell | src/notify/email_html.rs:164-177 | the production value is highlighted exactly when it changed; unchanged it reads "In production" or "Not in production" as the series is or is not, and changed it reads "Now in production" or "No longer in production" as the new flag is or is not set |
| EmailHtml.StatusCell | src/notify/email_html.rs:178-186 | the status value is highlighted exactly when it changed; unchanged it shows the current status, changed it shows the old status, the arrow, then the new status |
| EmailHtml.StatusChangeTextDetermines | src/notify/email_html.rs:178-186 | the text of a changed status cell determines the old and new status |
| EmailHtml.LastEpisodeCell | src/notify/email_html.rs:187-196 | the last episode is never highlighted; it shows "none" exactly when there is no aired episode, and the episode's identification otherwise |
| EmailHtml.NextEpisodeCell | src/notify/email_html.rs:197-211 | the next episode is highlighted exactly when it changed; it shows "unknown" exactly when no episode is announced, and the episode's identification otherwise |
| EmailHtml.EpisodeCountCell | src/notify/email_html.rs:212-223 | the episode count is highlighted exactly when it changed; an unchanged count shows the current number, a growth shows the number of new episodes and the new total, and any other change shows the old count, the arrow, then the new count |
| EmailHtml.CountChangeTextDetermines | src/notify/email_html.rs:212-223 | the text of a changed count cell determines the old and new counts: a growth never reads like another change, and neither form is ambiguous |
| EmailHtml.RenderEntry | src/notify/email_html.rs:149-223 | a block uses the poster's content address, has no bottom margin exactly when last and a margin of 30 otherwise, and highlights exactly the changed fields other than the last episode; it shows the first-air year or "unreleased" exactly when there is none, each episode's identification or "none"/"unknown" exactly when it is absent, and an unchanged count as the current number; changed cells show the new production flag and "old ⇒ new" status and count texts, or the growth and total for a grown count |
| EmailHtml.RenderBlocks | src/notify/email_html.rs:122-225 | one block per entry, in order, each citing its own entry's poster, name and page; only the final block has no bottom margin, and every other block has a margin of 30; each cell is highlighted exactly when its field changed, except the last episode, which never is; each block shows its entry's first-air year or "unreleased", its episodes' identifications or "none"/"unknown" exactly when absent, and an unchanged count as the current number; changed cells show the same change texts as a single block |
| EmailHtml.CellsDescribeCurrentState | src/notify/email_html.rs:164-223 | for changes ending in the current snapshot, the production cell tells whether it is in production now, the status cell ends in the current status, and a growing count shows the new total |
| Fanout.SubscriberLists | src/notify/mod.rs:31-34 | succeeds exactly when every lookup does, with each entry's subscribers; otherwise the first failure |
| Fanout.SeenIds | src/notify/mod.rs:44-49 | the user ids, each once, are exactly those paired with some entry |
| Fanout.GroupPairs | src/notify/mod.rs:30-50 | the grouping has one group per user id in order of first appearance, with the first user row and every entry paired with that id |
| Fanout.GroupStep | src/notify/mod.rs:44-49 | adding one (entry, user) pair keeps the grouping invariant |
| Fanout.EntriesForPairs | src/notify/mod.rs:31-50 | the entries paired with a user are exactly that user's subscribed entries, in entry order |
| Fanout.SeenIffHasEntries | src/notify/mod.rs:44-49 | a user id appears exactly when some entry is paired with it |
| Fanout.GroupsAreSubscriptions | src/notify/mod.rs:30-50 | groups have distinct users and hold exactly each user's subscribed entries, all drawn from the changed ones; a user has a group exactly when subscribed to one of them |
| Fanout.TwoSubscribersExample | src/notify/mod.rs:30-50 | a user following both changed series and one following the first get groups of two and one entries |
| Notify.ComposeMessage | src/notify/mod.rs:82-101 | a message goes to the group's user, its body renders all changed entries, and it carries one attachment per entry of that user, each matching the entry's poster address |
| Notify.SendAll | src/notify/mod.rs:81-106 | every message sent is the composed message of the group at its position, to a valid address, accepted by the transport; the run succeeds exactly when every group was sent |
| Notify.SendAllStopsAtFailure | src/notify/mod.rs:81-106 | a failed run stops at the first group not sent: a rejected recipient address is the failure, otherwise the transport's failure for that group's message is |
| Notify.SendNotifications | src/notify/mod.rs:15-50 | a missing poster or a failed subscriber lookup fails the run before anything is sent |
| Notify.Deliver | src/notify/mod.rs:64-106 | a transport setup failure or a bad sender address fails before sending; no subscribers means success with nothing sent; otherwise a poster path without an extension is the unwrap panic, before any send |
| Notify.DeliveredOncePerSubscriber | src/notify/mod.rs:28-106 | a successful run sends exactly one message to each subscriber of a changed series and nobody else, each message being the one composed for that user: addressed to them, with the body over all entries and, as attachments, the posters of exactly their own entries under the content addresses their blocks cite |
| Notify.BodyRefersToUnattachedPoster | src/notify/mod.rs:82-91 | a subscriber's body refers to the poster of a series they do not follow, for which the message has no attachment |
| Notify.AttachmentsAreReferenced | src/notify/mod.rs:89-91 | every attachment a subscriber receives is referred to by the body |
| Add.YearSuffix | src/add.rs:130-141 | a recognised year follows the last space of the line, and everything after that space is '(', text parsing as an i32, and ')'; a line without a space has none |
| Add.ParseLine | src/add.rs:129-142 | without a year the title is the trimmed line; with one, the year is in the i32 range; a line without a space is all title |
| Add.ParsedTitleIsTrimmed | src/add.rs:129-142 | the title has no surrounding whitespace, and when a year was split off it is a non-empty proper prefix of the trimmed line |
| Add.ParsedYearComesFromSuffix | src/add.rs:129-141 | a year is only read when the trimmed line is the title, whitespace, " (", a space-free token that parses as an i32, and ")"; any other line is all title |
| Add.ParenthesisedLastTokenIsYear | src/add.rs:129-141 | a trimmed line of the form title, " (", a space-free i32 token, ")" yields that year and the title trimmed at its end |
| Add.ParseLineOfTitleAndYear | src/add.rs:129-142 | "title (year)" reads back as that title and year |
| Add.Requests | src/add.rs:144-153 | at most one request per line, and a first line that is neither empty nor starts with '#' gives the first request |
| Add.KeptLinesAreRequested | src/add.rs:144-151 | every line that is neither empty nor starts with '#' yields its parsed request |
| Add.RequestsComeFromKeptLines | src/add.rs:144-149 | every request comes from a line that is neither empty nor starts with '#' |
| Add.OnlySkippedLinesRequestNothing | src/add.rs:145-147 | a file of blank and comment lines asks for nothing |
| Add.AddAll | src/add.rs:144-155 | requests are added in order until the first failure, which is the result; success means every request was added |
| Add.ExactMatches | src/add.rs:33-35 | keeps exactly the hits whose name is the title |
| Add.ExactMatchesKeepOrder | src/add.rs:33-35 | the kept hits are those at the exact-name positions of the search result, every such position once, in increasing order |
| Add.Narrow | src/add.rs:31-35 | when some hit's name is exactly the title, only such hits remain; otherwise all hits do |
| Add.MaxByDate | src/add.rs:37-39 | nothing is chosen only from no hits; the chosen hit's first air date is at least every other's, and every later hit's is strictly earlier (the last maximum wins) |
| Add.SelectCandidate | src/add.rs:29-47 | some hit is chosen whenever there are hits; it is an exact-name hit when one exists; no hit in the narrowed pool has a later first air date, and no eligible hit after it in the search result is dated as late (the last of equally dated hits wins) |
| Add.AddSeries | src/add.rs:8-55 | a search error propagates; no hits gives Ok(false); otherwise the chosen hit is added by id |
| Add.AddById | src/add.rs:57-123 | an already-tracked series returns Ok(true) after only the lookup; the catalogue is asked exactly when the series is not tracked; a lookup error propagates; a success always ends with the series insert |
| Commands.UpdateById | src/main.rs:74-86 | an unknown id fails with "not tracked" and no call; otherwise that one series is updated and yields at most one change pair |
| Commands.RunUpdateCommand | src/main.rs:71-92 | force defaults to false; an id selects the single-series update, none selects all series; notifications are sent exactly when the update succeeded with changes, and the command's outcome is the update's failure or the notification's outcome |

## Left out

- SQL text, the HTTP client and the SMTP transport are left out; they are collaborators given as functions. So are reading the bulk-add file and all `println!` and logging output.
- The order in which messages are sent is left out. The source iterates a `HashMap`, whose order is unspecified. The model sends in the order users first appear among the changed entries.
- Clock values are whole seconds. chrono's sub-second precision is not modelled.
- The local calendar day used in the subject line is a parameter (`Mailer.today`).
- The page around the series blocks is not modelled, and neither is each block's fixed markup. The model keeps only the values substituted into the placeholders.
- The chain of `.replace` calls in src/notify/email_html.rs:149-223 is not modelled. A title that itself contains a placeholder such as "{{url}}" would be substituted again; the model keeps each value separate.
- MIME multipart assembly, address parsing and Content-Type parsing belong to the mail library. Validation is a predicate parameter (`validAddress`, `valid`).
- chrono's date parser is modelled for the forms it prints. Its other lenient inputs are not modelled.
- The JSON encoding of a whole `SeriesDetails` is not modelled; only its enumerations and optional dates are. The `details_json` column is the same snapshot serialized, and it is not kept as a separate field.
- Integer widths: ids, season and episode numbers and counts are unbounded integers. An i32 overflow of `new_count - old_count` (src/notify/email_html.rs:217) would need counts far outside TMDB's range.
- The `popularity` field of a search hit is not modelled.
- Add.AddById: as written, the series insert statement (src/add.rs:108) cannot run. It names ten columns but gives eleven values. It calls `NOW()`, which SQLite does not define. Its `:poster_data` and `:poster_mime_type` placeholders are never bound, and the bound `:poster_id` has no placeholder. SQLite would reject the statement when preparing it, so adding an untracked series never returns `Ok(true)` as written. The model deliberately lets the `insertSeries` collaborator succeed or fail freely, modelling the evidently intended insert.
- Of `main`, the `update` arm is modelled as `Commands.RunUpdateCommand`. The `add-by-id` arm (src/main.rs:65-67) is a direct call of `add_series_by_id`, modelled as `Add.AddById`. The `add-by-title` arm (src/main.rs:59-64) and the `add-from` arm (src/main.rs:68-70) call `add_series_by_title` and `multi_add_series_from_file`, which src/add.rs does not define, so they are not modelled. Configuration loading and database opening are not modelled either.
- Trivial trait impls are not modelled as separate operations: the id newtypes' SQL mappings, and `MimeType`'s `Display`, `Borrow`, `AsRef` and conversion to the mail library's `ContentType`.
- Notify.SendNotifications: its own contract covers only the failures before delivery. What delivery does is stated by `Notify.Deliver` and `Notify.DeliveredOncePerSubscriber`.
- Add.Requests: its own contract states only the length bound and the first request. Membership in both directions is stated by `Add.KeptLinesAreRequested` and `Add.RequestsComeFromKeptLines`. Order beyond the first request and multiplicity are not stated.
- Paths.FileName: it states only what shape a file name has. How `Path::file_name` treats paths ending in "/" or "." is in the body and is not restated.
