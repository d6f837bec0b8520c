/** The `update` command of the command-line front end (src/main.rs): update
    one tracked series or all of them, then send the e-mail notifications
    when anything changed. */
module Commands {
  import opened Wrappers
  import opened Errors
  import opened Store
  import opened Changes
  import opened Update
  import opened Fanout
  import opened Notify

  /** The `update` subcommand's arguments: an optional series id, and an
      optional force flag that defaults to false. */
  datatype UpdateArgs = UpdateArgs(tmdbId: Option<int>, force: Option<bool>)

  /** The database reads the command makes. */
  datatype Database = Database(
    seriesById: int -> Result<Option<Series>, Error>,
    allSeries: Result<seq<Series>, Error>,
    posterById: int -> Result<Option<Poster>, Error>,
    subscribersOf: SubscriberLookup)

  /** The single-series branch: look the series up, update it, and report
      its changes as a list of at most one pair. */
  function UpdateById(id: int, force: bool, db: Database, clock: Clock, fetch: Fetcher, write: Writer)
    : (r: (Result<seq<(Series, SeriesDetailsChanges)>, Error>, seq<Effect>))
    ensures db.seriesById(id).Err? ==> r == (Err(db.seriesById(id).error), [])
    ensures db.seriesById(id) == Ok(None) ==> r == (Err(SeriesNotTracked(id)), [])
    ensures db.seriesById(id).Ok? && db.seriesById(id).value.Some? ==>
      var st := UpdateOne(db.seriesById(id).value.value, force, clock, fetch, write);
      && r.1 == st.effects
      && (st.result.Err? ==> r.0 == Err(st.result.error))
      && (st.result.Ok? ==> r.0 == Ok(Contribution(st)))
    ensures r.0.Ok? ==> |r.0.value| <= 1
  {
    match db.seriesById(id)
    case Err(e) => (Err(e), [])
    case Ok(None) => (Err(SeriesNotTracked(id)), [])
    case Ok(Some(series)) =>
      var st := UpdateOne(series, force, clock, fetch, write);
      match st.result
      case Err(e) => (Err(e), st.effects)
      case Ok(None) => (Ok([]), st.effects)
      case Ok(Some(changes)) => (Ok([(st.series, changes)]), st.effects)
  }

  /** The `Command::Update` arm. `updated` is the update phase's result,
      `effects` its collaborator calls, `notification` the notification run
      if one was started, and `result` the command's outcome. */
  method RunUpdateCommand(
    args: UpdateArgs, db: Database, clock: Clock, clocks: seq<Clock>,
    fetch: Fetcher, write: Writer, mailer: Mailer)
    returns (updated: Result<seq<(Series, SeriesDetailsChanges)>, Error>, effects: seq<Effect>,
             notification: Option<Notification>, result: Outcome<Error>)
    requires args.tmdbId.None? && db.allSeries.Ok? ==> |clocks| == |db.allSeries.value|
    // an id selects the single-series update, with force defaulting to false
    ensures args.tmdbId.Some? ==>
      (updated, effects) == UpdateById(args.tmdbId.value, args.force.GetOr(false), db, clock, fetch, write)
    // no id updates every tracked series
    ensures args.tmdbId.None? && db.allSeries.Err? ==> updated == Err(db.allSeries.error) && effects == []
    ensures args.tmdbId.None? && db.allSeries.Ok? ==>
      RunOutcome(Steps(db.allSeries.value, args.force.GetOr(false), clocks, fetch, write), updated, effects)
    // notifications go out exactly when the update phase succeeded with some changes
    ensures notification.Some? <==> updated.Ok? && updated.value != []
    ensures notification.Some? ==>
      notification.value == SendNotifications(updated.value, db.posterById, db.subscribersOf, mailer)
    ensures updated.Err? ==> result == Fail(updated.error)
    ensures updated.Ok? && updated.value == [] ==> result == Pass
    ensures notification.Some? ==> result == notification.value.result
  {
    var force := args.force.GetOr(false);
    if args.tmdbId.Some? {
      var single := UpdateById(args.tmdbId.value, force, db, clock, fetch, write);
      updated, effects := single.0, single.1;
    } else {
      updated, effects := UpdateAll(db.allSeries, force, clocks, fetch, write);
    }
    if updated.Err? {
      return updated, effects, None, Fail(updated.error);
    }
    if updated.value == [] {
      return updated, effects, None, Pass;
    }
    var n := SendNotifications(updated.value, db.posterById, db.subscribersOf, mailer);
    notification := Some(n);
    result := n.result;
  }
}
