/** The update engine (src/update.rs): decide whether a tracked series is
    due, fetch a fresh snapshot, persist it, diff it against the stored one,
    and do so for every tracked series in turn.

    The catalogue client and the database are collaborators passed in as
    functions; what the engine asks of them is returned as a trace of
    effects. Each series gets its own clock readings, because the source
    reads the wall clock separately for the schedule, the due-time gate and
    the update stamp, and again for every series. */
module Update {
  import opened Wrappers
  import opened Errors
  import opened Dates
  import opened OptionalDates
  import opened TmdbSeries
  import opened Store
  import opened Changes
  import opened Scheduler

  /** The three clock readings one series' update takes. */
  datatype Clock = Clock(scheduleNow: int, gateNow: int, stampNow: int)

  /** The columns the update statement writes, and the `tmdb_id` it keys on. */
  datatype SeriesRow = SeriesRow(
    id: int,
    status: SeriesStatus,
    inProduction: bool,
    lastEpisodeAirDate: OptionalDate,
    nextEpisodeAirDate: OptionalDate,
    details: SeriesDetails,
    updateTimestamp: int)

  /** The stored columns of a series as the update statement would write them. */
  function RowOf(s: Series): SeriesRow {
    SeriesRow(s.details.id, s.status, s.inProduction, s.lastEpisodeAirDate,
              s.nextEpisodeAirDate, s.details, s.updateTimestamp)
  }

  datatype Effect = FetchDetails(seriesId: int) | WriteSeries(row: SeriesRow)

  type Fetcher = int -> Result<SeriesDetails, Error>
  type Writer = SeriesRow -> Outcome<Error>

  /** The assertion that a fetched snapshot describes the series asked for. */
  const IdMismatch: Error := Panic("assertion `left == right` failed: series id")

  /** `update_and_collect_changes`: fetch, diff, then write the new snapshot
      whatever the diff says. */
  function FetchAndPersist(stored: SeriesDetails, fetch: Fetcher, write: Writer, stampNow: int)
    : (r: (Result<(SeriesDetailsChanges, SeriesDetails, int), Error>, seq<Effect>))
    ensures |r.1| >= 1 && r.1[0] == FetchDetails(stored.id)
    ensures fetch(stored.id).Err? ==> r == (Err(fetch(stored.id).error), [FetchDetails(stored.id)])
    ensures fetch(stored.id).Ok? && fetch(stored.id).value.id != stored.id ==>
      r == (Err(IdMismatch), [FetchDetails(stored.id)])
    ensures fetch(stored.id).Ok? && fetch(stored.id).value.id == stored.id ==>
      var d := fetch(stored.id).value;
      var row := SeriesRow(stored.id, d.status, d.inProduction, LastEpisodeDate(d), NextEpisodeDate(d), d, stampNow);
      && r.1 == [FetchDetails(stored.id), WriteSeries(row)]
      && (write(row).Fail? ==> r.0 == Err(write(row).error))
      && (write(row).Pass? ==> r.0 == Ok((CollectChanges(stored, d), d, stampNow)))
  {
    var id := stored.id;
    match fetch(id)
    case Err(e) => (Err(e), [FetchDetails(id)])
    case Ok(d) =>
      if d.id != id then (Err(IdMismatch), [FetchDetails(id)])
      else
        var changes := CollectChanges(stored, d);
        var row := SeriesRow(id, d.status, d.inProduction, LastEpisodeDate(d), NextEpisodeDate(d), d, stampNow);
        match write(row)
        case Fail(e) => (Err(e), [FetchDetails(id), WriteSeries(row)])
        case Pass => (Ok((changes, d, stampNow)), [FetchDetails(id), WriteSeries(row)])
  }

  /** What updating one series produced: the outcome, the series as held in
      memory afterwards, and the collaborator calls made. */
  datatype Step = Step(result: Result<Option<SeriesDetailsChanges>, Error>, series: Series, effects: seq<Effect>)

  predicate Reported(st: Step) {
    st.result.Ok? && st.result.value.Some?
  }

  /** `update_one_series`. */
  function UpdateOne(series: Series, force: bool, clock: Clock, fetch: Fetcher, write: Writer): (st: Step)
    // not yet due and not forced: nothing is fetched and nothing changes
    ensures !force && clock.gateNow < NextUpdate(series, clock.scheduleNow).0 ==>
      st == Step(Ok(None), series, [])
    // otherwise the first thing done is the fetch
    ensures force || clock.gateNow >= NextUpdate(series, clock.scheduleNow).0 ==>
      |st.effects| >= 1 && st.effects[0] == FetchDetails(series.details.id)
    // a fetched snapshot of the right series is always written back, changed or not
    ensures (force || clock.gateNow >= NextUpdate(series, clock.scheduleNow).0)
            && fetch(series.details.id).Ok? && fetch(series.details.id).value.id == series.details.id ==>
      st.effects == [FetchDetails(series.details.id),
                     WriteSeries(RowOf(SetDetails(series, fetch(series.details.id).value, clock.stampNow)))]
    // changes are reported exactly when the write succeeded and the diff is non-empty,
    // and then the in-memory series has adopted the new snapshot
    ensures Reported(st) ==>
      && fetch(series.details.id).Ok?
      && var d := fetch(series.details.id).value;
         && d.id == series.details.id
         && write(RowOf(SetDetails(series, d, clock.stampNow))).Pass?
         && st.result.value.value == CollectChanges(series.details, d)
         && HasAnyChanges(st.result.value.value)
         && st.series == SetDetails(series, d, clock.stampNow)
         && EndsIn(st.result.value.value, st.series.details)
    // and conversely, a due update whose fetch and write succeed reports
    // exactly a non-empty diff
    ensures (force || clock.gateNow >= NextUpdate(series, clock.scheduleNow).0)
            && fetch(series.details.id).Ok? && fetch(series.details.id).value.id == series.details.id
            && write(RowOf(SetDetails(series, fetch(series.details.id).value, clock.stampNow))).Pass? ==>
      var changes := CollectChanges(series.details, fetch(series.details.id).value);
      st.result == (if HasAnyChanges(changes) then Ok(Some(changes)) else Ok(None))
    ensures !Reported(st) ==> st.series == series
    ensures st.result.Err? ==>
      var id := series.details.id;
      || (fetch(id).Err? && st.result.error == fetch(id).error)
      || (fetch(id).Ok? && fetch(id).value.id != id && st.result.error == IdMismatch)
      || (&& fetch(id).Ok? && fetch(id).value.id == id
          && var w := write(RowOf(SetDetails(series, fetch(id).value, clock.stampNow)));
             w.Fail? && st.result.error == w.error)
  {
    var (due, reason) := NextUpdate(series, clock.scheduleNow);
    if !force && clock.gateNow < due then Step(Ok(None), series, [])
    else
      var (result, effects) := FetchAndPersist(series.details, fetch, write, clock.stampNow);
      match result
      case Err(e) => Step(Err(e), series, effects)
      case Ok((changes, newDetails, stamp)) =>
        if !HasAnyChanges(changes) then Step(Ok(None), series, effects)
        else
          DiffEndsInNew(series.details, newDetails);
          Step(Ok(Some(changes)), SetDetails(series, newDetails, stamp), effects)
  }

  /** An ended series whose last episode aired ten weeks ago, fetched three
      weeks ago, is not due yet: no fetch, no change. */
  lemma NotDueExample(series: Series, now: int, fetch: Fetcher, write: Writer)
    requires series.status == Ended && series.nextEpisodeAirDate.None?
    requires series.lastEpisodeAirDate.Some?
    requires DayNumber(series.lastEpisodeAirDate.value) == DayOfTimestamp(now) - 70
    requires now == series.updateTimestamp + 3 * Week
    ensures UpdateOne(series, false, Clock(now, now, now), fetch, write) == Step(Ok(None), series, [])
  {
  }

  /** A forced update always asks the catalogue, even right after the last
      fetch. */
  lemma ForceAlwaysFetches(series: Series, clock: Clock, fetch: Fetcher, write: Writer)
    ensures var st := UpdateOne(series, true, clock, fetch, write);
      |st.effects| >= 1 && st.effects[0] == FetchDetails(series.details.id)
  {
  }

  // ---------------------------------------------------------------------------
  // All series

  predicate Panicked(st: Step) {
    st.result.Err? && st.result.error.Panic?
  }

  /** The step each series would take on its own. */
  function Steps(all: seq<Series>, force: bool, clocks: seq<Clock>, fetch: Fetcher, write: Writer): seq<Step>
    requires |clocks| == |all|
  {
    seq(|all|, i requires 0 <= i < |all| => UpdateOne(all[i], force, clocks[i], fetch, write))
  }

  /** The (series, changes) pairs a run of steps reports, in order. */
  function Collected(steps: seq<Step>): seq<(Series, SeriesDetailsChanges)> {
    if |steps| == 0 then []
    else
      Collected(steps[..|steps| - 1]) + Contribution(steps[|steps| - 1])
  }

  /** The pair one step reports, if any. */
  function Contribution(st: Step): seq<(Series, SeriesDetailsChanges)> {
    if Reported(st) then [(st.series, st.result.value.value)] else []
  }

  /** All collaborator calls of a run of steps, in order. */
  function Trace(steps: seq<Step>): seq<Effect> {
    if |steps| == 0 then [] else Trace(steps[..|steps| - 1]) + steps[|steps| - 1].effects
  }

  predicate FirstPanicAt(steps: seq<Step>, k: int) {
    && 0 <= k < |steps|
    && Panicked(steps[k])
    && forall j :: 0 <= j < k ==> !Panicked(steps[j])
  }

  /** `update_all_series`: update every tracked series in turn. A series whose
      update fails is skipped and the rest still run; a failed load fails the
      whole run; a panic in one series aborts the run. */
  method UpdateAll(loaded: Result<seq<Series>, Error>, force: bool, clocks: seq<Clock>, fetch: Fetcher, write: Writer)
    returns (r: Result<seq<(Series, SeriesDetailsChanges)>, Error>, effects: seq<Effect>)
    requires loaded.Ok? ==> |clocks| == |loaded.value|
    ensures loaded.Err? ==> r == Err(loaded.error) && effects == []
    ensures loaded.Ok? ==> RunOutcome(Steps(loaded.value, force, clocks, fetch, write), r, effects)
  {
    if loaded.Err? {
      return Err(loaded.error), [];
    }
    r, effects := RunSteps(Steps(loaded.value, force, clocks, fetch, write));
  }

  /** What running `steps` in order yields: the reported pairs and all calls
      when no step panics, else the first panic and the calls up to it. */
  ghost predicate RunOutcome(steps: seq<Step>, r: Result<seq<(Series, SeriesDetailsChanges)>, Error>, effects: seq<Effect>) {
    && (r.Ok? <==> forall i :: 0 <= i < |steps| ==> !Panicked(steps[i]))
    && (r.Ok? ==> r.value == Collected(steps) && effects == Trace(steps))
    && (r.Err? ==> exists k :: FirstPanicAt(steps, k) && r.error == steps[k].result.error
                                && effects == Trace(steps[..k + 1]))
  }

  /** The loop of `update_all_series` over the series' steps. */
  method RunSteps(steps: seq<Step>) returns (r: Result<seq<(Series, SeriesDetailsChanges)>, Error>, effects: seq<Effect>)
    ensures RunOutcome(steps, r, effects)
  {
    var out := [];
    effects := [];
    var i := 0;
    while i < |steps|
      invariant 0 <= i <= |steps|
      invariant forall j :: 0 <= j < i ==> !Panicked(steps[j])
      invariant out == Collected(steps[..i])
      invariant effects == Trace(steps[..i])
    {
      var st := steps[i];
      PrefixStep(steps, i);
      effects := effects + st.effects;
      if st.result.Err? && st.result.error.Panic? {
        PanicOutcome(steps, i, effects);
        return Err(st.result.error), effects;
      }
      out := out + Contribution(st);
      i := i + 1;
    }
    assert steps[..i] == steps;
    r := Ok(out);
  }

  lemma PanicOutcome(steps: seq<Step>, i: int, effects: seq<Effect>)
    requires 0 <= i < |steps| && Panicked(steps[i])
    requires forall j :: 0 <= j < i ==> !Panicked(steps[j])
    requires effects == Trace(steps[..i + 1])
    ensures RunOutcome(steps, Err(steps[i].result.error), effects)
  {
    assert FirstPanicAt(steps, i);
  }

  lemma PrefixStep(steps: seq<Step>, i: int)
    requires 0 <= i < |steps|
    ensures Collected(steps[..i + 1]) == Collected(steps[..i]) + Contribution(steps[i])
    ensures Trace(steps[..i + 1]) == Trace(steps[..i]) + steps[i].effects
  {
    assert steps[..i + 1][..i] == steps[..i];
  }

  /** Collecting is compositional: the pairs of a run are those of its first
      part followed by those of the rest, so reports keep the series order. */
  lemma {:induction false} CollectedAppend(a: seq<Step>, b: seq<Step>)
    ensures Collected(a + b) == Collected(a) + Collected(b)
    decreases |b|
  {
    if |b| == 0 {
      assert a + b == a;
    } else {
      var b' := b[..|b| - 1];
      assert (a + b)[..|a + b| - 1] == a + b';
      CollectedAppend(a, b');
    }
  }

  /** A pair is collected exactly when some step reported it. */
  lemma {:induction false} CollectedMembers(steps: seq<Step>, p: (Series, SeriesDetailsChanges))
    ensures p in Collected(steps) <==>
      exists i :: 0 <= i < |steps| && Reported(steps[i]) && p == (steps[i].series, steps[i].result.value.value)
  {
    if |steps| > 0 {
      var init := steps[..|steps| - 1];
      CollectedMembers(init, p);
      forall i | 0 <= i < |init| ensures init[i] == steps[i] { }
    }
  }

  /** Every collected pair is consistent: its changes are non-empty, carry the
      series' id and end in the series' current snapshot. */
  lemma {:induction false} CollectedPairsConsistent(
    all: seq<Series>, force: bool, clocks: seq<Clock>, fetch: Fetcher, write: Writer, p: (Series, SeriesDetailsChanges))
    requires |clocks| == |all|
    requires p in Collected(Steps(all, force, clocks, fetch, write))
    ensures HasAnyChanges(p.1) && EndsIn(p.1, p.0.details)
  {
    var steps := Steps(all, force, clocks, fetch, write);
    CollectedMembers(steps, p);
    var i :| 0 <= i < |steps| && Reported(steps[i]) && p == (steps[i].series, steps[i].result.value.value);
    assert steps[i] == UpdateOne(all[i], force, clocks[i], fetch, write);
  }
}
