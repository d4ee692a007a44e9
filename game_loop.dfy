// The loop over the scraped games: each row is normalised, unscheduled rows
// are passed over, every other row adds one event to the calendar, and the
// first row that raises stops the loop with the events added so far kept.

module GameLoop {
  import opened PyText
  import opened Schedule

  /** The exception that ended the loop, and the position of the row that raised it. */
  datatype RowFailure = RowFailure(index: nat, error: RowError)

  /** What the loop leaves behind: the events it added, in order, and the
      exception it stopped on, if any. */
  datatype RunResult = RunResult(events: seq<Event>, failure: Option<RowFailure>)

  /** `normalize` applied to every row, in row order. */
  function MapRows(normalize: GameRow -> RowOutcome, games: seq<GameRow>): (r: seq<RowOutcome>)
    ensures |r| == |games|
  {
    if games == [] then [] else [normalize(games[0])] + MapRows(normalize, games[1..])
  }

  lemma {:induction false} MapRowsAt(normalize: GameRow -> RowOutcome, games: seq<GameRow>, i: nat)
    requires i < |games|
    ensures MapRows(normalize, games)[i] == normalize(games[i])
    decreases i
  {
    if i > 0 {
      MapRowsAt(normalize, games[1..], i - 1);
    }
  }

  /** What each row comes to on its own, in row order. */
  function Outcomes(games: seq<GameRow>): (r: seq<RowOutcome>)
    ensures |r| == |games|
  {
    MapRows(NormalizeRow, games)
  }

  /** The loop over the rows' outcomes, one row at a time from the front;
      once a row has failed nothing after it is looked at. */
  function Run(outcomes: seq<RowOutcome>): (r: RunResult)
    ensures |r.events| <= |outcomes|
    ensures r.failure.Some? ==> r.failure.value.index < |outcomes|
    decreases |outcomes|
  {
    if outcomes == [] then RunResult([], None)
    else
      var prev := Run(outcomes[..|outcomes| - 1]);
      if prev.failure.Some? then prev
      else
        match outcomes[|outcomes| - 1]
        case Skipped => prev
        case Added(e) => RunResult(prev.events + [e], None)
        case Failed(err) => RunResult(prev.events, Some(RowFailure(|outcomes| - 1, err)))
  }

  /** No row raises. */
  predicate NoFailures(outcomes: seq<RowOutcome>) {
    forall i :: 0 <= i < |outcomes| ==> !outcomes[i].Failed?
  }

  /** The events one row contributes on its own. */
  function RowEvents(o: RowOutcome): seq<Event> {
    match o
    case Added(e) => [e]
    case _ => []
  }

  /** Reference definition: the events of all rows that come to one, in row
      order, each the event of some row. */
  function AddedEvents(outcomes: seq<RowOutcome>): (r: seq<Event>)
    ensures |r| <= |outcomes|
    ensures forall e :: e in r ==> Added(e) in outcomes
  {
    if outcomes == [] then []
    else
      var rest := AddedEvents(outcomes[1..]);
      assert forall o :: o in outcomes[1..] ==> o in outcomes;
      RowEvents(outcomes[0]) + rest
  }

  /** Number of rows that are not passed over. */
  function ScheduledCount(outcomes: seq<RowOutcome>): (n: nat)
    ensures n <= |outcomes|
  {
    if outcomes == [] then 0
    else (if outcomes[0].Skipped? then 0 else 1) + ScheduledCount(outcomes[1..])
  }

  lemma {:induction false} AddedEventsSnoc(outcomes: seq<RowOutcome>, o: RowOutcome)
    ensures AddedEvents(outcomes + [o]) == AddedEvents(outcomes) + RowEvents(o)
    decreases |outcomes|
  {
    if outcomes != [] {
      assert (outcomes + [o])[1..] == outcomes[1..] + [o];
      AddedEventsSnoc(outcomes[1..], o);
    }
  }

  /** The loop gets through every row exactly when no row raises. */
  lemma {:induction false} RunSucceedsIff(outcomes: seq<RowOutcome>)
    ensures Run(outcomes).failure == None <==> NoFailures(outcomes)
    decreases |outcomes|
  {
    if outcomes != [] {
      var init := outcomes[..|outcomes| - 1];
      RunSucceedsIff(init);
      assert forall i :: 0 <= i < |init| ==> init[i] == outcomes[i];
    }
  }

  /** A loop that gets through every row adds exactly the reference events. */
  lemma {:induction false} RunMatchesAddedEvents(outcomes: seq<RowOutcome>)
    ensures Run(outcomes).failure == None ==> Run(outcomes).events == AddedEvents(outcomes)
    decreases |outcomes|
  {
    if outcomes != [] {
      var init := outcomes[..|outcomes| - 1];
      var last := outcomes[|outcomes| - 1];
      RunMatchesAddedEvents(init);
      assert outcomes == init + [last];
      AddedEventsSnoc(init, last);
    }
  }

  /** A failure is reported for the first row that raises, and the events
      kept are those of the rows before it. */
  lemma {:induction false} RunFailureIsFirst(outcomes: seq<RowOutcome>)
    ensures Run(outcomes).failure.Some? ==>
      var k := Run(outcomes).failure.value.index;
      k < |outcomes| &&
      outcomes[k] == Failed(Run(outcomes).failure.value.error) &&
      NoFailures(outcomes[..k]) &&
      Run(outcomes).events == AddedEvents(outcomes[..k])
    decreases |outcomes|
  {
    if outcomes != [] {
      var init := outcomes[..|outcomes| - 1];
      RunFailureIsFirst(init);
      if Run(init).failure.Some? {
        var k := Run(init).failure.value.index;
        assert outcomes[..k] == init[..k];
      } else {
        RunSucceedsIff(init);
        RunMatchesAddedEvents(init);
      }
    }
  }

  /** Rows after the current one never take back an event already added, and
      after a failure they change nothing at all. */
  lemma {:induction false} RunExtends(outcomes: seq<RowOutcome>, more: seq<RowOutcome>)
    ensures Run(outcomes).events <= Run(outcomes + more).events
    ensures Run(outcomes).failure.Some? ==> Run(outcomes + more) == Run(outcomes)
    decreases |more|
  {
    if more == [] {
      assert outcomes + more == outcomes;
    } else {
      var shorter := more[..|more| - 1];
      RunExtends(outcomes, shorter);
      assert (outcomes + more)[..|outcomes + more| - 1] == outcomes + shorter;
    }
  }

  /** When no row raises, every row that is not passed over gives one event. */
  lemma {:induction false} AddedCount(outcomes: seq<RowOutcome>)
    ensures NoFailures(outcomes) ==> |AddedEvents(outcomes)| == ScheduledCount(outcomes)
    decreases |outcomes|
  {
    if outcomes != [] {
      AddedCount(outcomes[1..]);
      if NoFailures(outcomes) {
        assert forall i :: 0 <= i < |outcomes[1..]| ==> outcomes[1..][i] == outcomes[i + 1];
        assert !outcomes[0].Failed?;
      }
    }
  }

  /** Rows whose stripped time is neither empty nor "TBD". */
  function AnnouncedRows(games: seq<GameRow>): (n: nat)
    ensures n <= |games|
  {
    if games == [] then 0
    else (if IsUnscheduled(Strip(games[0].time)) then 0 else 1) + AnnouncedRows(games[1..])
  }

  /** The rows that are not passed over are exactly those with an announced time. */
  lemma {:induction false} ScheduledAreAnnounced(games: seq<GameRow>)
    ensures ScheduledCount(Outcomes(games)) == AnnouncedRows(games)
    decreases |games|
  {
    if games != [] {
      ScheduledAreAnnounced(games[1..]);
      assert Outcomes(games)[1..] == Outcomes(games[1..]);
    }
  }

  /** One more row that is passed over or adds an event continues the loop. */
  lemma RunStep(outcomes: seq<RowOutcome>, i: nat, prior: seq<Event>)
    requires i < |outcomes| && !outcomes[i].Failed?
    requires Run(outcomes[..i]).failure == None
    ensures Run(outcomes[..i + 1]).failure == None
    ensures prior + Run(outcomes[..i]).events + RowEvents(outcomes[i]) == prior + Run(outcomes[..i + 1]).events
  {
    assert outcomes[..i + 1][..i] == outcomes[..i];
  }

  /** A row that raises after a clean prefix is where the loop stops. */
  lemma RunStop(outcomes: seq<RowOutcome>, i: nat, e: RowError)
    requires i < |outcomes| && outcomes[i] == Failed(e)
    requires Run(outcomes[..i]).failure == None
    ensures Run(outcomes) == RunResult(Run(outcomes[..i]).events, Some(RowFailure(i, e)))
  {
    var upTo := outcomes[..i + 1];
    assert upTo[..i] == outcomes[..i];
    assert Run(upTo) == RunResult(Run(outcomes[..i]).events, Some(RowFailure(i, e)));
    RunExtends(upTo, outcomes[i + 1..]);
    assert upTo + outcomes[i + 1..] == outcomes;
  }

  /** The calendar; the source keeps its events in a set, the model in a
      sequence in the order they were added. */
  class Calendar {
    var events: seq<Event>

    constructor()
      ensures events == []
    {
      events := [];
    }

    method Add(e: Event)
      modifies this
      ensures events == old(events) + [e]
    {
      events := events + [e];
    }
  }

  /** One pass of the loop body: strip the two texts, pass over an
      unscheduled row, otherwise build the start from the date and time and
      add the event. A row that raises leaves the calendar as it was. */
  method ProcessGame(calendar: Calendar, game: GameRow) returns (outcome: RowOutcome)
    modifies calendar
    ensures outcome == NormalizeRow(game)
    ensures calendar.events == old(calendar.events) + RowEvents(outcome)
  {
    var dateText := Strip(game.dateText);
    var time := Strip(game.time);
    if IsUnscheduled(time) {
      return Skipped;
    }
    var start := RowStart(dateText, time);
    NormalizeScheduledRow(game);
    if start.Failure? {
      return Failed(start.error);
    }
    var event := MakeEvent(game, start.value);
    calendar.Add(event);
    return Added(event);
  }

  /** The loop over the games: every row in turn until one raises, which
      ends the loop with the events added before it kept. */
  method ProcessGames(calendar: Calendar, games: seq<GameRow>) returns (failure: Option<RowFailure>)
    modifies calendar
    ensures calendar.events == old(calendar.events) + Run(Outcomes(games)).events
    ensures failure == Run(Outcomes(games)).failure
  {
    ghost var outcomes := Outcomes(games);
    assert outcomes[..0] == [];
    for i := 0 to |games|
      invariant calendar.events == old(calendar.events) + Run(outcomes[..i]).events
      invariant Run(outcomes[..i]).failure == None
    {
      var outcome := ProcessGame(calendar, games[i]);
      MapRowsAt(NormalizeRow, games, i);
      if outcome.Failed? {
        RunStop(outcomes, i, outcome.error);
        return Some(RowFailure(i, outcome.error));
      }
      RunStep(outcomes, i, old(calendar.events));
    }
    assert outcomes[..|games|] == outcomes;
    failure := None;
  }
}
