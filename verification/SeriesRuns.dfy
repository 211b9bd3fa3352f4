/** Two runs of a weekly maintenance, on a clock that shows UTC. */
module SeriesRuns {
  import opened Prelude
  import opened Civil
  import opened Clock
  import opened Recurrence
  import opened Events
  import opened MaintenanceSeries

  const WEEK := 7 * 86400

  function Utc(u: int): int {
    0
  }

  lemma UtcIsRegular()
    ensures Regular(Utc)
  {}

  lemma UtcReads(local: int)
    ensures Regular(Utc) && ToUtcOrLater(Utc, local) == Some(local)
  {
    hide ToUtcOrLater;
    UtcIsRegular();
    ToUtcOrLaterReaches(Utc, local);
    assert Local(Utc, Reach(Utc, local)) >= local && Local(Utc, local) == local;
    ReachedBy(Utc, local, local);
  }

  /** Thursdays at midnight: 1970-01-01 was one. */
  const THURSDAYS := EveryWeek(3, 0)

  lemma NextThursday(week: int, after: int)
    requires week * WEEK <= after < (week + 1) * WEEK
    ensures NextAfter(Utc, THURSDAYS, after) == Some((week + 1) * WEEK)
  {
    hide ToUtcOrLater, NextAfterIn, Regular;
    UtcIsRegular();
    NextAfterIsLeastStart(Utc, THURSDAYS, after);
    var next := NextAfterIn(Utc, THURSDAYS, after).value;
    var day :| LandsOn(THURSDAYS, day) && StartsOn(Utc, THURSDAYS, day, next);
    UtcReads(Reading(day, 0));
    assert next == day * 1440 && day % 7 == 0;
    var thursday := 7 * (week + 1);
    UtcReads(Reading(thursday, 0));
    assert LandsOn(THURSDAYS, thursday) && StartsOn(Utc, THURSDAYS, thursday, thursday * 1440);
    assert IsStart(Utc, THURSDAYS, thursday * 1440);
    assert next <= thursday * 1440;
    assert 7 * week * 86400 < day * 86400;
    assert day == 7 * (day / 7);
  }

  /** An hour every Thursday from midnight on. */
  const FIRST := CreateEventInput(Maintenance, None, true, Some(0), Some(3600), None, None, false, {})

  function Announced(): Store {
    MaintenanceSeries.Create(EMPTY, Utc, Weekly, FIRST, -60).0
  }

  /** What announcing it stores. */
  const SERIES := Series(THURSDAYS, 60, false, {}, WEEK, None)

  lemma AnnouncedIs()
    ensures var store := Announced();
      && store.series == map[1 := SERIES]
      && store.events == map[1 := Inserted(FIRST, Some(1), -60)]
      && store.nextEvent == 2
  {
    hide NextAfterIn;
    NextThursday(0, 0);
    assert FromFirst(Weekly, 0) == THURSDAYS;
  }

  // ----- an edit that is not noticed

  /** The session has begun. */
  function Begun(): Store {
    MaintenanceSeries.Apply(Announced(), Utc, StartAll(0))
  }

  const LONGER := NewSeries(THURSDAYS, 120, WEEK)

  /** Ten seconds later it is edited to last two hours, sessions after it too. */
  function Lengthened(): Store {
    var begun := Begun();
    var saved := begun.(events := Update(begun.events, 1, UpdateEventInput(None, Some(0), Some(7200), {})));
    CarryForward(saved, Utc, 1, None, LONGER, {}, WEEK)
  }

  lemma LengthenedIs()
    ensures Begun().series == map[1 := SERIES] && Waiting(Begun(), 1) == {}
    ensures FromWindow(Utc, Weekly, 0, 7200) == Some(LONGER)
    ensures NextAfter(Utc, THURSDAYS, 10) == Some(WEEK)
    ensures Lengthened().series == map[1 := SERIES.(durationMinutes := 120)]
    ensures Waiting(Lengthened(), 1) == {} && Lengthened().nextEvent == 2
  {
    hide NextAfterIn;
    AnnouncedIs();
    NextThursday(0, 0);
    NextThursday(0, 10);
    assert FromFirst(Weekly, 0) == THURSDAYS;
  }

  /** A round that had read the series before the edit still adds its session,
      an hour long, to a series that says two. */
  lemma EditIsNotNoticed()
    ensures var edited := Lengthened();
      var (after, event) := AddNextSession(edited, Utc, 1, SERIES, 20);
      && Begun().series == map[1 := SERIES] && IsNextOne(Begun(), 1, 1, None)
      && 1 in edited.series && Changed(edited, 1, SERIES)
      && event == Some(2) && 2 in after.events
      && after.events[2].plannedStart == Some(WEEK)
      && after.events[2].plannedEnd == Some(WEEK + 3600)
      && edited.series[1].durationMinutes == 120
  {
    hide NextAfterIn, Begun, Lengthened;
    LengthenedIs();
    NextThursday(1, WEEK);
  }

  // ----- an undo that comes too late

  /** The first session is cancelled by hand, and a round adds the next one. */
  function Replaced(): Store {
    var cancelled := MaintenanceSeries.Apply(Announced(), Utc, MoveOn(1, Scheduled, Cancelled, -50));
    MaintenanceSeries.Apply(cancelled, Utc, Commit(1, SERIES, -40))
  }

  /** Undoing the cancellation then leaves two sessions waiting. */
  lemma UndoLeavesTwoWaiting()
    ensures CanTransition(Maintenance, Scheduled, Cancelled)
    ensures Waiting(Replaced(), 1) == {2}
    ensures Waiting(Replaced().(events := RevertTransition(Replaced().events, 1)), 1) == {1, 2}
  {
    hide NextAfterIn;
    AnnouncedIs();
    NextThursday(1, WEEK);
    var cancelled := MaintenanceSeries.Apply(Announced(), Utc, MoveOn(1, Scheduled, Cancelled, -50));
    assert Waiting(cancelled, 1) == {};
    assert Replaced().events.Keys == {1, 2};
  }
}
