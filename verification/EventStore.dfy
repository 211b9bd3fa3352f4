/**
 The repositories that write events and series. Each method is one statement
 or one transaction on the two tables, dropped whole on an early return.
 */
module EventStore {
  import opened Prelude
  import opened Clock
  import opened Recurrence
  import opened Events
  import opened MaintenanceSeries

  class Tables {
    var events: map<int, Event>
    var series: map<int, Series>
    var nextEvent: int
    var nextSeries: int
    /** The starts given to the sessions of each series, oldest first. */
    ghost var given: map<int, seq<int>>

    ghost function State(): Store
      reads this
    {
      Store(events, series, nextEvent, nextSeries, given)
    }

    constructor ()
      ensures State() == EMPTY
    {
      events, series, nextEvent, nextSeries, given := map[], map[], 1, 1, map[];
    }

    // ----- events

    method Insert(input: CreateEventInput, seriesId: Option<int>, now: int) returns (id: int)
      modifies this`events, this`nextEvent
      ensures id == old(nextEvent) && nextEvent == id + 1
      ensures events == old(events)[id := Inserted(input, seriesId, now)]
    {
      id := nextEvent;
      events := events[id := Event(
        input.kind, input.severity, InitialLifecycle(input), None,
        input.plannedStart, input.plannedEnd, InitialStartedAt(input, now), None, None, now,
        input.keepsServicesUp && input.kind == Maintenance, seriesId, input.services)];
      nextEvent := id + 1;
    }

    method Transition(id: int, from: Lifecycle, next: Lifecycle, now: int) returns (moved: Result<bool>)
      modifies this`events
      ensures (events, moved) == Events.Transition(old(events), id, from, next, now)
    {
      if id !in events || events[id].lifecycle != Some(from) {
        return Ok(false);
      }
      var e := events[id];
      if !Fits(e.kind, Some(next)) {
        return Refused;
      }
      e := e.(previous := e.lifecycle, lifecycle := Some(next));
      match next {
        case InProgress =>
          e := e.(startedAt := if e.startedAt.Some? then e.startedAt else Some(now), restoredAt := None);
        case Investigating => e := e.(restoredAt := None);
        case Monitoring => e := e.(restoredAt := if e.restoredAt.Some? then e.restoredAt else Some(now));
        case Resolved | Completed => e := e.(endedAt := Some(now));
        case Cancelled | Scheduled =>
      }
      events := events[id := e];
      moved := Ok(true);
    }

    /** Moves by hand an event as it was read, after the checks of the service. */
    method PostMove(id: int, read: Event, next: Lifecycle, now: int) returns (moved: bool)
      modifies this`events
      ensures (events, moved) == Events.PostMove(old(events), id, read, next, now)
    {
      if read.lifecycle.None? || next !in AllowedTransitions(read.kind, read.lifecycle.value) {
        return false;
      }
      var result := Transition(id, read.lifecycle.value, next, now);
      moved := result == Ok(true);
    }

    method RevertTransition(id: int)
      modifies this`events
      ensures events == Events.RevertTransition(old(events), id)
    {
      if id in events && events[id].previous.Some? {
        var e := events[id];
        var back := e.previous;
        if e.lifecycle == Some(Monitoring) {
          e := e.(restoredAt := None);
        }
        if back == Some(Scheduled) {
          e := e.(startedAt := None);
        }
        events := events[id := e.(lifecycle := back, previous := None, endedAt := None)];
      }
    }

    method StartDueMaintenance(now: int) returns (started: set<int>)
      modifies this`events
      ensures events == StartDue(old(events), now)
      ensures started == set id <- old(events) | StartsBy(old(events)[id], now)
    {
      started := set id <- events |
        && events[id].kind == Maintenance && events[id].lifecycle == Some(Scheduled)
        && events[id].plannedStart.Some? && events[id].plannedStart.value <= now;
      events := map id <- events ::
        if id in started
        then events[id].(previous := None, lifecycle := Some(InProgress),
                         startedAt := Coalesce(events[id].startedAt, events[id].plannedStart))
        else events[id];
      forall id <- events ensures events[id] == StartDue(old(events), now)[id] {}
    }

    method CompleteDueMaintenance(now: int) returns (completed: set<int>)
      modifies this`events
      ensures events == CompleteDue(old(events), now)
      ensures completed == set id <- old(events) | CompletesBy(old(events)[id], now)
    {
      completed := set id <- events |
        && events[id].kind == Maintenance && events[id].lifecycle == Some(InProgress)
        && events[id].plannedEnd.Some? && events[id].plannedEnd.value <= now;
      events := map id <- events ::
        if id in completed
        then events[id].(previous := None, lifecycle := Some(Completed),
                         endedAt := Coalesce(events[id].endedAt, events[id].plannedEnd))
        else events[id];
      forall id <- events ensures events[id] == CompleteDue(old(events), now)[id] {}
    }

    /** One round of the schedule, as it starts then completes what is due. */
    method ApplySchedule(now: int)
      modifies this`events
      ensures events == Pass(old(events), now)
    {
      var started := StartDueMaintenance(now);
      var completed := CompleteDueMaintenance(now);
    }

    // ----- series

    method Create(zone: Zone, rhythm: Rhythm, first: CreateEventInput, now: int) returns (event: Option<int>)
      modifies this
      ensures (State(), event) == MaintenanceSeries.Create(old(State()), zone, rhythm, first, now)
    {
      hide FromWindow;
      if first.plannedStart.None? || first.plannedEnd.None? {
        return None;
      }
      var rule := FromWindow(zone, rhythm, first.plannedStart.value, first.plannedEnd.value);
      if rule.None? {
        return None;
      }
      var id := nextSeries;
      series := series[id := Series(rule.value.rule, rule.value.durationMinutes, first.keepsServicesUp,
                                           first.services, rule.value.nextStart, None)];
      nextSeries := id + 1;
      given := Extended(given, id, first.plannedStart.value);
      var added := Insert(first, Some(id), now);
      event := Some(added);
    }

    method AwaitingSession() returns (ids: set<int>)
      ensures ids == MaintenanceSeries.AwaitingSession(State())
    {
      ids := set s <- series | series[s].stoppedAt.None? && !exists id <- events :: Waits(events[id], s);
      forall s <- series ensures s in ids <==> s in MaintenanceSeries.AwaitingSession(State()) {
        WaitingIff(State(), s);
      }
    }

    /** The series moves on first, and only from where it was read. */
    method AddSession(id: int, read: Series, session: CreateEventInput, following: int, now: int)
      returns (event: Option<int>)
      modifies this
      ensures (State(), event) == MaintenanceSeries.AddSession(old(State()), id, read, session, following, now)
    {
      var waits := exists e <- events :: Waits(events[e], id);
      WaitingIff(State(), id);
      if id !in series || series[id].nextStart != read.nextStart || series[id].stoppedAt.Some? || waits {
        return None;
      }
      series := series[id := series[id].(nextStart := following)];
      var added := Insert(session, Some(id), now);
      events := events[added := events[added].(services := events[added].services + series[id].services)];
      assert events == old(events)[added := events[added]];
      if session.plannedStart.Some? {
        given := Extended(given, id, session.plannedStart.value);
      }
      event := Some(added);
    }

    /** The round's own step: the next session of a series it read earlier. */
    method AddNextSession(zone: Zone, id: int, read: Series, now: int) returns (event: Option<int>)
      modifies this
      ensures (State(), event) == MaintenanceSeries.AddNextSession(old(State()), zone, id, read, now)
    {
      var start := NextSessionStart(zone, read, now);
      if start.None? {
        return None;
      }
      var following := NextAfter(zone, read.rule, start.value);
      if following.None? {
        return None;
      }
      event := AddSession(id, read, Session(read, start.value), following.value, now);
    }

    method Stop(id: int, now: int) returns (cancelled: Option<set<int>>)
      modifies this`events, this`series
      ensures (State(), cancelled) == MaintenanceSeries.Stop(old(State()), id, now)
    {
      if id !in series || series[id].stoppedAt.Some? {
        return None;
      }
      series := series[id := series[id].(stoppedAt := Some(now))];
      var ahead := set e <- events | Waits(events[e], id);
      events := map e <- events ::
        if e in ahead then events[e].(previous := None, lifecycle := Some(Cancelled)) else events[e];
      assert ahead == Waiting(old(State()), id);
      forall e <- events ensures events[e] == MaintenanceSeries.Stop(old(State()), id, now).0.events[e] {}
      assert events == MaintenanceSeries.Stop(old(State()), id, now).0.events;
      cancelled := Some(ahead);
    }

    /** The session after the edited one is moved first; when the series turns
        out to be stopped, the transaction is dropped with that move. */
    method CarryForward(zone: Zone, session: int, seriesId: Option<int>, rule: NewSeries,
                        services: set<int>, following: int)
      modifies this`events, this`series
      ensures seriesId.None? ==> State() == old(State())
      ensures seriesId.Some? ==> exists next ::
        && IsNextOne(old(State()), seriesId.value, session, next)
        && State() == MaintenanceSeries.CarryForward(old(State()), zone, seriesId.value, next, rule, services, following)
    {
      hide NextAfter, Regular;
      if seriesId.None? {
        return;
      }
      var id := seriesId.value;
      var others := (set e <- events | Waits(events[e], id)) - {session};
      assert others == Waiting(State(), id) - {session};
      var next: Option<int> := None;
      if others != {} {
        SomeBeginsFirst(events, others);
        var earliest :| BeginsFirst(events, others, earliest);
        next := Some(earliest);
      }
      assert IsNextOne(State(), id, session, next);
      var moved := events;
      if next.Some? {
        moved := moved[next.value := moved[next.value].(
          plannedStart := Some(following), plannedEnd := Some(following + 60 * rule.durationMinutes),
          services := services)];
      }
      if id !in series || series[id].stoppedAt.Some? {
        return;
      }
      events := moved;
      series := series[id := series[id].(rule := rule.rule, durationMinutes := rule.durationMinutes,
                                         services := services,
                                         nextStart := Cursor(zone, rule.rule, next, following))];
    }
  }

  /** None of the others begins before `e`, one without a start coming first. */
  predicate BeginsFirst(events: map<int, Event>, others: set<int>, e: int) {
    && others <= events.Keys && e in others
    && forall o <- others :: NoLater(events[e].plannedStart, events[o].plannedStart)
  }

  lemma SomeBeginsFirst(events: map<int, Event>, others: set<int>)
    requires others != {} && others <= events.Keys
    ensures exists e :: BeginsFirst(events, others, e)
  {
    var e := Pick(others);
    var rest := others - {e};
    assert forall o <- others :: o == e || o in rest;
    if rest != {} {
      SomeBeginsFirst(events, rest);
      var first :| BeginsFirst(events, rest, first);
      var earliest := if NoLater(events[e].plannedStart, events[first].plannedStart) then e else first;
      assert BeginsFirst(events, others, earliest);
    } else {
      assert BeginsFirst(events, others, e);
    }
  }
}
