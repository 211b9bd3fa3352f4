/**
 What each operation does to an event, step by step: its times, its undo and
 the services it sets the state of.
 */
module EventEffects {
  import opened Prelude
  import opened Events

  /** A new event begins at once, except an announced maintenance and an incident
      said to have begun earlier; it has no end and nothing to undo. */
  lemma NewEventIs(input: CreateEventInput, series: Option<int>, now: int)
    ensures var e := Inserted(input, series, now);
      && e.kind == input.kind && e.severity == input.severity && e.services == input.services
      && e.plannedStart == input.plannedStart && e.plannedEnd == input.plannedEnd
      && e.createdAt == now && e.series == series
      && e.previous == None && e.endedAt == None && e.restoredAt == None
      && match e.kind
         case Incident =>
           && e.lifecycle == (if input.openingStep in {Some(InProgress), Some(Monitoring)} then input.openingStep
                              else Some(Investigating))
           && e.startedAt == (if input.startedAt.Some? then input.startedAt else Some(now))
           && !e.keepsServicesUp
         case Maintenance =>
           && e.lifecycle == Some(if input.planned then Scheduled else InProgress)
           && e.startedAt == (if input.planned then None else Some(now))
           && e.keepsServicesUp == input.keepsServicesUp
         case Publication => e.lifecycle == None && e.startedAt == Some(now) && !e.keepsServicesUp
  {}

  /** A move answers true exactly when the event is still where it was read and
      that step leads there. It then changes that event alone: closing it ends it
      now, watching it notes when it first came back, and going back to work
      forgets that. */
  lemma MoveIs(events: Table, id: int, read: Event, next: Lifecycle, now: int)
    ensures var (after, moved) := PostMove(events, id, read, next, now);
      && (moved <==>
            && id in events && read.lifecycle.Some? && events[id].lifecycle == read.lifecycle
            && CanTransition(read.kind, read.lifecycle.value, next) && Fits(events[id].kind, Some(next)))
      && (!moved ==> after == events)
      && (moved ==>
            var was := events[id];
            && after.Keys == events.Keys && (forall other <- events :: other != id ==> after[other] == events[other])
            && after[id] == was.(lifecycle := Some(next), previous := was.lifecycle, startedAt := after[id].startedAt,
                                 endedAt := after[id].endedAt, restoredAt := after[id].restoredAt)
            && after[id].endedAt == (if next == Resolved || next == Completed then Some(now) else was.endedAt)
            && (next == Monitoring ==>
                  after[id].restoredAt == if was.restoredAt.Some? then was.restoredAt else Some(now))
            && (next == InProgress ==>
                  && after[id].restoredAt == None
                  && after[id].startedAt == if was.startedAt.Some? then was.startedAt else Some(now))
            && (next != InProgress ==> after[id].startedAt == was.startedAt)
            && (next in {Resolved, Cancelled, Completed, Scheduled} ==> after[id].restoredAt == was.restoredAt))
  {}

  /** An undo puts back the step before, unless there is none: the event is open
      again, has no end, and when it was only watched the service was not back;
      one that had yet to begin has not begun. */
  lemma UndoIs(events: Table, id: int)
    ensures var after := RevertTransition(events, id);
      && (id !in events || events[id].previous.None? ==> after == events)
      && (id in events && events[id].previous.Some? ==>
            var was := events[id];
            && after.Keys == events.Keys && (forall other <- events :: other != id ==> after[other] == events[other])
            && after[id] == was.(lifecycle := was.previous, previous := None, endedAt := None,
                                 startedAt := after[id].startedAt, restoredAt := after[id].restoredAt)
            && after[id].restoredAt == (if was.lifecycle == Some(Monitoring) then None else was.restoredAt)
            && after[id].startedAt == (if was.previous == Some(Scheduled) then None else was.startedAt))
  {}

  /** An edit touches neither the step nor the times it reached. */
  lemma EditIs(events: Table, id: int, input: UpdateEventInput)
    ensures var after := Update(events, id, input);
      && (id !in events ==> after == events)
      && (id in events ==>
            && after == events[id := after[id]]
            && after[id] == events[id].(severity := input.severity, plannedStart := input.plannedStart,
                                        plannedEnd := input.plannedEnd, services := input.services))
  {}

  /** A round at `now`. An announced maintenance whose start has come began then,
      and is over when its end has come too; one under way whose end has come is
      over since. Nothing else changes. */
  lemma RoundIs(events: Table, id: int, now: int)
    requires id in events
    ensures var was, after := events[id], Pass(events, now);
      && after.Keys == events.Keys
      && var starts := was.kind == Maintenance && was.lifecycle == Some(Scheduled)
           && was.plannedStart.Some? && was.plannedStart.value <= now;
         var ends := was.kind == Maintenance && (starts || was.lifecycle == Some(InProgress))
           && was.plannedEnd.Some? && was.plannedEnd.value <= now;
         && (!starts && !ends ==> after[id] == was)
         && (starts || ends ==>
               && after[id].lifecycle == Some(if ends then Completed else InProgress)
               && after[id].previous == None
               && after[id].startedAt == (if starts && was.startedAt.None? then was.plannedStart else was.startedAt)
               && after[id].endedAt == (if ends && was.endedAt.None? then was.plannedEnd else was.endedAt)
               && after[id] == was.(lifecycle := after[id].lifecycle, previous := None,
                                    startedAt := after[id].startedAt, endedAt := after[id].endedAt))
  {}

  // ----- what sets the state of a service

  /** A maintenance sets the state of its services from its announced start until
      its announced end, unless it keeps them up. */
  lemma MaintenanceDrivesMeanwhile(events: Table, id: int, now: int, service: int)
    requires id in events && events[id].kind == Maintenance && events[id].lifecycle == Some(Scheduled)
    requires events[id].plannedStart.Some? && service in events[id].services
    ensures id in StatusDrivers(Pass(events, now), service) <==>
      && !events[id].keepsServicesUp && events[id].plannedStart.value <= now
      && (events[id].plannedEnd.Some? ==> now < events[id].plannedEnd.value)
  {}

  /** An incident moved by hand sets the state of its services exactly when it is
      moved to be worked on; watched, resolved or cancelled it does not. */
  lemma MovedIncidentDrives(events: Table, id: int, read: Event, next: Lifecycle, now: int, service: int)
    requires id in events && events[id].kind == Incident && service in events[id].services
    requires PostMove(events, id, read, next, now).1
    ensures id in StatusDrivers(PostMove(events, id, read, next, now).0, service)
       <==> next == InProgress || next == Investigating
  {}

  /** So does a new one, unless it is declared watched already. */
  lemma NewIncidentDrives(events: Table, id: int, input: CreateEventInput, now: int, service: int)
    requires input.kind == Incident && service in input.services
    ensures id in StatusDrivers(events[id := Inserted(input, None, now)], service)
       <==> input.openingStep != Some(Monitoring)
  {}

  // ----- over runs

  /** What is resolved or completed has an end. */
  predicate HasItsEnd(e: Event) {
    e.lifecycle == Some(Resolved) || e.lifecycle == Some(Completed) ==> e.endedAt.Some?
  }

  lemma StepKeepsEnds(events: Table, op: Op)
    requires AllConsistent(events) && Allowed(events, op) && forall id <- events :: HasItsEnd(events[id])
    ensures forall id <- Apply(events, op) :: HasItsEnd(Apply(events, op)[id])
  {}

  lemma {:induction false} RunKeepsEnds(events: Table, ops: seq<Op>)
    requires AllConsistent(events) && AllAllowed(events, ops) && forall id <- events :: HasItsEnd(events[id])
    ensures forall id <- Run(events, ops) :: HasItsEnd(Run(events, ops)[id])
    decreases ops
  {
    hide HasItsEnd;
    if ops != [] {
      ApplyKeepsConsistent(events, ops[0]);
      StepKeepsEnds(events, ops[0]);
      RunKeepsEnds(Apply(events, ops[0]), ops[1..]);
    }
  }

  /** After every run what is resolved or completed has an end, and what is under
      way has none. */
  lemma EveryClosedHasItsEnd(ops: seq<Op>, id: int)
    requires AllAllowed(map[], ops) && id in Run(map[], ops)
    ensures var e := Run(map[], ops)[id];
      && (e.lifecycle in {Some(Resolved), Some(Completed)} ==> e.endedAt.Some?)
      && (e.lifecycle.Some? && !IsTerminal(e.lifecycle.value) ==> e.endedAt.None?)
  {
    hide Run, AllAllowed;
    RunKeepsEnds(map[], ops);
    RunKeepsConsistent(map[], ops);
  }

  /** An event moved to its end keeps the time of that move, whatever follows but
      an undo. */
  lemma EndIsKept(events: Table, id: int, read: Event, next: Lifecycle, now: int, ops: seq<Op>)
    requires next == Resolved || next == Completed
    requires PostMove(events, id, read, next, now).1 && AllAllowed(PostMove(events, id, read, next, now).0, ops)
    requires forall i | 0 <= i < |ops| :: !((ops[i].Undo? || ops[i].Create?) && ops[i].id == id)
    ensures var after := Run(PostMove(events, id, read, next, now).0, ops);
      id in after ==> after[id].lifecycle == Some(next) && after[id].endedAt == Some(now)
  {
    hide Run, AllAllowed;
    OnlyUndoReopens(PostMove(events, id, read, next, now).0, ops, id);
  }

  /** Times given to the operations do not step back from `clock` on. */
  predicate InOrder(clock: int, ops: seq<Op>)
    decreases ops
  {
    ops == [] || (clock <= TimeOf(ops[0], clock) && InOrder(TimeOf(ops[0], clock), ops[1..]))
  }

  function TimeOf(op: Op, clock: int): int {
    match op
    case Create(_, _, _, at) => at
    case Move(_, _, _, at) => at
    case Start(at) => at
    case Complete(at) => at
    case _ => clock
  }

  function ClockAfter(clock: int, ops: seq<Op>): int
    decreases ops
  {
    if ops == [] then clock else ClockAfter(TimeOf(ops[0], clock), ops[1..])
  }

  /** No service came back later than the clock. */
  predicate BackBy(events: Table, clock: int) {
    forall id <- events :: events[id].restoredAt.Some? ==> events[id].restoredAt.value <= clock
  }

  lemma {:induction false} RunKeepsBackBy(events: Table, ops: seq<Op>, clock: int)
    requires BackBy(events, clock) && InOrder(clock, ops)
    ensures BackBy(Run(events, ops), ClockAfter(clock, ops))
    decreases ops
  {
    if ops != [] {
      StepKeepsBackBy(events, ops[0], clock);
      RunKeepsBackBy(Apply(events, ops[0]), ops[1..], TimeOf(ops[0], clock));
    }
  }

  lemma StepKeepsBackBy(events: Table, op: Op, clock: int)
    requires BackBy(events, clock) && clock <= TimeOf(op, clock)
    ensures BackBy(Apply(events, op), TimeOf(op, clock))
  {}
}
