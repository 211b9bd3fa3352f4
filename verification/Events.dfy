/**
 The life of an event: opened at a step, moved from step to step with a one
 step undo, and for an announced maintenance started and completed by the
 schedule. Times are seconds.
 */
module Events {
  import opened Prelude

  datatype Kind = Incident | Maintenance | Publication

  datatype Severity = Minor | Critical

  datatype Lifecycle = Investigating | InProgress | Monitoring | Resolved | Cancelled | Scheduled | Completed

  datatype Event = Event(
    kind: Kind,
    severity: Option<Severity>,
    lifecycle: Option<Lifecycle>,
    previous: Option<Lifecycle>,
    plannedStart: Option<int>,
    plannedEnd: Option<int>,
    startedAt: Option<int>,
    endedAt: Option<int>,
    restoredAt: Option<int>,
    createdAt: int,
    keepsServicesUp: bool,
    series: Option<int>,
    services: set<int>)

  datatype CreateEventInput = CreateEventInput(
    kind: Kind,
    severity: Option<Severity>,
    planned: bool,
    plannedStart: Option<int>,
    plannedEnd: Option<int>,
    startedAt: Option<int>,
    openingStep: Option<Lifecycle>,
    keepsServicesUp: bool,
    services: set<int>)

  datatype UpdateEventInput = UpdateEventInput(
    severity: Option<Severity>,
    plannedStart: Option<int>,
    plannedEnd: Option<int>,
    services: set<int>)

  /** One incident on one service, as the availability strip reads it. */
  datatype IncidentSpan = IncidentSpan(severity: Option<Severity>, start: int, end: Option<int>)

  function Coalesce(a: Option<int>, b: Option<int>): Option<int> {
    if a.Some? then a else b
  }

  /** Steps an incident may be declared at. */
  predicate OpensIncident(step: Lifecycle) {
    step in {Investigating, InProgress, Monitoring}
  }

  predicate IsTerminal(step: Lifecycle) {
    step in {Resolved, Cancelled, Completed}
  }

  /** The steps the schema accepts for each kind. */
  predicate Fits(kind: Kind, lifecycle: Option<Lifecycle>) {
    match kind
    case Incident => lifecycle.Some? && lifecycle.value in {Investigating, InProgress, Monitoring, Resolved, Cancelled}
    case Maintenance => lifecycle.Some? && lifecycle.value in {Scheduled, InProgress, Completed, Cancelled}
    case Publication => lifecycle.None?
  }

  function InitialLifecycle(input: CreateEventInput): Option<Lifecycle> {
    match input.kind
    case Incident =>
      if input.openingStep.Some? && OpensIncident(input.openingStep.value) then input.openingStep
      else Some(Investigating)
    case Maintenance => if input.planned then Some(Scheduled) else Some(InProgress)
    case Publication => None
  }

  function InitialStartedAt(input: CreateEventInput, now: int): Option<int> {
    match input.kind
    case Incident => if input.startedAt.Some? then input.startedAt else Some(now)
    case Maintenance => if input.planned then None else Some(now)
    case Publication => Some(now)
  }

  /** The row a new event is stored as. */
  function Inserted(input: CreateEventInput, series: Option<int>, now: int): Event {
    Event(input.kind, input.severity, InitialLifecycle(input), None,
          input.plannedStart, input.plannedEnd, InitialStartedAt(input, now), None, None, now,
          input.kind == Maintenance && input.keepsServicesUp, series, input.services)
  }

  // ----- the moves of one event

  /** Moves to `next`, keeping the current step for an undo. */
  function Moved(e: Event, next: Lifecycle, now: int): Event {
    e.(previous := e.lifecycle,
       lifecycle := Some(next),
       startedAt := if next == InProgress then Coalesce(e.startedAt, Some(now)) else e.startedAt,
       endedAt := if next in {Resolved, Completed} then Some(now) else e.endedAt,
       restoredAt := if next == Monitoring then Coalesce(e.restoredAt, Some(now))
                     else if next in {Investigating, InProgress} then None
                     else e.restoredAt)
  }

  /** Undoes the last move. */
  function Reverted(e: Event): Event {
    if e.previous.None? then e
    else e.(lifecycle := e.previous,
            previous := None,
            endedAt := None,
            restoredAt := if e.lifecycle == Some(Monitoring) then None else e.restoredAt,
            startedAt := if e.previous == Some(Scheduled) then None else e.startedAt)
  }

  predicate StartsBy(e: Event, now: int) {
    e.kind == Maintenance && e.lifecycle == Some(Scheduled) && e.plannedStart.Some? && e.plannedStart.value <= now
  }

  /** An announced maintenance whose start has come is under way. */
  function Started(e: Event, now: int): Event {
    if StartsBy(e, now)
    then e.(previous := None, lifecycle := Some(InProgress), startedAt := Coalesce(e.startedAt, e.plannedStart))
    else e
  }

  predicate CompletesBy(e: Event, now: int) {
    e.kind == Maintenance && e.lifecycle == Some(InProgress) && e.plannedEnd.Some? && e.plannedEnd.value <= now
  }

  /** A maintenance under way whose announced end has come is completed. */
  function Ended(e: Event, now: int): Event {
    if CompletesBy(e, now)
    then e.(previous := None, lifecycle := Some(Completed), endedAt := Coalesce(e.endedAt, e.plannedEnd))
    else e
  }

  // ----- the table

  type Table = map<int, Event>

  /** Moves the event when it is at `from`; false when it is not. Refused when
      its kind has no such step. */
  function Transition(events: Table, id: int, from: Lifecycle, next: Lifecycle, now: int): (Table, Result<bool>) {
    if id !in events || events[id].lifecycle != Some(from) then (events, Ok(false))
    else if !Fits(events[id].kind, Some(next)) then (events, Refused)
    else (events[id := Moved(events[id], next, now)], Ok(true))
  }

  function RevertTransition(events: Table, id: int): Table {
    if id in events then events[id := Reverted(events[id])] else events
  }

  function Update(events: Table, id: int, input: UpdateEventInput): Table {
    if id !in events then events
    else events[id := events[id].(severity := input.severity, plannedStart := input.plannedStart,
                                  plannedEnd := input.plannedEnd, services := input.services)]
  }

  function StartDue(events: Table, now: int): Table {
    map id <- events :: Started(events[id], now)
  }

  function CompleteDue(events: Table, now: int): Table {
    map id <- events :: Ended(events[id], now)
  }

  /** One round of the schedule. */
  function Pass(events: Table, now: int): Table {
    CompleteDue(StartDue(events, now), now)
  }

  /** The event sets the state of its services. */
  predicate Drives(e: Event) {
    || (e.kind == Incident && e.lifecycle in {Some(Investigating), Some(InProgress)})
    || (e.kind == Maintenance && e.lifecycle == Some(InProgress) && !e.keepsServicesUp)
  }

  function StatusDrivers(events: Table, service: int): set<int> {
    set id <- events | service in events[id].services && Drives(events[id])
  }

  /** A span ends when the service came back, even if the team kept watching. */
  function SpanEnd(e: Event): Option<int> {
    Coalesce(e.restoredAt, e.endedAt)
  }

  predicate HasSpanSince(e: Event, service: int, since: int) {
    && service in e.services && e.kind == Incident && e.lifecycle != Some(Cancelled)
    && (SpanEnd(e).None? || SpanEnd(e).value >= since)
  }

  function SpanOf(e: Event): IncidentSpan {
    IncidentSpan(e.severity, Coalesce(e.startedAt, Some(e.createdAt)).value, SpanEnd(e))
  }

  /** The spans of the service's incidents, by event, not ended before `since`. */
  function IncidentSpans(events: Table, service: int, since: int): map<int, IncidentSpan> {
    map id <- events | HasSpanSince(events[id], service, since) :: SpanOf(events[id])
  }

  /** The spans of a service are those of its incidents that were not cancelled
      and had not ended: from when each began, or was declared, until the service
      came back, or else it was over. */
  lemma SpanIsFound(events: Table, service: int, since: int, id: int)
    ensures var spans := IncidentSpans(events, service, since);
      && (id in spans ==> id in events)
      && (id in events ==>
            var e := events[id];
            var end := if e.restoredAt.Some? then e.restoredAt else e.endedAt;
            && (id in spans <==>
                  service in e.services && e.kind == Incident && e.lifecycle != Some(Cancelled)
                  && (end.Some? ==> since <= end.value))
            && (id in spans ==>
                  spans[id] == IncidentSpan(e.severity, if e.startedAt.Some? then e.startedAt.value else e.createdAt, end)))
  {}

  // ----- an incident that drives its services is open on the strip

  // ----- the moves the service makes

  /** The steps a step leads to, by hand. */
  function AllowedTransitions(kind: Kind, current: Lifecycle): set<Lifecycle> {
    match (kind, current)
    case (Incident, Investigating) => {InProgress, Monitoring, Resolved, Cancelled}
    case (Incident, InProgress) => {Monitoring, Resolved, Cancelled}
    case (Incident, Monitoring) => {InProgress, Resolved}
    case (Maintenance, Scheduled) => {InProgress, Completed, Cancelled}
    case (Maintenance, InProgress) => {Completed, Cancelled}
    case _ => {}
  }

  predicate CanTransition(kind: Kind, from: Lifecycle, next: Lifecycle) {
    next in AllowedTransitions(kind, from)
  }

  /** An open step leads to every other step of its kind but the one events start
      at, and a watched incident is not cancelled any more. Nothing leads out of
      a closed step, nor of a step of another kind, and only of those. */
  lemma MovesLeadOnward(kind: Kind, from: Lifecycle)
    ensures forall next :: CanTransition(kind, from, next) <==>
      && !IsTerminal(from) && Fits(kind, Some(from)) && Fits(kind, Some(next)) && next != from
      && next != Investigating && next != Scheduled && !(from == Monitoring && next == Cancelled)
    ensures AllowedTransitions(kind, from) == {} <==> IsTerminal(from) || !Fits(kind, Some(from))
  {
    if !IsTerminal(from) && Fits(kind, Some(from)) {
      assert CanTransition(kind, from, if kind == Incident then Resolved else Completed);
    }
  }

  /** Moves by hand an event as it was read: false for a move its step does not
      lead to, and when the event is elsewhere by now. */
  function PostMove(events: Table, id: int, read: Event, next: Lifecycle, now: int): (Table, bool) {
    if read.lifecycle.None? || !CanTransition(read.kind, read.lifecycle.value, next) then (events, false)
    else
      var (after, moved) := Transition(events, id, read.lifecycle.value, next, now);
      (after, moved == Ok(true))
  }

  /** What every run keeps of one event. `restoredAt` outlives the watch only
      for an undo to come back to it. */
  predicate Consistent(e: Event) {
    && Fits(e.kind, e.lifecycle)
    && (e.previous.Some? ==> Fits(e.kind, e.previous) && !IsTerminal(e.previous.value))
    && (e.lifecycle.Some? && !IsTerminal(e.lifecycle.value) ==> e.endedAt.None?)
    && (e.lifecycle in {Some(Investigating), Some(InProgress)} ==> e.restoredAt.None?)
    && (e.previous in {Some(Investigating), Some(InProgress)} && e.lifecycle != Some(Monitoring) ==> e.restoredAt.None?)
    && (e.kind != Incident ==> e.restoredAt.None?)
  }

  datatype Op =
    | Create(id: int, input: CreateEventInput, series: Option<int>, at: int)
    | Move(id: int, read: Event, next: Lifecycle, at: int)
    | Undo(id: int)
    | Edit(id: int, change: UpdateEventInput)
    | Start(at: int)
    | Complete(at: int)
    | Delete(id: int)

  /** A new event has a new id, and an event is moved from some read of it,
      however old: its kind never changes. */
  predicate Allowed(events: Table, op: Op) {
    && (op.Move? && op.id in events ==> op.read.kind == events[op.id].kind)
    && (op.Create? ==> op.id !in events)
  }

  function Apply(events: Table, op: Op): Table {
    match op
    case Create(id, input, series, at) => events[id := Inserted(input, series, at)]
    case Move(id, read, next, at) => PostMove(events, id, read, next, at).0
    case Undo(id) => RevertTransition(events, id)
    case Edit(id, change) => Update(events, id, change)
    case Start(at) => StartDue(events, at)
    case Complete(at) => CompleteDue(events, at)
    case Delete(id) => events - {id}
  }

  predicate AllAllowed(events: Table, ops: seq<Op>)
    decreases ops
  {
    ops == [] || (Allowed(events, ops[0]) && AllAllowed(Apply(events, ops[0]), ops[1..]))
  }

  function Run(events: Table, ops: seq<Op>): Table
    decreases ops
  {
    if ops == [] then events else Run(Apply(events, ops[0]), ops[1..])
  }

  predicate AllConsistent(events: Table) {
    forall id <- events :: Consistent(events[id])
  }

  lemma ApplyKeepsConsistent(events: Table, op: Op)
    requires AllConsistent(events) && Allowed(events, op)
    ensures AllConsistent(Apply(events, op))
  {}

  lemma {:induction false} RunKeepsConsistent(events: Table, ops: seq<Op>)
    requires AllConsistent(events) && AllAllowed(events, ops)
    ensures AllConsistent(Run(events, ops))
    decreases ops
  {
    if ops != [] {
      ApplyKeepsConsistent(events, ops[0]);
      RunKeepsConsistent(Apply(events, ops[0]), ops[1..]);
    }
  }

  /** Whatever the interleaving of moves from older reads, edits and rounds, only
      an undo opens a closed event again, or touches its times. */
  lemma {:induction false} OnlyUndoReopens(events: Table, ops: seq<Op>, id: int)
    requires id in events && events[id].lifecycle.Some? && IsTerminal(events[id].lifecycle.value)
    requires AllAllowed(events, ops)
    requires forall i | 0 <= i < |ops| :: !((ops[i].Undo? || ops[i].Create?) && ops[i].id == id)
    ensures var after := Run(events, ops);
      id in after ==>
        && after[id].lifecycle == events[id].lifecycle && after[id].previous == events[id].previous
        && after[id].startedAt == events[id].startedAt && after[id].endedAt == events[id].endedAt
        && after[id].restoredAt == events[id].restoredAt
    decreases ops
  {
    if ops != [] {
      var after := Apply(events, ops[0]);
      if id in after {
        ClosedIsKept(events, ops[0], id);
        OnlyUndoReopens(after, ops[1..], id);
      } else {
        GoneStaysGone(after, ops[1..], id);
      }
    }
  }

  lemma ClosedIsKept(events: Table, op: Op, id: int)
    requires id in events && events[id].lifecycle.Some? && IsTerminal(events[id].lifecycle.value)
    requires Allowed(events, op) && !((op.Undo? || op.Create?) && op.id == id)
    ensures var after := Apply(events, op);
      id in after ==>
        && after[id].lifecycle == events[id].lifecycle && after[id].previous == events[id].previous
        && after[id].startedAt == events[id].startedAt && after[id].endedAt == events[id].endedAt
        && after[id].restoredAt == events[id].restoredAt
  {}

  lemma {:induction false} GoneStaysGone(events: Table, ops: seq<Op>, id: int)
    requires id !in events && forall i | 0 <= i < |ops| :: !(ops[i].Create? && ops[i].id == id)
    ensures id !in Run(events, ops)
    decreases ops
  {
    if ops != [] {
      GoneStaysGone(Apply(events, ops[0]), ops[1..], id);
    }
  }

  /** In every run an incident that sets the state of a service has an open
      span on its strip, however late the strip begins. */
  lemma DrivingIncidentIsOpen(ops: seq<Op>, id: int, service: int, since: int)
    requires AllAllowed(map[], ops)
    requires var events := Run(map[], ops);
      id in StatusDrivers(events, service) && events[id].kind == Incident
    ensures var e := Run(map[], ops)[id];
      && e.restoredAt == None && e.endedAt == None
      && id in IncidentSpans(Run(map[], ops), service, since)
      && IncidentSpans(Run(map[], ops), service, since)[id].end == None
  {
    RunKeepsConsistent(map[], ops);
  }

  // ----- a missed round of the schedule changes nothing

  function PassOne(e: Event, now: int): Event {
    Ended(Started(e, now), now)
  }

  lemma PassOneTwice(e: Event, earlier: int, now: int)
    requires earlier <= now
    ensures PassOne(PassOne(e, earlier), now) == PassOne(e, now)
  {}

  lemma PassIsEach(events: Table, now: int)
    ensures Pass(events, now) == map id <- events :: PassOne(events[id], now)
  {}

  function Passes(events: Table, times: seq<int>): Table
    decreases times
  {
    if times == [] then events else Passes(Pass(events, times[0]), times[1..])
  }

  /** Whatever rounds ran before, the round at `now` leaves the same events. */
  lemma {:induction false} MissedRoundsChangeNothing(events: Table, times: seq<int>, now: int)
    requires forall i :: 0 <= i < |times| ==> times[i] <= now
    ensures Pass(Passes(events, times), now) == Pass(events, now)
    decreases times
  {
    if times != [] {
      var first := Pass(events, times[0]);
      MissedRoundsChangeNothing(first, times[1..], now);
      PassIsEach(events, times[0]);
      PassIsEach(first, now);
      PassIsEach(events, now);
      forall id <- events ensures Pass(first, now)[id] == Pass(events, now)[id] {
        PassOneTwice(events[id], times[0], now);
      }
    }
  }

  /** A round leaves no maintenance due, to start or to complete. */
  lemma PassLeavesNoneDue(events: Table, now: int)
    ensures forall id <- Pass(events, now) ::
      !StartsBy(Pass(events, now)[id], now) && !CompletesBy(Pass(events, now)[id], now)
  {}

  /** An undo right after a move gives the event back, but for the times the
      move leaves or clears: a watch resumed forgets when the service came
      back, and a start is kept once work began. */
  lemma UndoAfterMove(e: Event, next: Lifecycle, now: int)
    requires Consistent(e) && e.lifecycle.Some? && !IsTerminal(e.lifecycle.value) && Fits(e.kind, Some(next))
    ensures var back := Reverted(Moved(e, next, now));
      && back.lifecycle == e.lifecycle && back.previous == None && back.endedAt == e.endedAt
      && (back.restoredAt == e.restoredAt <==>
          e.restoredAt == None || next in {Resolved, Cancelled, Completed, Scheduled})
      && (back.startedAt == e.startedAt <==>
          if e.lifecycle == Some(Scheduled) then e.startedAt == None
          else next == InProgress ==> e.startedAt.Some?)
  {}
}
