/**
 Maintenances announced once that come back on their own. A series keeps one
 session ahead; the round that adds the next one works from an earlier read
 and writes only if the series still waits where that read left it.
 */
module MaintenanceSeries {
  import opened Prelude
  import opened Clock
  import opened Recurrence
  import opened Events

  datatype Series = Series(
    rule: Rule,
    durationMinutes: int,
    keepsServicesUp: bool,
    services: set<int>,
    nextStart: int,
    stoppedAt: Option<int>)

  /** The rule and timing a first session sets for its series. */
  datatype NewSeries = NewSeries(rule: Rule, durationMinutes: int, nextStart: int)

  /** The tables, and for each series the starts its sessions were given. */
  datatype Store = Store(
    events: Table,
    series: map<int, Series>,
    nextEvent: int,
    nextSeries: int,
    given: map<int, seq<int>>)

  const EMPTY := Store(map[], map[], 1, 1, map[])

  /** Whole minutes in a span of seconds, toward zero. */
  function Minutes(seconds: int): int {
    if seconds >= 0 then seconds / 60 else -((-seconds) / 60)
  }

  /** First start strictly after `after`, in seconds. */
  function NextAfter(zone: Zone, rule: Rule, after: int): (start: Option<int>)
    ensures start.Some? ==> start.value > after
  {
    var next := NextAfterIn(zone, rule, after);
    if next.Some? then Some(next.value * 60) else None
  }

  /** The rule and length a session's window sets, the next start being the
      one after it; none without an end a minute or more after the start. */
  function FromWindow(zone: Zone, rhythm: Rhythm, start: int, end: int): (series: Option<NewSeries>)
    ensures series.Some? ==> start < series.value.nextStart && series.value.durationMinutes > 0
  {
    var length := Minutes(end - start);
    if length <= 0 then None
    else
      var rule := FromFirst(rhythm, Local(zone, start / 60));
      var next := NextAfter(zone, rule, start);
      if next.None? then None else Some(NewSeries(rule, length, next.value))
  }

  /** When the next session begins: the slot waited for, or the first one
      after `now` when that one went by. */
  function NextSessionStart(zone: Zone, series: Series, now: int): (start: Option<int>)
    ensures start.Some? ==> now < start.value && series.nextStart <= start.value
  {
    if series.nextStart > now then Some(series.nextStart) else NextAfter(zone, series.rule, now)
  }

  /** The session of a series that begins at `start`. */
  function Session(series: Series, start: int): CreateEventInput {
    CreateEventInput(Maintenance, None, true, Some(start), Some(start + 60 * series.durationMinutes),
                     None, None, series.keepsServicesUp, {})
  }

  predicate Waits(e: Event, series: int) {
    e.series == Some(series) && e.lifecycle == Some(Scheduled)
  }

  /** The sessions of a series still to begin. */
  function Waiting(store: Store, series: int): set<int> {
    set id <- store.events | Waits(store.events[id], series)
  }

  lemma WaitingIff(store: Store, series: int)
    ensures (exists id <- store.events :: Waits(store.events[id], series)) <==> Waiting(store, series) != {}
  {
    if Waiting(store, series) != {} {
      var id := Pick(Waiting(store, series));
      assert Waits(store.events[id], series);
    }
    forall id <- store.events | Waits(store.events[id], series) ensures id in Waiting(store, series) {}
  }

  /** Series still repeating with no session to come. */
  function AwaitingSession(store: Store): set<int> {
    set s <- store.series | store.series[s].stoppedAt.None? && Waiting(store, s) == {}
  }

  function Extended(given: map<int, seq<int>>, series: int, start: int): map<int, seq<int>> {
    given[series := (if series in given then given[series] else []) + [start]]
  }

  /** Creates a series and its first session together; nothing when the first
      session has no length to repeat. */
  function Create(store: Store, zone: Zone, rhythm: Rhythm, first: CreateEventInput, now: int): (Store, Option<int>) {
    if first.plannedStart.None? || first.plannedEnd.None? then (store, None)
    else
      var rule := FromWindow(zone, rhythm, first.plannedStart.value, first.plannedEnd.value);
      if rule.None? then (store, None)
      else
        var id := store.nextSeries;
        var series := Series(rule.value.rule, rule.value.durationMinutes, first.keepsServicesUp, first.services,
                             rule.value.nextStart, None);
        (Store(store.events[store.nextEvent := Inserted(first, Some(id), now)],
               store.series[id := series],
               store.nextEvent + 1,
               id + 1,
               Extended(store.given, id, first.plannedStart.value)),
         Some(store.nextEvent))
  }

  /** The series still waits where `read` left it, with nothing scheduled. */
  predicate StillWaits(store: Store, series: int, read: Series) {
    && series in store.series
    && store.series[series].nextStart == read.nextStart
    && store.series[series].stoppedAt.None?
    && Waiting(store, series) == {}
  }

  /** Adds the session and moves the series on, in one transaction. */
  function AddSession(store: Store, series: int, read: Series, session: CreateEventInput, following: int, now: int)
    : (Store, Option<int>)
  {
    if !StillWaits(store, series, read) then (store, None)
    else
      var event := Inserted(session, Some(series), now);
      (store.(events := store.events[store.nextEvent :=
                event.(services := event.services + store.series[series].services)],
              series := store.series[series := store.series[series].(nextStart := following)],
              nextEvent := store.nextEvent + 1,
              given := if session.plannedStart.Some? then Extended(store.given, series, session.plannedStart.value)
                       else store.given),
       Some(store.nextEvent))
  }

  /** What a round does with a series it read: its next session, and the start
      the series then waits for. */
  function AddNextSession(store: Store, zone: Zone, series: int, read: Series, now: int): (Store, Option<int>) {
    var start := NextSessionStart(zone, read, now);
    if start.None? then (store, None)
    else
      var following := NextAfter(zone, read.rule, start.value);
      if following.None? then (store, None)
      else AddSession(store, series, read, Session(read, start.value), following.value, now)
  }

  /** Stops the series and cancels the session ahead, with no undo. */
  function Stop(store: Store, series: int, now: int): (Store, Option<set<int>>) {
    if series !in store.series || store.series[series].stoppedAt.Some? then (store, None)
    else
      (store.(series := store.series[series := store.series[series].(stoppedAt := Some(now))],
              events := map id <- store.events ::
                if Waits(store.events[id], series)
                then store.events[id].(previous := None, lifecycle := Some(Cancelled))
                else store.events[id]),
       Some(Waiting(store, series)))
  }

  /** The order of starts, none coming first. */
  predicate NoLater(a: Option<int>, b: Option<int>) {
    a.None? || (b.Some? && a.value <= b.value)
  }

  /** `next` is the waiting session other than `session` that begins first. */
  ghost predicate IsNextOne(store: Store, series: int, session: int, next: Option<int>) {
    var others := Waiting(store, series) - {session};
    if next.None? then others == {}
    else
      && next.value in others
      && forall id <- others :: NoLater(store.events[next.value].plannedStart, store.events[id].plannedStart)
  }

  /** Where the series waits after an edit carried forward: for `following`,
      or for the start after it when the next session takes that one. */
  function Cursor(zone: Zone, rule: Rule, next: Option<int>, following: int): int {
    if next.None? then following
    else
      var after := NextAfter(zone, rule, following);
      if after.Some? then after.value else following
  }

  /** Gives the series the rule, length and services of an edited session, and
      moves the session after it, `next`; nothing for a stopped series. */
  function CarryForward(store: Store, zone: Zone, series: int, next: Option<int>, rule: NewSeries,
                        services: set<int>, following: int): Store
  {
    if series !in store.series || store.series[series].stoppedAt.Some? then store
    else
      var carried := store.series[series].(rule := rule.rule, durationMinutes := rule.durationMinutes,
                                           services := services,
                                           nextStart := Cursor(zone, rule.rule, next, following));
      var events :=
        if next.Some? && next.value in store.events
        then store.events[next.value := store.events[next.value].(
               plannedStart := Some(following), plannedEnd := Some(following + 60 * rule.durationMinutes),
               services := services)]
        else store.events;
      store.(events := events, series := store.series[series := carried])
  }

  // ----- what every interleaving keeps

  /** One series as every run keeps it: at most one session waiting, begun
      before the start the series waits for, none once stopped, and every
      slot given so far before that start and given once. */
  ghost predicate InStep(store: Store, s: int)
    requires s in store.series
  {
    && (forall a, b :: a in Waiting(store, s) && b in Waiting(store, s) ==> a == b)
    && (forall id <- Waiting(store, s) ::
          store.events[id].plannedStart.Some? && store.events[id].plannedStart.value < store.series[s].nextStart)
    && (store.series[s].stoppedAt.Some? ==> Waiting(store, s) == {})
    && s in store.given
    && Increasing(store.given[s])
    && (forall start <- store.given[s] :: start < store.series[s].nextStart)
  }

  ghost predicate AllInStep(store: Store) {
    && (forall s <- store.series :: InStep(store, s))
    && (forall s <- store.series :: s < store.nextSeries)
    && (forall s <- store.given :: s < store.nextSeries)
    && (forall id <- store.events :: id < store.nextEvent)
    && (forall id <- store.events :: store.events[id].series.Some? ==> store.events[id].series.value < store.nextSeries)
  }

  datatype Op =
    | Announce(rhythm: Rhythm, first: CreateEventInput, at: int)
    | Commit(series: int, read: Series, at: int)
    | Halt(series: int, at: int)
    | StartAll(at: int)
    | CompleteAll(at: int)
    | MoveOn(event: int, from: Lifecycle, next: Lifecycle, at: int)
    | Discard(event: int)

  /** A session moved by hand never goes back to waiting, short of an undo. */
  predicate Forward(op: Op) {
    op.MoveOn? ==> op.next != Scheduled
  }

  /** A commit may work from any read at all, however old. */
  function Apply(store: Store, zone: Zone, op: Op): Store {
    match op
    case Announce(rhythm, first, at) => Create(store, zone, rhythm, first, at).0
    case Commit(series, read, at) => AddNextSession(store, zone, series, read, at).0
    case Halt(series, at) => Stop(store, series, at).0
    case StartAll(at) => store.(events := StartDue(store.events, at))
    case CompleteAll(at) => store.(events := CompleteDue(store.events, at))
    case MoveOn(event, from, next, at) => store.(events := Transition(store.events, event, from, next, at).0)
    case Discard(event) => store.(events := store.events - {event})
  }

  function Run(store: Store, zone: Zone, ops: seq<Op>): Store
    decreases ops
  {
    if ops == [] then store else Run(Apply(store, zone, ops[0]), zone, ops[1..])
  }

  lemma NoneWaitsForNewSeries(store: Store)
    requires AllInStep(store)
    ensures Waiting(store, store.nextSeries) == {}
    ensures store.nextSeries !in store.given && store.nextEvent !in store.events
  {
    forall id <- store.events ensures !Waits(store.events[id], store.nextSeries) {}
  }

  lemma AnnounceKeepsInStep(store: Store, zone: Zone, rhythm: Rhythm, first: CreateEventInput, at: int)
    requires AllInStep(store)
    ensures AllInStep(Create(store, zone, rhythm, first, at).0)
  {
    hide NextAfterIn, FromFirst;
    var (after, event) := Create(store, zone, rhythm, first, at);
    if event.Some? {
      NoneWaitsForNewSeries(store);
      forall s <- after.series ensures InStep(after, s) {
        if s == store.nextSeries {
          assert Waiting(after, s) <= {store.nextEvent};
        } else {
          assert Waiting(after, s) == Waiting(store, s);
          assert InStep(store, s);
        }
      }
    }
  }

  /** A round adds a session only after its `now`, at the start waited for or
      later, and moves the series past it. */
  lemma CommitAddsNext(store: Store, zone: Zone, series: int, read: Series, at: int)
    ensures var (after, event) := AddNextSession(store, zone, series, read, at);
      if event.None? then after == store
      else
        && series in store.series && series in after.series && event.value in after.events
        && Waiting(store, series) == {}
        && exists start ::
          && after.events[event.value].plannedStart == Some(start)
          && at < start
          && store.series[series].nextStart <= start < after.series[series].nextStart
          && after.events[event.value].plannedEnd == Some(start + 60 * read.durationMinutes)
          && Waits(after.events[event.value], series)
          && after.events[event.value].services == store.series[series].services
          && after.given == Extended(store.given, series, start)
  {
    hide NextAfterIn, InitialLifecycle, InitialStartedAt;
    var (after, event) := AddNextSession(store, zone, series, read, at);
    if event.Some? {
      var start := NextSessionStart(zone, read, at).value;
      assert after.events[event.value].plannedStart == Some(start);
      SessionWaits(store, series, read, start, at);
    }
  }

  lemma SessionWaits(store: Store, series: int, read: Series, start: int, at: int)
    ensures Waits(Inserted(Session(read, start), Some(series), at), series)
  {}

  lemma LaterSlotFits(given: seq<int>, start: int, was: int, next: int)
    requires Increasing(given) && (forall g <- given :: g < was) && was <= start < next
    ensures Increasing(given + [start]) && forall g <- given + [start] :: g < next
  {
    forall i | 0 <= i < |given| ensures given[i] < was {
      assert given[i] in given;
    }
  }

  lemma CommitKeepsInStep(store: Store, zone: Zone, series: int, read: Series, at: int)
    requires AllInStep(store)
    ensures AllInStep(AddNextSession(store, zone, series, read, at).0)
  {
    hide NextAfterIn;
    var (after, event) := AddNextSession(store, zone, series, read, at);
    CommitAddsNext(store, zone, series, read, at);
    if event.Some? {
      forall s <- after.series ensures InStep(after, s) {
        assert InStep(store, s);
        if s == series {
          var start := after.events[event.value].plannedStart.value;
          LaterSlotFits(store.given[s], start, store.series[s].nextStart, after.series[s].nextStart);
          assert Waiting(after, s) == {event.value};
        } else {
          assert Waiting(after, s) == Waiting(store, s);
        }
      }
    }
  }

  /** Moves that make no session wait leave every series in step. */
  lemma FewerWaitingKeepsInStep(store: Store, after: Store)
    requires AllInStep(store)
    requires after.series.Keys == store.series.Keys && after.given == store.given
    requires after.nextSeries == store.nextSeries && after.nextEvent == store.nextEvent
    requires after.events.Keys <= store.events.Keys
    requires forall id <- after.events ::
      && after.events[id].series == store.events[id].series
      && (after.events[id].lifecycle == Some(Scheduled) ==> after.events[id] == store.events[id])
    requires forall s <- store.series ::
      && after.series[s].nextStart == store.series[s].nextStart
      && (after.series[s].stoppedAt.Some? ==> store.series[s].stoppedAt.Some? || Waiting(after, s) == {})
    ensures AllInStep(after)
  {
    forall s <- after.series ensures InStep(after, s) {
      assert InStep(store, s);
      forall id <- Waiting(after, s) ensures id in Waiting(store, s) {
        assert after.events[id] == store.events[id];
      }
    }
  }

  lemma HaltKeepsInStep(store: Store, series: int, at: int)
    requires AllInStep(store)
    ensures AllInStep(Stop(store, series, at).0)
  {
    var (after, cancelled) := Stop(store, series, at);
    if cancelled.Some? {
      assert forall id <- after.events :: !Waits(after.events[id], series);
      assert Waiting(after, series) == {};
      FewerWaitingKeepsInStep(store, after);
    }
  }

  lemma ApplyKeepsInStep(store: Store, zone: Zone, op: Op)
    requires AllInStep(store) && Forward(op)
    ensures AllInStep(Apply(store, zone, op))
  {
    hide Create, AddNextSession, AllInStep;
    match op
    case Announce(rhythm, first, at) => AnnounceKeepsInStep(store, zone, rhythm, first, at);
    case Commit(series, read, at) => CommitKeepsInStep(store, zone, series, read, at);
    case Halt(series, at) => HaltKeepsInStep(store, series, at);
    case _ => FewerWaitingKeepsInStep(store, Apply(store, zone, op));
  }

  lemma {:induction false} RunKeepsInStep(store: Store, zone: Zone, ops: seq<Op>)
    requires AllInStep(store) && forall op <- ops :: Forward(op)
    ensures AllInStep(Run(store, zone, ops))
    decreases ops
  {
    if ops != [] {
      assert ops[0] in ops;
      ApplyKeepsInStep(store, zone, ops[0]);
      RunKeepsInStep(Apply(store, zone, ops[0]), zone, ops[1..]);
    }
  }

  /** Over every run from nothing, in any interleaving of rounds and from
      reads of any age: a series has at most one waiting session, which begins
      before the next start, none once stopped, and no slot is given twice. */
  lemma EveryRunInStep(zone: Zone, ops: seq<Op>, s: int)
    requires (forall op <- ops :: Forward(op)) && s in Run(EMPTY, zone, ops).series
    ensures InStep(Run(EMPTY, zone, ops), s)
  {
    RunKeepsInStep(EMPTY, zone, ops);
  }

  /** The next start never goes back, and a session added moves it on. */
  lemma NextStartGrows(store: Store, zone: Zone, op: Op, s: int)
    requires AllInStep(store) && s in store.series
    ensures var after := Apply(store, zone, op);
      && s in after.series
      && store.series[s].nextStart <= after.series[s].nextStart
      && (op.Commit? && op.series == s && after != store ==>
          store.series[s].nextStart < after.series[s].nextStart)
  {
    if op.Commit? {
      CommitAddsNext(store, zone, op.series, op.read, op.at);
    }
  }

  // ----- what a round writes

  /** `start`, in seconds, is the rule's first start after `after`. */
  ghost predicate IsFirstStart(zone: Zone, rule: Rule, after: int, start: int) {
    && after < start
    && (exists u :: IsStart(zone, rule, u) && start == u * 60)
    && forall u :: IsStart(zone, rule, u) && after < u * 60 ==> start <= u * 60
  }

  lemma NextAfterIsFirstStart(zone: Zone, rule: Rule, after: int)
    requires Regular(zone)
    ensures NextAfter(zone, rule, after).Some? && IsFirstStart(zone, rule, after, NextAfter(zone, rule, after).value)
  {
    hide NextAfterIn, Regular, IsStart;
    NextAfterIsLeastStart(zone, rule, after);
  }

  /** There always is a next session: at the start waited for, or when that went
      by at the rule's first start after `now`. */
  lemma NextSessionStartIs(zone: Zone, series: Series, now: int)
    requires Regular(zone)
    ensures var start := NextSessionStart(zone, series, now);
      && start.Some?
      && if series.nextStart > now then start.value == series.nextStart
         else IsFirstStart(zone, series.rule, now, start.value)
  {
    NextAfterIsFirstStart(zone, series.rule, now);
  }

  /** A window sets a series exactly when it lasts a minute or more: the rule its
      start sets, its length in whole minutes, waiting for the rule's first start
      after its own. */
  lemma FromWindowExactlyWhen(zone: Zone, rhythm: Rhythm, start: int, end: int)
    requires Regular(zone)
    ensures var series := FromWindow(zone, rhythm, start, end);
      && (series.Some? <==> end - start >= 60)
      && (series.Some? ==>
            && series.value.rule == FromFirst(rhythm, Local(zone, start / 60))
            && 0 <= end - start - 60 * series.value.durationMinutes < 60
            && IsFirstStart(zone, series.value.rule, start, series.value.nextStart))
  {
    hide NextAfter, FromFirst, IsFirstStart, Regular;
    NextAfterIsFirstStart(zone, FromFirst(rhythm, Local(zone, start / 60)), start);
  }

  /** A round writes nothing exactly when the series waits elsewhere than where
      it was read, is stopped, or has a session waiting. */
  lemma RoundWritesExactlyWhen(store: Store, zone: Zone, series: int, read: Series, at: int)
    requires Regular(zone) && series in store.series
    ensures var (after, event) := AddNextSession(store, zone, series, read, at);
      && (event.None? <==> after == store)
      && (after == store <==>
            || store.series[series].nextStart != read.nextStart
            || store.series[series].stoppedAt.Some?
            || Waiting(store, series) != {})
  {
    hide NextAfter, IsFirstStart, Regular;
    NextSessionStartIs(zone, read, at);
    NextAfterIsFirstStart(zone, read.rule, NextSessionStart(zone, read, at).value);
  }

  /** A session added leaves the series waiting for the rule's first start after
      it, and nothing else is written. */
  lemma CommitIs(store: Store, zone: Zone, series: int, read: Series, at: int)
    requires Regular(zone) && AddNextSession(store, zone, series, read, at).1.Some?
    ensures var (after, event) := AddNextSession(store, zone, series, read, at);
      var start := NextSessionStart(zone, read, at);
      && start.Some? && event == Some(store.nextEvent)
      && series in store.series && series in after.series && store.nextEvent in after.events
      && IsFirstStart(zone, read.rule, start.value, after.series[series].nextStart)
      && after.series == store.series[series := store.series[series].(nextStart := after.series[series].nextStart)]
      && after.events == store.events[store.nextEvent := after.events[store.nextEvent]]
      && after.nextEvent == store.nextEvent + 1 && after.nextSeries == store.nextSeries
      && var session := after.events[store.nextEvent];
         && session.kind == Maintenance && session.lifecycle == Some(Scheduled) && session.series == Some(series)
         && session.plannedStart == start && session.plannedEnd == Some(start.value + 60 * read.durationMinutes)
         && session.keepsServicesUp == read.keepsServicesUp && session.services == store.series[series].services
         && session.previous == None && session.startedAt == None && session.endedAt == None
  {
    hide NextAfter, Regular, IsFirstStart;
    NextSessionStartIs(zone, read, at);
    NextAfterIsFirstStart(zone, read.rule, NextSessionStart(zone, read, at).value);
  }

  /** A first session sets a series exactly when it has a start and an end a minute
      or more later: with its length and services, the rule its start sets, not
      stopped, and waiting for that rule's first start after it. */
  lemma CreateIs(store: Store, zone: Zone, rhythm: Rhythm, first: CreateEventInput, at: int)
    requires Regular(zone)
    ensures var (after, event) := Create(store, zone, rhythm, first, at);
      && (event.None? ==> after == store)
      && (event.Some? <==>
            first.plannedStart.Some? && first.plannedEnd.Some?
            && first.plannedEnd.value - first.plannedStart.value >= 60)
      && (event.Some? ==>
            && event.value == store.nextEvent && store.nextSeries in after.series
            && after.events == store.events[store.nextEvent := Inserted(first, Some(store.nextSeries), at)]
            && after.nextEvent == store.nextEvent + 1 && after.nextSeries == store.nextSeries + 1
            && after.series == store.series[store.nextSeries := after.series[store.nextSeries]]
            && var series := after.series[store.nextSeries];
               && series.rule == FromFirst(rhythm, Local(zone, first.plannedStart.value / 60))
               && 0 <= first.plannedEnd.value - first.plannedStart.value - 60 * series.durationMinutes < 60
               && series.services == first.services && series.keepsServicesUp == first.keepsServicesUp
               && series.stoppedAt == None
               && IsFirstStart(zone, series.rule, first.plannedStart.value, series.nextStart))
  {
    hide FromWindow, Regular, IsFirstStart, FromFirst;
    if first.plannedStart.Some? && first.plannedEnd.Some? {
      FromWindowExactlyWhen(zone, rhythm, first.plannedStart.value, first.plannedEnd.value);
    }
  }

  /** The series a round reads are those a round that read them now adds a
      session to. */
  lemma AwaitingIsAdded(store: Store, zone: Zone, series: int, at: int)
    requires Regular(zone) && series in store.series
    ensures series in AwaitingSession(store) <==>
      AddNextSession(store, zone, series, store.series[series], at).1.Some?
  {
    hide AddNextSession, Regular;
    RoundWritesExactlyWhen(store, zone, series, store.series[series], at);
  }

  /** Stopped, edited, or given a session since it was read. */
  predicate Changed(store: Store, series: int, read: Series)
    requires series in store.series
  {
    store.series[series] != read || Waiting(store, series) != {}
  }

  /** So a change is noticed exactly unless all it did was to edit the series and
      leave the start it waits for. */
  lemma ChangeIsNoticedExactlyWhen(store: Store, zone: Zone, series: int, read: Series, at: int)
    requires Regular(zone) && series in store.series
    requires read.stoppedAt.None? && Changed(store, series, read)
    ensures var now := store.series[series];
      AddNextSession(store, zone, series, read, at) == (store, None) <==>
        !(now != read && now.nextStart == read.nextStart && now.stoppedAt.None? && Waiting(store, series) == {})
  {
    hide AddNextSession, Regular;
    RoundWritesExactlyWhen(store, zone, series, read, at);
  }

  /** When the rule was not edited, a round that works from an earlier read writes
      what one reading now would exactly when it writes nothing, or the length
      and what its sessions leave up were not edited either. */
  lemma StaleRoundExactlyWhen(store: Store, zone: Zone, series: int, read: Series, at: int)
    requires Regular(zone) && series in store.series
    requires read.rule == store.series[series].rule && read.nextStart == store.series[series].nextStart
    ensures var now := store.series[series];
      AddNextSession(store, zone, series, read, at) == AddNextSession(store, zone, series, now, at) <==>
        || AddNextSession(store, zone, series, read, at).0 == store
        || (read.durationMinutes == now.durationMinutes && read.keepsServicesUp == now.keepsServicesUp)
  {
    hide NextAfter, Regular, IsFirstStart;
    var now := store.series[series];
    NextSessionStartIs(zone, read, at);
    var start := NextSessionStart(zone, read, at).value;
    NextAfterIsFirstStart(zone, read.rule, start);
    var stale, current := AddNextSession(store, zone, series, read, at), AddNextSession(store, zone, series, now, at);
    if stale.1.Some? {
      var id := store.nextEvent;
      assert stale.0.events[id].plannedEnd == Some(start + 60 * read.durationMinutes);
      assert current.0.events[id].plannedEnd == Some(start + 60 * now.durationMinutes);
      assert stale.0.events[id].keepsServicesUp == read.keepsServicesUp;
      assert current.0.events[id].keepsServicesUp == now.keepsServicesUp;
    }
  }

  // ----- a stop is for good

  /** A stop writes when it was made and cancels what waits, telling what; a second
      one, or one of no series, writes nothing. */
  lemma StopIs(store: Store, series: int, at: int)
    ensures var (after, cancelled) := Stop(store, series, at);
      && (cancelled.None? <==> series !in store.series || store.series[series].stoppedAt.Some?)
      && (cancelled.None? ==> after == store)
      && (cancelled.Some? ==>
            && after.series == store.series[series := store.series[series].(stoppedAt := Some(at))]
            && after.events.Keys == store.events.Keys && after.given == store.given
            && (forall id :: id in cancelled.value <==>
                  && id in store.events
                  && store.events[id].series == Some(series) && store.events[id].lifecycle == Some(Scheduled))
            && (forall id <- store.events :: after.events[id] ==
                  if id in cancelled.value then store.events[id].(lifecycle := Some(Cancelled), previous := None)
                  else store.events[id]))
  {}

  /** Stopped at `at`, having been given these starts. */
  predicate StoppedWith(store: Store, series: int, at: int, given: seq<int>) {
    && series in store.series && store.series[series].stoppedAt == Some(at)
    && series in store.given && store.given[series] == given
  }

  lemma StaysStopped(store: Store, zone: Zone, op: Op, series: int, at: int, given: seq<int>)
    requires AllInStep(store) && StoppedWith(store, series, at, given)
    ensures StoppedWith(Apply(store, zone, op), series, at, given)
  {
    hide NextAfterIn;
    if op.Commit? {
      CommitAddsNext(store, zone, op.series, op.read, op.at);
    }
  }

  lemma {:induction false} RunStaysStopped(store: Store, zone: Zone, ops: seq<Op>, series: int, at: int, given: seq<int>)
    requires AllInStep(store) && StoppedWith(store, series, at, given) && forall op <- ops :: Forward(op)
    ensures StoppedWith(Run(store, zone, ops), series, at, given)
    decreases ops
  {
    hide AllInStep, Apply, Forward;
    if ops != [] {
      assert ops[0] in ops;
      StaysStopped(store, zone, ops[0], series, at, given);
      ApplyKeepsInStep(store, zone, ops[0]);
      RunStaysStopped(Apply(store, zone, ops[0]), zone, ops[1..], series, at, given);
    }
  }

  /** Once a stop is told, whatever the rounds and reads that follow, the series
      waits for nothing, is given no more sessions, and is not stopped again. */
  lemma StopIsForGood(store: Store, zone: Zone, series: int, at: int, ops: seq<Op>, again: int)
    requires AllInStep(store) && Stop(store, series, at).1.Some? && forall op <- ops :: Forward(op)
    ensures var after := Run(Stop(store, series, at).0, zone, ops);
      && series in after.series && after.series[series].stoppedAt == Some(at)
      && series !in AwaitingSession(after) && Waiting(after, series) == {}
      && series in store.given && series in after.given && after.given[series] == store.given[series]
      && Stop(after, series, again) == (after, None)
  {
    hide Run, Forward;
    var stopped := Stop(store, series, at).0;
    assert InStep(store, series);
    HaltKeepsInStep(store, series, at);
    RunStaysStopped(stopped, zone, ops, series, at, store.given[series]);
    RunKeepsInStep(stopped, zone, ops);
    assert InStep(Run(stopped, zone, ops), series);
  }

  // ----- edits and undos

  /** Of the waiting sessions, the one carried forward with the series is not the one
      edited, and begins before each other: one without a start before any. */
  lemma NextOneBeginsFirst(store: Store, series: int, session: int, next: int, other: int)
    requires IsNextOne(store, series, session, Some(next)) && other in Waiting(store, series) && other != session
    ensures next in Waiting(store, series) && next != session
    ensures var first, later := store.events[next].plannedStart, store.events[other].plannedStart;
      && (later.None? ==> first.None?)
      && (later.Some? && first.Some? ==> first.value <= later.value)
  {
    assert other in Waiting(store, series) - {session};
  }

  /** An edit carried forward gives the series the rule, length and services of the
      session, and the session after it moves to `following` with them; the
      series then waits for the rule's first start after that, or for `following`
      itself. Nothing is written to a stopped series. */
  lemma CarryForwardIs(store: Store, zone: Zone, series: int, next: Option<int>, rule: NewSeries,
                       services: set<int>, following: int)
    requires Regular(zone) && (next.Some? ==> next.value in store.events)
    ensures var after := CarryForward(store, zone, series, next, rule, services, following);
      && (series !in store.series || store.series[series].stoppedAt.Some? ==> after == store)
      && (series in store.series && store.series[series].stoppedAt.None? ==>
            && series in after.series && after.events.Keys == store.events.Keys
            && after.series == store.series[series := store.series[series].(
                 rule := rule.rule, durationMinutes := rule.durationMinutes, services := services,
                 nextStart := after.series[series].nextStart)]
            && (next.None? ==> after.series[series].nextStart == following && after.events == store.events)
            && (next.Some? ==>
                  && IsFirstStart(zone, rule.rule, following, after.series[series].nextStart)
                  && after.events == store.events[next.value := store.events[next.value].(
                       plannedStart := Some(following), plannedEnd := Some(following + 60 * rule.durationMinutes),
                       services := services)]))
  {
    hide NextAfter, Regular, IsFirstStart;
    NextAfterIsFirstStart(zone, rule.rule, following);
  }

  /** In a regular zone an edit carried forward leaves every waiting session
      before the start the series then waits for, wherever the edit had moved
      them, provided `following` comes after the edited session. */
  lemma CarryForwardStaysAhead(store: Store, zone: Zone, series: int, session: int, next: Option<int>,
                               rule: NewSeries, services: set<int>, following: int)
    requires Regular(zone) && series in store.series && store.series[series].stoppedAt.None?
    requires forall a, b :: a in Waiting(store, series) && b in Waiting(store, series) ==> a == b
    requires IsNextOne(store, series, session, next)
    requires session in Waiting(store, series) ==>
      store.events[session].plannedStart.Some? && store.events[session].plannedStart.value < following
    ensures var after := CarryForward(store, zone, series, next, rule, services, following);
      && Waiting(after, series) == Waiting(store, series)
      && forall id <- Waiting(after, series) ::
           after.events[id].plannedStart.Some?
           && after.events[id].plannedStart.value < after.series[series].nextStart
  {
    hide NextAfterIn, Regular, IsStart;
    NextAfterIsLeastStart(zone, rule.rule, following);
    var after := CarryForward(store, zone, series, next, rule, services, following);
    forall id <- store.events ensures Waits(after.events[id], series) <==> Waits(store.events[id], series) {}
    assert Waiting(after, series) == Waiting(store, series);
    forall id <- Waiting(after, series)
      ensures after.events[id].plannedStart.Some?
      ensures after.events[id].plannedStart.value < after.series[series].nextStart
    {
      if next.Some? {
        assert next.value in Waiting(store, series);
        assert id == next.value;
        assert following < Cursor(zone, rule.rule, next, following);
      } else {
        assert id == session || id in Waiting(store, series) - {session};
      }
    }
  }

  /** A cancellation by a stop has nothing to undo. */
  lemma StopHasNoUndo(store: Store, series: int, at: int, event: int)
    ensures var (after, cancelled) := Stop(store, series, at);
      cancelled.Some? && event in cancelled.value ==>
        RevertTransition(after.events, event) == after.events
        && after.events[event].lifecycle == Some(Cancelled)
  {}

  /** Undoing a move by hand puts a second session in wait exactly when the
      session had been waiting and the series was given another since. */
  lemma UndoKeepsOneWaiting(store: Store, series: int, event: int)
    requires AllInStep(store) && series in store.series
    requires event in store.events && store.events[event].series == Some(series)
    ensures var after := store.(events := RevertTransition(store.events, event));
      (forall a, b :: a in Waiting(after, series) && b in Waiting(after, series) ==> a == b) <==>
      !(store.events[event].previous == Some(Scheduled) && Waiting(store, series) - {event} != {})
  {
    var after := store.(events := RevertTransition(store.events, event));
    assert InStep(store, series);
    assert forall id <- store.events :: id != event ==> after.events[id] == store.events[id];
    if Waiting(store, series) - {event} != {} {
      var other := Pick(Waiting(store, series) - {event});
      assert other in Waiting(after, series);
      if store.events[event].previous == Some(Scheduled) {
        assert event in Waiting(after, series);
      } else {
        forall id <- Waiting(after, series) ensures id in Waiting(store, series) {}
      }
    } else {
      forall id <- Waiting(after, series) ensures id == event {
        assert id == event || id in Waiting(store, series) - {event};
      }
    }
  }
}
