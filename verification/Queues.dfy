/**
 The queues of messages: one row per message and destination, sent in the
 order it was queued. Channels and subscribers each have such a table. Times
 are seconds.
 */
module Queues {
  import opened Prelude

  datatype Status = Pending | Sent | Failed | Skipped

  datatype Happening =
    Opened | Updated | Rescheduled | Started | Closed | Published | Reviewed | ServiceDown | ServiceUp | Test

  /** What a message says, and to whom. */
  datatype Told = Told(dest: int, happening: Happening, event: Option<int>, service: Option<int>)

  datatype Row = Row(
    told: Told,
    status: Status,
    attempts: nat,
    nextAt: int,
    failure: Option<string>,
    createdAt: int,
    sentAt: Option<int>)

  datatype Queue = Queue(rows: map<int, Row>, next: int)

  const EMPTY := Queue(map[], 1)

  /** Which finished messages the settings or the list of subscribers show. */
  const CHANNEL_OUTCOMES: set<Status> := {Sent, Failed, Skipped}
  const SUBSCRIBER_OUTCOMES: set<Status> := {Sent, Failed}

  predicate Waits(q: Queue, id: int) {
    id in q.rows && q.rows[id].status == Pending
  }

  function Waiting(q: Queue): set<int> {
    set id <- q.rows | Waits(q, id)
  }

  /** The first waiting message of its destination. */
  predicate IsHead(q: Queue, id: int) {
    && Waits(q, id)
    && forall p <- q.rows :: Waits(q, p) && q.rows[p].told.dest == q.rows[id].told.dest ==> id <= p
  }

  predicate IsDue(q: Queue, id: int, now: int) {
    IsHead(q, id) && q.rows[id].nextAt <= now
  }

  predicate IsAbout(told: Told, dest: int, service: int) {
    told.dest == dest && told.service == Some(service)
  }

  /** The last message still kept about the service said it was down. */
  predicate LastSaysDown(q: Queue, dest: int, service: int) {
    exists d <- q.rows ::
      && IsAbout(q.rows[d].told, dest, service) && q.rows[d].told.happening == ServiceDown
      && forall k <- q.rows :: IsAbout(q.rows[k].told, dest, service) ==> k <= d
  }

  // ----- the statements

  /** The destinations told that a service is back: where its outage was. */
  function AfterOutage(q: Queue, dests: seq<int>, service: int): seq<int> {
    if dests == [] then []
    else (if LastSaysDown(q, dests[0], service) then [dests[0]] else []) + AfterOutage(q, dests[1..], service)
  }

  function Queued(told: Told, now: int, sendAt: int): Row {
    Row(told, Pending, 0, sendAt, None, now, None)
  }

  function NewRow(q: Queue, dests: seq<int>, news: Told, now: int, sendAt: int, id: int): Row
    requires q.next <= id < q.next + |dests|
  {
    Queued(news.(dest := dests[id - q.next]), now, sendAt)
  }

  function Insert(q: Queue, dests: seq<int>, news: Told, now: int, sendAt: int): Queue {
    Queue(q.rows + (map id <- Range(q.next, q.next + |dests|) :: NewRow(q, dests, news, now, sendAt, id)),
          q.next + |dests|)
  }

  function Chosen(q: Queue, dests: seq<int>, news: Told): seq<int> {
    if news.happening != ServiceUp then dests
    else if news.service.None? then []
    else AfterOutage(q, dests, news.service.value)
  }

  /** Queues `news` for the destinations that receive its part of the page. */
  function EnqueueAfter(q: Queue, dests: seq<int>, news: Told, now: int, sendAt: int): Queue {
    Insert(q, Chosen(q, dests, news), news, now, sendAt)
  }

  function MarkSent(q: Queue, id: int, now: int): Queue {
    if id !in q.rows then q
    else
      var r := q.rows[id];
      q.(rows := q.rows[id := r.(status := Sent, attempts := r.attempts + 1, failure := None, sentAt := Some(now))])
  }

  function RetryLater(q: Queue, id: int, failure: string, at: int): Queue {
    if !Waits(q, id) then q
    else
      var r := q.rows[id];
      q.(rows := q.rows[id := r.(attempts := r.attempts + 1, failure := Some(failure), nextAt := at)])
  }

  function Note(q: Queue, id: int, failure: string): Queue {
    if !Waits(q, id) then q else q.(rows := q.rows[id := q.rows[id].(failure := Some(failure))])
  }

  function Ended(r: Row, status: Status, tries: nat, why: string, now: int): Row {
    r.(status := status, attempts := r.attempts + tries, failure := Some(why), nextAt := now)
  }

  /** Gives up on one message, or leaves it out. */
  function Close(q: Queue, id: int, status: Status, why: string, now: int): Queue {
    if !Waits(q, id) then q else q.(rows := q.rows[id := Ended(q.rows[id], status, 1, why, now)])
  }

  function CloseAll(q: Queue, ids: set<int>, status: Status, tries: nat, why: string, now: int): Queue {
    q.(rows := map id <- q.rows :: if id in ids then Ended(q.rows[id], status, tries, why, now) else q.rows[id])
  }

  function FailWaiting(q: Queue, dest: int, why: string, now: int): Queue {
    CloseAll(q, (set id <- q.rows | Waits(q, id) && q.rows[id].told.dest == dest), Failed, 0, why, now)
  }

  function SkipVisitors(q: Queue, visitors: set<int>, why: string, now: int): Queue {
    CloseAll(q, (set id <- q.rows | Waits(q, id) && q.rows[id].told.dest in visitors), Skipped, 1, why, now)
  }

  function GiveUpWaiting(q: Queue, why: string, before: Option<int>, now: int): Queue {
    CloseAll(q, (set id <- q.rows | Waits(q, id) && (before.None? || q.rows[id].createdAt < before.value)),
             Failed, 0, why, now)
  }

  /** The newest finished message of its destination. */
  predicate IsLatestOutcome(q: Queue, id: int, outcomes: set<Status>) {
    && id in q.rows && q.rows[id].status in outcomes
    && forall j <- q.rows :: q.rows[j].status in outcomes && q.rows[j].told.dest == q.rows[id].told.dest ==> j <= id
  }

  predicate IsForgotten(q: Queue, id: int, before: int, outcomes: set<Status>)
    requires id in q.rows
  {
    q.rows[id].status != Pending && q.rows[id].createdAt < before && !IsLatestOutcome(q, id, outcomes)
  }

  function Purge(q: Queue, before: int, outcomes: set<Status>): Queue {
    q.(rows := map id <- q.rows | !IsForgotten(q, id, before, outcomes) :: q.rows[id])
  }

  /** A destination, an event or a service takes its messages with it. */
  function DropDest(q: Queue, dest: int): Queue {
    q.(rows := map id <- q.rows | q.rows[id].told.dest != dest :: q.rows[id])
  }

  function DropEvent(q: Queue, event: int): Queue {
    q.(rows := map id <- q.rows | q.rows[id].told.event != Some(event) :: q.rows[id])
  }

  function DropService(q: Queue, service: int): Queue {
    q.(rows := map id <- q.rows | q.rows[id].told.service != Some(service) :: q.rows[id])
  }

  // ----- runs

  datatype Op =
    | Enqueue(dests: seq<int>, news: Told, at: int, sendAt: int)
    | Hold(ids: set<int>, now: int)
    | Deliver(id: int, now: int)
    | Retry(id: int, why: string, at: int)
    | Keep(id: int, why: string)
    | GiveUp(id: int, status: Status, why: string, now: int)
    | GiveUpDest(dest: int, why: string, now: int)
    | GiveUpVisitors(visitors: set<int>, why: string, now: int)
    | GiveUpOld(before: Option<int>, why: string, now: int)
    | Forget(limit: int)
    | RemoveDest(dest: int)
    | RemoveEvent(event: int)
    | RemoveService(service: int)

  /**
   A queue with what happened so far: the messages the round in progress took,
   all that was ever queued, the messages that left in order, those that
   finished, and those whose destination or subject went first.
   */
  datatype Machine = Machine(
    q: Queue,
    held: set<int>,
    told: map<int, Told>,
    left: seq<int>,
    finished: set<int>,
    dropped: set<int>,
    clock: int)

  function Start(clock: int): Machine {
    Machine(EMPTY, {}, map[], [], {}, {}, clock)
  }

  function Statement(q: Queue, op: Op, outcomes: set<Status>): Queue {
    match op
    case Enqueue(dests, news, at, sendAt) => EnqueueAfter(q, dests, news, at, sendAt)
    case Hold(ids, now) => q
    case Deliver(id, now) => MarkSent(q, id, now)
    case Retry(id, why, at) => RetryLater(q, id, why, at)
    case Keep(id, why) => Note(q, id, why)
    case GiveUp(id, status, why, now) => Close(q, id, status, why, now)
    case GiveUpDest(dest, why, now) => FailWaiting(q, dest, why, now)
    case GiveUpVisitors(visitors, why, now) => SkipVisitors(q, visitors, why, now)
    case GiveUpOld(before, why, now) => GiveUpWaiting(q, why, before, now)
    case Forget(limit) => Purge(q, limit, outcomes)
    case RemoveDest(dest) => DropDest(q, dest)
    case RemoveEvent(event) => DropEvent(q, event)
    case RemoveService(service) => DropService(q, service)
  }

  /** What is asked of a run. Queueing times never step back, the schema's
      checks hold, and a round settles only messages it took while due. */
  ghost predicate Allowed(m: Machine, op: Op) {
    match op
    case Enqueue(dests, news, at, sendAt) =>
      && m.clock <= at
      && (forall i, j | 0 <= i < j < |dests| :: dests[i] != dests[j])
      && (news.service.Some? <==> news.happening in {ServiceDown, ServiceUp})
      && (news.event.None? <==> news.happening in {ServiceDown, ServiceUp, Test})
    case Hold(ids, now) => forall id <- ids :: IsDue(m.q, id, now)
    case Deliver(id, now) => id in m.held
    case GiveUp(id, status, why, now) => id in m.held && status in {Failed, Skipped}
    case _ => true
  }

  function HeldAfter(held: set<int>, op: Op): set<int> {
    match op
    case Hold(ids, now) => ids
    case Deliver(id, _) => held - {id}
    case Retry(id, _, _) => held - {id}
    case Keep(id, _) => held - {id}
    case GiveUp(id, _, _, _) => held - {id}
    case _ => held
  }

  function Step(m: Machine, op: Op, outcomes: set<Status>): Machine {
    var q := Statement(m.q, op, outcomes);
    Machine(
      q,
      HeldAfter(m.held, op),
      m.told + (map id <- q.rows | m.q.next <= id :: q.rows[id].told),
      if op.Deliver? then m.left + [op.id] else m.left,
      m.finished + (set id <- m.q.rows | Waits(m.q, id) && id in q.rows && !Waits(q, id)),
      m.dropped + (set id <- m.q.rows | Waits(m.q, id) && id !in q.rows),
      if op.Enqueue? then op.at else m.clock)
  }

  ghost predicate AllAllowed(m: Machine, ops: seq<Op>, outcomes: set<Status>)
    decreases ops
  {
    ops == [] || (Allowed(m, ops[0]) && AllAllowed(Step(m, ops[0], outcomes), ops[1..], outcomes))
  }

  function Run(m: Machine, ops: seq<Op>, outcomes: set<Status>): Machine
    decreases ops
  {
    if ops == [] then m else Run(Step(m, ops[0], outcomes), ops[1..], outcomes)
  }
}
