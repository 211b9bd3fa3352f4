/**
 What each statement does to the queue, row by row, and how long a message is
 kept.
 */
module QueueEffects {
  import opened Prelude
  import opened Queues
  import QueueLaws

  // ----- what a purge forgets

  /** A purge forgets the finished messages queued before its date, each only when
      a newer outcome of its destination is there, or it was left out where that
      is no outcome. Whatever it keeps is as it was. */
  lemma PurgeForgetsExactly(q: Queue, before: int, outcomes: set<Status>, id: int)
    requires id in q.rows
    ensures var row, after := q.rows[id], Purge(q, before, outcomes);
      && after.next == q.next && after.rows.Keys <= q.rows.Keys
      && (id in after.rows ==> after.rows[id] == row)
      && (id !in after.rows <==>
            && row.status != Pending && row.createdAt < before
            && (row.status !in outcomes
                || exists newer :: newer in q.rows && newer > id && q.rows[newer].status in outcomes
                                   && q.rows[newer].told.dest == row.told.dest))
  {
    var row := q.rows[id];
    if row.status in outcomes && !IsLatestOutcome(q, id, outcomes) {
      var newer :| newer in q.rows && q.rows[newer].status in outcomes
                   && q.rows[newer].told.dest == row.told.dest && !(newer <= id);
      assert newer > id;
    }
  }

  /** The subscribers' table keeps the newest email sent or given up, which their
      list shows: one left out is forgotten whatever came after it, and the
      channels' table the newest finished message, whatever became of it. */
  lemma EachTableKeepsItsOwn(q: Queue, before: int, id: int)
    requires id in q.rows
    ensures var row := q.rows[id];
      && (id !in Purge(q, before, SUBSCRIBER_OUTCOMES).rows <==>
            && row.status != Pending && row.createdAt < before
            && (row.status == Skipped
                || exists newer :: newer in q.rows && newer > id && q.rows[newer].told.dest == row.told.dest
                                   && (q.rows[newer].status == Sent || q.rows[newer].status == Failed)))
      && (id !in Purge(q, before, CHANNEL_OUTCOMES).rows <==>
            && row.status != Pending && row.createdAt < before
            && exists newer :: newer in q.rows && newer > id && q.rows[newer].told.dest == row.told.dest
                               && q.rows[newer].status != Pending)
  {
    hide Purge;
    PurgeForgetsExactly(q, before, SUBSCRIBER_OUTCOMES, id);
    PurgeForgetsExactly(q, before, CHANNEL_OUTCOMES, id);
  }

  /** The operation takes away the destination, the event or the service of the
      message. */
  predicate TakesAway(op: Op, told: Told) {
    || (op.RemoveDest? && told.dest == op.dest)
    || (op.RemoveEvent? && told.event == Some(op.event))
    || (op.RemoveService? && told.service == Some(op.service))
  }

  /** The message is there, and once finished stays so. */
  ghost predicate StillThere(row: Row, q: Queue, id: int) {
    && id in q.rows
    && q.rows[id].told == row.told && q.rows[id].createdAt == row.createdAt
    && (row.status != Pending ==> q.rows[id].status != Pending)
  }

  lemma StatementKeepsRecent(q: Queue, op: Op, outcomes: set<Status>, id: int)
    requires id in q.rows && id < q.next && !TakesAway(op, q.rows[id].told)
    requires op.Forget? ==> op.limit <= q.rows[id].createdAt
    ensures StillThere(q.rows[id], Statement(q, op, outcomes), id)
  {
    hide AfterOutage, IsForgotten, LastSaysDown, IsHead;
    QueueLaws.StatementKeepsRows(q, op, outcomes);
    if op.Forget? {
      hide Statement;
      PurgeForgetsExactly(q, op.limit, outcomes, id);
      ForgetIsPurge(q, op, outcomes);
    }
  }

  lemma ForgetIsPurge(q: Queue, op: Op, outcomes: set<Status>)
    requires op.Forget?
    ensures Statement(q, op, outcomes) == Purge(q, op.limit, outcomes)
  {}

  lemma {:induction false} RunKeepsRecent(m: Machine, ops: seq<Op>, outcomes: set<Status>, id: int)
    requires QueueLaws.Numbered(m) && AllAllowed(m, ops, outcomes) && id in m.q.rows
    requires forall op <- ops :: !TakesAway(op, m.q.rows[id].told)
    requires forall op <- ops :: op.Forget? ==> op.limit <= m.q.rows[id].createdAt
    ensures StillThere(m.q.rows[id], Run(m, ops, outcomes).q, id)
    decreases ops
  {
    hide Statement, TakesAway, Allowed;
    if ops != [] {
      var after := Step(m, ops[0], outcomes);
      QueueLaws.StepKeepsNumbered(m, ops[0], outcomes);
      StatementKeepsRecent(m.q, ops[0], outcomes, id);
      RunKeepsRecent(after, ops[1..], outcomes, id);
    }
  }

  /** Over every run, a message queued no earlier than the dates of the purges
      since is still there, and finished if it was, unless its destination, its
      event or its service went. */
  lemma RecentIsKept(clock: int, ops: seq<Op>, more: seq<Op>, outcomes: set<Status>, id: int)
    requires AllAllowed(Start(clock), ops, outcomes)
    requires AllAllowed(Run(Start(clock), ops, outcomes), more, outcomes)
    requires id in Run(Start(clock), ops, outcomes).q.rows
    requires var row := Run(Start(clock), ops, outcomes).q.rows[id];
      forall op <- more :: !TakesAway(op, row.told) && (op.Forget? ==> op.limit <= row.createdAt)
    ensures var m := Run(Start(clock), ops, outcomes);
      StillThere(m.q.rows[id], Run(m, more, outcomes).q, id)
  {
    hide Run, AllAllowed, TakesAway;
    QueueLaws.RunKeepsAll(Start(clock), ops, outcomes);
    RunKeepsRecent(Run(Start(clock), ops, outcomes), more, outcomes, id);
  }

  // ----- one message

  /** No row comes or goes, and only that of `id` changes. */
  predicate OnlyRow(q: Queue, after: Queue, id: int) {
    && after.next == q.next && after.rows.Keys == q.rows.Keys
    && forall k <- q.rows | k != id :: after.rows[k] == q.rows[k]
  }

  /** A message sent has its time and one more attempt, and no failure. It is due
      no more. */
  lemma SentIs(q: Queue, id: int, now: int)
    ensures var after := MarkSent(q, id, now);
      && OnlyRow(q, after, id) && (forall at :: !IsDue(after, id, at))
      && (id in q.rows ==>
            var was := q.rows[id];
            after.rows[id] == Row(was.told, Sent, was.attempts + 1, was.nextAt, None, was.createdAt, Some(now)))
  {}

  /** A message tried again keeps its place, with one more attempt, the reason and
      the time of the next; one only noted keeps its time and attempts too. One
      that does not wait is left alone. */
  lemma WaitsOn(q: Queue, id: int, why: string, at: int)
    requires id in q.rows
    ensures var later, noted, was := RetryLater(q, id, why, at), Note(q, id, why), q.rows[id];
      && OnlyRow(q, later, id) && OnlyRow(q, noted, id)
      && later.rows[id] == (if was.status == Pending
                            then Row(was.told, Pending, was.attempts + 1, at, Some(why), was.createdAt, was.sentAt)
                            else was)
      && noted.rows[id] == (if was.status == Pending
                            then Row(was.told, Pending, was.attempts, was.nextAt, Some(why), was.createdAt, was.sentAt)
                            else was)
  {}

  /** Giving up on a message, or leaving it out, counts the attempt and says why
      and when; one that does not wait is left alone. */
  lemma ClosedIs(q: Queue, id: int, status: Status, why: string, now: int)
    requires id in q.rows
    ensures var after, was := Close(q, id, status, why, now), q.rows[id];
      && OnlyRow(q, after, id)
      && after.rows[id] == (if was.status == Pending
                            then Row(was.told, status, was.attempts + 1, now, Some(why), was.createdAt, was.sentAt)
                            else was)
  {}

  // ----- many messages

  /** The waiting rows that `hit` picks end with this status, after `tries` more
      attempts; no other row changes, and none comes or goes. */
  ghost predicate EndsThose(q: Queue, after: Queue, hit: Row -> bool, status: Status, tries: nat, why: string, now: int) {
    && after.next == q.next && after.rows.Keys == q.rows.Keys
    && forall id <- q.rows ::
         var was := q.rows[id];
         after.rows[id] == if was.status == Pending && hit(was)
                           then Row(was.told, status, was.attempts + tries, now, Some(why), was.createdAt, was.sentAt)
                           else was
  }

  /** Giving up on a destination ends all its waiting messages, attempts as they
      were, and those of no other. */
  lemma FailWaitingIs(q: Queue, dest: int, why: string, now: int)
    ensures EndsThose(q, FailWaiting(q, dest, why, now),
                      (r: Row) => r.told.dest == dest, Failed, 0, why, now)
    ensures forall id <- FailWaiting(q, dest, why, now).rows ::
              q.rows[id].told.dest == dest ==> FailWaiting(q, dest, why, now).rows[id].status != Pending
  {}

  /** Leaving out the visitors ends what waits for one of them, as an attempt. */
  lemma SkipVisitorsIs(q: Queue, visitors: set<int>, why: string, now: int)
    ensures EndsThose(q, SkipVisitors(q, visitors, why, now),
                      (r: Row) => r.told.dest in visitors, Skipped, 1, why, now)
  {}

  /** Giving up on old messages ends what was queued before that time, or all that
      waits when there is none; it leaves the newer ones waiting. */
  lemma GiveUpWaitingIs(q: Queue, why: string, before: Option<int>, now: int)
    ensures EndsThose(q, GiveUpWaiting(q, why, before, now),
                      (r: Row) => before == None || r.createdAt < before.value, Failed, 0, why, now)
  {}

  /** A destination, an event or a service takes away its own messages, and leaves
      every other as it is. */
  lemma DroppedAre(q: Queue, op: Op, outcomes: set<Status>)
    requires op.RemoveDest? || op.RemoveEvent? || op.RemoveService?
    ensures var after := Statement(q, op, outcomes);
      && after.next == q.next && after.rows.Keys <= q.rows.Keys
      && forall id <- q.rows ::
           && (id in after.rows ==> after.rows[id] == q.rows[id])
           && (id !in after.rows <==>
                 if op.RemoveDest? then q.rows[id].told.dest == op.dest
                 else if op.RemoveEvent? then q.rows[id].told.event == Some(op.event)
                 else q.rows[id].told.service == Some(op.service))
  {}

  // ----- what is queued

  /** The newest message kept for the destination about the service said it was
      down. */
  ghost predicate WasToldDown(q: Queue, dest: int, service: int) {
    exists d :: d in q.rows && q.rows[d].told.dest == dest && q.rows[d].told.service == Some(service)
      && q.rows[d].told.happening == ServiceDown
      && forall k <- q.rows | d < k :: !(q.rows[k].told.dest == dest && q.rows[k].told.service == Some(service))
  }

  lemma ToldDownIs(q: Queue, dest: int, service: int)
    ensures LastSaysDown(q, dest, service) <==> WasToldDown(q, dest, service)
  {
    if LastSaysDown(q, dest, service) {
      var d := QueueLaws.LastDown(q, dest, service);
      assert forall k <- q.rows | d < k :: !IsAbout(q.rows[k].told, dest, service);
    }
    if WasToldDown(q, dest, service) {
      var d :| d in q.rows && q.rows[d].told.dest == dest && q.rows[d].told.service == Some(service)
        && q.rows[d].told.happening == ServiceDown
        && forall k <- q.rows | d < k :: !(q.rows[k].told.dest == dest && q.rows[k].told.service == Some(service));
      assert IsAbout(q.rows[d].told, dest, service);
    }
  }

  /** A new row waits at the end of the queue with no attempt made, from the time
      given, for a destination that ticks its part; when a service is back, for
      one last told that it was down. Each such destination has a new row, and no
      row changes. */
  lemma QueuedAre(q: Queue, dests: seq<int>, news: Told, now: int, sendAt: int)
    requires forall id <- q.rows :: id < q.next
    ensures var after := EnqueueAfter(q, dests, news, now, sendAt);
      && (forall id <- q.rows :: id in after.rows && after.rows[id] == q.rows[id])
      && (forall id <- after.rows | id !in q.rows ::
            var dest := after.rows[id].told.dest;
            && q.next <= id < after.next && dest in dests
            && after.rows[id] == Row(Told(dest, news.happening, news.event, news.service),
                                     Pending, 0, sendAt, None, now, None))
      && (forall dest <- dests ::
            (exists id <- after.rows :: id !in q.rows && after.rows[id].told.dest == dest)
            <==> (news.happening == ServiceUp ==> news.service.Some? && WasToldDown(q, dest, news.service.value)))
  {
    hide LastSaysDown, AfterOutage, WasToldDown;
    var after := EnqueueAfter(q, dests, news, now, sendAt);
    NewRowsAreNew(q, dests, news, now, sendAt);
    forall id <- after.rows | id !in q.rows ensures after.rows[id].told.dest in dests {
      QueueLaws.NewsReaches(q, dests, news, now, sendAt, after.rows[id].told.dest);
    }
    forall dest <- dests
      ensures (exists id <- after.rows :: id !in q.rows && after.rows[id].told.dest == dest)
        <==> (news.happening == ServiceUp ==> news.service.Some? && WasToldDown(q, dest, news.service.value))
    {
      QueueLaws.NewsReaches(q, dests, news, now, sendAt, dest);
      if news.service.Some? {
        ToldDownIs(q, dest, news.service.value);
      }
    }
  }

  lemma NewRowsAreNew(q: Queue, dests: seq<int>, news: Told, now: int, sendAt: int)
    requires forall id <- q.rows :: id < q.next
    ensures var after := EnqueueAfter(q, dests, news, now, sendAt);
      && (forall id <- q.rows :: id in after.rows && after.rows[id] == q.rows[id])
      && (forall id <- after.rows :: id !in q.rows <==> q.next <= id < after.next)
      && (forall id <- after.rows | id !in q.rows ::
            after.rows[id] == Row(Told(after.rows[id].told.dest, news.happening, news.event, news.service),
                                  Pending, 0, sendAt, None, now, None))
  {
    hide LastSaysDown, AfterOutage;
  }

  /** Messages queued together are numbered in the order of their destinations. */
  lemma QueuedInOrder(q: Queue, dests: seq<int>, news: Told, now: int, sendAt: int, i: nat)
    requires i < |dests| && news.happening != ServiceUp
    ensures var after := EnqueueAfter(q, dests, news, now, sendAt);
      && after.next == q.next + |dests|
      && q.next + i in after.rows && after.rows[q.next + i].told.dest == dests[i]
  {
    hide LastSaysDown, AfterOutage;
    assert q.next + i in Range(q.next, q.next + |dests|);
  }
}
