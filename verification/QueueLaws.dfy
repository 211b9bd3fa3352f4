/** What every run of a queue keeps. */
module QueueLaws {
  import opened Prelude
  import opened Queues

  // ----- numbering

  ghost predicate Numbered(m: Machine) {
    && (forall id <- m.q.rows :: id < m.q.next && id in m.told && m.told[id] == m.q.rows[id].told)
    && (forall id <- m.told :: id < m.q.next)
    && (forall id <- m.held :: id < m.q.next)
    && (forall i, j | i in m.q.rows && j in m.q.rows && i < j :: m.q.rows[i].createdAt <= m.q.rows[j].createdAt)
    && (forall id <- m.q.rows :: m.q.rows[id].createdAt <= m.clock)
  }

  /** Of the rows, a statement keeps what they say and when they were queued,
      never brings a finished one back, and adds only newer ones. */
  lemma StatementKeepsRows(q: Queue, op: Op, outcomes: set<Status>)
    ensures var after := Statement(q, op, outcomes);
      && q.next <= after.next
      && (forall id <- after.rows :: id in q.rows || (op.Enqueue? && q.next <= id < after.next))
      && (forall id <- after.rows :: id in q.rows && id < q.next ==>
            && after.rows[id].told == q.rows[id].told && after.rows[id].createdAt == q.rows[id].createdAt
            && (after.rows[id].status == Pending ==> q.rows[id].status == Pending)
            && (q.rows[id].status == Sent ==> after.rows[id].status == Sent))
  {
    hide AfterOutage, IsForgotten;
  }

  lemma EnqueuedRowsAreNew(q: Queue, op: Op, outcomes: set<Status>)
    requires op.Enqueue? && forall id <- q.rows :: id < q.next
    ensures var after := Statement(q, op, outcomes);
      && (forall id <- q.rows :: id in after.rows && after.rows[id] == q.rows[id])
      && (forall id <- after.rows :: q.next <= id ==>
            after.rows[id].status == Pending && after.rows[id].createdAt == op.at)
  {}

  lemma StepKeepsNumbered(m: Machine, op: Op, outcomes: set<Status>)
    requires Numbered(m) && Allowed(m, op)
    ensures Numbered(Step(m, op, outcomes))
  {
    hide Statement, IsDue;
    StatementKeepsRows(m.q, op, outcomes);
    if op.Enqueue? {
      EnqueuedRowsAreNew(m.q, op, outcomes);
    }
    if op.Hold? {
      forall id <- op.ids ensures id in m.q.rows {
        DueIsHead(m.q, id, op.now);
      }
    }
  }

  lemma DueIsHead(q: Queue, id: int, now: int)
    requires IsDue(q, id, now)
    ensures IsHead(q, id) && id in q.rows
  {}

  // ----- first in, first out

  /** Each destination's finished messages come before its waiting ones. */
  ghost predicate Fifo(q: Queue) {
    forall i, j | i in q.rows && j in q.rows && q.rows[i].told.dest == q.rows[j].told.dest ::
      !Waits(q, i) && Waits(q, j) ==> i < j
  }

  /** What a round took stays at the head until it is finished or gone. */
  ghost predicate HeldAreHeads(m: Machine) {
    forall id <- m.held :: Waits(m.q, id) ==> IsHead(m.q, id)
  }

  lemma BulkKeepsFifo(q: Queue, ids: set<int>, status: Status, tries: nat, why: string, now: int)
    requires Fifo(q) && status != Pending
    requires forall i, j | i in ids && j in q.rows && Waits(q, j) && j !in ids ::
      i in q.rows && (q.rows[i].told.dest == q.rows[j].told.dest ==> i < j)
    ensures Fifo(CloseAll(q, ids, status, tries, why, now))
  {}

  /** Giving up on the old ones closes the front of each queue. */
  lemma OldestKeepFifo(m: Machine, op: Op)
    requires Numbered(m) && Fifo(m.q) && op.GiveUpOld?
    ensures Fifo(GiveUpWaiting(m.q, op.why, op.before, op.now))
  {}

  /** Closing the head of a queue keeps the order. */
  lemma HeadKeepsFifo(q: Queue, after: Queue, id: int)
    requires Fifo(q) && (Waits(q, id) ==> IsHead(q, id))
    requires after.rows.Keys == q.rows.Keys
    requires forall k <- q.rows :: after.rows[k].told == q.rows[k].told
    requires forall k <- q.rows | k != id :: after.rows[k].status == q.rows[k].status
    requires !Waits(after, id)
    ensures Fifo(after)
  {
    forall i, j | i in after.rows && j in after.rows && after.rows[i].told.dest == after.rows[j].told.dest
                  && !Waits(after, i) && Waits(after, j)
      ensures i < j
    {
      assert Waits(q, j);
      if Waits(q, i) {
        assert i == id && i != j;
      }
    }
  }

  lemma StepKeepsFifo(m: Machine, op: Op, outcomes: set<Status>)
    requires Numbered(m) && Fifo(m.q) && HeldAreHeads(m) && Allowed(m, op)
    ensures Fifo(Step(m, op, outcomes).q)
  {
    hide Fifo, IsForgotten, AfterOutage, IsHead, Numbered;
    var q, after := m.q, Statement(m.q, op, outcomes);
    match op
    case Deliver(id, _) => if id in q.rows { HeadKeepsFifo(q, after, id); }
    case GiveUp(id, _, _, _) => if Waits(q, id) { HeadKeepsFifo(q, after, id); }
    case GiveUpDest(dest, why, now) =>
      BulkKeepsFifo(q, (set id <- q.rows | Waits(q, id) && q.rows[id].told.dest == dest), Failed, 0, why, now);
    case GiveUpVisitors(visitors, why, now) =>
      BulkKeepsFifo(q, (set id <- q.rows | Waits(q, id) && q.rows[id].told.dest in visitors), Skipped, 1, why, now);
    case GiveUpOld(_, _, _) => OldestKeepFifo(m, op);
    case _ => OthersKeepFifo(m, op, outcomes);
  }

  lemma FewerKeepFifo(q: Queue, after: Queue)
    requires Fifo(q)
    requires forall id <- after.rows :: id in q.rows && after.rows[id].told == q.rows[id].told
    requires forall id <- after.rows :: Waits(after, id) <==> Waits(q, id)
    ensures Fifo(after)
  {}

  lemma NewerKeepFifo(q: Queue, after: Queue)
    requires Fifo(q) && (forall id <- q.rows :: id < q.next)
    requires forall id <- q.rows :: id in after.rows && after.rows[id] == q.rows[id]
    requires forall id <- after.rows :: id !in q.rows ==> q.next <= id && Waits(after, id)
    ensures Fifo(after)
  {}

  lemma OthersKeepFifo(m: Machine, op: Op, outcomes: set<Status>)
    requires Numbered(m) && Fifo(m.q)
    requires op.Enqueue? || op.Hold? || op.Retry? || op.Keep? || op.Forget?
          || op.RemoveDest? || op.RemoveEvent? || op.RemoveService?
    ensures Fifo(Statement(m.q, op, outcomes))
  {
    hide IsForgotten, AfterOutage, IsHead, Fifo;
    var q, after := m.q, Statement(m.q, op, outcomes);
    if op.Enqueue? {
      StatementKeepsRows(q, op, outcomes);
      EnqueuedRowsAreNew(q, op, outcomes);
      NewerKeepFifo(q, after);
    } else {
      FewerKeepFifo(q, after);
    }
  }

  lemma StepKeepsHeads(m: Machine, op: Op, outcomes: set<Status>)
    requires Numbered(m) && HeldAreHeads(m) && Allowed(m, op)
    ensures HeldAreHeads(Step(m, op, outcomes))
  {
    hide Statement, IsDue;
    var after := Step(m, op, outcomes);
    StatementKeepsRows(m.q, op, outcomes);
    if op.Hold? {
      assert after.q == m.q by { HoldChangesNothing(m.q, op, outcomes); }
    }
    forall id <- after.held | Waits(after.q, id) ensures IsHead(after.q, id) {
      if op.Hold? {
        DueIsHead(m.q, id, op.now);
      } else {
        assert id in m.held && Waits(m.q, id) && IsHead(m.q, id);
      }
    }
  }

  lemma HoldChangesNothing(q: Queue, op: Op, outcomes: set<Status>)
    requires op.Hold?
    ensures Statement(q, op, outcomes) == q
  {}

  // ----- turns

  /** No destination is sent two messages at once. */
  lemma DueOncePerDest(q: Queue, a: int, b: int, now: int)
    requires IsDue(q, a, now) && IsDue(q, b, now) && a != b
    ensures q.rows[a].told.dest != q.rows[b].told.dest
  {}

  /** A message tried again later is not due before, and holds back the ones
      behind it however long they have waited. */
  lemma RetryHoldsBack(q: Queue, id: int, why: string, at: int, other: int, now: int)
    requires IsHead(q, id) && other in q.rows && q.rows[other].told.dest == q.rows[id].told.dest
    ensures IsDue(RetryLater(q, id, why, at), other, now) <==> other == id && at <= now
  {}

  /** Once the head is sent or given up, the next waiting one has its turn. */
  lemma NextHasItsTurn(q: Queue, id: int, status: Status, why: string, now: int, next: int)
    requires IsHead(q, id) && status != Pending && Waits(q, next) && next != id
    requires q.rows[next].told.dest == q.rows[id].told.dest
    requires forall p <- q.rows :: Waits(q, p) && q.rows[p].told.dest == q.rows[id].told.dest && p != id ==> next <= p
    ensures IsHead(Close(q, id, status, why, now), next) && IsHead(MarkSent(q, id, now), next)
  {}

  /** News reaches exactly the destinations that tick its part, a service back
      only those last told it was down, and never leaves before its time. */
  lemma NewsReaches(q: Queue, dests: seq<int>, news: Told, now: int, sendAt: int, dest: int)
    requires forall id <- q.rows :: id < q.next
    ensures var after := EnqueueAfter(q, dests, news, now, sendAt);
      && ((exists id <- after.rows :: q.next <= id && after.rows[id].told.dest == dest) <==>
          dest in dests && (news.happening == ServiceUp ==>
                              news.service.Some? && LastSaysDown(q, dest, news.service.value)))
      && (forall id <- after.rows :: q.next <= id ==>
            && after.rows[id].told == news.(dest := after.rows[id].told.dest)
            && Waits(after, id)
            && forall at | at < sendAt :: !IsDue(after, id, at))
  {
    hide LastSaysDown, AfterOutage;
    if news.happening == ServiceUp && news.service.Some? {
      AfterOutageIs(q, dests, news.service.value);
    }
    var chosen, after := Chosen(q, dests, news), EnqueueAfter(q, dests, news, now, sendAt);
    if dest in chosen {
      var i :| 0 <= i < |chosen| && chosen[i] == dest;
      assert q.next + i in Range(q.next, q.next + |chosen|);
      assert q.next + i in after.rows && after.rows[q.next + i].told.dest == dest;
    }
    forall id <- after.rows | q.next <= id ensures after.rows[id].told.dest in chosen {
      assert after.rows[id].told.dest == chosen[id - q.next];
    }
  }

  // ----- no message leaves twice

  /** What left is sent, or gone, and no round holds it. */
  ghost predicate LeftOnce(m: Machine) {
    && (forall i, j | 0 <= i < j < |m.left| :: m.left[i] != m.left[j])
    && (forall i | 0 <= i < |m.left| :: IsSettled(m, m.left[i]))
  }

  ghost predicate IsSettled(m: Machine, id: int) {
    id < m.q.next && id !in m.held && (id in m.q.rows ==> m.q.rows[id].status == Sent)
  }

  lemma StepKeepsSettled(m: Machine, op: Op, outcomes: set<Status>, id: int)
    requires Numbered(m) && Allowed(m, op) && IsSettled(m, id)
    ensures IsSettled(Step(m, op, outcomes), id)
  {
    hide Statement, IsDue, IsHead;
    StatementKeepsRows(m.q, op, outcomes);
    if op.Hold? && id in op.ids {
      DueIsHead(m.q, id, op.now);
      assert Waits(m.q, id) by { HeadWaits(m.q, id); }
    }
  }

  lemma HeadWaits(q: Queue, id: int)
    requires IsHead(q, id)
    ensures Waits(q, id)
  {}

  lemma StepKeepsLeftOnce(m: Machine, op: Op, outcomes: set<Status>)
    requires Numbered(m) && LeftOnce(m) && Allowed(m, op)
    ensures LeftOnce(Step(m, op, outcomes))
  {
    hide Statement, IsSettled, Numbered;
    var after := Step(m, op, outcomes);
    forall i | 0 <= i < |after.left| ensures IsSettled(after, after.left[i]) {
      if i < |m.left| {
        assert after.left[i] == m.left[i];
        StepKeepsSettled(m, op, outcomes, m.left[i]);
      } else {
        DeliveredIsSettled(m, op, outcomes);
      }
    }
    forall i, j | 0 <= i < j < |after.left| ensures after.left[i] != after.left[j] {
      if j == |m.left| {
        HeldHasNotLeft(m, m.left[i]);
      }
    }
  }

  lemma DeliveredIsSettled(m: Machine, op: Op, outcomes: set<Status>)
    requires Numbered(m) && Allowed(m, op) && op.Deliver?
    ensures IsSettled(Step(m, op, outcomes), op.id)
  {}

  lemma HeldHasNotLeft(m: Machine, id: int)
    requires IsSettled(m, id)
    ensures id !in m.held
  {}

  // ----- no message is lost

  /** Everything ever queued is waiting, finished, or went with its subject. */
  ghost predicate Accounted(m: Machine) {
    && Waiting(m.q) !! m.finished !! m.dropped
    && m.told.Keys == Waiting(m.q) + m.finished + m.dropped
  }

  lemma StepKeepsAccounted(m: Machine, op: Op, outcomes: set<Status>)
    requires Numbered(m) && Accounted(m)
    ensures Accounted(Step(m, op, outcomes))
  {
    hide Statement;
    var after := Step(m, op, outcomes);
    StatementKeepsRows(m.q, op, outcomes);
    if op.Enqueue? {
      EnqueuedRowsAreNew(m.q, op, outcomes);
    }
    forall id ensures id in Waiting(after.q) <==> Waits(after.q, id) {}
    forall id ensures id in Waiting(m.q) <==> Waits(m.q, id) {}
    forall id | id in after.told
      ensures id in Waiting(after.q) || id in after.finished || id in after.dropped
    {
      if id in m.told {
      } else {
        assert id in after.q.rows;
      }
    }
  }

  // ----- every run

  ghost predicate Kept(m: Machine) {
    Numbered(m) && Fifo(m.q) && HeldAreHeads(m) && LeftOnce(m) && Accounted(m)
  }

  lemma StepKeepsAll(m: Machine, op: Op, outcomes: set<Status>)
    requires Kept(m) && Allowed(m, op)
    ensures Kept(Step(m, op, outcomes))
  {
    hide Numbered, Fifo, HeldAreHeads, LeftOnce, Accounted, Step, Allowed;
    StepKeepsNumbered(m, op, outcomes);
    StepKeepsFifo(m, op, outcomes);
    StepKeepsHeads(m, op, outcomes);
    StepKeepsLeftOnce(m, op, outcomes);
    StepKeepsAccounted(m, op, outcomes);
  }

  lemma {:induction false} RunKeepsAll(m: Machine, ops: seq<Op>, outcomes: set<Status>)
    requires Kept(m) && AllAllowed(m, ops, outcomes)
    ensures Kept(Run(m, ops, outcomes))
    decreases ops
  {
    hide Kept;
    if ops != [] {
      StepKeepsAll(m, ops[0], outcomes);
      RunKeepsAll(Step(m, ops[0], outcomes), ops[1..], outcomes);
    }
  }

  /** Over every run from an empty table: each destination's finished messages
      are older than its waiting ones, no message leaves twice, and whatever
      was queued is waiting, finished, or went with its subject. */
  lemma EveryRunIsInOrder(clock: int, ops: seq<Op>, outcomes: set<Status>)
    requires AllAllowed(Start(clock), ops, outcomes)
    ensures var m := Run(Start(clock), ops, outcomes);
      && Fifo(m.q)
      && (forall i, j | 0 <= i < j < |m.left| :: m.left[i] != m.left[j])
      && m.told.Keys == Waiting(m.q) + m.finished + m.dropped
  {
    hide Run, AllAllowed;
    RunKeepsAll(Start(clock), ops, outcomes);
  }

  predicate Removes(op: Op) {
    op.RemoveDest? || op.RemoveEvent? || op.RemoveService?
  }

  lemma {:induction false} OnlyRemovalsDrop(m: Machine, ops: seq<Op>, outcomes: set<Status>)
    requires Numbered(m) && AllAllowed(m, ops, outcomes)
    requires forall i | 0 <= i < |ops| :: !Removes(ops[i])
    ensures Run(m, ops, outcomes).dropped == m.dropped
    decreases ops
  {
    if ops != [] {
      var after := Step(m, ops[0], outcomes);
      StepKeepsNumbered(m, ops[0], outcomes);
      StatementDropsNoWaiting(m, ops[0], outcomes);
      assert after.dropped == m.dropped;
      OnlyRemovalsDrop(after, ops[1..], outcomes);
    }
  }

  lemma StatementDropsNoWaiting(m: Machine, op: Op, outcomes: set<Status>)
    requires Numbered(m) && !Removes(op)
    ensures forall id | Waits(m.q, id) :: id in Statement(m.q, op, outcomes).rows
  {}

  /** Without removals nothing is lost, purges included: every message ever
      queued waits still or is finished. */
  lemma NoneIsLost(clock: int, ops: seq<Op>, outcomes: set<Status>)
    requires AllAllowed(Start(clock), ops, outcomes)
    requires forall i | 0 <= i < |ops| :: !Removes(ops[i])
    ensures var m := Run(Start(clock), ops, outcomes);
      m.told.Keys == Waiting(m.q) + m.finished
  {
    hide Run, AllAllowed;
    RunKeepsAll(Start(clock), ops, outcomes);
    OnlyRemovalsDrop(Start(clock), ops, outcomes);
  }

  /** Forgetting old messages changes no latest outcome, nor any waiting one. */
  lemma PurgeKeepsWhatIsShown(q: Queue, before: int, outcomes: set<Status>, id: int)
    ensures var after := Purge(q, before, outcomes);
      && (IsLatestOutcome(after, id, outcomes) <==> IsLatestOutcome(q, id, outcomes))
      && (Waits(after, id) <==> Waits(q, id))
      && (id in after.rows ==> after.rows[id] == q.rows[id])
  {
    var after := Purge(q, before, outcomes);
    if IsLatestOutcome(after, id, outcomes) {
      LatestExists(q, q.rows[id].told.dest, outcomes, id);
      var last :| IsLatestOutcome(q, last, outcomes) && q.rows[last].told.dest == q.rows[id].told.dest;
      assert last in after.rows && last <= id;
    }
  }

  /** A destination with an outcome has a latest one. */
  lemma LatestExists(q: Queue, dest: int, outcomes: set<Status>, id: int)
    requires id in q.rows && q.rows[id].told.dest == dest && q.rows[id].status in outcomes
    ensures exists last :: IsLatestOutcome(q, last, outcomes) && q.rows[last].told.dest == dest
  {
    var ids := set k <- q.rows | q.rows[k].told.dest == dest && q.rows[k].status in outcomes;
    assert id in ids;
    var last := Greatest(ids);
    assert forall j <- q.rows :: q.rows[j].status in outcomes && q.rows[j].told.dest == dest ==> j in ids;
    assert IsLatestOutcome(q, last, outcomes);
  }

  // ----- a service is told back once per outage

  /** Between two messages that a service is back, one that it was down. */
  ghost predicate Alternates(told: map<int, Told>) {
    forall i, j, dest, service |
      i in told && j in told && i < j && IsAbout(told[i], dest, service) && IsAbout(told[j], dest, service)
      && told[i].happening == ServiceUp && told[j].happening == ServiceUp ::
      exists k :: k in told && i < k < j && IsAbout(told[k], dest, service) && told[k].happening == ServiceDown
  }

  predicate SameService(a: Told, b: Told) {
    a.dest == b.dest && a.service.Some? && a.service == b.service
  }

  /** Of the messages to a destination about a service, the newest are kept. */
  ghost predicate NewestKept(m: Machine) {
    && (forall id <- m.told :: m.told[id].service.Some? ==> m.told[id].event.None?)
    && (forall d, u | d in m.q.rows && u in m.told && d < u && SameService(m.q.rows[d].told, m.told[u]) ::
          u in m.q.rows)
  }

  lemma {:induction false} AfterOutageIs(q: Queue, dests: seq<int>, service: int)
    ensures var chosen := AfterOutage(q, dests, service);
      && (forall dest :: dest in chosen <==> dest in dests && LastSaysDown(q, dest, service))
      && ((forall i, j | 0 <= i < j < |dests| :: dests[i] != dests[j]) ==>
            forall i, j | 0 <= i < j < |chosen| :: chosen[i] != chosen[j])
  {
    hide LastSaysDown;
    if dests != [] {
      AfterOutageIs(q, dests[1..], service);
      var rest := AfterOutage(q, dests[1..], service);
      if forall i, j | 0 <= i < j < |dests| :: dests[i] != dests[j] {
        assert dests[0] !in dests[1..];
        assert dests[0] !in rest;
      }
    }
  }

  lemma EnqueuedAre(m: Machine, op: Op, outcomes: set<Status>, id: int)
    requires Numbered(m) && Allowed(m, op) && op.Enqueue?
    requires id in Step(m, op, outcomes).told && id !in m.told
    ensures var told := Step(m, op, outcomes).told[id];
      && m.q.next <= id && told.happening == op.news.happening && told.service == op.news.service
      && (told.happening == ServiceUp ==> LastSaysDown(m.q, told.dest, told.service.value))
      && forall j | j in Step(m, op, outcomes).told && j !in m.told && j != id ::
           Step(m, op, outcomes).told[j].dest != told.dest
  {
    hide AfterOutage, LastSaysDown;
    if op.news.service.Some? {
      AfterOutageIs(m.q, op.dests, op.news.service.value);
    }
  }

  lemma StepKeepsAlternates(m: Machine, op: Op, outcomes: set<Status>)
    requires Numbered(m) && Alternates(m.told) && NewestKept(m) && Allowed(m, op)
    ensures Alternates(Step(m, op, outcomes).told)
  {
    hide Step, Allowed, LastSaysDown;
    var after := Step(m, op, outcomes);
    ToldGrows(m, op, outcomes);
    forall i, j, dest, service |
      i in after.told && j in after.told && i < j && IsAbout(after.told[i], dest, service)
      && IsAbout(after.told[j], dest, service)
      && after.told[i].happening == ServiceUp && after.told[j].happening == ServiceUp
      ensures exists k :: k in after.told && i < k < j && IsAbout(after.told[k], dest, service)
                          && after.told[k].happening == ServiceDown
    {
      if j in m.told {
        var k :| k in m.told && i < k < j && IsAbout(m.told[k], dest, service) && m.told[k].happening == ServiceDown;
        assert k in after.told;
      } else {
        EnqueuedAre(m, op, outcomes, j);
        var d := LastDown(m.q, dest, service);
        assert SameService(m.q.rows[d].told, after.told[i]);
        assert i < d;
      }
    }
  }

  /** What was told stays told, and only queueing adds to it. */
  lemma ToldGrows(m: Machine, op: Op, outcomes: set<Status>)
    requires Numbered(m)
    ensures var after := Step(m, op, outcomes);
      && (forall id <- m.told :: id in after.told && after.told[id] == m.told[id])
      && (forall id <- after.told :: id !in m.told ==> op.Enqueue? && m.q.next <= id)
      && (!op.Enqueue? ==> after.told == m.told)
  {
    hide Statement;
    StatementKeepsRows(m.q, op, outcomes);
  }

  lemma LastDown(q: Queue, dest: int, service: int) returns (d: int)
    requires LastSaysDown(q, dest, service)
    ensures d in q.rows && IsAbout(q.rows[d].told, dest, service) && q.rows[d].told.happening == ServiceDown
    ensures forall k <- q.rows :: IsAbout(q.rows[k].told, dest, service) ==> k <= d
  {
    d :| && d in q.rows && IsAbout(q.rows[d].told, dest, service) && q.rows[d].told.happening == ServiceDown
         && forall k <- q.rows :: IsAbout(q.rows[k].told, dest, service) ==> k <= d;
  }

  /** What a purge forgets is older than all it keeps. */
  lemma PurgeForgetsTheOldest(m: Machine, before: int, d: int, u: int)
    requires Numbered(m) && Fifo(m.q)
    requires d in m.q.rows && u in m.q.rows && d < u && m.q.rows[d].told.dest == m.q.rows[u].told.dest
    requires d in Purge(m.q, before, CHANNEL_OUTCOMES).rows
    ensures u in Purge(m.q, before, CHANNEL_OUTCOMES).rows
  {}

  lemma StepKeepsNewest(m: Machine, op: Op)
    requires Numbered(m) && Fifo(m.q) && NewestKept(m) && Allowed(m, op)
    ensures NewestKept(Step(m, op, CHANNEL_OUTCOMES))
  {
    hide Fifo;
    var after := Step(m, op, CHANNEL_OUTCOMES);
    ToldGrows(m, op, CHANNEL_OUTCOMES);
    StatementKeepsRows(m.q, op, CHANNEL_OUTCOMES);
    if op.Enqueue? {
      EnqueuedRowsAreNew(m.q, op, CHANNEL_OUTCOMES);
      EnqueueKeepsNewest(m, op);
    } else {
      forall d, u | d in after.q.rows && u in after.told && d < u && SameService(after.q.rows[d].told, after.told[u])
        ensures u in after.q.rows
      {
        assert d in m.q.rows && u in m.q.rows;
        if op.Forget? {
          PurgeForgetsTheOldest(m, op.limit, d, u);
        }
      }
    }
  }

  lemma EnqueueKeepsNewest(m: Machine, op: Op)
    requires Numbered(m) && NewestKept(m) && Allowed(m, op) && op.Enqueue?
    ensures NewestKept(Step(m, op, CHANNEL_OUTCOMES))
  {
    hide AfterOutage;
  }

  ghost predicate Paired(m: Machine) {
    Kept(m) && Alternates(m.told) && NewestKept(m)
  }

  lemma {:induction false} RunKeepsPaired(m: Machine, ops: seq<Op>)
    requires Paired(m) && AllAllowed(m, ops, CHANNEL_OUTCOMES)
    ensures Paired(Run(m, ops, CHANNEL_OUTCOMES))
    decreases ops
  {
    hide Alternates, NewestKept, Numbered, Fifo, HeldAreHeads, LeftOnce, Accounted, Step, Allowed;
    if ops != [] {
      StepKeepsAll(m, ops[0], CHANNEL_OUTCOMES);
      StepKeepsAlternates(m, ops[0], CHANNEL_OUTCOMES);
      StepKeepsNewest(m, ops[0]);
      RunKeepsPaired(Step(m, ops[0], CHANNEL_OUTCOMES), ops[1..]);
    }
  }

  /** Over every run, purges included, a destination is told that a service is
      back only once it was told again that it was down. */
  lemma BackIsToldOncePerOutage(clock: int, ops: seq<Op>)
    requires AllAllowed(Start(clock), ops, CHANNEL_OUTCOMES)
    ensures Alternates(Run(Start(clock), ops, CHANNEL_OUTCOMES).told)
  {
    hide Run, AllAllowed;
    RunKeepsPaired(Start(clock), ops);
  }
}
