/** The tables of messages, written statement by statement. */
module QueueStore {
  import opened Prelude
  import opened Queues

  /** The queue of the channels or the one of the subscribers. */
  class Deliveries {
    var rows: map<int, Row>
    var next: int
    const outcomes: set<Status>

    ghost function State(): Queue
      reads this
    {
      Queue(rows, next)
    }

    constructor (outcomes: set<Status>)
      ensures State() == EMPTY && this.outcomes == outcomes
    {
      rows, next := map[], 1;
      this.outcomes := outcomes;
    }

    /** Queues a message for each of `dests`, in their order. */
    method Insert(dests: seq<int>, news: Told, now: int, sendAt: int)
      modifies this`rows, this`next
      ensures State() == Queues.Insert(old(State()), dests, news, now, sendAt)
    {
      hide Queues.Insert;
      ghost var q := State();
      InsertNone(q, news, now, sendAt);
      assert dests[..0] == [];
      for i := 0 to |dests|
        invariant State() == Queues.Insert(q, dests[..i], news, now, sendAt)
      {
        InsertOneMore(q, dests, i, news, now, sendAt);
        rows := rows[next := Row(news.(dest := dests[i]), Pending, 0, sendAt, None, now, None)];
        next := next + 1;
      }
      assert dests[..|dests|] == dests;
    }

    /** Queues a message for each of the destinations that tick its part of the
        page, in the order they are read; a service coming back is only told
        where its outage was. */
    method EnqueueAfter(dests: seq<int>, news: Told, now: int, sendAt: int) returns (queued: nat)
      modifies this`rows, this`next
      ensures State() == Queues.EnqueueAfter(old(State()), dests, news, now, sendAt)
      ensures queued == |Chosen(old(State()), dests, news)|
    {
      hide Chosen, LastSaysDown, Queues.Insert;
      var q := Queue(rows, next);
      var chosen := [];
      assert dests[0..] == dests;
      for i := 0 to |dests|
        invariant q == State() && Chosen(q, dests, news) == chosen + Chosen(q, dests[i..], news)
      {
        ChosenStep(q, dests[i..], news);
        assert dests[i..][0] == dests[i] && dests[i..][1..] == dests[i + 1..];
        if news.happening != ServiceUp || (news.service.Some? && LastSaysDown(q, dests[i], news.service.value)) {
          chosen := chosen + [dests[i]];
        }
      }
      NoneChosen(q, news);
      assert dests[|dests|..] == [] && chosen + [] == chosen;
      assert chosen == Chosen(q, dests, news);
      Insert(chosen, news, now, sendAt);
      queued := |chosen|;
    }

    /** The first waiting message of each destination whose time has come, the
        oldest first, at most `limit` when there is one. */
    method Due(now: int, limit: Option<nat>) returns (ids: seq<int>)
      ensures forall i | 0 <= i < |ids| :: IsDue(State(), ids[i], now)
      ensures forall i, j | 0 <= i < j < |ids| :: ids[i] < ids[j]
      ensures limit.Some? ==> |ids| <= limit.value
      ensures forall id :: IsDue(State(), id, now) && id !in ids ==>
                limit.Some? && |ids| == limit.value && (ids != [] ==> ids[|ids| - 1] < id)
    {
      var q := Queue(rows, next);
      DueIsQueued(q, now);
      ids := Ascending((set id <- rows | IsDue(q, id, now)), limit);
    }

    method MarkSent(id: int, now: int)
      modifies this`rows
      ensures State() == Queues.MarkSent(old(State()), id, now)
    {
      if id in rows {
        rows := rows[id := rows[id].(
          status := Sent, attempts := rows[id].attempts + 1, failure := None, sentAt := Some(now))];
      }
    }

    /** Counts a failed attempt and sets when the next one is made. */
    method RetryLater(id: int, failure: string, nextAttemptAt: int)
      modifies this`rows
      ensures State() == Queues.RetryLater(old(State()), id, failure, nextAttemptAt)
    {
      if id in rows && rows[id].status == Pending {
        rows := rows[id := rows[id].(
          attempts := rows[id].attempts + 1, failure := Some(failure), nextAt := nextAttemptAt)];
      }
    }

    /** Keeps why a message could not leave without counting an attempt. */
    method Note(id: int, failure: string)
      modifies this`rows
      ensures State() == Queues.Note(old(State()), id, failure)
    {
      if id in rows && rows[id].status == Pending {
        rows := rows[id := rows[id].(failure := Some(failure))];
      }
    }

    /** Gives up on one message. */
    method Fail(id: int, failure: string, now: int)
      modifies this`rows
      ensures State() == Queues.Close(old(State()), id, Failed, failure, now)
    {
      Close(id, Failed, failure, now);
    }

    /** Leaves out a message its reader may not receive when its turn comes. */
    method Skip(id: int, reason: string, now: int)
      modifies this`rows
      ensures State() == Queues.Close(old(State()), id, Skipped, reason, now)
    {
      Close(id, Skipped, reason, now);
    }

    method Close(id: int, status: Status, why: string, now: int)
      modifies this`rows
      ensures State() == Queues.Close(old(State()), id, status, why, now)
    {
      if id in rows && rows[id].status == Pending {
        rows := rows[id := rows[id].(
          status := status, attempts := rows[id].attempts + 1, failure := Some(why), nextAt := now)];
      }
    }

    method FailWaiting(dest: int, failure: string, now: int) returns (count: nat)
      modifies this`rows
      ensures State() == Queues.FailWaiting(old(State()), dest, failure, now)
      ensures count == |set id <- old(rows) | Waits(old(State()), id) && old(rows)[id].told.dest == dest|
    {
      ghost var ids := set id <- rows | Waits(State(), id) && rows[id].told.dest == dest;
      var hit := set id <- rows | rows[id].status == Pending && rows[id].told.dest == dest;
      assert hit == ids;
      rows := map id <- rows ::
        if id in hit then rows[id].(status := Failed, failure := Some(failure), nextAt := now) else rows[id];
      count := |hit|;
      SameMap(rows, CloseAll(old(State()), ids, Failed, 0, failure, now).rows);
    }

    /** Leaves out every waiting email of every visitor. */
    method SkipVisitors(visitors: set<int>, reason: string, now: int) returns (count: nat)
      modifies this`rows
      ensures State() == Queues.SkipVisitors(old(State()), visitors, reason, now)
      ensures count == |set id <- old(rows) | Waits(old(State()), id) && old(rows)[id].told.dest in visitors|
    {
      ghost var ids := set id <- rows | Waits(State(), id) && rows[id].told.dest in visitors;
      var hit := set id <- rows | rows[id].status == Pending && rows[id].told.dest in visitors;
      assert hit == ids;
      rows := map id <- rows ::
        if id in hit
        then rows[id].(status := Skipped, attempts := rows[id].attempts + 1, failure := Some(reason), nextAt := now)
        else rows[id];
      count := |hit|;
      SameMap(rows, CloseAll(old(State()), ids, Skipped, 1, reason, now).rows);
    }

    /** Gives up on the emails queued before `queuedBefore`, or on all of them. */
    method GiveUpWaiting(failure: string, queuedBefore: Option<int>, now: int) returns (count: nat)
      modifies this`rows
      ensures State() == Queues.GiveUpWaiting(old(State()), failure, queuedBefore, now)
      ensures count == |set id <- old(rows) | Waits(old(State()), id)
                        && (queuedBefore.None? || old(rows)[id].createdAt < queuedBefore.value)|
    {
      ghost var ids := set id <- rows | Waits(State(), id)
                        && (queuedBefore.None? || rows[id].createdAt < queuedBefore.value);
      var hit := set id <- rows | rows[id].status == Pending
                  && (queuedBefore.None? || rows[id].createdAt < queuedBefore.value);
      assert hit == ids;
      rows := map id <- rows ::
        if id in hit then rows[id].(status := Failed, failure := Some(failure), nextAt := now) else rows[id];
      count := |hit|;
      SameMap(rows, CloseAll(old(State()), ids, Failed, 0, failure, now).rows);
    }

    /** Forgets the finished messages queued before `before`, except the last
        outcome of each destination. */
    method Purge(before: int) returns (count: nat)
      modifies this`rows
      ensures State() == Queues.Purge(old(State()), before, outcomes)
      ensures count == |old(rows)| - |rows|
    {
      hide IsLatestOutcome;
      var q := Queue(rows, next);
      var latest := set id <- rows | IsLatestOutcome(q, id, outcomes);
      var gone := set id <- rows | rows[id].status != Pending && rows[id].createdAt < before && id !in latest;
      Without(rows, gone);
      rows := rows - gone;
      count := |gone|;
      SameMap(rows, Queues.Purge(q, before, outcomes).rows);
    }

    /** Deletes a destination with its queue. */
    method DeleteDest(dest: int)
      modifies this`rows
      ensures State() == DropDest(old(State()), dest)
    {
      rows := map id <- rows | rows[id].told.dest != dest :: rows[id];
    }
  }

  /** The smallest elements in order, at most `limit` when there is one. */
  method Ascending(s: set<int>, limit: Option<nat>) returns (ids: seq<int>)
    ensures forall i | 0 <= i < |ids| :: ids[i] in s
    ensures forall i, j | 0 <= i < j < |ids| :: ids[i] < ids[j]
    ensures limit.Some? ==> |ids| <= limit.value
    ensures forall id <- s :: id !in ids ==>
              limit.Some? && |ids| == limit.value && (ids != [] ==> ids[|ids| - 1] < id)
  {
    var rest := s;
    ids := [];
    while rest != {} && (limit.None? || |ids| < limit.value)
      invariant rest <= s && forall id <- s :: id in rest || id in ids
      invariant forall i | 0 <= i < |ids| :: ids[i] in s
      invariant forall i, j | 0 <= i < j < |ids| :: ids[i] < ids[j]
      invariant limit.Some? ==> |ids| <= limit.value
      invariant forall id <- rest :: ids != [] ==> ids[|ids| - 1] < id
      decreases |rest|
    {
      var first := Least(rest);
      ids := ids + [first];
      rest := rest - {first};
    }
  }

  predicate Picks(q: Queue, dest: int, news: Told) {
    news.happening != ServiceUp || (news.service.Some? && LastSaysDown(q, dest, news.service.value))
  }

  lemma ChosenStep(q: Queue, dests: seq<int>, news: Told)
    requires dests != []
    ensures Chosen(q, dests, news)
         == (if Picks(q, dests[0], news) then [dests[0]] else []) + Chosen(q, dests[1..], news)
  {}

  lemma NoneChosen(q: Queue, news: Told)
    ensures Chosen(q, [], news) == []
  {}

  lemma InsertNone(q: Queue, news: Told, now: int, sendAt: int)
    ensures Insert(q, [], news, now, sendAt) == q
  {}

  lemma InsertOneMore(q: Queue, chosen: seq<int>, k: nat, news: Told, now: int, sendAt: int)
    requires k < |chosen|
    ensures var one, more := Insert(q, chosen[..k], news, now, sendAt), Insert(q, chosen[..k + 1], news, now, sendAt);
      more == Queue(one.rows[one.next := Queued(news.(dest := chosen[k]), now, sendAt)], one.next + 1)
  {
    var one, more := Insert(q, chosen[..k], news, now, sendAt).rows, Insert(q, chosen[..k + 1], news, now, sendAt).rows;
    var grown := one[q.next + k := Queued(news.(dest := chosen[k]), now, sendAt)];
    assert Range(q.next, q.next + k + 1) == Range(q.next, q.next + k) + {q.next + k};
    assert more.Keys == q.rows.Keys + Range(q.next, q.next + k + 1) == grown.Keys;
    forall id <- more ensures more[id] == grown[id] {
      assert id in Range(q.next, q.next + k + 1) <==> id in Range(q.next, q.next + k) || id == q.next + k;
    }
    SameMap(more, grown);
  }

  method Least(s: set<int>) returns (x: int)
    requires s != {}
    ensures x in s && forall y <- s :: x <= y
  {
    ghost var some := Pick(s);
    x :| x in s;
    var rest := s - {x};
    while rest != {}
      invariant x in s && rest <= s
      invariant forall y <- s :: y in rest || x <= y
      decreases |rest|
    {
      ghost var other := Pick(rest);
      var y :| y in rest;
      if y < x {
        x := y;
      }
      rest := rest - {y};
    }
  }

  lemma Without(rows: map<int, Row>, gone: set<int>)
    requires gone <= rows.Keys
    ensures |rows - gone| == |rows| - |gone|
  {}

  lemma DueIsQueued(q: Queue, now: int)
    ensures forall id :: IsDue(q, id, now) ==> id in q.rows
  {}
}
