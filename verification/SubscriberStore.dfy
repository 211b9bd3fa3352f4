/** The table of subscribers, written statement by statement. */
module SubscriberStore {
  import opened Prelude
  import Links
  import Queues
  import QueueStore
  import opened Subscribers

  class SubscriberTable {
    var users: map<int, User>
    var subscribers: map<int, Subscriber>
    var next: int
    var requests: Links.Table

    ghost function View(): State
      reads this
    {
      State(users, subscribers, requests, next)
    }

    /** Of two clicks at the same moment, only the first counts. */
    method ConfirmVisitor(request: Request, secret: string) returns (id: Option<int>)
      modifies this`subscribers, this`next, this`requests
      ensures (View(), id) == Confirm(old(View()), request, secret)
    {
      if !Links.HasLinks(requests, request.address) {
        return None;
      }
      requests := requests.(rows := map k <- requests.rows | requests.rows[k].owner != request.address :: requests.rows[k]);
      var known := set k <- subscribers | subscribers[k].reader == Visitor(request.address);
      assert known == set k <- old(View()).subscribers | old(View()).subscribers[k].reader == Visitor(request.address);
      if known == {} {
        id := Some(next);
        subscribers := subscribers[next := Subscriber(Visitor(request.address), request.locale, request.choices, secret)];
        next := next + 1;
      } else {
        id := Some(Greatest(known));
        subscribers := map k <- subscribers ::
          if k in known then subscribers[k].(locale := request.locale, choices := request.choices) else subscribers[k];
        SameMap(subscribers, Confirm(old(View()), request, secret).0.subscribers);
      }
    }

    /** Queues news for every subscriber who receives it, each once. */
    method Enqueue(queue: QueueStore.Deliveries, audience: Audience, open: bool, news: Queues.Told, now: int, sendAt: int)
      returns (readers: seq<int>)
      modifies queue`rows, queue`next
      ensures queue.State() == Queues.Insert(old(queue.State()), readers, news, now, sendAt)
      ensures forall i, j | 0 <= i < j < |readers| :: readers[i] != readers[j]
      ensures forall id :: id in readers <==>
                audience != DetectedOutages && news.event.Some? && id in Recipients(View(), audience, open)
    {
      readers := [];
      if audience == DetectedOutages || news.event.None? {
        queue.Insert(readers, news, now, sendAt);
        return;
      }
      var recipients := Recipients(State(users, subscribers, requests, next), audience, open);
      readers := QueueStore.Ascending(recipients, None);
      queue.Insert(readers, news, now, sendAt);
    }
  }
}
