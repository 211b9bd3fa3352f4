/**
 Who is told by email what the page publishes: members, at the address of
 their account, and visitors, at an address they confirmed. An address is a
 number; two that differ only in case are the same one.
 */
module Subscribers {
  import opened Prelude
  import Links

  /** The kinds of events a subscriber ticks. */
  datatype Audience = Incidents | Maintenances | Publications | DetectedOutages

  datatype User = User(address: int, active: bool)

  /** Of a member or of an address, never both nor neither. */
  datatype Reader = Member(user: int) | Visitor(address: int)

  datatype Subscriber = Subscriber(reader: Reader, locale: string, choices: set<Audience>, secret: string)

  datatype State = State(users: map<int, User>, subscribers: map<int, Subscriber>, requests: Links.Table, next: int)

  /** What the schema keeps unique: an account's address, and a subscriber. */
  ghost predicate Unique(s: State) {
    && (forall a, b | a in s.users && b in s.users && s.users[a].address == s.users[b].address :: a == b)
    && (forall a, b | a in s.subscribers && b in s.subscribers
                      && s.subscribers[a].reader == s.subscribers[b].reader :: a == b)
    && (forall id <- s.subscribers :: s.subscribers[id].reader.Member? ==> s.subscribers[id].reader.user in s.users)
    && (forall id <- s.subscribers :: id < s.next)
  }

  // ----- who an email is queued for

  predicate TicksAsMember(s: State, id: int, audience: Audience) {
    && id in s.subscribers && audience in s.subscribers[id].choices && s.subscribers[id].reader.Member?
    && s.subscribers[id].reader.user in s.users && s.users[s.subscribers[id].reader.user].active
  }

  predicate MemberReads(s: State, address: int, audience: Audience) {
    exists m <- s.subscribers :: TicksAsMember(s, m, audience) && s.users[s.subscribers[m].reader.user].address == address
  }

  predicate TicksAsVisitor(s: State, id: int, audience: Audience) {
    id in s.subscribers && audience in s.subscribers[id].choices && s.subscribers[id].reader.Visitor?
  }

  /** The subscribers an email is queued for; `open` when the page is open to
      visitors' subscriptions. */
  function Recipients(s: State, audience: Audience, open: bool): set<int> {
    set id <- s.subscribers |
      || TicksAsMember(s, id, audience)
      || (open && TicksAsVisitor(s, id, audience) && !MemberReads(s, s.subscribers[id].reader.address, audience))
  }

  function AddressOf(s: State, id: int): int
    requires Unique(s) && id in s.subscribers
  {
    match s.subscribers[id].reader
    case Member(user) => s.users[user].address
    case Visitor(address) => address
  }

  /** The account at the address is active and its member ticked the news. */
  ghost predicate MemberWants(s: State, address: int, audience: Audience) {
    exists m :: m in s.subscribers && audience in s.subscribers[m].choices
      && exists user :: s.subscribers[m].reader == Member(user)
           && user in s.users && s.users[user] == User(address, true)
  }

  ghost predicate VisitorWants(s: State, address: int, audience: Audience) {
    exists v :: v in s.subscribers && audience in s.subscribers[v].choices
      && s.subscribers[v].reader == Visitor(address)
  }

  lemma MemberWantsIs(s: State, address: int, audience: Audience)
    ensures MemberReads(s, address, audience) <==> MemberWants(s, address, audience)
  {
    if MemberReads(s, address, audience) {
      var m :| m in s.subscribers && TicksAsMember(s, m, audience)
               && s.users[s.subscribers[m].reader.user].address == address;
      var user := s.subscribers[m].reader.user;
      assert s.subscribers[m].reader == Member(user) && s.users[user] == User(address, true);
    }
    if MemberWants(s, address, audience) {
      var m :| m in s.subscribers && audience in s.subscribers[m].choices
        && exists user :: s.subscribers[m].reader == Member(user)
             && user in s.users && s.users[user] == User(address, true);
      assert TicksAsMember(s, m, audience);
    }
  }

  /** No address is written to twice about one piece of news. */
  lemma OneEmailPerAddress(s: State, audience: Audience, open: bool, a: int, b: int)
    requires Unique(s) && a in Recipients(s, audience, open) && b in Recipients(s, audience, open)
    requires AddressOf(s, a) == AddressOf(s, b)
    ensures a == b
  {}

  /** Exactly the addresses where someone wants the news are written to: an active
      member, or a visitor while the page is open to them. */
  lemma EveryReaderIsWrittenTo(s: State, audience: Audience, open: bool, address: int)
    requires Unique(s)
    ensures MemberWants(s, address, audience) || (open && VisitorWants(s, address, audience))
       <==> exists id :: id in Recipients(s, audience, open) && AddressOf(s, id) == address
  {
    MemberWantsIs(s, address, audience);
    if MemberReads(s, address, audience) {
      var m :| m in s.subscribers && TicksAsMember(s, m, audience)
               && s.users[s.subscribers[m].reader.user].address == address;
      assert m in Recipients(s, audience, open) && AddressOf(s, m) == address;
    } else if open && VisitorWants(s, address, audience) {
      var v :| v in s.subscribers && audience in s.subscribers[v].choices
               && s.subscribers[v].reader == Visitor(address);
      assert v in Recipients(s, audience, open) && AddressOf(s, v) == address;
    }
    if id :| id in Recipients(s, audience, open) && AddressOf(s, id) == address {
      assert s.subscribers[id].reader.Visitor? ==> s.subscribers[id].reader == Visitor(address);
    }
  }

  /** Where an active member wants the news, the visitor at the same address is
      left out for them. */
  lemma MemberComesFirst(s: State, audience: Audience, open: bool, id: int)
    requires Unique(s) && id in Recipients(s, audience, open) && MemberWants(s, AddressOf(s, id), audience)
    ensures s.subscribers[id].reader.Member?
  {
    MemberWantsIs(s, AddressOf(s, id), audience);
  }

  // ----- confirming a subscription

  datatype Request = Request(address: int, locale: string, choices: set<Audience>)

  /** Subscribes the visitor of a request, or gives the address already
      subscribed the choices of its request; uses up every request of the
      address. Nothing happens when none is left. */
  function Confirm(s: State, request: Request, secret: string): (State, Option<int>) {
    if !Links.HasLinks(s.requests, request.address) then (s, None)
    else
      var left := Links.DropOwner(s.requests, request.address);
      var known := set id <- s.subscribers | s.subscribers[id].reader == Visitor(request.address);
      if known == {} then
        var subscriber := Subscriber(Visitor(request.address), request.locale, request.choices, secret);
        (State(s.users, s.subscribers[s.next := subscriber], left, s.next + 1),
         Some(s.next))
      else
        (s.(subscribers := map id <- s.subscribers ::
              if id in known then s.subscribers[id].(locale := request.locale, choices := request.choices)
              else s.subscribers[id],
            requests := left),
         Some(Greatest(known)))
  }

  /** Confirming keeps one subscriber per address; the address is subscribed
      with what it last asked for, under the secret it first got. */
  lemma ConfirmSubscribes(s: State, request: Request, secret: string)
    requires Unique(s)
    ensures var (after, id) := Confirm(s, request, secret);
      && Unique(after)
      && (id.Some? <==> Links.HasLinks(s.requests, request.address))
      && (id.None? ==> after == s)
      && (id.Some? ==>
            && id.value in after.subscribers
            && after.subscribers[id.value].reader == Visitor(request.address)
            && after.subscribers[id.value].locale == request.locale
            && after.subscribers[id.value].choices == request.choices
            && after.subscribers[id.value].secret ==
               (if id.value in s.subscribers then s.subscribers[id.value].secret else secret)
            && (forall other <- s.subscribers | other != id.value ::
                  other in after.subscribers && after.subscribers[other] == s.subscribers[other])
            && (forall v <- s.subscribers :: s.subscribers[v].reader == Visitor(request.address) ==> v == id.value))
  {
    hide Greatest;
    var known := set id <- s.subscribers | s.subscribers[id].reader == Visitor(request.address);
    assert forall id <- s.subscribers :: s.subscribers[id].reader == Visitor(request.address) ==> id in known;
  }

  /** Confirming uses up the requests of its address, all of them, and leaves those
      of others, and every account, as they are. */
  lemma ConfirmUsesUpRequests(s: State, request: Request, secret: string)
    ensures var after := Confirm(s, request, secret).0;
      && after.users == s.users && after.requests.next == s.requests.next
      && after.requests.rows.Keys <= s.requests.rows.Keys
      && forall id <- s.requests.rows ::
           && (id in after.requests.rows <==> s.requests.rows[id].owner != request.address)
           && (id in after.requests.rows ==> after.requests.rows[id] == s.requests.rows[id])
  {
    hide Greatest;
  }

  /** A second click on a link, or on another link of the address, changes
      nothing. */
  lemma SecondClickChangesNothing(s: State, first: Request, second: Request, secret: string, other: string)
    requires first.address == second.address
    ensures Confirm(Confirm(s, first, secret).0, second, other) == (Confirm(s, first, secret).0, None)
  {}
}
