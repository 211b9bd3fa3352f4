/**
 The links sent by email: those that reset a password, one table, and those
 that confirm a visitor's subscription, another. An owner is the account or
 the address a link was sent to. Times are seconds.
 */
module Links {
  import opened Prelude

  datatype Link = Link(owner: int, secretHash: string, createdAt: int, expiresAt: int)

  datatype Table = Table(rows: map<int, Link>, next: int)

  /** How long a link lives, and how many the last hour may hold. */
  datatype Rules = Rules(lifetime: int, perOwner: int, perInstance: Option<int>)

  const EMPTY := Table(map[], 1)

  const HOUR := 3600
  const DAY := 86400

  function SentSince(t: Table, owner: int, since: int): set<int> {
    set id <- t.rows | t.rows[id].owner == owner && t.rows[id].createdAt > since
  }

  function AllSentSince(t: Table, since: int): set<int> {
    set id <- t.rows | t.rows[id].createdAt > since
  }

  predicate WithinLimits(t: Table, rules: Rules, owner: int, now: int) {
    && |SentSince(t, owner, now - HOUR)| < rules.perOwner
    && (rules.perInstance.Some? ==> |AllSentSince(t, now - HOUR)| < rules.perInstance.value)
  }

  function InsertWithinLimits(t: Table, rules: Rules, owner: int, secretHash: string, now: int): (Table, Option<int>) {
    if WithinLimits(t, rules, owner, now)
    then (Table(t.rows[t.next := Link(owner, secretHash, now, now + rules.lifetime)], t.next + 1), Some(t.next))
    else (t, None)
  }

  /** Unexpired, and not replaced by a newer link of its owner. */
  predicate IsLive(t: Table, id: int, now: int) {
    && id in t.rows && t.rows[id].expiresAt > now
    && forall newer <- t.rows :: t.rows[newer].owner == t.rows[id].owner ==> newer <= id
  }

  function DropOwner(t: Table, owner: int): Table {
    t.(rows := map id <- t.rows | t.rows[id].owner != owner :: t.rows[id])
  }

  predicate HasLinks(t: Table, owner: int) {
    exists id <- t.rows :: t.rows[id].owner == owner
  }

  /** Uses up every link of the account and sets its new password; false, and
      nothing changes, when it has none left. */
  function UseUp(t: Table, passwords: map<int, string>, owner: int, hash: string): (Table, map<int, string>, bool) {
    if !HasLinks(t, owner) then (t, passwords, false) else (DropOwner(t, owner), passwords[owner := hash], true)
  }

  function DeleteStale(t: Table, now: int): Table {
    t.(rows := map id <- t.rows | t.rows[id].createdAt >= now - DAY :: t.rows[id])
  }

  // ----- runs

  datatype Op = Ask(owner: int, secretHash: string, at: int) | Use(owner: int) | Clean(at: int)

  function Apply(t: Table, rules: Rules, op: Op): Table {
    match op
    case Ask(owner, secretHash, at) => InsertWithinLimits(t, rules, owner, secretHash, at).0
    case Use(owner) => DropOwner(t, owner)
    case Clean(at) => DeleteStale(t, at)
  }

  function Run(t: Table, rules: Rules, ops: seq<Op>): Table
    decreases ops
  {
    if ops == [] then t else Run(Apply(t, rules, ops[0]), rules, ops[1..])
  }

  // ----- the limits

  /** The links of an owner stored in the hour after `from`. */
  function SentInHour(t: Table, owner: int, from: int): set<int> {
    set id <- t.rows | t.rows[id].owner == owner && from < t.rows[id].createdAt <= from + HOUR
  }

  function AllSentInHour(t: Table, from: int): set<int> {
    set id <- t.rows | from < t.rows[id].createdAt <= from + HOUR
  }

  /** Every hour, ending now or not, holds no more links than allowed. */
  ghost predicate HoursAreLimited(t: Table, rules: Rules) {
    && (forall id <- t.rows :: id < t.next)
    && (forall owner, from :: |SentInHour(t, owner, from)| <= Max(rules.perOwner, 0))
    && (rules.perInstance.Some? ==>
          forall from :: |AllSentInHour(t, from)| <= Max(rules.perInstance.value, 0))
  }

  lemma AskKeepsOwnerLimit(t: Table, rules: Rules, op: Op, owner: int, from: int)
    requires op.Ask? && (forall id <- t.rows :: id < t.next)
    requires |SentInHour(t, owner, from)| <= Max(rules.perOwner, 0)
    ensures |SentInHour(Apply(t, rules, op), owner, from)| <= Max(rules.perOwner, 0)
  {
    var before, after := SentInHour(t, owner, from), SentInHour(Apply(t, rules, op), owner, from);
    if WithinLimits(t, rules, op.owner, op.at) && op.owner == owner && from < op.at <= from + HOUR {
      assert after == before + {t.next};
      SubsetSize(before, SentSince(t, owner, op.at - HOUR));
    } else {
      assert after == before;
    }
  }

  lemma AskKeepsInstanceLimit(t: Table, rules: Rules, op: Op, from: int)
    requires op.Ask? && rules.perInstance.Some? && (forall id <- t.rows :: id < t.next)
    requires |AllSentInHour(t, from)| <= Max(rules.perInstance.value, 0)
    ensures |AllSentInHour(Apply(t, rules, op), from)| <= Max(rules.perInstance.value, 0)
  {
    var before, after := AllSentInHour(t, from), AllSentInHour(Apply(t, rules, op), from);
    if WithinLimits(t, rules, op.owner, op.at) && from < op.at <= from + HOUR {
      assert after == before + {t.next};
      SubsetSize(before, AllSentSince(t, op.at - HOUR));
    } else {
      assert after == before;
    }
  }

  lemma ApplyKeepsLimits(t: Table, rules: Rules, op: Op)
    requires HoursAreLimited(t, rules)
    ensures HoursAreLimited(Apply(t, rules, op), rules)
  {
    var after := Apply(t, rules, op);
    forall owner, from ensures |SentInHour(after, owner, from)| <= Max(rules.perOwner, 0) {
      if op.Ask? {
        AskKeepsOwnerLimit(t, rules, op, owner, from);
      } else {
        SubsetSize(SentInHour(after, owner, from), SentInHour(t, owner, from));
      }
    }
    if rules.perInstance.Some? {
      forall from ensures |AllSentInHour(after, from)| <= Max(rules.perInstance.value, 0) {
        if op.Ask? {
          AskKeepsInstanceLimit(t, rules, op, from);
        } else {
          SubsetSize(AllSentInHour(after, from), AllSentInHour(t, from));
        }
      }
    }
  }

  /** Over every run, whatever is deleted in between and even if the clock
      steps back, no hour holds more stored links than allowed. */
  lemma {:induction false} RunKeepsLimits(t: Table, rules: Rules, ops: seq<Op>)
    requires HoursAreLimited(t, rules)
    ensures HoursAreLimited(Run(t, rules, ops), rules)
    decreases ops
  {
    hide HoursAreLimited;
    if ops != [] {
      ApplyKeepsLimits(t, rules, ops[0]);
      RunKeepsLimits(Apply(t, rules, ops[0]), rules, ops[1..]);
    }
  }

  // ----- one live link

  lemma OneLiveLink(t: Table, a: int, b: int, now: int)
    requires IsLive(t, a, now) && IsLive(t, b, now) && t.rows[a].owner == t.rows[b].owner
    ensures a == b
  {}

  /** Times never step back from `clock` on. */
  predicate InOrder(clock: int, ops: seq<Op>)
    decreases ops
  {
    ops == []
    || (var at := if ops[0].Use? then clock else ops[0].at;
        clock <= at && InOrder(at, ops[1..]))
  }

  function ClockAfter(clock: int, ops: seq<Op>): int
    decreases ops
  {
    if ops == [] then clock else ClockAfter(if ops[0].Use? then clock else ops[0].at, ops[1..])
  }

  /** Of an owner's links, older ones were not stored after newer ones. */
  ghost predicate InTime(t: Table, clock: int) {
    && (forall id <- t.rows :: id < t.next && t.rows[id].createdAt <= clock)
    && (forall a, b | a in t.rows && b in t.rows && a < b :: t.rows[a].createdAt <= t.rows[b].createdAt)
  }

  lemma ApplyKeepsDead(t: Table, rules: Rules, op: Op, clock: int, id: int, now: int)
    requires InTime(t, clock) && id < t.next && !IsLive(t, id, now)
    requires !op.Use? ==> clock <= op.at
    ensures InTime(Apply(t, rules, op), if op.Use? then clock else op.at)
    ensures id < Apply(t, rules, op).next && !IsLive(Apply(t, rules, op), id, now)
  {
    hide WithinLimits;
    var after := Apply(t, rules, op);
    if id in after.rows && t.rows[id].expiresAt > now {
      var newer :| newer in t.rows && t.rows[newer].owner == t.rows[id].owner && newer > id;
      assert newer in after.rows;
    }
  }

  lemma {:induction false} RunKeepsDead(t: Table, rules: Rules, ops: seq<Op>, clock: int, id: int, now: int)
    requires InTime(t, clock) && InOrder(clock, ops) && id < t.next && !IsLive(t, id, now)
    ensures !IsLive(Run(t, rules, ops), id, now)
    decreases ops
  {
    hide InTime, IsLive, Apply;
    if ops != [] {
      ApplyKeepsDead(t, rules, ops[0], clock, id, now);
      RunKeepsDead(Apply(t, rules, ops[0]), rules, ops[1..], if ops[0].Use? then clock else ops[0].at, id, now);
    }
  }

  /** A link that once was used, replaced or expired never opens again, even
      when the link that replaced it is deleted. */
  lemma NeverOpensAgain(t: Table, rules: Rules, ops: seq<Op>, clock: int, id: int, now: int, later: int)
    requires InTime(t, clock) && InOrder(clock, ops) && id < t.next && !IsLive(t, id, now) && now <= later
    ensures !IsLive(Run(t, rules, ops), id, later)
  {
    RunKeepsDead(t, rules, ops, clock, id, now);
  }

  // ----- what each statement does

  /** A link is stored exactly when its owner, and the page, had fewer in the last
      hour than allowed; then it is the one row added. */
  lemma InsertIs(t: Table, rules: Rules, owner: int, secretHash: string, now: int)
    requires forall id <- t.rows :: id < t.next
    ensures var (after, id) := InsertWithinLimits(t, rules, owner, secretHash, now);
      var lastHour := set k <- t.rows | t.rows[k].createdAt > now - 3600;
      var own := set k <- lastHour | t.rows[k].owner == owner;
      && (id.Some? <==>
            |own| < rules.perOwner && (rules.perInstance.Some? ==> |lastHour| < rules.perInstance.value))
      && (id.None? ==> after == t)
      && (id.Some? ==>
            && id.value !in t.rows && id.value < after.next
            && after.rows == t.rows[id.value := Link(owner, secretHash, now, now + rules.lifetime)])
  {
    var lastHour := set k <- t.rows | t.rows[k].createdAt > now - 3600;
    var own := set k <- lastHour | t.rows[k].owner == owner;
    assert lastHour == AllSentSince(t, now - HOUR);
    assert own == SentSince(t, owner, now - HOUR);
  }

  /** A new link opens until its time is over, the older ones of its owner open
      nothing any more, and those of others open what they did. */
  lemma NewLinkReplaces(t: Table, rules: Rules, owner: int, secretHash: string, now: int, other: int, at: int)
    requires forall id <- t.rows :: id < t.next
    requires InsertWithinLimits(t, rules, owner, secretHash, now).1.Some? && other in t.rows
    ensures var (after, id) := InsertWithinLimits(t, rules, owner, secretHash, now);
      && (IsLive(after, id.value, at) <==> at < now + rules.lifetime)
      && (IsLive(after, other, at) <==> t.rows[other].owner != owner && IsLive(t, other, at))
  {
    hide WithinLimits;
    var (after, id) := InsertWithinLimits(t, rules, owner, secretHash, now);
    assert id.value == t.next && id.value in after.rows && other < id.value;
    assert forall k <- t.rows :: k in after.rows && after.rows[k] == t.rows[k];
  }

  /** The links of an account are used up together, with its new password, exactly
      when it has one; those of others stay, and so do their passwords. */
  lemma UseUpIs(t: Table, passwords: map<int, string>, owner: int, hash: string)
    ensures var (after, kept, used) := UseUp(t, passwords, owner, hash);
      && (used <==> exists id :: id in t.rows && t.rows[id].owner == owner)
      && (forall id <- t.rows ::
            && (id in after.rows <==> t.rows[id].owner != owner)
            && (id in after.rows ==> after.rows[id] == t.rows[id]))
      && after.next == t.next && after.rows.Keys <= t.rows.Keys
      && kept == (if used then passwords[owner := hash] else passwords)
  {
    if id :| id in t.rows && t.rows[id].owner == owner {
      assert HasLinks(t, owner);
    }
  }

  /** Only links stored more than a day ago are deleted: none that still opens
      something, as long as links live no longer than that. */
  lemma DeleteStaleIs(t: Table, now: int)
    ensures var after := DeleteStale(t, now);
      && after.next == t.next && after.rows.Keys <= t.rows.Keys
      && (forall id <- t.rows ::
            && (id in after.rows <==> now - t.rows[id].createdAt <= 86400)
            && (id in after.rows ==> after.rows[id] == t.rows[id]))
      && (forall id :: IsLive(t, id, now) && t.rows[id].expiresAt <= t.rows[id].createdAt + 86400 ==>
            IsLive(after, id, now))
  {}

  // ----- racing uses

  /** The outcome of each of these uses of one account's links, in turn. */
  function Uses(t: Table, passwords: map<int, string>, owner: int, hashes: seq<string>): (nat, map<int, string>)
    decreases hashes
  {
    if hashes == [] then (0, passwords)
    else
      var (after, kept, used) := UseUp(t, passwords, owner, hashes[0]);
      var (others, final) := Uses(after, kept, owner, hashes[1..]);
      ((if used then 1 else 0) + others, final)
  }

  /** Of uses racing for the links of one account, whatever their number, only
      the first sets its password. */
  lemma {:induction false} RacingUsesSucceedOnce(t: Table, passwords: map<int, string>, owner: int, hashes: seq<string>)
    ensures Uses(t, passwords, owner, hashes)
         == if HasLinks(t, owner) && hashes != [] then (1, passwords[owner := hashes[0]]) else (0, passwords)
    decreases hashes
  {
    if hashes != [] {
      var (after, kept, used) := UseUp(t, passwords, owner, hashes[0]);
      RacingUsesSucceedOnce(after, kept, owner, hashes[1..]);
    }
  }
}
