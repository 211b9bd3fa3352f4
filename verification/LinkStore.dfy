/** The tables of links, written statement by statement. */
module LinkStore {
  import opened Prelude
  import opened Links

  class LinkTable {
    var rows: map<int, Link>
    var next: int
    var passwords: map<int, string>
    const rules: Rules

    ghost function State(): Table
      reads this
    {
      Table(rows, next)
    }

    constructor (rules: Rules, passwords: map<int, string>)
      ensures State() == EMPTY && this.rules == rules && this.passwords == passwords
    {
      rows, next := map[], 1;
      this.rules, this.passwords := rules, passwords;
    }

    /** Counting and storing are one statement. */
    method InsertWithinLimits(owner: int, secretHash: string, now: int) returns (id: Option<int>)
      modifies this`rows, this`next
      ensures (State(), id) == Links.InsertWithinLimits(old(State()), rules, owner, secretHash, now)
    {
      var recent := set k <- rows | rows[k].createdAt > now - HOUR;
      var own := set k <- recent | rows[k].owner == owner;
      assert recent == AllSentSince(State(), now - HOUR);
      assert own == SentSince(State(), owner, now - HOUR);
      if |own| >= rules.perOwner || (rules.perInstance.Some? && |recent| >= rules.perInstance.value) {
        return None;
      }
      id := Some(next);
      rows := rows[next := Link(owner, secretHash, now, now + rules.lifetime)];
      next := next + 1;
    }

    /** The link with this id, if it still opens something. */
    method FindLive(id: int, now: int) returns (link: Option<Link>)
      ensures link.Some? <==> IsLive(State(), id, now)
      ensures link.Some? ==> link.value == rows[id]
    {
      if id !in rows || rows[id].expiresAt <= now {
        return None;
      }
      var replaced := exists newer <- rows :: rows[newer].owner == rows[id].owner && newer > id;
      link := if replaced then None else Some(rows[id]);
    }

    /** Uses up every link of the account and sets its new password, both or
        neither. */
    method UseUp(owner: int, passwordHash: string) returns (used: bool)
      modifies this`rows, this`passwords
      ensures (State(), passwords, used) == Links.UseUp(old(State()), old(passwords), owner, passwordHash)
    {
      var deleted := set id <- rows | rows[id].owner == owner;
      if deleted == {} {
        assert forall id <- rows :: rows[id].owner == owner ==> id in deleted;
        return false;
      }
      ghost var some := Pick(deleted);
      ghost var t := State();
      rows := rows - deleted;
      passwords := passwords[owner := passwordHash];
      used := true;
      SameMap(rows, DropOwner(t, owner).rows);
    }

    method DeleteStale(now: int)
      modifies this`rows
      ensures State() == Links.DeleteStale(old(State()), now)
    {
      ghost var t := State();
      var stale := set id <- rows | rows[id].createdAt < now - DAY;
      rows := rows - stale;
      SameMap(rows, Links.DeleteStale(t, now).rows);
    }
  }
}
