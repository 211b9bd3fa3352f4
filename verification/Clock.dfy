/**
 Wall-clock time in the instance zone. UTC instants and local readings are
 whole minutes since 1970-01-01 00:00. A zone gives the minutes to add to
 each UTC minute to read its clock.
 */
module Clock {
  import opened Prelude

  type Zone = int -> int

  type TimeOfDay = t: int | 0 <= t < 1440

  const MINUTES_A_DAY := 1440

  /** Longest daylight saving gap searched past. */
  const MAX_SKIPPED_MINUTES := 180

  /** Every offset is under a day. */
  const MAX_OFFSET := 1440

  /** Two changes of the clock are at least two days apart. */
  const SETTLED := 2 * MAX_OFFSET

  /** What is asked of a zone: small offsets, changes far apart, short gaps. */
  ghost predicate Regular(zone: Zone) {
    && (forall u :: -MAX_OFFSET < zone(u) < MAX_OFFSET)
    && (forall a, b, c :: a <= b <= c <= a + SETTLED ==> zone(a) == zone(b) || zone(b) == zone(c))
    && (forall u :: zone(u + 1) - zone(u) <= 3 * 60)
  }

  /** What the clock of the zone shows at `u`. */
  function Local(zone: Zone, u: int): int {
    u + zone(u)
  }

  /** The day the clock of the zone shows at `u`. */
  function LocalDate(zone: Zone, u: int): int {
    Local(zone, u) / MINUTES_A_DAY
  }

  /** The reading of `time` on `day`. */
  function Reading(day: int, time: TimeOfDay): int {
    day * MINUTES_A_DAY + time
  }

  /** The first instant from `from` on, before `until`, that reads `local`. */
  function FirstReading(zone: Zone, local: int, from: int, until: int): (u: Option<int>)
    requires from <= until
    ensures u.Some? ==> from <= u.value < until && Local(zone, u.value) == local
    ensures forall v :: from <= v < (if u.Some? then u.value else until) ==> Local(zone, v) != local
    decreases until - from
  {
    if from == until then None
    else if Local(zone, from) == local then Some(from)
    else FirstReading(zone, local, from + 1, until)
  }

  /** The earliest instant that reads `local`; none for a skipped reading. */
  function ToUtc(zone: Zone, local: int): Option<int> {
    FirstReading(zone, local, local - MAX_OFFSET, local + MAX_OFFSET)
  }

  /** The first of the readings from `local` + `skipped` on that exists. */
  function LaterFrom(zone: Zone, local: int, skipped: nat): (u: Option<int>)
    requires skipped <= MAX_SKIPPED_MINUTES + 1
    decreases MAX_SKIPPED_MINUTES + 1 - skipped
  {
    if skipped > MAX_SKIPPED_MINUTES then None
    else
      var at := ToUtc(zone, local + skipped);
      if at.Some? then at else LaterFrom(zone, local, skipped + 1)
  }

  /** Like `ToUtc`, a skipped reading moving to the first one after it. */
  function ToUtcOrLater(zone: Zone, local: int): Option<int> {
    LaterFrom(zone, local, 0)
  }

  /** First instant of a day, none when its midnight is skipped. */
  function DayStart(zone: Zone, day: int): Option<int> {
    ToUtc(zone, Reading(day, 0))
  }

  /** The next moment the clock shows `time`: later today, else tomorrow. */
  function NextOccurrenceIn(zone: Zone, time: TimeOfDay, after: int): Option<int> {
    var today := LocalDate(zone, after);
    var at := ToUtc(zone, Reading(today, time));
    if at.Some? && at.value > after then at
    else ToUtc(zone, Reading(today + 1, time))
  }

  // ----- what the conversions mean

  /** `u` is the instant at which the clock first shows `local` or later. */
  ghost predicate Reaches(zone: Zone, local: int, u: int) {
    Local(zone, u) >= local && forall v :: v < u ==> Local(zone, v) < local
  }

  function FirstAtLeast(zone: Zone, local: int, from: int): (u: int)
    requires forall v :: v < from ==> Local(zone, v) < local
    requires forall v :: v >= local + MAX_OFFSET ==> Local(zone, v) >= local
    ensures Reaches(zone, local, u)
    decreases local + MAX_OFFSET - from
  {
    if Local(zone, from) >= local then from else FirstAtLeast(zone, local, from + 1)
  }

  /** The instant at which the clock first shows `local` or later. */
  function Reach(zone: Zone, local: int): (u: int)
    requires Regular(zone)
    ensures Reaches(zone, local, u)
  {
    FirstAtLeast(zone, local, local - MAX_OFFSET)
  }

  lemma ReachedBy(zone: Zone, local: int, u: int)
    requires Regular(zone) && local <= Local(zone, u)
    ensures Reach(zone, local) <= u
  {}

  lemma ReachIncreases(zone: Zone, local: int, later: int)
    requires Regular(zone) && local <= later
    ensures Reach(zone, local) <= Reach(zone, later)
  {}

  /** After a jump forward the clock never goes back below where it landed. */
  lemma NeverBack(zone: Zone, jump: int, u: int)
    requires Regular(zone) && zone(jump - 1) < zone(jump) && jump <= u
    ensures Local(zone, jump) <= Local(zone, u)
  {}

  /** A reading that exists is first read when the clock first reaches it. */
  lemma ToUtcReaches(zone: Zone, local: int)
    requires Regular(zone)
    ensures var at := ToUtc(zone, local);
      var u := Reach(zone, local);
      && (at.Some? <==> Local(zone, u) == local)
      && (at.Some? ==> at.value == u)
      && (at.None? ==> zone(u - 1) < zone(u) && Local(zone, u) - local <= MAX_SKIPPED_MINUTES)
  {
    var u := Reach(zone, local);
    var at := ToUtc(zone, local);
    assert Local(zone, u - 1) < local;
    assert zone((u - 1) + 1) - zone(u - 1) <= MAX_SKIPPED_MINUTES;
    if Local(zone, u) != local && at.Some? {
      NeverBack(zone, u, at.value);
      assert false;
    }
  }

  /** Searching past a gap finds the instant at which the clock first shows
      the reading or a later one: never nothing, and in order. */
  lemma ToUtcOrLaterReaches(zone: Zone, local: int)
    requires Regular(zone)
    ensures ToUtcOrLater(zone, local) == Some(Reach(zone, local))
  {
    ToUtcReaches(zone, local);
    LaterFromReaches(zone, local, 0);
  }

  lemma ReachUpTo(zone: Zone, local: int, now: int)
    requires Regular(zone) && local <= now <= Local(zone, Reach(zone, local))
    ensures Reach(zone, now) == Reach(zone, local)
  {}

  lemma {:induction false} LaterFromReaches(zone: Zone, local: int, skipped: nat)
    requires Regular(zone)
    requires local + skipped <= Local(zone, Reach(zone, local)) <= local + MAX_SKIPPED_MINUTES
    ensures LaterFrom(zone, local, skipped) == Some(Reach(zone, local))
    decreases MAX_SKIPPED_MINUTES - skipped
  {
    hide Regular, Reach, Reaches, ToUtc, Local;
    var now := local + skipped;
    ReachUpTo(zone, local, now);
    ToUtcReaches(zone, now);
    if now < Local(zone, Reach(zone, local)) {
      LaterFromReaches(zone, local, skipped + 1);
    }
  }

  /** Converting keeps the order of readings, gaps and doubled hours included. */
  lemma ToUtcOrLaterIsMonotone(zone: Zone, local: int, later: int)
    requires Regular(zone) && local <= later
    ensures ToUtcOrLater(zone, local).Some? && ToUtcOrLater(zone, later).Some?
    ensures ToUtcOrLater(zone, local).value <= ToUtcOrLater(zone, later).value
  {
    ToUtcOrLaterReaches(zone, local);
    ToUtcOrLaterReaches(zone, later);
    ReachIncreases(zone, local, later);
  }

  /** Without any hypothesis on the zone, a conversion found within three
      hours shows a reading at or just after the one asked for. */
  lemma {:induction false} LaterFromReads(zone: Zone, local: int, skipped: nat)
    requires skipped <= MAX_SKIPPED_MINUTES + 1
    ensures var at := LaterFrom(zone, local, skipped);
      at.Some? ==> local + skipped <= Local(zone, at.value) <= local + MAX_SKIPPED_MINUTES
    decreases MAX_SKIPPED_MINUTES + 1 - skipped
  {
    if skipped <= MAX_SKIPPED_MINUTES && ToUtc(zone, local + skipped).None? {
      LaterFromReads(zone, local, skipped + 1);
    }
  }

  // ----- the next moment the clock shows a time

  /** `u` is the first moment after `after` at which the clock shows `time`. */
  ghost predicate NextShowing(zone: Zone, time: TimeOfDay, after: int, u: int) {
    && after < u && Local(zone, u) % MINUTES_A_DAY == time
    && forall v :: after < v < u ==> Local(zone, v) % MINUTES_A_DAY != time
  }

  lemma FirstReadIsReach(zone: Zone, u: int)
    requires Regular(zone) && forall v :: v < u ==> Local(zone, v) != Local(zone, u)
    ensures Reach(zone, Local(zone, u)) == u && ToUtc(zone, Local(zone, u)) == Some(u)
  {
    ToUtcReaches(zone, Local(zone, u));
  }

  /** What is returned is the first time the clock shows that reading. */
  lemma NextOccurrenceIsFirstReading(zone: Zone, time: TimeOfDay, after: int)
    requires Regular(zone)
    ensures var next := NextOccurrenceIn(zone, time, after);
      next.Some? ==>
        && LocalDate(zone, next.value) <= LocalDate(zone, after) + 1
        && forall v :: v < next.value ==> Local(zone, v) != Local(zone, next.value)
  {}

  lemma NextOccurrenceFinds(zone: Zone, time: TimeOfDay, after: int, u: int)
    requires Regular(zone) && NextShowing(zone, time, after, u)
    requires LocalDate(zone, u) <= LocalDate(zone, after) + 1
    requires forall v :: v < u ==> Local(zone, v) != Local(zone, u)
    ensures NextOccurrenceIn(zone, time, after) == Some(u)
  {
    hide ToUtc, Regular, Reaches, Reach;
    var today, day := LocalDate(zone, after), LocalDate(zone, u);
    var now := Reading(today, time);
    assert Local(zone, u) == Reading(day, time);
    FirstReadIsReach(zone, u);
    if day < today {
      ReachedBy(zone, Local(zone, u), after);
    }
    ToUtcReaches(zone, now);
    if day == today + 1 {
      ReachIncreases(zone, now, Local(zone, u));
      assert Reach(zone, now) <= u;
    }
  }

  /** The code finds the next moment the clock shows `time` exactly when that
      is not the second reading of a doubled hour and is no later than
      tomorrow. */
  lemma NextOccurrenceIsNextShowing(zone: Zone, time: TimeOfDay, after: int, u: int)
    requires Regular(zone) && NextShowing(zone, time, after, u)
    ensures NextOccurrenceIn(zone, time, after) == Some(u) <==>
      && LocalDate(zone, u) <= LocalDate(zone, after) + 1
      && forall v :: v < u ==> Local(zone, v) != Local(zone, u)
  {
    hide ToUtc, NextOccurrenceIn;
    NextOccurrenceIsFirstReading(zone, time, after);
    if && LocalDate(zone, u) <= LocalDate(zone, after) + 1
       && forall v :: v < u ==> Local(zone, v) != Local(zone, u) {
      NextOccurrenceFinds(zone, time, after, u);
    }
  }

  /** A clock two hours ahead, then one: 03:00 goes back to 02:00. */
  function FallBack(u: int): int {
    if u < 60 then 120 else 60
  }

  lemma FallBackIsRegular()
    ensures Regular(FallBack)
  {
    assert forall u :: FallBack(u + 1) <= FallBack(u);
  }

  /** Its 150 is first shown at 30, then at 90; the next day's at 1530. */
  lemma FallBackReaches()
    requires Regular(FallBack)
    ensures Reach(FallBack, 150) == 30 && Reach(FallBack, 1590) == 1530
  {
    ReachedBy(FallBack, 150, 30);
    ReachedBy(FallBack, 1590, 1530);
  }

  /** At the first 02:40 of its doubled hour, 02:30 is shown again in fifty
      minutes, yet tomorrow's is returned. */
  lemma NextOccurrenceSkipsSecondReading()
    ensures Regular(FallBack)
    ensures Local(FallBack, 40) == 160 && Local(FallBack, 90) == 150
    ensures NextShowing(FallBack, 150, 40, 90)
    ensures NextOccurrenceIn(FallBack, 150, 40) == Some(1530)
  {
    hide ToUtc, Regular, Reach, Reaches;
    FallBackIsRegular();
    FallBackReaches();
    ToUtcReaches(FallBack, 150);
    ToUtcReaches(FallBack, 1590);
    assert LocalDate(FallBack, 40) == 0;
  }

  /** A clock on UTC that jumps from 02:00 to 03:00 on the second day. */
  function SpringForward(u: int): int {
    if u < 1560 then 0 else 60
  }

  lemma SpringForwardIsRegular()
    ensures Regular(SpringForward)
  {
    assert forall u :: SpringForward(u + 1) - SpringForward(u) <= 60;
  }

  lemma SpringForwardReaches()
    requires Regular(SpringForward)
    ensures Reach(SpringForward, 150) == 150 && Reach(SpringForward, 1590) == 1560
  {
    hide Regular;
    ReachedBy(SpringForward, 150, 150);
    ReachedBy(SpringForward, 1590, 1560);
  }

  /** At 03:20 the day before, tomorrow's 02:30 is skipped: nothing is returned,
      though 02:30 is shown the day after. */
  lemma NextOccurrenceStopsAtSkippedReading()
    ensures Regular(SpringForward)
    ensures Local(SpringForward, 200) == 200
    ensures NextShowing(SpringForward, 150, 200, 2970)
    ensures NextOccurrenceIn(SpringForward, 150, 200) == None
  {
    hide ToUtc, Regular, Reach, Reaches;
    SpringForwardIsRegular();
    SpringForwardReaches();
    ToUtcReaches(SpringForward, 150);
    ToUtcReaches(SpringForward, 1590);
    assert LocalDate(SpringForward, 200) == 0;
  }
}
