/**
 The rhythm of a repeating maintenance: every week, or every month on the Nth
 weekday, at a time of day of the instance zone.
 */
module Recurrence {
  import opened Prelude
  import opened Civil
  import opened Clock

  const MAX_MONTHS_AHEAD := 14
  const WEEKS_AHEAD := 3

  datatype Rhythm = Weekly | Monthly

  datatype Rank = First | Second | Third | Fourth | Last

  datatype Rule =
    | EveryWeek(weekday: Weekday, time: TimeOfDay)
    | EveryMonth(weekday: Weekday, rank: Rank, time: TimeOfDay)

  datatype YearMonth = YearMonth(year: int, month: int)

  /** The rank a day of the month has for its weekday. */
  function RankOfDay(day: nat): Rank {
    if day <= 7 then First
    else if day <= 14 then Second
    else if day <= 21 then Third
    else if day <= 28 then Fourth
    else Last
  }

  /** Day of the Nth `weekday` of a month; none for a month out of 1 to 12. */
  function DayIn(rank: Rank, year: int, month: int, weekday: Weekday): Option<int> {
    if !(1 <= month <= 12) then None
    else
      var first := FirstOf(year, month);
      var fifth := first + DaysSince(weekday, WeekdayOf(first)) + 28;
      Some(NthFrom(rank, first, weekday, MonthOf(fifth) % 12 + 1 == month))
  }

  /** The Nth `weekday` from `first` on; the last one is the fifth when that
      is still in the month. */
  function NthFrom(rank: Rank, first: int, weekday: Weekday, fifthFits: bool): int {
    var offset := DaysSince(weekday, WeekdayOf(first));
    match rank
    case First => first + offset
    case Second => first + offset + 7
    case Third => first + offset + 14
    case Fourth => first + offset + 21
    case Last => if fifthFits then first + offset + 28 else first + offset + 21
  }

  /** Year and month `months` after the month of `day`. */
  function AddMonths(day: int, months: nat): YearMonth {
    var month := MonthOf(day) % 12 + 1;
    var year := MonthOf(day) / 12;
    var index := year * 12 + (month - 1) + months;
    YearMonth(index / 12, index % 12 + 1)
  }

  /** The rule a first start sets, read on the instance clock. */
  function FromFirst(rhythm: Rhythm, local: int): Rule {
    var day := local / MINUTES_A_DAY;
    var time := local % MINUTES_A_DAY;
    match rhythm
    case Weekly => EveryWeek(WeekdayOf(day), time)
    case Monthly => EveryMonth(WeekdayOf(day), RankOfDay(DayOfMonth(day)), time)
  }

  /** The days of the months from `months` after today's on. */
  function MonthlyDaysFrom(rule: Rule, today: int, months: nat): seq<int>
    requires rule.EveryMonth? && months <= MAX_MONTHS_AHEAD
    decreases MAX_MONTHS_AHEAD - months
  {
    if months == MAX_MONTHS_AHEAD then []
    else
      var ym := AddMonths(today, months);
      var day := DayIn(rule.rank, ym.year, ym.month, rule.weekday);
      (if day.Some? then [day.value] else []) + MonthlyDaysFrom(rule, today, months + 1)
  }

  /** The days the rule lands on that a search looks at, oldest first. */
  function DaysFrom(rule: Rule, today: int): seq<int> {
    match rule
    case EveryWeek(weekday, _) =>
      var first := today + DaysSince(weekday, WeekdayOf(today));
      seq(WEEKS_AHEAD, week => first + 7 * week)
    case EveryMonth(_, _, _) => MonthlyDaysFrom(rule, today, 0)
  }

  /** The start on the first of `days` that has one after `after`. */
  function FirstStartAfter(zone: Zone, days: seq<int>, time: TimeOfDay, after: int): (start: Option<int>)
    ensures start.Some? ==> start.value * 60 > after
  {
    if days == [] then None
    else
      var at := ToUtcOrLater(zone, Reading(days[0], time));
      if at.Some? && at.value * 60 > after then at
      else FirstStartAfter(zone, days[1..], time, after)
  }

  /** First start strictly after the second `after`, read in `zone`. */
  function NextAfterIn(zone: Zone, rule: Rule, after: int): (start: Option<int>)
    ensures start.Some? ==> start.value * 60 > after
  {
    var today := LocalDate(zone, after / 60);
    FirstStartAfter(zone, DaysFrom(rule, today), rule.time, after)
  }

  // ----- the days of a rule

  /** The rule lands on this day: it is on its weekday and, monthly, the Nth
      or the latest one of its month. */
  predicate LandsOn(rule: Rule, day: int) {
    && WeekdayOf(day) == rule.weekday
    && (rule.EveryMonth? ==> HasRank(rule.rank, day))
  }

  predicate HasRank(rank: Rank, day: int) {
    if rank == Last then MonthOf(day + 7) != MonthOf(day) else RankOfDay(DayOfMonth(day)) == rank
  }

  /** AddMonths enumerates months in a row, across years. */
  lemma AddMonthsIsConsecutive(day: int, months: nat)
    ensures var index := MonthOf(day) + months;
      AddMonths(day, months) == YearMonth(index / 12, index % 12 + 1)
  {}

  /** The Nth weekday from a first day, told apart by plain arithmetic. */
  lemma NthFromIsNth(rank: Rank, first: int, length: int, weekday: Weekday)
    requires 28 <= length <= 31
    ensures var offset := DaysSince(weekday, WeekdayOf(first));
      var day := NthFrom(rank, first, weekday, first + offset + 28 < first + length);
      && 0 <= offset < 7
      && first <= day < first + length
      && WeekdayOf(day) == weekday
      && (rank == Last ==> first + length <= day + 7 < first + length + 7)
      && (rank != Last ==> RankOfDay(day - first + 1) == rank)
  {}

  /** Its converse: a day of the month is the Nth of its weekday for its rank. */
  lemma NthFromFinds(rank: Rank, first: int, length: int, day: int)
    requires 28 <= length <= 31 && first <= day < first + length
    requires if rank == Last then first + length <= day + 7 else RankOfDay(day - first + 1) == rank
    ensures var offset := DaysSince(WeekdayOf(day), WeekdayOf(first));
      NthFrom(rank, first, WeekdayOf(day), first + offset + 28 < first + length) == day
  {
    hide WeekdayOf, DaysSince;
    DaysSinceDays(first, day);
    var offset, n := (day - first) % 7, day - first;
    assert offset ==
      if n < 7 then n else if n < 14 then n - 7 else if n < 21 then n - 14 else if n < 28 then n - 21 else n - 28;
  }

  /** Which month a day at most six days past the month `index` is in. */
  lemma InOrJustAfter(index: int, day: int)
    requires MonthStart(index) <= day < MonthStart(index + 1) + 7
    ensures MonthOf(day) == if day < MonthStart(index + 1) then index else index + 1
  {
    hide FirstOf;
    if day < MonthStart(index + 1) {
      MonthOfIsUnique(day, index);
    } else {
      MonthStartIncreases(index + 1, index + 2);
      MonthOfIsUnique(day, index + 1);
    }
  }

  /** The day of a rank is in the month, on the weekday, and of that rank;
      `Last` is the latest such day of the month. */
  lemma DayInHasRank(rank: Rank, index: int, weekday: Weekday)
    ensures var day := DayIn(rank, index / 12, index % 12 + 1, weekday);
      && day.Some?
      && MonthOf(day.value) == index
      && WeekdayOf(day.value) == weekday
      && HasRank(rank, day.value)
  {
    hide FirstOf, NthFrom, IsLeap, WeekdayOf, DaysSince, RankOfDay, MonthOf;
    var first, length := MonthStart(index), MonthLength(index / 12, index % 12 + 1);
    MonthStartStep(index);
    NthFromIsNth(rank, first, length, weekday);
    InOrJustAfter(index, first + DaysSince(weekday, WeekdayOf(first)) + 28);
    var day := DayIn(rank, index / 12, index % 12 + 1, weekday).value;
    InOrJustAfter(index, day);
    if rank == Last {
      InOrJustAfter(index, day + 7);
    }
  }

  /** Every day is read back from its month, its weekday and any rank it has. */
  lemma DayInFindsRank(rank: Rank, day: int)
    requires HasRank(rank, day)
    ensures var index := MonthOf(day);
      DayIn(rank, index / 12, index % 12 + 1, WeekdayOf(day)) == Some(day)
  {
    var index := MonthOf(day);
    hide FirstOf, NthFrom, IsLeap, WeekdayOf, DaysSince, RankOfDay, MonthOf;
    var first, length := MonthStart(index), MonthLength(index / 12, index % 12 + 1);
    MonthStartStep(index);
    InOrJustAfter(index, day);
    if rank == Last {
      if day + 7 < MonthStart(index + 1) {
        MonthOfIsUnique(day + 7, index);
      }
    }
    NthFromFinds(rank, first, length, day);
    InOrJustAfter(index, first + DaysSince(WeekdayOf(day), WeekdayOf(first)) + 28);
  }

  lemma DayHasItsRank(day: int)
    ensures HasRank(RankOfDay(DayOfMonth(day)), day)
  {
    hide FirstOf;
    MonthStartStep(MonthOf(day));
    if RankOfDay(DayOfMonth(day)) == Last {
      InOrJustAfter(MonthOf(day), day + 7);
    }
  }

  /** The rank of a day of the month gives that day back, 29 to 31 included. */
  lemma RankRoundTrip(day: int)
    ensures var index := MonthOf(day);
      DayIn(RankOfDay(DayOfMonth(day)), index / 12, index % 12 + 1, WeekdayOf(day)) == Some(day)
  {
    DayHasItsRank(day);
    DayInFindsRank(RankOfDay(DayOfMonth(day)), day);
  }

  // ----- the next start

  /** `u` is when the rule starts on some day, of the past or to come. */
  ghost predicate IsStart(zone: Zone, rule: Rule, u: int) {
    exists day :: LandsOn(rule, day) && StartsOn(zone, rule, day, u)
  }

  ghost predicate StartsOn(zone: Zone, rule: Rule, day: int, u: int) {
    ToUtcOrLater(zone, Reading(day, rule.time)) == Some(u)
  }

  /** The days a search looks at: in order, all the rule's, leaving none out
      from today until the last one, which is well past today. */
  ghost predicate Covers(rule: Rule, days: seq<int>, today: int) {
    && |days| > 0
    && (forall i, j :: 0 <= i < j < |days| ==> days[i] < days[j])
    && (forall i :: 0 <= i < |days| ==> LandsOn(rule, days[i]))
    && (forall day :: LandsOn(rule, day) && today <= day ==> day in days || days[|days| - 1] <= day)
    && today + 3 <= days[|days| - 1]
  }

  /** Two days on one weekday are whole weeks apart. */
  lemma WholeWeeksApart(first: int, day: int)
    requires WeekdayOf(first) == WeekdayOf(day) && first - 7 < day
    ensures day == first || day == first + 7 || first + 14 <= day
  {}

  lemma FirstOnWeekday(weekday: Weekday, today: int)
    ensures var first := today + DaysSince(weekday, WeekdayOf(today));
      && today <= first < today + 7
      && forall k: nat :: WeekdayOf(first + 7 * k) == weekday
  {}

  lemma WeeklyDaysCover(rule: Rule, today: int)
    requires rule.EveryWeek?
    ensures Covers(rule, DaysFrom(rule, today), today)
  {
    hide HasRank, WeekdayOf, DaysSince;
    var days := DaysFrom(rule, today);
    FirstOnWeekday(rule.weekday, today);
    var first := days[0];
    assert days == [first + 7 * 0, first + 7 * 1, first + 7 * 2];
    forall day | LandsOn(rule, day) && today <= day ensures day in days || days[2] <= day {
      WholeWeeksApart(first, day);
    }
  }

  /** The day of the month `index` the rule lands on. */
  function MonthlyDay(rule: Rule, index: int): (day: int)
    requires rule.EveryMonth?
    ensures DayIn(rule.rank, index / 12, index % 12 + 1, rule.weekday) == Some(day)
    ensures MonthOf(day) == index && LandsOn(rule, day)
  {
    DayInHasRank(rule.rank, index, rule.weekday);
    DayIn(rule.rank, index / 12, index % 12 + 1, rule.weekday).value
  }

  lemma MonthlyDaysStep(rule: Rule, today: int, months: nat)
    requires rule.EveryMonth? && months < MAX_MONTHS_AHEAD
    ensures MonthlyDaysFrom(rule, today, months)
         == [MonthlyDay(rule, MonthOf(today) + months)] + MonthlyDaysFrom(rule, today, months + 1)
  {
    hide DayIn, LandsOn, MonthOf, MonthStart, AddMonths, FirstOf;
    AddMonthsIsConsecutive(today, months);
    var day := MonthlyDay(rule, MonthOf(today) + months);
  }

  lemma NoMonthsLeft(rule: Rule, today: int)
    requires rule.EveryMonth?
    ensures MonthlyDaysFrom(rule, today, MAX_MONTHS_AHEAD) == []
  {}

  lemma {:induction false} MonthlyDaysFromAt(rule: Rule, today: int, months: nat)
    requires rule.EveryMonth? && months <= MAX_MONTHS_AHEAD
    ensures var days := MonthlyDaysFrom(rule, today, months);
      && |days| == MAX_MONTHS_AHEAD - months
      && forall k :: 0 <= k < |days| ==> days[k] == MonthlyDay(rule, MonthOf(today) + months + k)
    decreases MAX_MONTHS_AHEAD - months
  {
    hide MonthlyDaysFrom, MonthlyDay, MonthOf, DayIn, LandsOn, MonthStart;
    if months == MAX_MONTHS_AHEAD {
      NoMonthsLeft(rule, today);
    } else {
      MonthlyDaysStep(rule, today, months);
      MonthlyDaysFromAt(rule, today, months + 1);
    }
  }

  /** A day of an earlier month is earlier, by four weeks and more a month
      apart. */
  lemma EarlierMonth(a: int, b: int)
    requires MonthOf(a) < MonthOf(b)
    ensures a + 28 * (MonthOf(b) - MonthOf(a) - 1) < b
  {
    hide MonthStart, MonthOf;
    MonthStartIncreases(MonthOf(a) + 1, MonthOf(b));
  }

  lemma MonthlyDaysCover(rule: Rule, today: int)
    requires rule.EveryMonth?
    ensures Covers(rule, DaysFrom(rule, today), today)
  {
    hide MonthStart, DayIn, MonthlyDaysFrom, MonthlyDay, MonthOf, HasRank;
    var days, index := DaysFrom(rule, today), MonthOf(today);
    MonthlyDaysFromAt(rule, today, 0);
    assert forall k | 0 <= k < 14 :: MonthOf(days[k]) == index + k;
    forall i, j | 0 <= i < j < |days| ensures days[i] < days[j] {
      EarlierMonth(days[i], days[j]);
    }
    EarlierMonth(today, days[13]);
    forall day | LandsOn(rule, day) && today <= day ensures day in days || days[13] <= day {
      var k := MonthOf(day) - index;
      if k < 0 {
        EarlierMonth(day, today);
      } else if k < 14 {
        DayInFindsRank(rule.rank, day);
        assert days[k] == day;
      } else {
        EarlierMonth(days[13], day);
      }
    }
  }

  /** A start on a day before today is over. */
  lemma EarlierDayIsOver(zone: Zone, time: TimeOfDay, day: int, after: int)
    requires Regular(zone) && day < LocalDate(zone, after / 60)
    ensures Reach(zone, Reading(day, time)) * 60 <= after
  {}

  /** A start three days on or more is still to come. */
  lemma LaterDayIsToCome(zone: Zone, time: TimeOfDay, day: int, after: int)
    requires Regular(zone) && LocalDate(zone, after / 60) + 3 <= day
    ensures after < Reach(zone, Reading(day, time)) * 60
  {}

  /** The search returns the earliest start after `after` among its days. */
  lemma {:induction false} FirstStartAfterIsLeast(zone: Zone, days: seq<int>, time: TimeOfDay, after: int)
    requires Regular(zone) && |days| > 0
    requires forall i, j :: 0 <= i < j < |days| ==> days[i] < days[j]
    requires after < Reach(zone, Reading(days[|days| - 1], time)) * 60
    ensures var start := FirstStartAfter(zone, days, time, after);
      && start.Some?
      && (exists day :: day in days && start.value == Reach(zone, Reading(day, time)))
      && forall day :: day in days && after < Reach(zone, Reading(day, time)) * 60 ==>
        start.value <= Reach(zone, Reading(day, time))
  {
    hide Reach, Reaches, Regular, ToUtcOrLater;
    var at := Reach(zone, Reading(days[0], time));
    ToUtcOrLaterReaches(zone, Reading(days[0], time));
    if after < at * 60 {
      forall day | day in days ensures at <= Reach(zone, Reading(day, time)) {
        ReachIncreases(zone, Reading(days[0], time), Reading(day, time));
      }
    } else {
      FirstStartAfterIsLeast(zone, days[1..], time, after);
      assert days == [days[0]] + days[1..];
    }
  }

  /** The next start is the least one strictly after `after` among the starts
      of all the rule's days, past and future, and there always is one. */
  lemma NextAfterIsLeastStart(zone: Zone, rule: Rule, after: int)
    requires Regular(zone)
    ensures var next := NextAfterIn(zone, rule, after);
      && next.Some?
      && after < next.value * 60
      && IsStart(zone, rule, next.value)
      && forall u :: IsStart(zone, rule, u) && after < u * 60 ==> next.value <= u
  {
    hide LandsOn, DaysFrom, ToUtcOrLater, LocalDate, Reach, Reaches, Regular, FirstStartAfter;
    var today, time := LocalDate(zone, after / 60), rule.time;
    var days := DaysFrom(rule, today);
    if rule.EveryWeek? { WeeklyDaysCover(rule, today); } else { MonthlyDaysCover(rule, today); }
    var last := days[|days| - 1];
    LaterDayIsToCome(zone, time, last, after);
    FirstStartAfterIsLeast(zone, days, time, after);
    var next := NextAfterIn(zone, rule, after).value;
    var chosen :| chosen in days && next == Reach(zone, Reading(chosen, time));
    ToUtcOrLaterReaches(zone, Reading(chosen, time));
    assert StartsOn(zone, rule, chosen, next);
    forall u | IsStart(zone, rule, u) && after < u * 60 ensures next <= u {
      var day :| LandsOn(rule, day) && StartsOn(zone, rule, day, u);
      ToUtcOrLaterReaches(zone, Reading(day, time));
      if day < today {
        EarlierDayIsOver(zone, time, day, after);
      } else if day !in days {
        ReachIncreases(zone, Reading(last, time), Reading(day, time));
      }
    }
  }

  /** A rule set from a first start lands on its day, at its time; the first
      start is then one of the rule's unless it is the second reading of a
      doubled hour. */
  lemma FromFirstStartsThere(zone: Zone, rhythm: Rhythm, start: int)
    requires Regular(zone)
    ensures var rule := FromFirst(rhythm, Local(zone, start));
      && LandsOn(rule, LocalDate(zone, start))
      && Reading(LocalDate(zone, start), rule.time) == Local(zone, start)
      && (IsStart(zone, rule, start) <==> forall v :: v < start ==> Local(zone, v) != Local(zone, start))
  {
    hide FirstOf, ToUtcOrLater, HasRank;
    var local, day := Local(zone, start), LocalDate(zone, start);
    var rule := FromFirst(rhythm, local);
    DayHasItsRank(day);
    ToUtcOrLaterReaches(zone, local);
    if forall v :: v < start ==> Local(zone, v) != local {
      FirstReadIsReach(zone, start);
      assert StartsOn(zone, rule, day, start);
    }
    if IsStart(zone, rule, start) {
      var other :| LandsOn(rule, other) && StartsOn(zone, rule, other, start);
      OnlyItsDayStartsThere(zone, rule.time, other, start);
    }
  }

  /** The rule has the rhythm asked for, the weekday and the time of the first
      start, and monthly the rank of its day. */
  lemma FromFirstHasRhythm(rhythm: Rhythm, local: int)
    ensures var rule := FromFirst(rhythm, local);
      && (rule.EveryMonth? <==> rhythm == Monthly)
      && rule.weekday == WeekdayOf(local / MINUTES_A_DAY)
      && rule.time == local % MINUTES_A_DAY
      && (rule.EveryMonth? ==> HasRank(rule.rank, local / MINUTES_A_DAY)
                               && rule.rank == RankOfDay(DayOfMonth(local / MINUTES_A_DAY)))
  {
    hide MonthOf, RankOfDay, HasRank, DayOfMonth;
    DayHasItsRank(local / MINUTES_A_DAY);
  }

  /** A start of `time` shows that time or up to three hours later, so only
      the day of `time` can start there. */
  lemma OnlyItsDayStartsThere(zone: Zone, time: TimeOfDay, day: int, u: int)
    requires Regular(zone) && ToUtcOrLater(zone, Reading(day, time)) == Some(u)
    requires Local(zone, u) % MINUTES_A_DAY == time
    ensures day == LocalDate(zone, u)
    ensures forall v :: v < u ==> Local(zone, v) < Local(zone, u)
  {
    LaterFromReads(zone, Reading(day, time), 0);
    ToUtcOrLaterReaches(zone, Reading(day, time));
  }
}
