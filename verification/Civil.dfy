/**
 The proleptic Gregorian calendar. A day is its number since 1970-01-01, and a
 month its index 12 * year + (month - 1), so that days and months in a row are
 integers in a row.
 */
module Civil {
  import opened Prelude

  /** 0 for Monday to 6 for Sunday. */
  type Weekday = w: int | 0 <= w < 7

  const DAYS_TO_EPOCH := 719528

  predicate IsLeap(year: int) {
    year % 4 == 0 && (year % 100 != 0 || year % 400 == 0)
  }

  function MonthLength(year: int, month: int): int
    requires 1 <= month <= 12
  {
    if month == 2 then (if IsLeap(year) then 29 else 28)
    else if month in {4, 6, 9, 11} then 30
    else 31
  }

  /** Days from 1 January of the year 0 to 1 January of `year`. */
  function DaysBeforeYear(year: int): int {
    365 * year + (year + 3) / 4 - (year + 99) / 100 + (year + 399) / 400
  }

  /** Days from 1 January to the first of `month`. */
  function DaysBeforeMonth(year: int, month: int): int
    requires 1 <= month <= 12
  {
    [0, 31, 59, 90, 120, 151, 181, 212, 243, 273, 304, 334][month - 1]
    + if month > 2 && IsLeap(year) then 1 else 0
  }

  /** The number of the first day of a month. */
  function FirstOf(year: int, month: int): int
    requires 1 <= month <= 12
  {
    DaysBeforeYear(year) + DaysBeforeMonth(year, month) - DAYS_TO_EPOCH
  }

  /** 1970-01-01 was a Thursday. */
  function WeekdayOf(day: int): Weekday {
    (day + 3) % 7
  }

  /** Days from weekday `from` ahead to weekday `to`, 0 to 6. */
  function DaysSince(to: Weekday, from: Weekday): (days: int)
    ensures 0 <= days < 7
  {
    (to - from) % 7
  }

  lemma DaysSinceDays(first: int, day: int)
    ensures DaysSince(WeekdayOf(day), WeekdayOf(first)) == (day - first) % 7
  {}

  function MonthStart(index: int): int {
    FirstOf(index / 12, index % 12 + 1)
  }

  lemma YearLength(year: int)
    ensures DaysBeforeYear(year + 1) == DaysBeforeYear(year) + (if IsLeap(year) then 366 else 365)
  {
    assert (year + 4) / 4 - (year + 3) / 4 == if year % 4 == 0 then 1 else 0;
    assert (year + 100) / 100 - (year + 99) / 100 == if year % 100 == 0 then 1 else 0;
    assert (year + 400) / 400 - (year + 399) / 400 == if year % 400 == 0 then 1 else 0;
  }

  /** Each month begins right after the last day of the one before, across years too. */
  lemma MonthStartStep(index: int)
    ensures MonthStart(index + 1) == MonthStart(index) + MonthLength(index / 12, index % 12 + 1)
  {
    var year := index / 12;
    if index % 12 == 11 {
      YearLength(year);
      assert (index + 1) / 12 == year + 1 && (index + 1) % 12 == 0;
    } else {
      assert (index + 1) / 12 == year && (index + 1) % 12 == index % 12 + 1;
    }
  }

  /** Day 0 is the first of January 1970, a Thursday. */
  lemma DayZero()
    ensures MonthStart(12 * 1970) == 0 && WeekdayOf(0) == 3
  {
    assert FirstOf(1970, 1) == 0;
  }

  /** February of the years the centuries leave out, and of the one they keep. */
  lemma KnownFebruaries()
    ensures MonthStart(12 * 1900 + 2) - MonthStart(12 * 1900 + 1) == 28
    ensures MonthStart(12 * 2000 + 2) - MonthStart(12 * 2000 + 1) == 29
  {
    hide MonthStart;
    MonthStartStep(12 * 1900 + 1);
    MonthStartStep(12 * 2000 + 1);
  }

  lemma {:induction false} MonthStartIncreases(i: int, j: int)
    requires i <= j
    ensures MonthStart(i) + 28 * (j - i) <= MonthStart(j)
    decreases j - i
  {
    hide MonthStart, IsLeap;
    if i < j {
      MonthStartStep(j - 1);
      MonthStartIncreases(i, j - 1);
    }
  }

  ghost predicate Rising(starts: int -> int) {
    forall i, j :: i < j ==> starts(i) < starts(j)
  }

  /** How far the slot `index` is from the one that holds `x`. */
  function Away(starts: int -> int, x: int, index: int): nat {
    if x < starts(index) then starts(index) - x
    else if starts(index + 1) <= x then x - starts(index + 1) + 1
    else 0
  }

  /** The slot that holds `x`, found by walking from `index`. */
  function Locate(starts: int -> int, x: int, index: int): (found: int)
    requires Rising(starts)
    ensures starts(found) <= x < starts(found + 1)
    decreases Away(starts, x, index)
  {
    assert starts(index - 1) < starts(index) < starts(index + 1) < starts(index + 2);
    if x < starts(index) then Locate(starts, x, index - 1)
    else if starts(index + 1) <= x then Locate(starts, x, index + 1)
    else index
  }

  lemma SlotIsUnique(starts: int -> int, x: int, i: int, j: int)
    requires Rising(starts)
    requires starts(i) <= x < starts(i + 1) && starts(j) <= x < starts(j + 1)
    ensures i == j
  {}

  lemma MonthStartsIncrease()
    ensures Rising(MonthStart)
  {
    hide MonthStart;
    forall i, j | i < j ensures MonthStart(i) < MonthStart(j) {
      MonthStartIncreases(i, j);
    }
  }

  /** The index of the month that holds `day`. */
  function MonthOf(day: int): (index: int)
    ensures MonthStart(index) <= day < MonthStart(index + 1)
  {
    hide MonthStart;
    MonthStartsIncrease();
    Locate(MonthStart, day, 12 * 1970)
  }

  /** No other month holds the day. */
  lemma MonthOfIsUnique(day: int, index: int)
    requires MonthStart(index) <= day < MonthStart(index + 1)
    ensures MonthOf(day) == index
  {
    hide MonthStart;
    var found := MonthOf(day);
    var starts: int -> int := MonthStart;
    assert starts(found) <= day < starts(found + 1);
    assert starts(index) <= day < starts(index + 1);
    assert Rising(starts) by { MonthStartsIncrease(); }
    SlotIsUnique(starts, day, found, index);
  }

  function DayOfMonth(day: int): (d: int)
    ensures 1 <= d <= 31
  {
    hide MonthStart, IsLeap;
    MonthStartStep(MonthOf(day));
    day - MonthStart(MonthOf(day)) + 1
  }
}
