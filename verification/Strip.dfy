/**
 The availability strip: incidents and detected outages of a service cut into
 the days of the instance zone. Instants are seconds, days are numbers.
 */
module Strip {
  import opened Prelude
  import opened Clock
  import Events
  import EventEffects
  import Outages

  type IncidentSpan = Events.IncidentSpan

  datatype OutageSpan = OutageSpan(start: int, end: Option<int>)

  /** The days a strip covers, up to today. `now` bounds the outages under way. */
  datatype Window = Window(today: int, now: int, days: nat)

  /** What one day shows: no level before the service existed. */
  datatype Day = Day(date: int, level: Option<int>, detectedMinutes: Option<int>)

  const SHORT_DAYS := 30
  const LONG_DAYS := 90

  const MIN_DETECTED_OUTAGE := 15 * 60

  function Min(a: int, b: int): int {
    if a < b then a else b
  }

  /** The day the clock shows at the second `at`. */
  function DateAt(zone: Zone, at: int): int {
    LocalDate(zone, at / 60)
  }

  /** The first second of a day, none when its midnight is skipped. */
  function Midnight(zone: Zone, day: int): Option<int> {
    var at := DayStart(zone, day);
    if at.Some? then Some(at.value * 60) else None
  }

  function SeverityLevel(severity: Option<Events.Severity>): int {
    match severity
    case Some(Critical) => 2
    case _ => 1
  }

  predicate TouchesDay(zone: Zone, span: IncidentSpan, date: int, today: int) {
    && DateAt(zone, span.start) <= date
    && date <= (if span.end.Some? then DateAt(zone, span.end.value) else today)
  }

  function WorstLevelOn(zone: Zone, spans: seq<IncidentSpan>, date: int, today: int): int {
    if spans == [] then 0
    else
      var rest := WorstLevelOn(zone, spans[1..], date, today);
      if TouchesDay(zone, spans[0], date, today) then Max(SeverityLevel(spans[0].severity), rest) else rest
  }

  function EndBy(outage: OutageSpan, now: int): int {
    if outage.end.Some? then outage.end.value else now
  }

  predicate LastedLongEnough(outage: OutageSpan, now: int) {
    EndBy(outage, now) - outage.start >= MIN_DETECTED_OUTAGE
  }

  /** The seconds of an outage from `from` to `to`. */
  function Piece(outage: OutageSpan, from: int, to: int, now: int): int {
    Max(Min(EndBy(outage, now), to) - Max(outage.start, from), 0)
  }

  /** The seconds of the outages that lasted long enough, from `from` to `to`. */
  function Detected(outages: seq<OutageSpan>, from: int, to: int, now: int): (seconds: int)
    ensures seconds >= 0
  {
    if outages == [] then 0
    else
      (if LastedLongEnough(outages[0], now) then Piece(outages[0], from, to, now) else 0)
      + Detected(outages[1..], from, to, now)
  }

  /** What counts for a day, nothing when one of its midnights is skipped. */
  function DetectedOn(zone: Zone, outages: seq<OutageSpan>, date: int, now: int): int {
    var from, to := Midnight(zone, date), Midnight(zone, date + 1);
    if from.None? || to.None? then 0 else Detected(outages, from.value, to.value, now)
  }

  function DetectedMinutesOn(zone: Zone, outages: seq<OutageSpan>, date: int, now: int): int {
    if outages == [] then 0 else DetectedOn(zone, outages, date, now) / 60
  }

  /** An incident decides the day; failing that, detected outages colour it as
      a minor one. */
  function TrackedDay(zone: Zone, spans: seq<IncidentSpan>, outages: seq<OutageSpan>, date: int, window: Window): Day {
    var level := WorstLevelOn(zone, spans, date, window.today);
    var detected := if level == 0 then DetectedMinutesOn(zone, outages, date, window.now) else 0;
    if detected > 0 then Day(date, Some(1), Some(detected)) else Day(date, Some(level), None)
  }

  function FirstDay(window: Window): int {
    window.today - (window.days - 1)
  }

  /** The days of the window, oldest first. */
  function DayLevels(zone: Zone, spans: seq<IncidentSpan>, outages: seq<OutageSpan>, created: int, window: Window)
    : (days: seq<Day>)
    ensures |days| == window.days
  {
    seq(window.days, i requires 0 <= i < window.days =>
      var date := FirstDay(window) + i;
      if date < created then Day(date, None, None) else TrackedDay(zone, spans, outages, date, window))
  }

  /** Some incident touches the day; a critical one when `critical` is asked. */
  ghost predicate Touched(zone: Zone, spans: seq<IncidentSpan>, date: int, today: int, critical: bool) {
    exists k | 0 <= k < |spans| ::
      TouchesDay(zone, spans[k], date, today) && (critical ==> spans[k].severity == Some(Events.Critical))
  }

  /** What a cell says: nothing before the service existed, red for a critical
      incident that day, orange for another incident or, without one, for a
      minute or more of detected outages, which it then tells. */
  lemma CellSays(zone: Zone, spans: seq<IncidentSpan>, outages: seq<OutageSpan>, created: int, window: Window, i: nat)
    requires i < window.days
    ensures var day := DayLevels(zone, spans, outages, created, window)[i];
      var minutes := DetectedMinutesOn(zone, outages, day.date, window.now);
      && day.date == window.today - (window.days - 1 - i)
      && (day.level.None? <==> day.date < created)
      && (day.date >= created ==>
            && (day.level == Some(2) <==> Touched(zone, spans, day.date, window.today, true))
            && (day.level == Some(0) <==> !Touched(zone, spans, day.date, window.today, false) && minutes == 0)
            && (day.detectedMinutes.Some? <==> !Touched(zone, spans, day.date, window.today, false) && minutes > 0))
      && (day.detectedMinutes.Some? ==> day.level == Some(1) && day.detectedMinutes.value == minutes)
  {
    hide DetectedMinutesOn, Touched, WorstLevelOn;
    var date := FirstDay(window) + i;
    assert DayLevels(zone, spans, outages, created, window)[i]
        == if date < created then Day(date, None, None) else TrackedDay(zone, spans, outages, date, window);
    WorstLevelIs(zone, spans, date, window.today);
    MinutesAreNatural(zone, outages, date, window.now);
  }

  lemma MinutesAreNatural(zone: Zone, outages: seq<OutageSpan>, date: int, now: int)
    ensures DetectedMinutesOn(zone, outages, date, now) >= 0
  {}

  lemma {:induction false} WorstLevelIs(zone: Zone, spans: seq<IncidentSpan>, date: int, today: int)
    ensures var level := WorstLevelOn(zone, spans, date, today);
      && 0 <= level <= 2
      && (level > 0 <==> Touched(zone, spans, date, today, false))
      && (level == 2 <==> Touched(zone, spans, date, today, true))
  {
    hide TouchesDay;
    if spans != [] {
      WorstLevelIs(zone, spans[1..], date, today);
      forall k | 0 <= k < |spans| - 1 ensures spans[1..][k] == spans[k + 1] {}
      assert forall k | 1 <= k < |spans| :: spans[k] == spans[1..][k - 1];
    }
  }

  // ----- what is loaded

  function SpansSince(spans: seq<IncidentSpan>, since: int): seq<IncidentSpan> {
    if spans == [] then []
    else (if spans[0].end.None? || spans[0].end.value >= since then [spans[0]] else []) + SpansSince(spans[1..], since)
  }

  function OutagesSince(outages: seq<OutageSpan>, since: int): seq<OutageSpan> {
    if outages == [] then []
    else
      (if outages[0].end.None? || outages[0].end.value >= since then [outages[0]] else [])
      + OutagesSince(outages[1..], since)
  }

  /** From when a window is loaded: its first midnight, or 1970 without one. */
  function LoadedSince(zone: Zone, window: Window): int {
    var since := Midnight(zone, FirstDay(window));
    if since.Some? then since.value else 0
  }

  /** The strip of a service, read from what is loaded for its window. */
  function StripOf(zone: Zone, spans: seq<IncidentSpan>, outages: seq<OutageSpan>, created: int, window: Window): seq<Day> {
    var since := LoadedSince(zone, window);
    DayLevels(zone, SpansSince(spans, since), OutagesSince(outages, since), created, window)
  }

  /** An outage counts from its start to its end, or to `now` while it is under way,
      when that is fifteen minutes or more, and not at all when it is less. */
  lemma OneOutageCounts(start: int, end: Option<int>, from: int, to: int, now: int)
    requires from <= to
    ensures var until := if end.Some? then end.value else now;
      Detected([OutageSpan(start, end)], from, to, now)
        == if until - start < 900 || until <= from || to <= start then 0
           else (if until < to then until else to) - (if start < from then from else start)
  {
    NothingDetected(from, to, now);
  }

  /** Every outage adds its own. */
  lemma {:induction false} OutagesAddUp(a: seq<OutageSpan>, b: seq<OutageSpan>, from: int, to: int, now: int)
    ensures Detected(a + b, from, to, now) == Detected(a, from, to, now) + Detected(b, from, to, now)
  {
    if a == [] {
      assert a + b == b;
    } else {
      OutagesAddUp(a[1..], b, from, to, now);
      assert (a + b)[1..] == a[1..] + b;
    }
  }

  /** An incident touches the days from the one the clock showed when it began to
      the one it showed when it ended, or to today while it is open. */
  lemma SpanTouches(zone: Zone, span: IncidentSpan, date: int, today: int)
    ensures TouchesDay(zone, span, date, today) <==>
      && (span.start / 60 + zone(span.start / 60)) / 1440 <= date
      && match span.end
         case None => date <= today
         case Some(end) => date <= (end / 60 + zone(end / 60)) / 1440
  {}

  // ----- days and the clock

  /** When the clock first shows the day, its midnight skipped or not. */
  function Dawn(zone: Zone, day: int): int
    requires Regular(zone)
  {
    60 * Reach(zone, Reading(day, 0))
  }

  lemma MidnightIsDawn(zone: Zone, day: int)
    requires Regular(zone)
    ensures Midnight(zone, day).Some? ==> Midnight(zone, day).value == Dawn(zone, day)
    ensures Dawn(zone, day) <= Dawn(zone, day + 1)
  {
    hide ToUtc, Regular, Reach, Reaches;
    ToUtcReaches(zone, Reading(day, 0));
    ReachIncreases(zone, Reading(day, 0), Reading(day + 1, 0));
  }

  /** Before a day dawns, the clock shows an earlier one. */
  lemma BeforeDawn(zone: Zone, day: int, at: int)
    requires Regular(zone) && at < Dawn(zone, day)
    ensures DateAt(zone, at) < day
  {}

  /** The clock shows the day when it dawns. */
  lemma AtDawn(zone: Zone, day: int)
    requires Regular(zone)
    ensures DateAt(zone, Dawn(zone, day)) == day
  {
    hide ToUtc;
    var u := Reach(zone, Reading(day, 0));
    assert (60 * u) / 60 == u;
    ToUtcReaches(zone, Reading(day, 0));
  }

  lemma DawnIncreases(zone: Zone, day: int, later: int)
    requires Regular(zone) && day <= later
    ensures Dawn(zone, day) <= Dawn(zone, later)
    decreases later - day
  {}

  // ----- cutting outages into days loses nothing

  lemma {:induction false} DetectedAdds(outages: seq<OutageSpan>, from: int, middle: int, to: int, now: int)
    requires from <= middle <= to
    ensures Detected(outages, from, to, now) == Detected(outages, from, middle, now) + Detected(outages, middle, to, now)
  {
    if outages != [] {
      DetectedAdds(outages[1..], from, middle, to, now);
    }
  }

  lemma {:induction false} DetectedInNothing(outages: seq<OutageSpan>, at: int, now: int)
    ensures Detected(outages, at, at, now) == 0
  {
    if outages != [] {
      DetectedInNothing(outages[1..], at, now);
    }
  }

  /** What counts for `days` days in a row. */
  function DetectedOver(zone: Zone, outages: seq<OutageSpan>, first: int, days: nat, now: int): int {
    if days == 0 then 0
    else DetectedOver(zone, outages, first, days - 1, now) + DetectedOn(zone, outages, first + days - 1, now)
  }

  /** Nothing is lost on the day: both midnights exist, or no outage touches it. */
  ghost predicate DayIsWhole(zone: Zone, outages: seq<OutageSpan>, date: int, now: int)
    requires Regular(zone)
  {
    || (Midnight(zone, date).Some? && Midnight(zone, date + 1).Some?)
    || Detected(outages, Dawn(zone, date), Dawn(zone, date + 1), now) == 0
  }

  /** A day never counts more than its own seconds of outage, and counts less
      exactly when a midnight is skipped and there was something to count. */
  lemma DayLosesOnlyToSkippedMidnights(zone: Zone, outages: seq<OutageSpan>, date: int, now: int)
    requires Regular(zone)
    ensures var truth := Detected(outages, Dawn(zone, date), Dawn(zone, date + 1), now);
      && DetectedOn(zone, outages, date, now) <= truth
      && (DetectedOn(zone, outages, date, now) == truth <==> DayIsWhole(zone, outages, date, now))
  {
    hide Dawn, Midnight, Regular;
    MidnightIsDawn(zone, date);
    MidnightIsDawn(zone, date + 1);
  }

  /** The pieces of the days sum to the seconds of outage in the whole window,
      exactly when no day with an outage has a skipped midnight. */
  lemma {:induction false} CuttingIntoDaysConserves(zone: Zone, outages: seq<OutageSpan>, first: int, days: nat, now: int)
    requires Regular(zone)
    ensures var total := Detected(outages, Dawn(zone, first), Dawn(zone, first + days), now);
      && DetectedOver(zone, outages, first, days, now) <= total
      && (DetectedOver(zone, outages, first, days, now) == total <==>
          forall date | first <= date < first + days :: DayIsWhole(zone, outages, date, now))
    decreases days
  {
    hide Dawn, DetectedOn, DayIsWhole, Regular, Detected;
    if days == 0 {
      DetectedInNothing(outages, Dawn(zone, first), now);
    } else {
      var last := first + days - 1;
      CuttingIntoDaysConserves(zone, outages, first, days - 1, now);
      DayLosesOnlyToSkippedMidnights(zone, outages, last, now);
      DawnIncreases(zone, first, last);
      MidnightIsDawn(zone, last);
      DetectedAdds(outages, Dawn(zone, first), Dawn(zone, last), Dawn(zone, last + 1), now);
    }
  }

  /** In whole minutes, each day rounds down by less than one. */
  lemma {:induction false} MinutesLoseLessThanOneADay(zone: Zone, outages: seq<OutageSpan>, first: int, days: nat, now: int)
    requires days > 0
    ensures var minutes := MinutesOver(zone, outages, first, days, now);
      60 * minutes <= DetectedOver(zone, outages, first, days, now) < 60 * (minutes + days)
  {
    var last := first + days - 1;
    assert outages == [] ==> DetectedOn(zone, outages, last, now) == 0;
    if days > 1 {
      MinutesLoseLessThanOneADay(zone, outages, first, days - 1, now);
    }
  }

  function MinutesOver(zone: Zone, outages: seq<OutageSpan>, first: int, days: nat, now: int): int {
    if days == 0 then 0
    else MinutesOver(zone, outages, first, days - 1, now) + DetectedMinutesOn(zone, outages, first + days - 1, now)
  }

  /** A clock that jumps from 23:59 to 01:00 and never shows a midnight. */
  function SkipMidnight(u: int): int {
    if u < 0 then 0 else 60
  }

  lemma SkipMidnightIsRegular()
    ensures Regular(SkipMidnight)
  {
    assert forall u :: SkipMidnight(u + 1) - SkipMidnight(u) <= 60;
  }

  lemma SkipMidnightDays()
    ensures Regular(SkipMidnight)
    ensures Midnight(SkipMidnight, 0) == None
    ensures Dawn(SkipMidnight, -1) == -86400 && Dawn(SkipMidnight, 1) == 82800
  {
    hide ToUtc, Reach, Regular;
    SkipMidnightIsRegular();
    ToUtcReaches(SkipMidnight, 0);
    ReachedBy(SkipMidnight, 0, 0);
    ReachedBy(SkipMidnight, -1440, -1440);
    ReachedBy(SkipMidnight, 1440, 1380);
  }

  /** With a skipped midnight, an outage of twenty hours counts for nothing on
      either of the two days it spans. */
  lemma SkippedMidnightLosesOutage()
    ensures Regular(SkipMidnight)
    ensures var outages := [OutageSpan(-36000, Some(36000))];
      && DetectedMinutesOn(SkipMidnight, outages, -1, 50000) == 0
      && DetectedMinutesOn(SkipMidnight, outages, 0, 50000) == 0
      && Detected(outages, Dawn(SkipMidnight, -1), Dawn(SkipMidnight, 1), 50000) == 72000
  {
    hide Midnight, Dawn, Regular;
    SkipMidnightDays();
    NothingDetected(-86400, 82800, 50000);
  }

  // ----- a day never holds more outage than it lasts

  /** Outages one after the other, whatever the order they are listed in. */
  ghost predicate Apart(outages: seq<OutageSpan>) {
    forall i, j | 0 <= i < |outages| && 0 <= j < |outages| && i != j ::
      Before(outages[i], outages[j]) || Before(outages[j], outages[i])
  }

  predicate Before(a: OutageSpan, b: OutageSpan) {
    a.end.Some? && a.end.value <= b.start
  }

  lemma {:induction false} RangeSize(from: int, to: int)
    ensures |Range(from, to)| == Max(to - from, 0)
    decreases Max(to - from, 0)
  {
    if from < to {
      RangeSize(from, to - 1);
      assert Range(from, to) == Range(from, to - 1) + {to - 1};
    } else {
      assert Range(from, to) == {};
    }
  }

  /** The seconds from `from` to `to` at which some outage was under way. */
  function Seconds(outages: seq<OutageSpan>, from: int, to: int, now: int): set<int> {
    if outages == [] then {}
    else
      (if LastedLongEnough(outages[0], now)
       then Range(Max(outages[0].start, from), Min(EndBy(outages[0], now), to))
       else {})
      + Seconds(outages[1..], from, to, now)
  }

  lemma {:induction false} SecondsAre(outages: seq<OutageSpan>, from: int, to: int, now: int, t: int)
    ensures t in Seconds(outages, from, to, now) <==>
      && from <= t < to
      && exists i :: 0 <= i < |outages| && LastedLongEnough(outages[i], now) && outages[i].start <= t < EndBy(outages[i], now)
  {
    if outages != [] {
      SecondsAre(outages[1..], from, to, now, t);
      forall i | 0 <= i < |outages| - 1 ensures outages[1..][i] == outages[i + 1] {}
      assert forall i | 1 <= i < |outages| :: outages[i] == outages[1..][i - 1];
    }
  }

  /** Outages apart from each other count every second once. */
  lemma {:induction false} ApartCountsSecondsOnce(outages: seq<OutageSpan>, from: int, to: int, now: int)
    requires Apart(outages)
    ensures Detected(outages, from, to, now) == |Seconds(outages, from, to, now)|
  {
    if outages != [] {
      var rest := outages[1..];
      assert forall i | 0 <= i < |rest| :: rest[i] == outages[i + 1];
      ApartCountsSecondsOnce(rest, from, to, now);
      var own := Range(Max(outages[0].start, from), Min(EndBy(outages[0], now), to));
      RangeSize(Max(outages[0].start, from), Min(EndBy(outages[0], now), to));
      if LastedLongEnough(outages[0], now) {
        forall t | t in own ensures t !in Seconds(rest, from, to, now) {
          SecondsAre(rest, from, to, now, t);
          forall i | 0 <= i < |rest| && LastedLongEnough(rest[i], now)
            ensures !(rest[i].start <= t < EndBy(rest[i], now)) {
            assert Before(outages[0], outages[i + 1]) || Before(outages[i + 1], outages[0]);
          }
        }
        assert |own + Seconds(rest, from, to, now)| == |own| + |Seconds(rest, from, to, now)|;
      } else {
        assert {} + Seconds(rest, from, to, now) == Seconds(rest, from, to, now);
      }
    }
  }

  /** For outages apart from each other, a day's detected time never exceeds
      that day's real length, 23 or 25 hours long as it may be. */
  lemma DayHoldsItsOutages(zone: Zone, outages: seq<OutageSpan>, date: int, now: int)
    requires Regular(zone) && Apart(outages)
    ensures 60 * DetectedMinutesOn(zone, outages, date, now) <= Dawn(zone, date + 1) - Dawn(zone, date)
  {
    hide Dawn, Midnight, Regular, Apart, Detected;
    MidnightIsDawn(zone, date);
    MidnightIsDawn(zone, date + 1);
    var from, to := Dawn(zone, date), Dawn(zone, date + 1);
    ApartCountsSecondsOnce(outages, from, to, now);
    forall t | t in Seconds(outages, from, to, now) ensures t in Range(from, to) {
      SecondsAre(outages, from, to, now, t);
    }
    SubsetSize(Seconds(outages, from, to, now), Range(from, to));
    RangeSize(from, to);
  }

  /** `outages` lists the logged outages of a service, each once. */
  ghost predicate Lists(log: Outages.Log, service: int, ids: seq<int>, outages: seq<OutageSpan>) {
    && |ids| == |outages|
    && (forall i, j | 0 <= i < j < |ids| :: ids[i] != ids[j])
    && (forall i | 0 <= i < |ids| ::
          && ids[i] in log.outages && log.outages[ids[i]].service == service
          && outages[i] == OutageSpan(log.outages[ids[i]].start, log.outages[ids[i]].end))
  }

  /** The same of the log itself, after any run whose reports never step back. */
  lemma LoggedDayHoldsItsOutages(zone: Zone, ops: seq<Outages.Op>, service: int, ids: seq<int>,
                                 outages: seq<OutageSpan>, date: int, now: int)
    requires Regular(zone) && Outages.AllInOrder(Outages.EMPTY, ops)
    requires Lists(Outages.Run(Outages.EMPTY, ops), service, ids, outages)
    ensures 60 * DetectedMinutesOn(zone, outages, date, now) <= Dawn(zone, date + 1) - Dawn(zone, date)
  {
    hide Dawn, Regular, DetectedMinutesOn;
    var log := Outages.Run(Outages.EMPTY, ops);
    Outages.RunKeepsDisjoint(Outages.EMPTY, ops);
    forall i, j | 0 <= i < |outages| && 0 <= j < |outages| && i != j
      ensures Before(outages[i], outages[j]) || Before(outages[j], outages[i])
    {
      assert ids[i] != ids[j];
      var a, b := log.outages[ids[i]], log.outages[ids[j]];
      assert Outages.EndsBefore(a, b) || Outages.EndsBefore(b, a);
    }
    DayHoldsItsOutages(zone, outages, date, now);
  }

  // ----- loading what did not end before the window changes no cell

  lemma {:induction false} LoadingKeepsLevel(zone: Zone, spans: seq<IncidentSpan>, since: int, date: int, today: int)
    requires Regular(zone) && since <= Dawn(zone, date)
    ensures WorstLevelOn(zone, SpansSince(spans, since), date, today) == WorstLevelOn(zone, spans, date, today)
  {
    hide Dawn, Regular, DateAt;
    if spans != [] {
      LoadingKeepsLevel(zone, spans[1..], since, date, today);
      if spans[0].end.Some? && spans[0].end.value < since {
        BeforeDawn(zone, date, spans[0].end.value);
        assert [] + SpansSince(spans[1..], since) == SpansSince(spans[1..], since);
      } else {
        assert ([spans[0]] + SpansSince(spans[1..], since))[1..] == SpansSince(spans[1..], since);
      }
    }
  }

  lemma {:induction false} LoadingKeepsDetected(outages: seq<OutageSpan>, since: int, from: int, to: int, now: int)
    requires since <= from
    ensures Detected(OutagesSince(outages, since), from, to, now) == Detected(outages, from, to, now)
  {
    if outages != [] {
      LoadingKeepsDetected(outages[1..], since, from, to, now);
      if outages[0].end.Some? && outages[0].end.value < since {
        assert [] + OutagesSince(outages[1..], since) == OutagesSince(outages[1..], since);
      } else {
        assert ([outages[0]] + OutagesSince(outages[1..], since))[1..] == OutagesSince(outages[1..], since);
      }
    }
  }

  lemma LoadingKeepsMinutes(zone: Zone, outages: seq<OutageSpan>, since: int, date: int, now: int)
    requires Regular(zone) && since <= Dawn(zone, date)
    ensures DetectedMinutesOn(zone, OutagesSince(outages, since), date, now) == DetectedMinutesOn(zone, outages, date, now)
  {
    hide Dawn, Midnight, Regular, Detected;
    MidnightIsDawn(zone, date);
    MidnightIsDawn(zone, date + 1);
    LoadingKeepsDetected(outages, since, Dawn(zone, date), Dawn(zone, date + 1), now);
    NothingDetected(Dawn(zone, date), Dawn(zone, date + 1), now);
    assert OutagesSince([], since) == [];
  }

  lemma LoadingKeepsDay(zone: Zone, spans: seq<IncidentSpan>, outages: seq<OutageSpan>, since: int, date: int, window: Window)
    requires Regular(zone) && since <= Dawn(zone, date)
    ensures TrackedDay(zone, SpansSince(spans, since), OutagesSince(outages, since), date, window)
         == TrackedDay(zone, spans, outages, date, window)
  {
    hide Dawn, Regular, DetectedMinutesOn, WorstLevelOn;
    LoadingKeepsLevel(zone, spans, since, date, window.today);
    LoadingKeepsMinutes(zone, outages, since, date, window.now);
  }

  lemma NothingDetected(from: int, to: int, now: int)
    ensures Detected([], from, to, now) == 0
  {}

  /** The first midnight exists, or fell after the 1970 that stands in for it. */
  ghost predicate LoadsEnough(zone: Zone, window: Window)
    requires Regular(zone)
  {
    window.days == 0 || Midnight(zone, FirstDay(window)).Some? || 0 <= Dawn(zone, FirstDay(window))
  }

  /** Every window that begins after 1970 does. */
  lemma LoadsEnoughSince1970(zone: Zone, window: Window)
    requires Regular(zone) && 1 <= FirstDay(window)
    ensures LoadsEnough(zone, window)
  {}

  lemma LoadingKeepsStrip(zone: Zone, spans: seq<IncidentSpan>, outages: seq<OutageSpan>, created: int, window: Window)
    requires Regular(zone) && LoadsEnough(zone, window)
    ensures StripOf(zone, spans, outages, created, window) == DayLevels(zone, spans, outages, created, window)
  {
    hide Dawn, Midnight, Regular, TrackedDay;
    var since := LoadedSince(zone, window);
    var loaded, whole := StripOf(zone, spans, outages, created, window), DayLevels(zone, spans, outages, created, window);
    forall i | 0 <= i < window.days ensures loaded[i] == whole[i] {
      var date := FirstDay(window) + i;
      MidnightIsDawn(zone, FirstDay(window));
      DawnIncreases(zone, FirstDay(window), date);
      LoadingKeepsDay(zone, spans, outages, since, date, window);
    }
  }

  /** Loading only what had not ended when the window began gives the strip of
      the whole history, for every history, exactly unless the window begins
      before 1970 on a day without a midnight. */
  lemma LoadingChangesNoCell(zone: Zone, window: Window)
    requires Regular(zone)
    ensures LoadsEnough(zone, window) <==>
      forall spans, outages, created ::
        StripOf(zone, spans, outages, created, window) == DayLevels(zone, spans, outages, created, window)
  {
    hide DayLevels, StripOf, Regular, Dawn, Midnight;
    if LoadsEnough(zone, window) {
      forall spans, outages, created
        ensures StripOf(zone, spans, outages, created, window) == DayLevels(zone, spans, outages, created, window)
      {
        LoadingKeepsStrip(zone, spans, outages, created, window);
      }
    } else {
      LoadingMissesSpan(zone, window);
    }
  }

  /** An incident over in the first minute of such a window is missed. */
  lemma LoadingMissesSpan(zone: Zone, window: Window)
    requires Regular(zone) && !LoadsEnough(zone, window)
    ensures var spans := [Events.IncidentSpan(None, Dawn(zone, FirstDay(window)), Some(Dawn(zone, FirstDay(window))))];
      var first := FirstDay(window);
      StripOf(zone, spans, [], first, window) != DayLevels(zone, spans, [], first, window)
  {
    hide Dawn, Midnight, Regular, DateAt;
    var first := FirstDay(window);
    var spans := [Events.IncidentSpan(None, Dawn(zone, first), Some(Dawn(zone, first)))];
    AtDawn(zone, first);
    assert SpansSince(spans[1..], 0) == [];
    assert SpansSince(spans, 0) == [] && OutagesSince([], 0) == [];
    assert WorstLevelOn(zone, [], first, window.today) == 0;
    assert WorstLevelOn(zone, spans[1..], first, window.today) == 0;
    assert TrackedDay(zone, [], [], first, window).level == Some(0);
    assert TrackedDay(zone, spans, [], first, window).level == Some(1);
    assert StripOf(zone, spans, [], first, window)[0] == TrackedDay(zone, [], [], first, window);
    assert DayLevels(zone, spans, [], first, window)[0] == TrackedDay(zone, spans, [], first, window);
  }

  /** A shorter strip of the same moment is the end of a longer one, each
      loading its own part of the history. */
  lemma ShortStripEndsLongStrip(zone: Zone, spans: seq<IncidentSpan>, outages: seq<OutageSpan>, created: int,
                                long: Window, days: nat)
    requires Regular(zone) && days <= long.days
    requires LoadsEnough(zone, long) && LoadsEnough(zone, long.(days := days))
    ensures StripOf(zone, spans, outages, created, long.(days := days))
         == StripOf(zone, spans, outages, created, long)[long.days - days..]
  {
    hide TrackedDay, StripOf, LoadsEnough, Regular;
    var short := long.(days := days);
    LoadingKeepsStrip(zone, spans, outages, created, long);
    LoadingKeepsStrip(zone, spans, outages, created, short);
    forall i | 0 <= i < days
      ensures DayLevels(zone, spans, outages, created, short)[i]
           == DayLevels(zone, spans, outages, created, long)[long.days - days..][i]
    {
      SameDay(zone, spans, outages, FirstDay(short) + i, long, days);
      assert FirstDay(short) + i == FirstDay(long) + (long.days - days + i);
      assert DayLevels(zone, spans, outages, created, long)[long.days - days..][i]
          == DayLevels(zone, spans, outages, created, long)[long.days - days + i];
    }
  }

  lemma SameDay(zone: Zone, spans: seq<IncidentSpan>, outages: seq<OutageSpan>, date: int, long: Window, days: nat)
    ensures TrackedDay(zone, spans, outages, date, long.(days := days)) == TrackedDay(zone, spans, outages, date, long)
  {}

  /** The thirty days of a side panel are the last thirty of the page's ninety. */
  lemma PanelMatchesPage(zone: Zone, spans: seq<IncidentSpan>, outages: seq<OutageSpan>, created: int, today: int, now: int)
    requires Regular(zone) && LONG_DAYS <= today
    ensures var panel, page := Window(today, now, SHORT_DAYS), Window(today, now, LONG_DAYS);
      && panel.days == 30 && page.days == 90
      && StripOf(zone, spans, outages, created, panel) == StripOf(zone, spans, outages, created, page)[60..]
  {
    hide StripOf, LoadsEnough, Regular;
    LoadsEnoughSince1970(zone, Window(today, now, LONG_DAYS));
    LoadsEnoughSince1970(zone, Window(today, now, SHORT_DAYS));
    ShortStripEndsLongStrip(zone, spans, outages, created, Window(today, now, LONG_DAYS), SHORT_DAYS);
  }

  // ----- the strip of what the tables hold

  /** `spans` are the rows of a query for the spans of a service, in any order. */
  ghost predicate AreRows(found: map<int, IncidentSpan>, ids: seq<int>, spans: seq<IncidentSpan>) {
    && |ids| == |spans|
    && (forall id :: id in found <==> id in ids)
    && forall k | 0 <= k < |ids| :: ids[k] in found && spans[k] == found[ids[k]]
  }

  lemma {:induction false} SpansSinceHas(spans: seq<IncidentSpan>, since: int, span: IncidentSpan)
    ensures span in SpansSince(spans, since) <==> span in spans && (span.end.None? || span.end.value >= since)
  {
    if spans != [] {
      SpansSinceHas(spans[1..], since, span);
      assert span in spans <==> span == spans[0] || span in spans[1..];
    }
  }

  /** Filtering the rows of a longer history gives the spans the query returns. */
  lemma FilterIsQuery(events: Events.Table, service: int, since: int, earlier: int,
                      ids: seq<int>, whole: seq<IncidentSpan>, span: IncidentSpan)
    requires earlier <= since && AreRows(Events.IncidentSpans(events, service, earlier), ids, whole)
    ensures span in SpansSince(whole, since) <==>
      exists id <- Events.IncidentSpans(events, service, since) :: Events.IncidentSpans(events, service, since)[id] == span
  {
    SpansSinceHas(whole, since, span);
    var found, all := Events.IncidentSpans(events, service, since), Events.IncidentSpans(events, service, earlier);
    assert forall id <- found :: id in all && all[id] == found[id];
    if span in SpansSince(whole, since) {
      var k :| 0 <= k < |whole| && whole[k] == span;
      Events.SpanIsFound(events, service, earlier, ids[k]);
      Events.SpanIsFound(events, service, since, ids[k]);
      assert found[ids[k]] == span;
    } else {
      forall id <- found ensures found[id] != span {
        assert id in ids;
        var k :| 0 <= k < |ids| && ids[k] == id;
        assert whole[k] in whole;
      }
    }
  }

  /** Which days are touched depends on the rows, not on their order. */
  lemma TouchedByRows(zone: Zone, found: map<int, IncidentSpan>, ids: seq<int>, spans: seq<IncidentSpan>,
                      date: int, today: int, critical: bool)
    requires AreRows(found, ids, spans)
    ensures Touched(zone, spans, date, today, critical) <==>
      exists id <- found :: TouchesDay(zone, found[id], date, today)
                            && (critical ==> found[id].severity == Some(Events.Critical))
  {
    hide TouchesDay;
    forall id <- found ensures exists k :: 0 <= k < |ids| && ids[k] == id && spans[k] == found[id] {
      assert id in ids;
    }
  }

  /** Of a table of events, what ended before the day touches none of it. */
  lemma QueryKeepsTouched(zone: Zone, events: Events.Table, service: int, since: int, earlier: int,
                          date: int, today: int, id: int)
    requires Regular(zone) && earlier <= since <= Dawn(zone, date)
    requires id in Events.IncidentSpans(events, service, earlier)
    requires TouchesDay(zone, Events.IncidentSpans(events, service, earlier)[id], date, today)
    ensures id in Events.IncidentSpans(events, service, since)
    ensures Events.IncidentSpans(events, service, since)[id] == Events.IncidentSpans(events, service, earlier)[id]
  {
    hide Dawn, Regular, DateAt;
    var span := Events.IncidentSpans(events, service, earlier)[id];
    if span.end.Some? && span.end.value < since {
      BeforeDawn(zone, date, span.end.value);
    }
  }

  lemma QueryKeepsLevel(zone: Zone, events: Events.Table, service: int, since: int, earlier: int, date: int, today: int,
                        ids: seq<int>, spans: seq<IncidentSpan>, wholeIds: seq<int>, whole: seq<IncidentSpan>)
    requires Regular(zone) && earlier <= since <= Dawn(zone, date)
    requires AreRows(Events.IncidentSpans(events, service, since), ids, spans)
    requires AreRows(Events.IncidentSpans(events, service, earlier), wholeIds, whole)
    ensures WorstLevelOn(zone, spans, date, today) == WorstLevelOn(zone, whole, date, today)
  {
    hide WorstLevelOn, Touched, TouchesDay, Dawn, Regular, AreRows;
    forall critical ensures Touched(zone, spans, date, today, critical) == Touched(zone, whole, date, today, critical) {
      var found, all := Events.IncidentSpans(events, service, since), Events.IncidentSpans(events, service, earlier);
      TouchedByRows(zone, found, ids, spans, date, today, critical);
      TouchedByRows(zone, all, wholeIds, whole, date, today, critical);
      forall id <- all | TouchesDay(zone, all[id], date, today) ensures id in found && found[id] == all[id] {
        QueryKeepsTouched(zone, events, service, since, earlier, date, today, id);
      }
      assert forall id <- found :: id in all && all[id] == found[id];
    }
    WorstLevelIs(zone, spans, date, today);
    WorstLevelIs(zone, whole, date, today);
  }

  /** Whatever the events and the order of rows, the strip read from the two
      queries is the one of any longer history. */
  lemma QueriesGiveWholeStrip(zone: Zone, events: Events.Table, service: int, window: Window, created: int, earlier: int,
                              ids: seq<int>, spans: seq<IncidentSpan>, wholeIds: seq<int>, whole: seq<IncidentSpan>,
                              outages: seq<OutageSpan>)
    requires Regular(zone) && LoadsEnough(zone, window) && earlier <= LoadedSince(zone, window)
    requires AreRows(Events.IncidentSpans(events, service, LoadedSince(zone, window)), ids, spans)
    requires AreRows(Events.IncidentSpans(events, service, earlier), wholeIds, whole)
    ensures DayLevels(zone, spans, OutagesSince(outages, LoadedSince(zone, window)), created, window)
         == DayLevels(zone, whole, outages, created, window)
  {
    hide Dawn, Midnight, Regular, AreRows, WorstLevelOn, DetectedMinutesOn;
    var since := LoadedSince(zone, window);
    var loaded := OutagesSince(outages, since);
    forall i | 0 <= i < window.days
      ensures DayLevels(zone, spans, loaded, created, window)[i] == DayLevels(zone, whole, outages, created, window)[i]
    {
      var date := FirstDay(window) + i;
      MidnightIsDawn(zone, FirstDay(window));
      DawnIncreases(zone, FirstDay(window), date);
      QueryKeepsLevel(zone, events, service, since, earlier, date, window.today, ids, spans, wholeIds, whole);
      LoadingKeepsMinutes(zone, outages, since, date, window.now);
      assert TrackedDay(zone, spans, loaded, date, window) == TrackedDay(zone, whole, outages, date, window);
    }
  }

  // ----- an incident that sets the state of a service colours its days

  lemma {:induction false} SpanColoursDay(zone: Zone, spans: seq<IncidentSpan>, i: nat, date: int, today: int)
    requires i < |spans| && TouchesDay(zone, spans[i], date, today)
    ensures SeverityLevel(spans[i].severity) <= WorstLevelOn(zone, spans, date, today)
  {
    if i > 0 {
      SpanColoursDay(zone, spans[1..], i - 1, date, today);
    }
  }

  /** After any run of the events, an incident that sets the state of a service
      colours every day of its strip since it began, today included, in
      whatever order its spans are read. */
  lemma DrivingIncidentColoursItsDays(zone: Zone, ops: seq<Events.Op>, id: int, service: int, since: int,
                                      ids: seq<int>, spans: seq<IncidentSpan>, date: int, today: int)
    requires Events.AllAllowed(map[], ops)
    requires var events := Events.Run(map[], ops);
      && id in Events.StatusDrivers(events, service) && events[id].kind == Events.Incident
      && AreRows(Events.IncidentSpans(events, service, since), ids, spans)
      && DateAt(zone, Events.SpanOf(events[id]).start) <= date <= today
    ensures WorstLevelOn(zone, spans, date, today) >= SeverityLevel(Events.Run(map[], ops)[id].severity) >= 1
  {
    hide Events.Run, Events.AllAllowed;
    Events.DrivingIncidentIsOpen(ops, id, service, since);
    assert id in ids;
    var k :| 0 <= k < |ids| && ids[k] == id;
    SpanColoursDay(zone, spans, k, date, today);
  }

  /** An incident that is resolved touches no day that dawned after that, nor does
      it later, whatever follows but an undo. */
  lemma ResolvedIncidentLeavesStrip(zone: Zone, ops: seq<Events.Op>, clock: int, id: int, read: Events.Event, now: int,
                                    later: seq<Events.Op>, date: int, today: int)
    requires Regular(zone) && Events.AllAllowed(map[], ops) && EventEffects.InOrder(clock, ops)
    requires EventEffects.ClockAfter(clock, ops) <= now < Dawn(zone, date)
    requires var events := Events.Run(map[], ops);
      && id in events && events[id].kind == Events.Incident
      && Events.PostMove(events, id, read, Events.Resolved, now).1
      && Events.AllAllowed(Events.PostMove(events, id, read, Events.Resolved, now).0, later)
    requires forall i | 0 <= i < |later| :: !((later[i].Undo? || later[i].Create?) && later[i].id == id)
    ensures var after := Events.Run(Events.PostMove(Events.Run(map[], ops), id, read, Events.Resolved, now).0, later);
      id in after ==> !TouchesDay(zone, Events.SpanOf(after[id]), date, today)
  {
    hide Events.Run, Events.AllAllowed, Dawn, Regular, DateAt;
    var events := Events.Run(map[], ops);
    var moved := Events.PostMove(events, id, read, Events.Resolved, now).0;
    EventEffects.RunKeepsBackBy(map[], ops, clock);
    Events.OnlyUndoReopens(moved, later, id);
    var end := Events.SpanEnd(moved[id]);
    assert end.Some? && end.value <= now;
    BeforeDawn(zone, date, end.value);
  }
}
