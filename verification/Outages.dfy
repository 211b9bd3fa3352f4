/**
 What the checks detect on each service, and the log of its outages: one row
 per outage, under way until it has an end. Times are seconds.
 */
module Outages {
  import opened Prelude

  datatype Check = Check(isHttp: bool, target: string, internalCert: bool)

  /** What is checked on a service, and whether it was found down. */
  datatype Watched = Watched(check: Option<Check>, detected: bool)

  datatype Outage = Outage(service: int, start: int, end: Option<int>)

  datatype ErasedOutage = ErasedOutage(service: int, start: int, end: int)

  datatype Log = Log(services: map<int, Watched>, outages: map<int, Outage>, next: int)

  const EMPTY := Log(map[], map[], 1)

  predicate IsOpen(o: Outage, service: int) {
    o.service == service && o.end.None?
  }

  /** The outages of the service under way. */
  function OpenOutages(log: Log, service: int): set<int> {
    set id <- log.outages | IsOpen(log.outages[id], service)
  }

  /** Found down since `at`. Refused for no such service, and when an outage
      is already under way: the schema keeps one per service. */
  function MarkDown(log: Log, service: int, at: int): (Log, Result<()>) {
    if service !in log.services || OpenOutages(log, service) != {} then (log, Refused)
    else
      (Log(log.services[service := log.services[service].(detected := true)],
           log.outages[log.next := Outage(service, at, None)],
           log.next + 1),
       Ok(()))
  }

  /** Ends an outage, never before it started. */
  function Closed(o: Outage, at: int): Outage {
    o.(end := Some(Max(o.start, at)))
  }

  /** Answering again since `at`; false when no outage was under way. */
  function MarkUp(log: Log, service: int, at: int): (Log, bool) {
    if service !in log.services || !log.services[service].detected then (log, false)
    else
      (log.(services := log.services[service := log.services[service].(detected := false)],
            outages := map id <- log.outages ::
              if IsOpen(log.outages[id], service) then Closed(log.outages[id], at) else log.outages[id]),
       true)
  }

  /** Saves what to check. A changed check drops what the old one detected,
      with its outage under way; returns whether something was dropped. */
  function SetCheck(log: Log, service: int, check: Option<Check>): (Log, bool) {
    if service !in log.services || log.services[service].check == check then (log, false)
    else
      (log.(services := log.services[service := Watched(check, false)],
            outages := log.outages - OpenOutages(log, service)),
       log.services[service].detected)
  }

  /** An ended outage, of this service when one is named. */
  predicate CanErase(log: Log, id: int, service: Option<int>) {
    && id in log.outages && log.outages[id].end.Some?
    && (service.None? || log.outages[id].service == service.value)
  }

  function EraseOthers(log: Log, others: seq<int>): (Log, seq<ErasedOutage>)
    decreases others
  {
    if others == [] then (log, [])
    else if !CanErase(log, others[0], None) then EraseOthers(log, others[1..])
    else
      var o := log.outages[others[0]];
      var (after, erased) := EraseOthers(log.(outages := log.outages - {others[0]}), others[1..]);
      (after, [ErasedOutage(o.service, o.start, o.end.value)] + erased)
  }

  /** Erases an ended outage of the service, then the ended ones of `others`;
      nothing at all when the first is under way or not this service's. */
  function Erase(log: Log, service: int, id: int, others: seq<int>): (Log, seq<ErasedOutage>) {
    if !CanErase(log, id, Some(service)) then (log, [])
    else EraseOthers(log, [id] + others)
  }

  function AddService(log: Log, service: int): Log {
    if service in log.services then log
    else log.(services := log.services[service := Watched(None, false)])
  }

  /** Its outages go with it. */
  function DropService(log: Log, service: int): Log {
    log.(services := log.services - {service},
         outages := map id <- log.outages | log.outages[id].service != service :: log.outages[id])
  }

  // ----- what every run keeps

  /** A service is found down exactly when one outage of it is under way. */
  ghost predicate Agrees(log: Log, service: int)
    requires service in log.services
  {
    if log.services[service].detected then exists id :: OpenOutages(log, service) == {id}
    else OpenOutages(log, service) == {}
  }

  ghost predicate Sound(log: Log) {
    && (forall s <- log.services :: Agrees(log, s))
    && (forall id <- log.outages ::
          && id < log.next
          && log.outages[id].service in log.services
          && (log.outages[id].end.Some? ==> log.outages[id].start <= log.outages[id].end.value))
  }

  datatype Op =
    | New(service: int)
    | Down(service: int, at: int)
    | Up(service: int, at: int)
    | Configure(service: int, check: Option<Check>)
    | Forget(service: int, id: int, others: seq<int>)
    | Remove(service: int)

  function Apply(log: Log, op: Op): Log {
    match op
    case New(service) => AddService(log, service)
    case Down(service, at) => MarkDown(log, service, at).0
    case Up(service, at) => MarkUp(log, service, at).0
    case Configure(service, check) => SetCheck(log, service, check).0
    case Forget(service, id, others) => Erase(log, service, id, others).0
    case Remove(service) => DropService(log, service)
  }

  function Run(log: Log, ops: seq<Op>): Log
    decreases ops
  {
    if ops == [] then log else Run(Apply(log, ops[0]), ops[1..])
  }

  /** Erasing only takes ended outages away. */
  lemma {:induction false} EraseOthersTakesEnded(log: Log, others: seq<int>)
    ensures var after := EraseOthers(log, others).0;
      && after.services == log.services && after.next == log.next
      && after.outages.Keys <= log.outages.Keys
      && (forall id <- after.outages :: after.outages[id] == log.outages[id])
      && (forall id <- log.outages :: log.outages[id].end.None? ==> id in after.outages)
    decreases others
  {
    if others != [] {
      if CanErase(log, others[0], None) {
        EraseOthersTakesEnded(log.(outages := log.outages - {others[0]}), others[1..]);
      } else {
        EraseOthersTakesEnded(log, others[1..]);
      }
    }
  }

  lemma SameOpenAgrees(log: Log, after: Log, service: int)
    requires service in log.services && service in after.services && Agrees(log, service)
    requires after.services[service].detected == log.services[service].detected
    requires OpenOutages(after, service) == OpenOutages(log, service)
    ensures Agrees(after, service)
  {}

  lemma DownKeepsSound(log: Log, service: int, at: int)
    requires Sound(log)
    ensures Sound(MarkDown(log, service, at).0)
  {
    var (after, result) := MarkDown(log, service, at);
    if result.Ok? {
      forall s <- after.services ensures Agrees(after, s) {
        if s == service {
          assert OpenOutages(after, s) == {log.next};
        } else {
          forall id ensures id in OpenOutages(after, s) <==> id in OpenOutages(log, s) {}
          SameOpenAgrees(log, after, s);
        }
      }
    }
  }

  lemma UpKeepsSound(log: Log, service: int, at: int)
    requires Sound(log)
    ensures Sound(MarkUp(log, service, at).0)
  {
    var after := MarkUp(log, service, at).0;
    forall s <- after.services ensures Agrees(after, s) {
      if s == service {
        assert forall id <- after.outages :: log.services[s].detected ==> !IsOpen(after.outages[id], s);
        assert log.services[s].detected ==> OpenOutages(after, s) == {};
      } else {
        forall id ensures id in OpenOutages(after, s) <==> id in OpenOutages(log, s) {}
        SameOpenAgrees(log, after, s);
      }
    }
  }

  lemma ConfigureKeepsSound(log: Log, service: int, check: Option<Check>)
    requires Sound(log)
    ensures Sound(SetCheck(log, service, check).0)
  {}

  lemma OthersKeepSound(log: Log, op: Op)
    requires Sound(log) && (op.New? || op.Forget? || op.Remove?)
    ensures Sound(Apply(log, op))
  {
    var after := Apply(log, op);
    if op.Forget? {
      EraseOthersTakesEnded(log, [op.id] + op.others);
    }
    forall s <- after.services ensures Agrees(after, s) {
      if s in log.services {
        forall id ensures id in OpenOutages(after, s) <==> id in OpenOutages(log, s) {}
        SameOpenAgrees(log, after, s);
      } else {
        assert forall id <- after.outages :: !IsOpen(after.outages[id], s);
        assert OpenOutages(after, s) == {};
      }
    }
  }

  lemma ApplyKeepsSound(log: Log, op: Op)
    requires Sound(log)
    ensures Sound(Apply(log, op))
  {
    hide Sound;
    match op
    case Down(service, at) => DownKeepsSound(log, service, at);
    case Up(service, at) => UpKeepsSound(log, service, at);
    case Configure(service, check) => ConfigureKeepsSound(log, service, check);
    case _ => OthersKeepSound(log, op);
  }

  /** Over every run a service is found down exactly when it has one outage
      under way, and no outage ends before it started. */
  lemma {:induction false} RunKeepsSound(log: Log, ops: seq<Op>)
    requires Sound(log)
    ensures Sound(Run(log, ops))
    decreases ops
  {
    if ops != [] {
      ApplyKeepsSound(log, ops[0]);
      RunKeepsSound(Apply(log, ops[0]), ops[1..]);
    }
  }

  /** So it is after any run from nothing. */
  lemma EveryRunAgrees(ops: seq<Op>, service: int)
    requires service in Run(EMPTY, ops).services
    ensures var log := Run(EMPTY, ops);
      && (log.services[service].detected <==> OpenOutages(log, service) != {})
      && |OpenOutages(log, service)| <= 1
      && forall id <- log.outages :: log.outages[id].end.Some? ==> log.outages[id].start <= log.outages[id].end.value
  {
    hide Run;
    RunKeepsSound(EMPTY, ops);
    assert Agrees(Run(EMPTY, ops), service);
  }

  // ----- what one report does

  /** A service added is found up, with no outage in the log; one that is there
      already is left alone. */
  lemma AddedIs(log: Log, service: int)
    requires Sound(log)
    ensures var after := AddService(log, service);
      && after.outages == log.outages && after.next == log.next
      && (service in log.services ==> after == log)
      && (service !in log.services ==>
            && after.services == log.services[service := Watched(None, false)]
            && forall id <- after.outages :: after.outages[id].service != service)
  {}

  /** A service deleted takes its own outages with it, and no other. */
  lemma DroppedIs(log: Log, service: int)
    ensures var after := DropService(log, service);
      && after.services == log.services - {service} && after.next == log.next
      && after.outages.Keys <= log.outages.Keys
      && forall id <- log.outages ::
           && (id in after.outages <==> log.outages[id].service != service)
           && (id in after.outages ==> after.outages[id] == log.outages[id])
  {}

  /** A service found down has an outage under way from the time reported, beside
      those it had; refused exactly for no such service, or when one was under
      way already. */
  lemma DownStartsOutage(log: Log, service: int, at: int)
    requires Sound(log)
    ensures var (after, result) := MarkDown(log, service, at);
      && (result == Refused <==>
            (service !in log.services
             || exists id :: id in log.outages && log.outages[id].service == service && log.outages[id].end == None))
      && (result == Refused ==> after == log)
      && (result.Ok? ==>
            && log.next !in log.outages && after.next == log.next + 1
            && after.outages == log.outages[log.next := Outage(service, at, None)]
            && after.services == log.services[service := Watched(log.services[service].check, true)])
  {
    if service in log.services && OpenOutages(log, service) != {} {
      var id := Pick(OpenOutages(log, service));
    }
    forall id <- log.outages | log.outages[id].service == service && log.outages[id].end == None
      ensures id in OpenOutages(log, service)
    {}
  }

  /** A service answering again ends its outage under way at the time reported, or
      when it began if that is later. No other outage changes; false, and nothing
      changes, exactly when the service was not found down. */
  lemma UpEndsOutage(log: Log, service: int, at: int)
    requires Sound(log)
    ensures var (after, told) := MarkUp(log, service, at);
      && (told <==> service in log.services && log.services[service].detected)
      && (!told ==> after == log)
      && after.outages.Keys == log.outages.Keys && after.next == log.next
      && (told ==> after.services == log.services[service := Watched(log.services[service].check, false)])
      && forall id <- log.outages ::
           var was := log.outages[id];
           if told && was.service == service && was.end == None
           then after.outages[id] == Outage(service, was.start, Some(if was.start < at then at else was.start))
           else after.outages[id] == was
  {}

  /** Reports racing to end one outage end it at the first of them. */
  lemma RacingUpsEndAtFirst(log: Log, service: int, times: seq<int>, id: int)
    requires Sound(log) && times != [] && id in log.outages && IsOpen(log.outages[id], service)
    ensures var after := Run(log, seq(|times|, i requires 0 <= i < |times| => Up(service, times[i])));
      && id in after.outages
      && after.outages[id].end == Some(if log.outages[id].start < times[0] then times[0] else log.outages[id].start)
  {
    RacingUpsTellOnce(log, service, times);
    assert Agrees(log, service);
    assert id in OpenOutages(log, service);
    UpEndsOutage(log, service, times[0]);
  }

  /** Saving the check already there changes nothing. Another one is kept, drops
      the outage under way, which it tells, and leaves the ended ones. */
  lemma SetCheckIs(log: Log, service: int, check: Option<Check>)
    requires Sound(log)
    ensures var (after, dropped) := SetCheck(log, service, check);
      var changes := service in log.services && log.services[service].check != check;
      && (!changes ==> after == log && !dropped)
      && (changes ==>
            && after.services == log.services[service := Watched(check, false)] && after.next == log.next
            && (dropped <==> OpenOutages(log, service) != {})
            && (forall id :: id in after.outages <==>
                  id in log.outages && !(log.outages[id].service == service && log.outages[id].end == None))
            && forall id <- after.outages :: after.outages[id] == log.outages[id])
  {
    if service in log.services {
      assert Agrees(log, service);
    }
    forall id <- log.outages
      ensures id in OpenOutages(log, service) <==> log.outages[id].service == service && log.outages[id].end == None
    {}
  }

  /** Erasing takes the ended outages among those listed, and tells each once. */
  lemma {:induction false} EraseOthersIs(log: Log, others: seq<int>)
    ensures var (after, erased) := EraseOthers(log, others);
      && after == log.(outages := after.outages)
      && (forall id :: id in after.outages <==> id in log.outages && !(id in others && log.outages[id].end.Some?))
      && (forall id <- after.outages :: after.outages[id] == log.outages[id])
      && |erased| == |log.outages| - |after.outages|
      && forall e :: e in erased <==> exists id :: id in log.outages && id in others
                                       && log.outages[id] == Outage(e.service, e.start, Some(e.end))
    decreases others
  {
    if others != [] {
      var id := others[0];
      assert others == [id] + others[1..];
      if CanErase(log, id, None) {
        var less := log.(outages := log.outages - {id});
        EraseOthersIs(less, others[1..]);
        assert log.outages.Keys == less.outages.Keys + {id};
        var (after, erased) := EraseOthers(log, others);
        forall e ensures e in erased <==> exists k :: k in log.outages && k in others
                                           && log.outages[k] == Outage(e.service, e.start, Some(e.end)) {
          assert e in erased <==> e == erased[0] || e in erased[1..];
          assert log.outages[id] == Outage(erased[0].service, erased[0].start, Some(erased[0].end));
        }
      } else {
        EraseOthersIs(log, others[1..]);
      }
    }
  }

  /** Nothing is erased when the outage asked for is under way, unknown or of another
      service; else it goes with the ended ones among the others. */
  lemma EraseIs(log: Log, service: int, id: int, others: seq<int>)
    ensures var (after, erased) := Erase(log, service, id, others);
      var erases := id in log.outages && log.outages[id].service == service && log.outages[id].end.Some?;
      && (!erases ==> after == log && erased == [])
      && (erases ==>
            && after == log.(outages := after.outages)
            && (forall k :: k in after.outages <==>
                  k in log.outages && !((k == id || k in others) && log.outages[k].end.Some?))
            && (forall k <- after.outages :: after.outages[k] == log.outages[k])
            && |erased| == |log.outages| - |after.outages|)
  {
    EraseOthersIs(log, [id] + others);
  }

  // ----- racing reports

  /** How many of these reports that a service answers again are told. */
  function ToldUps(log: Log, service: int, times: seq<int>): nat
    decreases times
  {
    if times == [] then 0
    else
      var (after, told) := MarkUp(log, service, times[0]);
      (if told then 1 else 0) + ToldUps(after, service, times[1..])
  }

  /** Reports racing to end the same outage tell it once, whatever their
      number, and the outage ends at the time of the first. */
  lemma {:induction false} RacingUpsTellOnce(log: Log, service: int, times: seq<int>)
    requires service in log.services
    ensures ToldUps(log, service, times) == if log.services[service].detected && times != [] then 1 else 0
    ensures var after := Run(log, seq(|times|, i requires 0 <= i < |times| => Up(service, times[i])));
      times != [] ==> after == MarkUp(log, service, times[0]).0
    decreases times
  {
    if times != [] {
      var after := MarkUp(log, service, times[0]).0;
      var ops := seq(|times|, i requires 0 <= i < |times| => Up(service, times[i]));
      var rest := seq(|times| - 1, i requires 0 <= i < |times| - 1 => Up(service, times[1..][i]));
      assert ops[1..] == rest;
      RacingUpsTellOnce(after, service, times[1..]);
    }
  }

  // ----- disjoint outages

  /** `at` comes after every time recorded for the service so far. */
  predicate NotBefore(log: Log, service: int, at: int) {
    forall id <- log.outages :: log.outages[id].service == service ==>
      log.outages[id].start <= at && (log.outages[id].end.Some? ==> log.outages[id].end.value <= at)
  }

  predicate InOrder(log: Log, op: Op) {
    op.Down? || op.Up? ==> NotBefore(log, op.service, op.at)
  }

  predicate AllInOrder(log: Log, ops: seq<Op>)
    decreases ops
  {
    ops == [] || (InOrder(log, ops[0]) && AllInOrder(Apply(log, ops[0]), ops[1..]))
  }

  predicate EndsBefore(a: Outage, b: Outage) {
    a.end.Some? && a.end.value <= b.start
  }

  ghost predicate Disjoint(log: Log) {
    forall i <- log.outages, j <- log.outages ::
      i != j && log.outages[i].service == log.outages[j].service ==>
      EndsBefore(log.outages[i], log.outages[j]) || EndsBefore(log.outages[j], log.outages[i])
  }

  lemma ApplyKeepsDisjoint(log: Log, op: Op)
    requires Sound(log) && Disjoint(log) && InOrder(log, op)
    ensures Disjoint(Apply(log, op))
  {
    hide Agrees;
    var after := Apply(log, op);
    match op
    case Down(service, at) =>
      if after != log {
        forall id <- log.outages | log.outages[id].service == service
          ensures EndsBefore(log.outages[id], after.outages[log.next])
        {
          assert id !in OpenOutages(log, service);
        }
      }
    case Forget(service, id, others) => EraseOthersTakesEnded(log, [id] + others);
    case _ =>
  }

  /** When reports never step back, a service's outages are disjoint. */
  lemma {:induction false} RunKeepsDisjoint(log: Log, ops: seq<Op>)
    requires Sound(log) && Disjoint(log) && AllInOrder(log, ops)
    ensures Disjoint(Run(log, ops))
    decreases ops
  {
    if ops != [] {
      ApplyKeepsSound(log, ops[0]);
      ApplyKeepsDisjoint(log, ops[0]);
      RunKeepsDisjoint(Apply(log, ops[0]), ops[1..]);
    }
  }
}
