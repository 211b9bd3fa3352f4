/** The repositories that write what the checks detect, statement by statement. */
module OutageStore {
  import opened Prelude
  import opened Outages

  class Tables {
    var services: map<int, Watched>
    var outages: map<int, Outage>
    var next: int

    ghost function State(): Log
      reads this
    {
      Log(services, outages, next)
    }

    constructor ()
      ensures State() == EMPTY
    {
      services, outages, next := map[], map[], 1;
    }

    /** The service is marked first; an insert the schema refuses undoes it. */
    method MarkDetectedDown(service: int, startedAt: int) returns (result: Result<()>)
      modifies this
      ensures (State(), result) == MarkDown(old(State()), service, startedAt)
    {
      var marked := if service in services then services[service := services[service].(detected := true)] else services;
      var open := set id <- outages | IsOpen(outages[id], service);
      assert open == OpenOutages(State(), service);
      if service !in services || open != {} {
        return Refused;
      }
      services := marked;
      outages := outages[next := Outage(service, startedAt, None)];
      next := next + 1;
      result := Ok(());
    }

    method MarkDetectedUp(service: int, endedAt: int) returns (ended: bool)
      modifies this`services, this`outages
      ensures (State(), ended) == MarkUp(old(State()), service, endedAt)
    {
      ended := service in services && services[service].detected;
      if !ended {
        return;
      }
      services := services[service := services[service].(detected := false)];
      outages := map id <- outages ::
        if outages[id].service == service && outages[id].end.None?
        then outages[id].(end := Some(if outages[id].start < endedAt then endedAt else outages[id].start))
        else outages[id];
      forall id <- outages ensures outages[id] == MarkUp(old(State()), service, endedAt).0.outages[id] {}
      assert outages == MarkUp(old(State()), service, endedAt).0.outages;
    }

    method SetCheck(service: int, check: Option<Check>) returns (dropped: bool)
      modifies this`services, this`outages
      ensures (State(), dropped) == Outages.SetCheck(old(State()), service, check)
    {
      if service !in services || services[service].check == check {
        return false;
      }
      dropped := services[service].detected;
      services := services[service := Watched(check, false)];
      outages := map id <- outages | !(outages[id].service == service && outages[id].end.None?) :: outages[id];
      ghost var open := OpenOutages(old(State()), service);
      assert forall id <- old(outages) :: id in open <==> IsOpen(old(outages)[id], service);
      assert outages == old(outages) - open;
    }

    /** Erases the outage asked for, then each of the others in turn. */
    method Erase(service: int, id: int, others: seq<int>) returns (erased: seq<ErasedOutage>)
      modifies this`outages
      ensures (State(), erased) == Outages.Erase(old(State()), service, id, others)
    {
      if id !in outages || outages[id].end.None? || outages[id].service != service {
        return [];
      }
      ghost var whole := Outages.Erase(State(), service, id, others);
      assert ([id] + others)[1..] == others;
      erased := [ErasedOutage(service, outages[id].start, outages[id].end.value)];
      outages := outages - {id};
      assert whole == (EraseOthers(State(), others).0, erased + EraseOthers(State(), others).1);
      for i := 0 to |others|
        invariant services == old(services) && next == old(next)
        invariant whole.0 == EraseOthers(State(), others[i..]).0
        invariant whole.1 == erased + EraseOthers(State(), others[i..]).1
      {
        var other := others[i];
        assert others[i..][0] == other && others[i..][1..] == others[i + 1..];
        if other in outages && outages[other].end.Some? {
          erased := erased + [ErasedOutage(outages[other].service, outages[other].start, outages[other].end.value)];
          outages := outages - {other};
        }
      }
      assert others[|others|..] == [];
      assert whole.0 == State();
      assert whole.1 == erased + [] == erased;
    }
  }
}
