/** The log file, written through a handle. */
module LogWriting {
  import opened Prelude
  import LogFile

  type Bytes = LogFile.Bytes
  type Files = LogFile.Files
  type Answers = LogFile.Answers

  /** The log file as a process holds it. */
  class LogWriter {
    var current: Option<Bytes>
    var aside: Option<Bytes>
    var onAside: bool
    var size: nat
    const limit: nat

    ghost function State(): LogFile.Log
      reads this
    {
      LogFile.Log(LogFile.Files.Files(current, aside), onAside, size)
    }

    /** Writes to a file of that folder, from its end. */
    constructor (files: Files, limit: nat)
      ensures var held := LogFile.Held(files.current);
        State() == LogFile.Log(files.(current := Some(held)), false, |held|)
      ensures this.limit == limit
    {
      current, aside := Some(LogFile.Held(files.current)), files.aside;
      onAside, size, this.limit := false, |LogFile.Held(files.current)|, limit;
    }

    method SetAside(answers: Answers) returns (done: bool)
      modifies this
      ensures (State(), done) == LogFile.SetAside(old(State()), answers)
    {
      if !answers.renames || current.None? {
        return false;
      }
      aside := current;
      current := None;
      if !answers.opens {
        onAside := true;
        return false;
      }
      current := Some([]);
      onAside := false;
      size := 0;
      done := true;
    }

    method Write(buf: Bytes, answers: Answers, taken: Option<nat>) returns (written: Option<nat>)
      requires taken.Some? ==> taken.value <= |buf|
      modifies this
      ensures (State(), written) == LogFile.Write(old(State()), limit, buf, answers, taken)
    {
      if size > limit {
        var done := SetAside(answers);
        if !done {
          size := 0;
        }
      }
      if taken.None? {
        return None;
      }
      if onAside {
        aside := Some(LogFile.Held(aside) + buf[..taken.value]);
      } else {
        current := Some(LogFile.Held(current) + buf[..taken.value]);
      }
      size := size + taken.value;
      written := taken;
    }
  }

  /** Opens the log of a folder, set aside at once when it is above the limit. */
  method OpenBelow(files: Files, limit: nat, creates: bool, answers: Answers)
    returns (log: Option<LogWriter>, ghost after: Files)
    ensures var (left, held) := LogFile.Open(files, limit, creates, answers);
      && after == left
      && (log.Some? <==> held.Some?)
      && (log.Some? ==> fresh(log.value) && log.value.State() == held.value && log.value.limit == limit)
  {
    if !creates {
      return None, files;
    }
    var writer := new LogWriter(files, limit);
    var done := true;
    if writer.size > limit {
      done := writer.SetAside(answers);
    }
    after := writer.State().files;
    log := if done then Some(writer) else None;
  }
}
