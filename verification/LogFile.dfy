/**
 The log file of a process with no console: set aside under a second name once
 above a size. What the file system answers is given to each operation.
 */
module LogFile {
  import opened Prelude

  type Bytes = seq<bv8>

  /** The log and the one set aside, when they exist. */
  datatype Files = Files(current: Option<Bytes>, aside: Option<Bytes>)

  /** `onAside` when the handle writes to the file set aside. */
  datatype Log = Log(files: Files, onAside: bool, size: nat)

  /** Whether a rename and an opening succeed, when they can. */
  datatype Answers = Answers(renames: bool, opens: bool)

  function Held(file: Option<Bytes>): Bytes {
    if file.Some? then file.value else []
  }

  /** Renames the log and starts a new one. The handle follows its file: when
      the new one cannot be opened, it goes on writing to the one set aside. */
  function SetAside(log: Log, answers: Answers): (Log, bool) {
    if !answers.renames || log.files.current.None? then (log, false)
    else if !answers.opens then (Log(Files(None, log.files.current), true, log.size), false)
    else (Log(Files(Some([]), log.files.current), false, 0), true)
  }

  function Append(log: Log, bytes: Bytes): Log {
    if log.onAside
    then Log(log.files.(aside := Some(Held(log.files.aside) + bytes)), true, log.size + |bytes|)
    else Log(log.files.(current := Some(Held(log.files.current) + bytes)), false, log.size + |bytes|)
  }

  /** The log as it is written to: set aside first once above the limit. */
  function Ready(log: Log, limit: nat, answers: Answers): Log {
    if log.size <= limit then log
    else
      var (tried, done) := SetAside(log, answers);
      if done then tried else tried.(size := 0)
  }

  /** Writes the first `taken` bytes of `buf`; nothing when the write fails. */
  function Write(log: Log, limit: nat, buf: Bytes, answers: Answers, taken: Option<nat>): (Log, Option<nat>)
    requires taken.Some? ==> taken.value <= |buf|
  {
    var ready := Ready(log, limit, answers);
    if taken.None? then (ready, None) else (Append(ready, buf[..taken.value]), taken)
  }

  /** The files after an opening, and the log unless it failed. */
  function Open(files: Files, limit: nat, creates: bool, answers: Answers): (Files, Option<Log>) {
    if !creates then (files, None)
    else
      var log := Log(files.(current := Some(Held(files.current))), false, |Held(files.current)|);
      if log.size <= limit then (log.files, Some(log))
      else
        var (tried, done) := SetAside(log, answers);
        (tried.files, if done then Some(tried) else None)
  }

  // ----- runs

  /** A folder, with the log while a process holds it. */
  datatype Folder = Running(log: Log) | Stopped(files: Files)

  datatype Op = Start(creates: bool, answers: Answers) | Say(buf: Bytes, answers: Answers, taken: Option<nat>)

  predicate CanWrite(op: Op) {
    op.Say? && op.taken.Some? ==> op.taken.value <= |op.buf|
  }

  function FilesOf(folder: Folder): Files {
    if folder.Running? then folder.log.files else folder.files
  }

  function Step(folder: Folder, limit: nat, op: Op): Folder
    requires CanWrite(op)
  {
    match op
    case Start(creates, answers) =>
      var (files, log) := Open(FilesOf(folder), limit, creates, answers);
      if log.Some? then Running(log.value) else Stopped(files)
    case Say(buf, answers, taken) =>
      if folder.Stopped? then folder else Running(Write(folder.log, limit, buf, answers, taken).0)
  }

  /** What a step adds to the log. */
  function Said(folder: Folder, op: Op): Bytes
    requires CanWrite(op)
  {
    if folder.Running? && op.Say? && op.taken.Some? then op.buf[..op.taken.value] else []
  }

  function Run(folder: Folder, limit: nat, ops: seq<Op>): Folder
    requires forall i | 0 <= i < |ops| :: CanWrite(ops[i])
    decreases ops
  {
    if ops == [] then folder else Run(Step(folder, limit, ops[0]), limit, ops[1..])
  }

  function AllSaid(folder: Folder, limit: nat, ops: seq<Op>): Bytes
    requires forall i | 0 <= i < |ops| :: CanWrite(ops[i])
    decreases ops
  {
    if ops == [] then [] else Said(folder, ops[0]) + AllSaid(Step(folder, limit, ops[0]), limit, ops[1..])
  }

  // ----- nothing recent is lost

  /** What the two files hold, oldest first. */
  function Kept(files: Files): Bytes {
    Held(files.aside) + Held(files.current)
  }

  /** The handle's file exists and holds at least what was counted. */
  predicate Consistent(folder: Folder) {
    folder.Running? ==>
      var log := folder.log;
      if log.onAside then log.files.current.None? && log.files.aside.Some? && |log.files.aside.value| >= log.size
      else log.files.current.Some? && |log.files.current.value| >= log.size
  }

  /** The files hold the end of `all`: everything, or more than the limit. */
  predicate KeepsTheEnd(all: Bytes, files: Files, limit: nat) {
    var kept := Kept(files);
    && |kept| <= |all| && all[|all| - |kept|..] == kept
    && (|kept| == |all| || |kept| > limit)
  }

  lemma SetAsideKeepsTheEnd(log: Log, answers: Answers, all: Bytes, limit: nat)
    requires Consistent(Running(log)) && KeepsTheEnd(all, log.files, limit) && log.size > limit
    ensures var after := SetAside(log, answers).0;
      Consistent(Running(after)) && KeepsTheEnd(all, after.files, limit)
  {}

  lemma AppendKeepsTheEnd(log: Log, bytes: Bytes, all: Bytes, limit: nat)
    requires Consistent(Running(log)) && KeepsTheEnd(all, log.files, limit)
    ensures Consistent(Running(Append(log, bytes))) && KeepsTheEnd(all + bytes, Append(log, bytes).files, limit)
  {
    assert Kept(Append(log, bytes).files) == Kept(log.files) + bytes;
  }

  lemma StepKeepsTheEnd(folder: Folder, limit: nat, op: Op, all: Bytes)
    requires CanWrite(op) && Consistent(folder) && KeepsTheEnd(all, FilesOf(folder), limit)
    ensures Consistent(Step(folder, limit, op))
    ensures KeepsTheEnd(all + Said(folder, op), FilesOf(Step(folder, limit, op)), limit)
  {
    hide SetAside, Append, KeepsTheEnd;
    assert all + [] == all;
    match op
    case Start(creates, answers) =>
      var files := FilesOf(folder);
      if creates {
        var log := Log(files.(current := Some(Held(files.current))), false, |Held(files.current)|);
        SameKept(all, files, log.files, limit);
        if log.size > limit {
          SetAsideKeepsTheEnd(log, answers, all, limit);
        }
      }
    case Say(buf, answers, taken) =>
      if folder.Running? {
        if folder.log.size > limit {
          SetAsideKeepsTheEnd(folder.log, answers, all, limit);
        }
        var ready := Ready(folder.log, limit, answers);
        if taken.Some? {
          AppendKeepsTheEnd(ready, buf[..taken.value], all, limit);
        }
      }
  }

  lemma SameKept(all: Bytes, a: Files, b: Files, limit: nat)
    requires KeepsTheEnd(all, a, limit) && Kept(a) == Kept(b)
    ensures KeepsTheEnd(all, b, limit)
  {}

  /** Over every run, restarts and failures of the file system included, the two
      files together hold the end of all that was ever written: all of it, or
      more than the limit. */
  lemma {:induction false} RunKeepsTheEnd(folder: Folder, limit: nat, ops: seq<Op>, all: Bytes)
    requires forall i | 0 <= i < |ops| :: CanWrite(ops[i])
    requires Consistent(folder) && KeepsTheEnd(all, FilesOf(folder), limit)
    ensures Consistent(Run(folder, limit, ops))
    ensures KeepsTheEnd(all + AllSaid(folder, limit, ops), FilesOf(Run(folder, limit, ops)), limit)
    decreases ops
  {
    hide Consistent, KeepsTheEnd, Step, Said;
    if ops == [] {
      assert all + [] == all;
    } else {
      var after, said := Step(folder, limit, ops[0]), Said(folder, ops[0]);
      StepKeepsTheEnd(folder, limit, ops[0], all);
      RunKeepsTheEnd(after, limit, ops[1..], all + said);
      assert all + said + AllSaid(after, limit, ops[1..]) == all + AllSaid(folder, limit, ops);
    }
  }

  // ----- how large the files grow

  /** The file system refuses nothing, and no write takes more than `most`. */
  predicate Smooth(op: Op, most: nat) {
    && op.answers.renames && op.answers.opens
    && (op.Say? && op.taken.Some? ==> op.taken.value <= most)
  }

  predicate Bounded(folder: Folder, limit: nat, most: nat) {
    folder.Running? ==>
      && !folder.log.onAside && |Held(folder.log.files.current)| == folder.log.size <= limit + most
  }

  /** Without failures, the log never outgrows its limit by more than one write. */
  lemma {:induction false} SmoothRunIsBounded(folder: Folder, limit: nat, most: nat, ops: seq<Op>)
    requires forall i | 0 <= i < |ops| :: CanWrite(ops[i])
    requires forall i | 0 <= i < |ops| :: Smooth(ops[i], most)
    requires Bounded(folder, limit, most)
    ensures Bounded(Run(folder, limit, ops), limit, most)
    decreases ops
  {
    if ops != [] {
      assert Smooth(ops[0], most);
      SmoothRunIsBounded(Step(folder, limit, ops[0]), limit, most, ops[1..]);
    }
  }

  // ----- when the log is set aside

  /** Above the limit, and with nothing refused, a write leaves what was there set
      aside and starts a log with what it takes; up to the limit it adds to the
      log and leaves the other file alone, whatever would be refused. */
  lemma WriteIs(log: Log, limit: nat, buf: Bytes, answers: Answers, taken: nat)
    requires Consistent(Running(log)) && !log.onAside && taken <= |buf|
    ensures var (after, written) := Write(log, limit, buf, answers, Some(taken));
      && written == Some(taken)
      && (log.size > limit && answers.renames && answers.opens ==>
            after == Log(Files(Some(buf[..taken]), log.files.current), false, taken))
      && (log.size <= limit || !answers.renames ==>
            after.files == Files(Some(log.files.current.value + buf[..taken]), log.files.aside) && !after.onAside)
  {
    assert [] + buf[..taken] == buf[..taken];
  }

  /** Below the limit nothing is set aside until that much is written. */
  lemma {:induction false} OnlyGrows(folder: Folder, limit: nat, ops: seq<Op>)
    requires forall i | 0 <= i < |ops| :: CanWrite(ops[i]) && ops[i].Say?
    requires folder.Running? && Consistent(folder) && !folder.log.onAside
    requires folder.log.size + |AllSaid(folder, limit, ops)| <= limit
    ensures var files := FilesOf(Run(folder, limit, ops));
      && files.aside == folder.log.files.aside
      && files.current == Some(folder.log.files.current.value + AllSaid(folder, limit, ops))
    decreases ops
  {
    if ops == [] {
      assert folder.log.files.current.value + [] == folder.log.files.current.value;
    } else {
      var after, said := Step(folder, limit, ops[0]), Said(folder, ops[0]);
      var rest := AllSaid(after, limit, ops[1..]);
      OnlyGrows(after, limit, ops[1..]);
      var was := folder.log.files.current.value;
      assert was + said + rest == was + (said + rest);
      assert after.log.files.current.value == was + said;
    }
  }

  /** A rename that fails keeps the lines in the log, and is tried again only after
      another limit's worth of them. */
  lemma FailedRenameIsTriedLater(log: Log, limit: nat, buf: Bytes, answers: Answers, taken: nat, ops: seq<Op>)
    requires Consistent(Running(log)) && !log.onAside && log.size > limit && !answers.renames && taken <= |buf|
    requires forall i | 0 <= i < |ops| :: CanWrite(ops[i]) && ops[i].Say?
    requires var after := Running(Write(log, limit, buf, answers, Some(taken)).0);
      taken + |AllSaid(after, limit, ops)| <= limit
    ensures var after := Running(Write(log, limit, buf, answers, Some(taken)).0);
      var files := FilesOf(Run(after, limit, ops));
      && files.aside == log.files.aside
      && files.current == Some(log.files.current.value + buf[..taken] + AllSaid(after, limit, ops))
  {
    OnlyGrows(Running(Write(log, limit, buf, answers, Some(taken)).0), limit, ops);
  }

  // ----- a log that could not be opened again

  /** Once the new log could not be opened, every write until the next start
      goes to the file set aside, which is never set aside again, however large
      it grows. */
  lemma {:induction false} StuckOnAside(folder: Folder, limit: nat, ops: seq<Op>)
    requires forall i | 0 <= i < |ops| :: CanWrite(ops[i]) && ops[i].Say?
    requires Consistent(folder) && folder.Running? && folder.log.onAside
    ensures var after := Run(folder, limit, ops);
      && after.Running? && after.log.onAside && after.log.files.current.None?
      && Held(after.log.files.aside) == Held(folder.log.files.aside) + AllSaid(folder, limit, ops)
    decreases ops
  {
    if ops == [] {
      assert Held(folder.log.files.aside) + [] == Held(folder.log.files.aside);
    } else {
      var after := Step(folder, limit, ops[0]);
      StuckOnAside(after, limit, ops[1..]);
      var was, said, rest := Held(folder.log.files.aside), Said(folder, ops[0]), AllSaid(after, limit, ops[1..]);
      assert was + said + rest == was + (said + rest);
      assert Held(after.log.files.aside) == was + said;
    }
  }

  /** A write gets the log stuck exactly when it sets the log aside and the new
      one cannot be opened. */
  lemma GetsStuckExactlyWhen(log: Log, limit: nat, buf: Bytes, answers: Answers, taken: Option<nat>)
    requires Consistent(Running(log)) && !log.onAside && (taken.Some? ==> taken.value <= |buf|)
    ensures Write(log, limit, buf, answers, taken).0.onAside
       <==> log.size > limit && answers.renames && !answers.opens
  {}
}
