/**
  Whole operations of the engine as runs of the machine: `schedule_flush`,
  `rotate_wal`, the worker's turn, and the loop of `flush`, each with the file
  operations that may fail in it. The theorem says exactly when a `flush` that has
  the engine to itself returns.
 */
module EngineSteps {
  import opened Records
  import opened EngineModel

  // ---------------------------------------------------------------------
  // Runs
  // ---------------------------------------------------------------------

  lemma RunOne(s: State, a: Action)
    requires Can(s, a)
    ensures Run(s, [a]) == Some(Do(s, a))
  {
    hide Can, Do;
    assert [a][..0] == [];
  }

  lemma RunSnoc(s: State, acts: seq<Action>, m: State, a: Action)
    requires Run(s, acts) == Some(m) && Can(m, a)
    ensures Run(s, acts + [a]) == Some(Do(m, a))
  {
    hide Can, Do;
    assert (acts + [a])[..|acts|] == acts;
  }

  lemma RunTwo(s: State, a: Action, b: Action)
    requires Can(s, a) && Can(Do(s, a), b)
    ensures Run(s, [a, b]) == Some(Do(Do(s, a), b))
  {
    hide Can, Do, Run;
    RunOne(s, a);
    RunSnoc(s, [a], Do(s, a), b);
    assert [a] + [b] == [a, b];
  }

  lemma RunThree(s: State, a: Action, b: Action, c: Action)
    requires Can(s, a) && Can(Do(s, a), b) && Can(Do(Do(s, a), b), c)
    ensures Run(s, [a, b, c]) == Some(Do(Do(Do(s, a), b), c))
  {
    hide Can, Do, Run;
    RunTwo(s, a, b);
    RunSnoc(s, [a, b], Do(Do(s, a), b), c);
    assert [a, b] + [c] == [a, b, c];
  }

  lemma {:induction false} RunConcat(s: State, a: seq<Action>, b: seq<Action>, m: State)
    requires Run(s, a) == Some(m)
    ensures Run(s, a + b) == Run(m, b)
  {
    hide Can, Do;
    if b == [] {
      assert a + b == a;
    } else {
      RunConcat(s, a, b[..|b| - 1], m);
      assert (a + b)[..|a + b| - 1] == a + b[..|b| - 1];
    }
  }

  // ---------------------------------------------------------------------
  // Failing file operations
  // ---------------------------------------------------------------------

  /** The file operation of a rotation that the system refuses, if it is asked for. */
  datatype RotFault = RotOk | RemoveFails | RenameFails | CreateFails

  /** The file operation of a job that the system refuses, if it is asked for. */
  datatype JobFault = JobOk | WriteFails | MoveFails | OpenFails | UnlinkFails

  datatype Faults = Faults(rot: RotFault, job: JobFault)

  /** How a rotation ends: an absent wal.flush is not removed, an absent log cannot be renamed. */
  function RotEnd(d: Disk, f: RotFault): RotFault {
    if f.RemoveFails? && d.walFlush.Some? then RemoveFails
    else if f.RenameFails? || d.wal.None? then RenameFails
    else if f.CreateFails? then CreateFails
    else RotOk
  }

  /** How a job ends: a table the format cannot hold is not written, an absent wal.flush not removed. */
  ghost function JobEnd(t: Table, d: Disk, f: JobFault): JobFault {
    if !CanBuild(t) then WriteFails
    else if f.UnlinkFails? && d.walFlush.None? then JobOk
    else f
  }

  /** The steps of `rotate_wal`, by how it ends. */
  function Rotation(t: Tid, end: RotFault): seq<Action> {
    match end
    case RotOk => [RotClear(t), RotRename(t), RotCreate(t)]
    case RemoveFails => [RotFail(t)]
    case RenameFails => [RotClear(t), RotFail(t)]
    case CreateFails => [RotClear(t), RotRename(t), RotFail(t)]
  }

  /** The steps of one turn of the worker, by how the job ends. */
  function Working(end: JobFault): seq<Action> {
    match end
    case JobOk => [Take, Build, Publish] + [Install, Unlink, Done]
    case WriteFails => [Take, JobFail]
    case MoveFails => [Take, Build, JobFail]
    case OpenFails => [Take, Build, Publish] + [JobFail]
    case UnlinkFails => [Take, Build, Publish] + [Install, JobFail]
  }

  /** Nothing to freeze, or no room for it. */
  predicate Skips(s: State) { s.frozen.Some? || s.active == map[] }

  /** The steps of `schedule_flush` once its wait has passed. */
  function Scheduling(s: State, t: Tid, f: RotFault): seq<Action> {
    if Skips(s) then [WaitPass(t), Skip(t)]
    else [WaitPass(t), Freeze(t)] + HandOver(t, RotEnd(s.disk, f))
  }

  /** From the freeze on: the rotation, then, if it succeeded, flight mark and job. */
  function HandOver(t: Tid, end: RotFault): seq<Action> {
    Rotation(t, end) + (if end.RotOk? then [Mark(t), Send(t)] else [])
  }

  // ---------------------------------------------------------------------
  // A rotation
  // ---------------------------------------------------------------------

  /** Between a flusher's steps of one rotation nothing else moves. */
  ghost predicate SameTables(s: State, u: State) {
    && u.active == s.active && u.frozen == s.frozen && u.ssts == s.ssts && u.queue == s.queue && u.worker == s.worker
    && u.pending == s.pending && u.lastErr == s.lastErr && u.inFlight == s.inFlight
  }

  lemma RotationWorks(s: State, t: Tid) returns (u: State)
    requires Can(s, RotClear(t)) && s.disk.wal.Some?
    ensures Run(s, Rotation(t, RotOk)) == Some(u) && SameTables(s, u) && WalLockFree(u)
    ensures u.flushers == s.flushers[t := Rotated(PcOf(s, t).job)]
    ensures u.disk == s.disk.(walFlush := s.disk.wal, wal := Some([]))
  {
    hide Run;
    u := Do(Do(Do(s, RotClear(t)), RotRename(t)), RotCreate(t));
    RunThree(s, RotClear(t), RotRename(t), RotCreate(t));
    var job := PcOf(s, t).job;
    assert s.flushers[t := Cleared(job)][t := Renamed(job)][t := Rotated(job)] == s.flushers[t := Rotated(job)];
  }

  /** What a broken rotation leaves: the flusher gone, everything but log and files as it was. */
  ghost predicate Broken(s: State, t: Tid, u: State) {
    SameTables(s, u) && WalLockFree(u) && u.flushers == s.flushers[t := Idle]
  }

  lemma RemoveBreaks(s: State, t: Tid)
    requires Can(s, RotClear(t))
    ensures Run(s, Rotation(t, RemoveFails)).Some? && Broken(s, t, Run(s, Rotation(t, RemoveFails)).value)
  {
    hide Run;
    RunOne(s, RotFail(t));
  }

  lemma RenameBreaks(s: State, t: Tid)
    requires Can(s, RotClear(t))
    ensures Run(s, Rotation(t, RenameFails)).Some? && Broken(s, t, Run(s, Rotation(t, RenameFails)).value)
  {
    hide Run;
    RunTwo(s, RotClear(t), RotFail(t));
    assert s.flushers[t := Cleared(PcOf(s, t).job)][t := Idle] == s.flushers[t := Idle];
  }

  lemma Renames(s: State, t: Tid) returns (b: State)
    requires Can(s, RotClear(t)) && s.disk.wal.Some?
    ensures Run(s, [RotClear(t), RotRename(t)]) == Some(b) && PcOf(b, t).Renamed? && SameTables(s, b)
    ensures b.flushers == s.flushers[t := Renamed(PcOf(s, t).job)]
  {
    hide Run;
    b := Do(Do(s, RotClear(t)), RotRename(t));
    RunTwo(s, RotClear(t), RotRename(t));
    var job := PcOf(s, t).job;
    assert s.flushers[t := Cleared(job)][t := Renamed(job)] == s.flushers[t := Renamed(job)];
  }

  lemma GivesUp(b: State, t: Tid)
    requires PcOf(b, t).Renamed?
    ensures Can(b, RotFail(t)) && SameTables(b, Do(b, RotFail(t))) && Do(b, RotFail(t)).flushers == b.flushers[t := Idle]
  {
  }

  lemma CreateBreaks(s: State, t: Tid)
    requires Can(s, RotClear(t)) && s.disk.wal.Some?
    ensures Run(s, Rotation(t, CreateFails)).Some? && Broken(s, t, Run(s, Rotation(t, CreateFails)).value)
  {
    hide Run, Do;
    var b := Renames(s, t);
    GivesUp(b, t);
    RunSnoc(s, [RotClear(t), RotRename(t)], b, RotFail(t));
    assert [RotClear(t), RotRename(t)] + [RotFail(t)] == Rotation(t, CreateFails);
    assert s.flushers[t := Renamed(PcOf(s, t).job)][t := Idle] == s.flushers[t := Idle];
  }

  lemma RotationBreaks(s: State, t: Tid, f: RotFault)
    requires Can(s, RotClear(t)) && !RotEnd(s.disk, f).RotOk?
    ensures var end := RotEnd(s.disk, f);
      Run(s, Rotation(t, end)).Some? && Broken(s, t, Run(s, Rotation(t, end)).value)
  {
    hide Run, Can, Broken, Rotation;
    match RotEnd(s.disk, f)
    case RemoveFails => RemoveBreaks(s, t);
    case RenameFails => RenameBreaks(s, t);
    case CreateFails => CreateBreaks(s, t);
  }

  // ---------------------------------------------------------------------
  // One flusher with the engine to itself
  // ---------------------------------------------------------------------

  /** No other flush under way, no job, no writer inside. */
  predicate Alone(s: State, t: Tid) {
    PcOf(s, t).Idle? && WalLockFree(s) && s.worker.Resting? && s.queue == [] && !s.inFlight
  }

  lemma Freezes(s: State, t: Tid) returns (f: State)
    requires Alone(s, t) && !Skips(s) && !s.lastErr
    ensures Run(s, [WaitPass(t), Freeze(t)]) == Some(f) && Can(f, RotClear(t)) && WalLockFree(f)
    ensures f == s.(flushers := s.flushers[t := Froze(Job(s.active, s.nextSst))],
                    active := map[], frozen := Some(s.active), nextSst := s.nextSst + 1)
  {
    hide Run;
    f := Do(Do(s, WaitPass(t)), Freeze(t));
    RunTwo(s, WaitPass(t), Freeze(t));
    assert s.flushers[t := Waited][t := Froze(Job(s.active, s.nextSst))]
        == s.flushers[t := Froze(Job(s.active, s.nextSst))];
  }

  /** A schedule that skips comes back to the same state. */
  lemma SkipReturns(s: State, t: Tid)
    requires PcOf(s, t).Idle? && !s.inFlight && !s.lastErr && Skips(s)
    ensures var u := s.(flushers := s.flushers[t := Idle]);
      Run(s, [WaitPass(t), Skip(t)]) == Some(u) && (WalLockFree(s) ==> WalLockFree(u))
  {
    hide Run;
    RunTwo(s, WaitPass(t), Skip(t));
    assert s.flushers[t := Waited][t := Idle] == s.flushers[t := Idle];
  }

  /** The job of a rotated flusher reaches the queue. */
  lemma Sends(r: State, t: Tid) returns (u: State)
    requires PcOf(r, t).Rotated? && r.queue == [] && WalLockFree(r)
    ensures Run(r, [Mark(t), Send(t)]) == Some(u) && WalLockFree(u)
    ensures u == r.(flushers := r.flushers[t := Idle], inFlight := true, lastErr := false, queue := [PcOf(r, t).job])
  {
    hide Run;
    u := Do(Do(r, Mark(t)), Send(t));
    RunTwo(r, Mark(t), Send(t));
    var job := PcOf(r, t).job;
    assert r.flushers[t := Marked(job)][t := Idle] == r.flushers[t := Idle];
    assert [] + [job] == [job];
  }

  /** What a schedule that freezes leaves: the job in the queue, or a frozen table and an error. */
  ghost predicate Scheduled(s: State, t: Tid, end: RotFault, u: State) {
    && u.active == map[] && u.frozen == Some(s.active) && u.worker.Resting? && WalLockFree(u) && PcOf(u, t).Idle?
    && !u.lastErr
    && if end.RotOk? then u.queue == [Job(s.active, s.nextSst)] && u.inFlight && u.disk.walFlush.Some?
       else u.queue == [] && !u.inFlight
  }

  lemma Schedules(s: State, t: Tid, f: RotFault)
    requires Alone(s, t) && !Skips(s) && !s.lastErr
    ensures Run(s, Scheduling(s, t, f)).Some?
    ensures Scheduled(s, t, RotEnd(s.disk, f), Run(s, Scheduling(s, t, f)).value)
  {
    hide Run, Can, Do, WalLockFree;
    var end := RotEnd(s.disk, f);
    var m := Freezes(s, t);
    if end.RotOk? {
      var r := RotationWorks(m, t);
      var u := Sends(r, t);
      RunConcat(m, Rotation(t, RotOk), [Mark(t), Send(t)], r);
    } else {
      RotationBreaks(m, t, f);
      assert HandOver(t, end) == Rotation(t, end);
    }
    RunConcat(s, [WaitPass(t), Freeze(t)], HandOver(t, end), m);
  }

  // ---------------------------------------------------------------------
  // The worker's turn
  // ---------------------------------------------------------------------

  /** Nothing but the worker's own parts differ. */
  ghost predicate WorkerOnly(s: State, u: State) {
    u.active == s.active && u.flushers == s.flushers && u.pending == s.pending && u.nextSn == s.nextSn
  }

  lemma TakesAndBuilds(s: State) returns (b: State)
    requires Can(s, Take) && CanBuild(s.queue[0].table)
    ensures Run(s, [Take, Build]) == Some(b) && Can(b, Publish) && Can(b, JobFail)
    ensures WorkerOnly(s, b) && b.queue == s.queue[1..] && b.disk.walFlush == s.disk.walFlush && b.frozen == s.frozen
    ensures var job := s.queue[0];
      Do(s, Take).worker == Took(job) && b.worker == Built(job) && job.id in b.disk.tmp && b.disk.tmp[job.id] == job.table
  {
    hide CanBuild, Run;
    b := Do(Do(s, Take), Build);
    RunTwo(s, Take, Build);
  }

  lemma Publishes(b: State) returns (m: State)
    requires Can(b, Publish) && b.pending.None?
    ensures m == Do(b, Publish) && Can(m, Install) && Can(m, JobFail) && m.worker.job == b.worker.job
    ensures WorkerOnly(b, m) && m.queue == b.queue && m.disk.walFlush == b.disk.walFlush && m.frozen == b.frozen
  {
    m := Do(b, Publish);
  }

  lemma FileMade(s: State) returns (m: State)
    requires Can(s, Take) && s.pending.None? && CanBuild(s.queue[0].table)
    ensures Run(s, [Take, Build, Publish]) == Some(m) && Can(m, Install) && Can(m, JobFail)
    ensures WorkerOnly(s, m) && m.queue == s.queue[1..] && m.disk.walFlush == s.disk.walFlush && m.frozen == s.frozen
  {
    hide CanBuild, Run, Do;
    var b := TakesAndBuilds(s);
    m := Publishes(b);
    RunSnoc(s, [Take, Build], b, Publish);
    assert [Take, Build] + [Publish] == [Take, Build, Publish];
  }

  lemma FileInstalled(m: State) returns (u: State)
    requires Can(m, Install)
    ensures Run(m, [Install, Unlink, Done]) == Some(u) && WorkerOnly(m, u) && u.queue == m.queue
    ensures u.worker.Resting? && u.frozen.None? && !u.inFlight && !u.lastErr
  {
    hide CanBuild, Run;
    u := Do(Do(Do(m, Install), Unlink), Done);
    RunThree(m, Install, Unlink, Done);
  }

  /** What a turn of the worker leaves, however it ends. */
  ghost predicate TurnOver(s: State, u: State, end: JobFault) {
    && WorkerOnly(s, u) && s.queue != [] && u.queue == s.queue[1..] && u.worker.Resting?
    && !u.inFlight && (u.lastErr <==> !end.JobOk?)
    && (end.JobOk? || end.UnlinkFails? ==> u.frozen.None?)
    && (!end.JobOk? && !end.UnlinkFails? ==> u.frozen == s.frozen)
  }

  lemma WriteBreaks(s: State) returns (u: State)
    requires Can(s, Take)
    ensures Run(s, Working(WriteFails)) == Some(u) && TurnOver(s, u, WriteFails)
  {
    hide CanBuild, Run;
    u := Do(Do(s, Take), JobFail);
    RunTwo(s, Take, JobFail);
  }

  lemma MoveBreaks(s: State) returns (u: State)
    requires Can(s, Take) && s.pending.None? && CanBuild(s.queue[0].table)
    ensures Run(s, Working(MoveFails)) == Some(u) && TurnOver(s, u, MoveFails)
  {
    hide CanBuild, Run;
    var b := TakesAndBuilds(s);
    u := Do(b, JobFail);
    RunSnoc(s, [Take, Build], b, JobFail);
    assert [Take, Build] + [JobFail] == [Take, Build, JobFail];
  }

  lemma LaterBreaks(s: State, end: JobFault) returns (u: State)
    requires Can(s, Take) && s.pending.None? && CanBuild(s.queue[0].table) && (end.OpenFails? || end.UnlinkFails?)
    ensures Run(s, Working(end)) == Some(u) && TurnOver(s, u, end)
  {
    hide CanBuild, Run;
    var m := FileMade(s);
    if end.OpenFails? {
      u := Do(m, JobFail);
      RunOne(m, JobFail);
      RunConcat(s, [Take, Build, Publish], [JobFail], m);
    } else {
      u := Do(Do(m, Install), JobFail);
      RunTwo(m, Install, JobFail);
      RunConcat(s, [Take, Build, Publish], [Install, JobFail], m);
    }
  }

  lemma Works(s: State, f: JobFault)
    requires Can(s, Take) && s.pending.None?
    ensures var end := JobEnd(s.queue[0].table, s.disk, f);
      Run(s, Working(end)).Some? && TurnOver(s, Run(s, Working(end)).value, end)
  {
    hide CanBuild, Run, Do;
    var end := JobEnd(s.queue[0].table, s.disk, f);
    if end.WriteFails? {
      var u := WriteBreaks(s);
    } else if end.MoveFails? {
      var u := MoveBreaks(s);
    } else if end.JobOk? {
      var m := FileMade(s);
      var u := FileInstalled(m);
      RunConcat(s, [Take, Build, Publish], [Install, Unlink, Done], m);
    } else {
      var u := LaterBreaks(s, end);
    }
  }

  // ---------------------------------------------------------------------
  // The loop of `flush`
  // ---------------------------------------------------------------------

  /** One turn of the loop: `flush` returns, with or without error, or goes round again. */
  datatype Turn = Ends(ok: bool, at: State) | Loops(at: State)

  /** The table frozen, its log rotated, its file written and installed, the flush log removed. */
  ghost predicate RoundWorks(s: State, io: Faults) {
    RotEnd(s.disk, io.rot).RotOk? && CanBuild(s.active) && io.job.JobOk?
  }

  /** The worker may take the only job there is. */
  predicate OneJob(u: State) { u.worker.Resting? && |u.queue| == 1 && u.pending.None? }

  /** The worker's turn on the one job queued, and the wait for it. */
  ghost function JobRound(u: State, f: JobFault): (turn: Turn)
    requires OneJob(u)
    ensures turn.Loops? <==> JobEnd(u.queue[0].table, u.disk, f).JobOk?
    ensures turn.at.active == u.active && turn.at.flushers == u.flushers && turn.at.pending.None?
    ensures turn.at.queue == [] && turn.at.worker.Resting? && !turn.at.inFlight && !turn.at.lastErr
    ensures turn.Loops? ==> turn.at.frozen.None?
    ensures turn.Ends? ==> !turn.ok
  {
    Works(u, f);
    var v := Run(u, Working(JobEnd(u.queue[0].table, u.disk, f))).value;
    if v.lastErr then Ends(false, Do(v, WaitErr)) else Loops(v)
  }

  /** `wait_flush`: the job in flight, if any, then its error or an older one. */
  ghost function Waits(s: State, f: JobFault): (turn: Turn)
    requires s.inFlight ==> OneJob(s)
    ensures !turn.at.inFlight && !turn.at.lastErr && turn.at.active == s.active && turn.at.flushers == s.flushers
  {
    if s.inFlight then JobRound(s, f)
    else if s.lastErr then Ends(false, Do(s, WaitErr))
    else Loops(s)
  }

  /** A schedule that freezes, the worker's turn on it, and the wait after both. */
  ghost function FlushRound(s: State, t: Tid, io: Faults): (turn: Turn)
    requires Alone(s, t) && !Skips(s) && !s.lastErr
    ensures turn.Loops? <==> RoundWorks(s, io)
    ensures turn.Loops? ==> Alone(turn.at, t) && turn.at.active == map[] && turn.at.frozen.None?
    ensures !turn.at.lastErr && (turn.Ends? ==> !turn.ok)
  {
    Schedules(s, t, io.rot);
    var u := Run(s, Scheduling(s, t, io.rot)).value;
    if RotEnd(s.disk, io.rot).RotOk? then JobRound(u, io.job) else Ends(false, u)
  }

  /** One turn of the loop, the worker doing its job while `flush` waits. */
  ghost function FlushTurn(s: State, t: Tid, io: Faults): (turn: Turn)
    requires Alone(s, t)
    ensures turn.Loops? ==> Alone(turn.at, t)
  {
    if s.lastErr then Ends(false, Do(s, WaitErr))
    else if s.active == map[] && s.frozen.None? then Ends(true, s)
    else if Skips(s) then
      SkipReturns(s, t);
      Loops(Run(s, [WaitPass(t), Skip(t)]).value)
    else FlushRound(s, t, io)
  }

  /** Where `flush` is after `n` turns. */
  ghost function FlushAfter(s: State, t: Tid, io: Faults, n: nat): (turn: Turn)
    requires Alone(s, t)
    ensures turn.Loops? ==> Alone(turn.at, t)
  {
    if n == 0 then Loops(s)
    else
      match FlushAfter(s, t, io, n - 1)
      case Ends(ok, u) => Ends(ok, u)
      case Loops(u) => FlushTurn(u, t, io)
  }

  /** Once `flush` has returned it stays returned. */
  lemma {:induction false} FlushStays(s: State, t: Tid, io: Faults, n: nat, m: nat)
    requires Alone(s, t) && n <= m && FlushAfter(s, t, io, n).Ends?
    ensures FlushAfter(s, t, io, m) == FlushAfter(s, t, io, n)
  {
    hide FlushTurn, Alone;
    if n < m { FlushStays(s, t, io, n, m - 1); }
  }

  /** Behind a frozen table whose error is already reported, every turn comes back to the same state. */
  lemma {:induction false} FlushSpins(s: State, t: Tid, io: Faults, n: nat)
    requires Alone(s, t) && s.frozen.Some? && !s.lastErr
    ensures FlushAfter(s, t, io, n).Loops?
    ensures n > 0 ==> FlushAfter(s, t, io, n).at == s.(flushers := s.flushers[t := Idle])
  {
    hide FlushRound, Can, Do, Run;
    if n > 0 {
      FlushSpins(s, t, io, n - 1);
      var m := FlushAfter(s, t, io, n - 1).at;
      SkipReturns(m, t);
      assert s.flushers[t := Idle][t := Idle] == s.flushers[t := Idle];
    }
  }

  lemma FlushTwice(s: State, t: Tid, io: Faults)
    requires Alone(s, t) && (s.frozen.None? || s.lastErr)
    ensures var one, two := FlushTurn(s, t, io), FlushAfter(s, t, io, 2);
      if one.Ends? then two == one else two == Ends(true, one.at)
  {
    hide FlushRound, Alone, Can, Do, Run;
    assert FlushAfter(s, t, io, 0) == Loops(s);
    assert FlushAfter(s, t, io, 1) == FlushTurn(s, t, io);
    if FlushTurn(s, t, io).Loops? { assert FlushTurn(s, t, io) == FlushRound(s, t, io); }
  }

  lemma AloneEndsIff(s: State, t: Tid, io: Faults)
    requires Alone(s, t)
    ensures (exists n :: FlushAfter(s, t, io, n).Ends?) <==> s.frozen.None? || s.lastErr
    ensures s.frozen.None? || s.lastErr ==> FlushAfter(s, t, io, 2).Ends?
  {
    hide Can, Do, Run, FlushRound;
    if s.frozen.None? || s.lastErr {
      FlushTwice(s, t, io);
    } else {
      forall n ensures !FlushAfter(s, t, io, n).Ends? { FlushSpins(s, t, io, n); }
    }
  }

  lemma AloneResult(s: State, t: Tid, io: Faults)
    requires Alone(s, t) && (s.frozen.None? || s.lastErr)
    ensures var r := FlushAfter(s, t, io, 2);
      && r.Ends? && (r.ok <==> !s.lastErr && (s.active == map[] || RoundWorks(s, io))) && !r.at.lastErr
      && (r.ok ==> r.at.active == map[] && r.at.frozen.None?)
  {
    hide FlushRound, Alone, Run, RoundWorks;
    FlushTwice(s, t, io);
  }

  // ---------------------------------------------------------------------
  // A `flush` by the only thread, perhaps with a job in flight
  // ---------------------------------------------------------------------

  /** No other flusher and no writer inside; at most one job, queued and in flight. */
  predicate Lone(s: State, t: Tid) {
    PcOf(s, t).Idle? && WalLockFree(s) && s.worker.Resting? && |s.queue| == (if s.inFlight then 1 else 0)
  }

  /** Where `flush` is after `n` turns, the first wait seeing the job in flight end as `first` says. */
  ghost function FlushFrom(s: State, t: Tid, first: JobFault, io: Faults, n: nat): Turn
    requires Lone(s, t)
  {
    if !s.inFlight then FlushAfter(s, t, io, n)
    else
      match JobRound(s, first)
      case Ends(ok, u) => Ends(ok, u)
      case Loops(u) => FlushAfter(u, t, io, n)
  }

  /**
    When a `flush` by the only thread returns: if and only if a job is in flight at its
    start, nothing is frozen, or a failed job's error is still to be reported. Then it
    does after two turns at most, with one result. Otherwise it goes round for ever.
   */
  lemma FlushEndsIff(s: State, t: Tid, first: JobFault, io: Faults)
    requires Lone(s, t)
    ensures (exists n :: FlushFrom(s, t, first, io, n).Ends?) <==> s.inFlight || s.frozen.None? || s.lastErr
    ensures s.inFlight || s.frozen.None? || s.lastErr ==>
      forall n :: n >= 2 ==>
        FlushFrom(s, t, first, io, n).Ends? && FlushFrom(s, t, first, io, n) == FlushFrom(s, t, first, io, 2)
  {
    hide FlushFrom, FlushAfter, JobRound, Can, Do, Run;
    if s.inFlight || s.frozen.None? || s.lastErr {
      forall n | n >= 2
        ensures FlushFrom(s, t, first, io, n).Ends? && FlushFrom(s, t, first, io, n) == FlushFrom(s, t, first, io, 2)
      {
        FlushSettles(s, t, first, io, n);
      }
      assert FlushFrom(s, t, first, io, 2).Ends?;
    } else {
      forall n ensures !FlushFrom(s, t, first, io, n).Ends? { NoJobFirst(s, t, first, io, n); FlushSpins(s, t, io, n); }
    }
  }

  lemma NoJobFirst(s: State, t: Tid, first: JobFault, io: Faults, n: nat)
    requires Lone(s, t) && !s.inFlight
    ensures FlushFrom(s, t, first, io, n) == FlushAfter(s, t, io, n)
  {
    hide FlushAfter;
  }

  lemma FlushSettles(s: State, t: Tid, first: JobFault, io: Faults, n: nat)
    requires Lone(s, t) && (s.inFlight || s.frozen.None? || s.lastErr) && n >= 2
    ensures FlushFrom(s, t, first, io, n).Ends? && FlushFrom(s, t, first, io, n) == FlushFrom(s, t, first, io, 2)
  {
    hide FlushAfter, JobRound, Can, Do, Run;
    if !s.inFlight || JobRound(s, first).Loops? {
      var u := if s.inFlight then JobRound(s, first).at else s;
      AloneEndsIff(u, t, io);
      FlushStays(u, t, io, 2, n);
    }
  }

  /** The job in flight succeeds, or there is none and no error of an earlier one. */
  ghost predicate FirstWorks(s: State, first: JobFault)
    requires s.inFlight ==> OneJob(s)
  {
    if s.inFlight then JobEnd(s.queue[0].table, s.disk, first).JobOk? else !s.lastErr
  }

  /**
    What it returns: success exactly when the job in flight succeeds, no earlier error is
    pending and, if there is anything to write, no file operation fails and the format can
    hold the table. Then nothing is left in memory. An error is reported once.
   */
  lemma FlushResult(s: State, t: Tid, first: JobFault, io: Faults)
    requires Lone(s, t) && (s.inFlight || s.frozen.None? || s.lastErr)
    ensures var u, r := Waits(s, first).at, FlushFrom(s, t, first, io, 2);
      && r.Ends? && (r.ok <==> FirstWorks(s, first) && (s.active == map[] || RoundWorks(u, io))) && !r.at.lastErr
      && (r.ok ==> r.at.active == map[] && r.at.frozen.None?)
  {
    hide FlushAfter, JobRound, Run, RoundWorks, JobEnd;
    if !s.inFlight {
      AloneResult(s, t, io);
    } else if JobRound(s, first).Loops? {
      AloneResult(JobRound(s, first).at, t, io);
    }
  }
}
