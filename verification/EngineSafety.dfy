/**
  What a crash can take from here on, however a disciplined history goes on: from
  durable states nothing. Nothing either once the frozen table is one that can never
  leave its slot, though flushers overlap or writes fall between freeze and rotation.
 */
module EngineSafety {
  import opened Bytes
  import opened Records
  import opened EngineModel
  import opened EngineLayers
  import opened EngineVisible
  import opened EngineDurable
  import opened EngineRecovery
  import opened EngineFiles
  import EngineBuilds
  import EngineStuck
  import WalFormat

  /** Some disciplined run leads from `s` to `u`. */
  ghost predicate Reaches(s: State, u: State) {
    exists acts: seq<Action> :: DisciplinedRun(s, acts) && Run(s, acts) == Some(u)
  }

  /** A crash here keeps every operation. */
  ghost predicate CrashSafe(s: State) {
    forall k: Str :: IsHighest(Elems(s.log), k, GetEntry(Open(s.disk, s.log), k))
  }

  /** However the history goes on, within the discipline, a crash keeps every operation. */
  ghost predicate SafeFromHere(s: State) {
    forall u :: Reaches(s, u) ==> CrashSafe(u)
  }

  lemma ReachSelf(s: State)
    ensures Reaches(s, s)
  {
    assert DisciplinedRun(s, []) && Run(s, []) == Some(s);
  }

  lemma ReachStep(s: State, m: State, a: Action)
    requires Reaches(s, m) && Can(m, a) && Disciplined(m, a)
    ensures Reaches(s, Do(m, a))
  {
    hide Can, Do, Disciplined;
    var acts :| DisciplinedRun(s, acts) && Run(s, acts) == Some(m);
    var more := acts + [a];
    assert more[..|more| - 1] == acts;
    assert DisciplinedRun(s, more) && Run(s, more) == Some(Do(m, a));
  }

  lemma {:induction false} DurableStays(s: State, acts: seq<Action>)
    requires Durable(s) && DisciplinedRun(s, acts) && Run(s, acts).Some?
    ensures Durable(Run(s, acts).value)
  {
    hide Can, Do, Durable, Disciplined;
    if acts != [] {
      DurableStays(s, acts[..|acts| - 1]);
      EveryStepDurable(Run(s, acts[..|acts| - 1]).value, acts[|acts| - 1]);
    }
  }

  lemma DurableCrashSafe(s: State)
    requires Durable(s)
    ensures CrashSafe(s)
  {
    hide Durable, Open, GetEntry, IsHighest;
    CrashDurable(s);
    OpenApplied(s.disk, s.log);
    forall k: Str ensures IsHighest(Elems(s.log), k, GetEntry(Open(s.disk, s.log), k)) {
      AnswersOf(Open(s.disk, s.log), k);
    }
  }

  lemma DurableIsSafe(s: State)
    requires Durable(s)
    ensures SafeFromHere(s)
  {
    hide Durable, DisciplinedRun, Run, CrashSafe;
    forall u | Reaches(s, u) ensures CrashSafe(u) {
      var acts: seq<Action> :| DisciplinedRun(s, acts) && Run(s, acts) == Some(u);
      DurableStays(s, acts);
      DurableCrashSafe(u);
    }
  }

  // ---------------------------------------------------------------------
  // Behind a table that cannot leave
  // ---------------------------------------------------------------------

  /** The flushers that hold a job. */
  function Carriers(fs: map<Tid, Flusher>): map<Tid, Flusher> {
    map t | t in fs && !fs[t].Idle? && !fs[t].Waited? :: fs[t]
  }

  /** The state without the flushers that hold no job. */
  function Quieted(s: State): State { s.(flushers := Carriers(s.flushers)) }

  /** The frozen table, or else the next one to be, is one the format cannot hold. */
  ghost predicate Doomed(s: State) {
    if s.frozen.Some? then !CanBuild(s.frozen.value) else !CanBuild(Settled(s))
  }

  /** With nothing frozen, no job and no flusher past a freeze. */
  ghost predicate Calm(s: State) {
    s.frozen.None? ==> !s.inFlight && !s.lastErr && s.queue == [] && s.worker.Resting? && Quieted(s).flushers == map[]
  }

  /** Durable but for flushers past their wait, none of which can bring a table to disk. */
  ghost predicate Blocked(s: State) {
    Durable(Quieted(s)) && OnlyBuilt(s) && (EngineStuck.Stuck(s) || (Doomed(s) && Calm(s)))
  }

  lemma QuietedRunning(s: State)
    requires Running(s)
    ensures Running(Quieted(s))
  {
    hide WalFormat.Accepted, Ordered, Within, AnswersHighest;
    var u := Quieted(s);
    assert Layers(u) == Layers(s) && Applied(u) == Applied(s);
    forall h ensures HeldJob(u, h) == HeldJob(s, h) {}
    if h :| HeldJob(s, h).Some? { assert HeldJob(u, h).Some?; }
  }

  lemma QuietedPcs(s: State)
    ensures forall t :: PcOf(Quieted(s), t) == if PcOf(s, t).Waited? then Idle else PcOf(s, t)
  {
  }

  lemma QuietedLogged(s: State)
    requires Logged(s) && Staged(s)
    ensures Logged(Quieted(s)) && Staged(Quieted(s))
  {
    hide TableOf, Unfrozen, AfterRotation, BeforeRotation;
    QuietedPcs(s);
    LoggedSame(s, Quieted(s));
  }

  lemma QuietedSingle(s: State)
    requires Single(s) && DiskFiles(s) && LogsWithin(s)
    ensures Single(Quieted(s)) && DiskFiles(Quieted(s)) && LogsWithin(Quieted(s))
  {
    QuietedPcs(s);
    assert forall id :: Listed(Quieted(s), id) == Listed(s, id);
  }

  lemma QuietedDurable(s: State)
    requires Durable(s)
    ensures Durable(Quieted(s))
  {
    hide Running, Logged, Staged, Single, DiskFiles, LogsWithin, Quieted;
    QuietedRunning(s);
    QuietedLogged(s);
    QuietedSingle(s);
  }

  lemma CarriersMove(fs: map<Tid, Flusher>, t: Tid, pc: Flusher)
    ensures Carriers(Carriers(fs)) == Carriers(fs) && Carriers(Carriers(fs)[t := pc]) == Carriers(fs[t := pc])
  {
  }

  lemma LockQuieted(s: State)
    requires WalLockFree(s)
    ensures WalLockFree(Quieted(s))
  {
  }

  /** A step that is no freeze and moves no waiting flusher is a step of the quieted state. */
  lemma QuietedStep(s: State, a: Action)
    requires Can(s, a) && Disciplined(s, a) && !a.Crash? && !a.Freeze? && !a.WaitPass? && !a.Skip?
    ensures Can(Quieted(s), a) && Disciplined(Quieted(s), a)
    ensures Quieted(Do(Quieted(s), a)) == Quieted(Do(s, a))
  {
    hide Can, Do, Disciplined, Quieted;
    if FlusherStep(a) { QuietedFlusherStep(s, a); } else { QuietedOtherStep(s, a); }
  }

  lemma QuietedOtherStep(s: State, a: Action)
    requires Can(s, a) && Disciplined(s, a) && !a.Crash? && !FlusherStep(a)
    ensures Can(Quieted(s), a) && Disciplined(Quieted(s), a)
    ensures Quieted(Do(Quieted(s), a)) == Quieted(Do(s, a))
  {
    hide WalFormat.Accepted, Apply, CanBuild, WalLockFree, Carriers;
    if a.Append? || a.Refuse? { LockQuieted(s); }
    if a.Append? { FrozeQuieted(s); }
    CarriersMove(s.flushers, 0, Idle);
  }

  lemma FrozeQuieted(s: State)
    requires forall t :: t in s.flushers ==> !s.flushers[t].Froze?
    ensures forall t :: t in Quieted(s).flushers ==> !Quieted(s).flushers[t].Froze?
  {
  }

  lemma QuietedFlusherStep(s: State, a: Action)
    requires Can(s, a) && FlusherStep(a) && !a.Freeze? && !a.WaitPass? && !a.Skip?
    ensures Can(Quieted(s), a) && Disciplined(Quieted(s), a)
    ensures Quieted(Do(Quieted(s), a)) == Quieted(Do(s, a))
  {
    hide Can, Do, Quieted;
    if a.RotFail? { QuietedFails(s, a.t); } else if RotationStep(a) { QuietedRotates(s, a); } else { QuietedSends(s, a); }
  }

  lemma QuietedRotates(s: State, a: Action)
    requires Can(s, a) && (a.RotClear? || a.RotRename? || a.RotCreate?)
    ensures Can(Quieted(s), a) && Quieted(Do(Quieted(s), a)) == Quieted(Do(s, a))
  {
    hide WalLockFree, Carriers, PcOf;
    QuietedPcs(s);
    var t := a.t;
    if a.RotClear? {
      LockQuieted(s);
      CarriersMove(s.flushers, t, Cleared(PcOf(s, t).job));
    } else if a.RotRename? {
      CarriersMove(s.flushers, t, Renamed(PcOf(s, t).job));
    } else {
      CarriersMove(s.flushers, t, Rotated(PcOf(s, t).job));
    }
  }

  lemma QuietedFails(s: State, t: Tid)
    requires Can(s, RotFail(t))
    ensures Can(Quieted(s), RotFail(t)) && Quieted(Do(Quieted(s), RotFail(t))) == Quieted(Do(s, RotFail(t)))
  {
    hide WalLockFree, Carriers, PcOf;
    QuietedPcs(s);
    if WalLockFree(s) { LockQuieted(s); }
    CarriersMove(s.flushers, t, Idle);
  }

  lemma QuietedSends(s: State, a: Action)
    requires Can(s, a) && (a.Mark? || a.Send?)
    ensures Can(Quieted(s), a) && Quieted(Do(Quieted(s), a)) == Quieted(Do(s, a))
  {
    hide Carriers, PcOf;
    QuietedPcs(s);
    CarriersMove(s.flushers, a.t, if a.Mark? then Marked(PcOf(s, a.t).job) else Idle);
  }

  /** A wait or a skip changes nothing in the quieted state. */
  lemma QuietedWait(s: State, a: Action)
    requires Can(s, a) && (a.WaitPass? || a.Skip?)
    ensures Quieted(Do(s, a)) == Quieted(s)
  {
    assert Quieted(Do(s, a)).flushers == Quieted(s).flushers;
  }

  /** A freeze is a wait and a freeze of the quieted state. */
  lemma QuietedFreeze(s: State, t: Tid)
    requires Can(s, Freeze(t)) && Calm(s)
    ensures var q := Quieted(s);
      && Can(q, WaitPass(t)) && Disciplined(q, WaitPass(t))
      && Can(Do(q, WaitPass(t)), Freeze(t)) && Disciplined(Do(q, WaitPass(t)), Freeze(t))
      && Do(Do(q, WaitPass(t)), Freeze(t)) == Quieted(Do(s, Freeze(t)))
  {
    var q := Quieted(s);
    var u := Do(s, Freeze(t));
    forall x | x in u.flushers && x != t ensures u.flushers[x].Idle? || u.flushers[x].Waited? {
      assert x in s.flushers && x !in q.flushers;
    }
    assert Quieted(u).flushers == map[t := u.flushers[t]];
    assert map[][t := Waited][t := u.flushers[t]] == map[t := u.flushers[t]];
  }

  lemma BlockedDurable(s: State, a: Action)
    requires Blocked(s) && Can(s, a) && Disciplined(s, a) && !a.Crash?
    ensures Durable(Quieted(Do(s, a)))
  {
    hide Durable, Can, Do, Disciplined, Quieted, OnlyBuilt, Doomed, Calm, EngineStuck.Stuck;
    if a.WaitPass? || a.Skip? {
      QuietedWait(s, a);
    } else if a.Freeze? {
      if EngineStuck.Stuck(s) { EngineStuck.StuckRefuses(s, a); }
      QuietedFreeze(s, a.t);
      EveryStepDurable(Quieted(s), WaitPass(a.t));
      EveryStepDurable(Do(Quieted(s), WaitPass(a.t)), a);
    } else {
      QuietedStep(s, a);
      EveryStepDurable(Quieted(s), a);
      QuietedDurable(Do(Quieted(s), a));
    }
  }

  lemma FilesQuieted(s: State)
    requires Durable(Quieted(s))
    ensures Files(s) && OneFlush(s)
  {
    hide History, Reads, IdOrder, Logged, Staged, Single, DiskFiles, LogsWithin;
    var q := Quieted(s);
    forall h ensures HeldJob(q, h) == HeldJob(s, h) {}
    if s.frozen.Some? && !s.broken {
      var h :| HeldJob(q, h).Some?;
      assert HeldJob(s, h).Some?;
    }
  }

  /** A frozen table the format cannot hold stays frozen. */
  lemma DoomedFrozen(s: State, a: Action)
    requires Can(s, a) && !a.Crash? && s.frozen.Some? && Doomed(s) && OnlyBuilt(s) && Files(s) && OneFlush(s)
    ensures Do(s, a).frozen == s.frozen
  {
    hide Can, Do, CanBuild, OnlyBuilt, Files, OneFlush;
    if a.Install? {
      EngineStuck.InstallsBuilt(s);
      InstallsFrozen(s);
    } else {
      FrozenKept(s, a);
    }
  }

  lemma InstallsFrozen(s: State)
    requires Can(s, Install) && OneFlush(s)
    ensures s.frozen == Some(s.worker.job.table)
  {
    assert HeldJob(s, AtWorker).Some?;
  }

  lemma FrozenKept(s: State, a: Action)
    requires Can(s, a) && !a.Crash? && !a.Install? && s.frozen.Some?
    ensures Do(s, a).frozen == s.frozen
  {
    hide Can, Do;
    if a.Publish? { PublishKept(s); } else { FilesUntouched(s, a); }
  }

  lemma PublishKept(s: State)
    requires Can(s, Publish)
    ensures Do(s, Publish).frozen == s.frozen
  {
  }

  /** With nothing frozen, only writes change what would be frozen next, and they only add to it. */
  lemma DoomedActive(s: State, a: Action)
    requires Can(s, a) && !a.Crash? && s.frozen.None? && Doomed(s) && Calm(s) && Running(Quieted(s))
    ensures Doomed(Do(s, a)) && Calm(Do(s, a))
  {
    hide CanBuild, WalFormat.Accepted, Running;
    var q := Quieted(s);
    forall t ensures PcOf(s, t).Idle? || PcOf(s, t).Waited? { assert t !in q.flushers; }
    if a.Append? {
      hide Apply;
      ActiveLoggable(q);
      if CanBuild(Apply(s.active, a.r)) { EngineBuilds.BuildsSmaller(s.active, a.r); }
    } else if a.WaitPass? || a.Skip? {
      QuietedWait(s, a);
    }
  }

  lemma ActiveLoggable(s: State)
    requires Running(s)
    ensures EngineBuilds.Loggable(s.active)
  {
    hide OneFlush, Files, IdOrder, WalFormat.Accepted, Newest;
    assert Layers(s)[0] == s.active;
    EngineBuilds.LayerLoggable(s, 0);
  }

  lemma BlockedStep(s: State, a: Action)
    requires Blocked(s) && Can(s, a) && Disciplined(s, a) && !a.Crash?
    ensures Blocked(Do(s, a))
  {
    hide Durable, Can, Do, Disciplined, Quieted, OnlyBuilt, EngineStuck.Stuck, CanBuild, Settled;
    BlockedDurable(s, a);
    FilesQuieted(s);
    KeepsOnlyBuilt(s, a);
    if EngineStuck.Stuck(s) {
      EngineStuck.StuckStep(s, a);
    } else if s.frozen.Some? {
      DoomedFrozen(s, a);
    } else {
      QuietedIsRunning(s);
      DoomedActive(s, a);
    }
  }

  lemma QuietedIsRunning(s: State)
    requires Durable(Quieted(s))
    ensures Running(Quieted(s))
  {
    hide Running, Quieted;
  }

  lemma BlockedCrash(s: State)
    requires Blocked(s)
    ensures Durable(Open(s.disk, s.log)) && CrashSafe(s)
  {
    hide Durable, Open, GetEntry, IsHighest, OnlyBuilt, Doomed, Calm, EngineStuck.Stuck;
    CrashDurable(Quieted(s));
    DurableCrashSafe(Quieted(s));
  }

  lemma CrashOpens(s: State)
    ensures Do(s, Crash) == Open(s.disk, s.log)
  {
    hide Open;
  }

  lemma {:induction false} BlockedRuns(s: State, acts: seq<Action>)
    requires Blocked(s) && DisciplinedRun(s, acts) && Run(s, acts).Some?
    ensures Durable(Run(s, acts).value) || Blocked(Run(s, acts).value)
  {
    hide Can, Do, Disciplined, Durable, Blocked;
    if acts != [] {
      var init, a := acts[..|acts| - 1], acts[|acts| - 1];
      BlockedRuns(s, init);
      var m := Run(s, init).value;
      if Durable(m) {
        EveryStepDurable(m, a);
      } else if a.Crash? {
        CrashOpens(m);
        BlockedCrash(m);
      } else {
        BlockedStep(m, a);
      }
    }
  }

  /** Behind a table that cannot leave its slot, any number of flushers past the wait lose nothing. */
  lemma BlockedIsSafe(s: State)
    requires Blocked(s)
    ensures SafeFromHere(s)
  {
    hide Durable, DisciplinedRun, Run, CrashSafe, Blocked;
    forall u | Reaches(s, u) ensures CrashSafe(u) {
      var acts: seq<Action> :| DisciplinedRun(s, acts) && Run(s, acts) == Some(u);
      BlockedRuns(s, acts);
      if Durable(u) { DurableCrashSafe(u); } else { BlockedCrash(u); }
    }
  }

  lemma BlockedPass(s: State, v: Tid)
    requires Durable(s) && OnlyBuilt(s) && Can(s, WaitPass(v)) && (EngineStuck.Stuck(s) || Doomed(s))
    ensures Blocked(Do(s, WaitPass(v)))
  {
    hide Durable, CanBuild, OnlyBuilt, Quieted;
    var a := Do(s, WaitPass(v));
    QuietedDurable(s);
    QuietedWait(s, WaitPass(v));
    OnlyBuiltMoves(s, a);
    CalmWait(s, v);
    if EngineStuck.Stuck(s) { EngineStuck.StuckStep(s, WaitPass(v)); }
  }

  lemma OnlyBuiltMoves(s: State, u: State)
    requires OnlyBuilt(s) && u.disk == s.disk && u.worker == s.worker
    ensures OnlyBuilt(u)
  {
    hide CanBuild;
  }

  lemma CalmWait(s: State, v: Tid)
    requires Durable(s) && Can(s, WaitPass(v))
    ensures Calm(Do(s, WaitPass(v)))
  {
    hide History, Reads, Files, IdOrder, Logged, Staged, DiskFiles, LogsWithin, OneFlush;
    var a := Do(s, WaitPass(v));
    if s.frozen.None? {
      NoFlusherInside(s);
      assert forall t :: t in a.flushers && t != v ==> a.flushers[t] == PcOf(s, t);
      assert Quieted(a).flushers == map[];
    }
  }

  // ---------------------------------------------------------------------
  // Writing behind a freeze
  // ---------------------------------------------------------------------

  /** What recovery replays. */
  function LogText(d: Disk): seq<Rec> { Content(d.walFlush) + Content(d.wal) }

  /** A frozen table the format cannot hold, and a worker that has not got past taking it. */
  ghost predicate Trap(s: State) {
    OneFlush(s) && s.frozen.Some? && !CanBuild(s.frozen.value) && (s.worker.Resting? || s.worker.Took?)
  }

  /** `m` has nothing frozen and nobody flushing, and a crash cannot tell it from `s`. */
  ghost predicate Shadows(m: State, s: State) {
    && m.frozen.None? && m.walOpen && m.disk.wal.Some? && m.flushers == map[] && m.queue == [] && m.worker.Resting?
    && m.log == s.log && m.nextSn == s.nextSn && m.pending == s.pending
    && m.disk.sst == s.disk.sst && LogText(m.disk) == LogText(s.disk)
  }

  /** What a rotation finds at each step: both logs as in the shadow, then no flush log, then no log. */
  ghost predicate LogsAlike(m: State, s: State) {
    && (forall t :: PcOf(s, t).Froze? ==> m.disk.wal == s.disk.wal && m.disk.walFlush == s.disk.walFlush)
    && (forall t :: PcOf(s, t).Cleared? ==> s.disk.walFlush.None?)
    && (forall t :: PcOf(s, t).Renamed? ==> s.disk.wal.None?)
  }

  ghost predicate Trapped(s: State, m: State) {
    Trap(s) && Durable(m) && Shadows(m, s) && LogsAlike(m, s)
  }

  /** The table stays, and the worker never gets to a file. */
  lemma TrapStep(s: State, a: Action)
    requires Trap(s) && Can(s, a) && !a.Crash?
    ensures !a.Freeze? && !a.Build? && !a.Publish? && !a.Install? && !a.Unlink? && !a.Done?
    ensures Trap(Do(s, a))
  {
    hide Can, Do, CanBuild, OneFlush;
    TrapRefuses(s, a);
    KeepsToken(s, a);
    FrozenKept(s, a);
    TrapWorker(s, a);
  }

  lemma TrapRefuses(s: State, a: Action)
    requires Trap(s) && Can(s, a)
    ensures !a.Freeze? && !a.Build? && !a.Publish? && !a.Install? && !a.Unlink? && !a.Done?
  {
    hide CanBuild, WalLockFree, OneFlush;
    if s.worker.Took? { TookFrozen(s); }
  }

  lemma TookFrozen(s: State)
    requires OneFlush(s) && s.worker.Took?
    ensures s.frozen == Some(s.worker.job.table)
  {
    assert HeldJob(s, AtWorker).Some?;
  }

  lemma TrapWorker(s: State, a: Action)
    requires Can(s, a) && !a.Crash? && !a.Build? && !a.Publish? && !a.Install? && !a.Unlink?
    requires s.worker.Resting? || s.worker.Took?
    ensures Do(s, a).worker.Resting? || Do(s, a).worker.Took?
  {
    hide CanBuild, WalLockFree, PcOf, Apply, WalFormat.Accepted;
  }

  /** A writer's step is a step of the shadow. */
  lemma TrapWrites(s: State, m: State, a: Action)
    requires Trapped(s, m) && Can(s, a) && WriterStep(a)
    ensures Can(m, a) && Trapped(Do(s, a), Do(m, a))
  {
    hide CanBuild, Durable, Trap, WalFormat.Accepted, Apply;
    TrapStep(s, a);
    assert Disciplined(m, a);
    EveryStepDurable(m, a);
    assert forall t :: PcOf(Do(s, a), t) == PcOf(s, t);
    if a.Append? {
      assert LogText(Do(s, a).disk) == LogText(s.disk) + [a.r];
      assert LogText(Do(m, a).disk) == LogText(m.disk) + [a.r];
    }
  }

  /** A flush log left over from an earlier flush is not needed. */
  lemma DropStale(m: State)
    requires Durable(m) && m.frozen.None? && m.flushers == map[] && m.queue == [] && m.worker.Resting?
    ensures Durable(m.(disk := m.disk.(walFlush := None)))
  {
    hide WalFormat.Accepted, Ordered, Within, AnswersHighest, TableOf, Elems;
    var u := m.(disk := m.disk.(walFlush := None));
    NothingInEmpty();
    assert Layers(u) == Layers(m) && Applied(u) == Applied(m);
    forall h ensures HeldJob(u, h) == HeldJob(m, h) {}
    assert forall id :: Listed(u, id) == Listed(m, id);
  }

  /** The old flush log goes; the shadow goes without it as well. */
  lemma TrapClears(s: State, m: State, t: Tid)
    requires Trapped(s, m) && Can(s, RotClear(t))
    ensures Trapped(Do(s, RotClear(t)), m.(disk := m.disk.(walFlush := None)))
  {
    hide CanBuild, Durable, Trap, WalLockFree;
    TrapStep(s, RotClear(t));
    DropStale(m);
    var u := Do(s, RotClear(t));
    assert PcOf(u, t).Cleared? && forall x :: x != t ==> PcOf(u, x) == PcOf(s, x);
  }

  /** The one flusher past a freeze. */
  lemma OnlyFlusher(s: State, t: Tid)
    requires Trap(s) && FlusherJob(PcOf(s, t)).Some?
    ensures forall x :: x != t ==> PcOf(s, x).Idle? || PcOf(s, x).Waited?
  {
    hide CanBuild;
    assert HeldJob(s, AtFlusher(t)).Some?;
    forall x | x != t ensures PcOf(s, x).Idle? || PcOf(s, x).Waited? { assert HeldJob(s, AtFlusher(x)).None?; }
  }

  /** The log is renamed, or a new one created: what recovery replays is the same. */
  lemma TrapRotates(s: State, m: State, a: Action)
    requires Trapped(s, m) && Can(s, a) && (a.RotRename? || a.RotCreate?)
    ensures Trapped(Do(s, a), m)
  {
    hide CanBuild, Durable, Trap, FlusherJob;
    TrapStep(s, a);
    HasJob(s, a);
    OnlyFlusher(s, a.t);
    var u := Do(s, a);
    assert forall x :: x != a.t ==> PcOf(u, x) == PcOf(s, x);
    assert LogText(u.disk) == LogText(s.disk);
  }

  lemma HasJob(s: State, a: Action)
    requires Can(s, a) && (a.RotRename? || a.RotCreate?)
    ensures FlusherJob(PcOf(s, a.t)).Some?
  {
  }

  /** Other steps leave the logs, the files and the history alone. */
  lemma TrapOthers(s: State, m: State, a: Action)
    requires Trapped(s, m) && Can(s, a) && !a.Crash? && !WriterStep(a)
    requires !a.RotClear? && !a.RotRename? && !a.RotCreate?
    ensures Trapped(Do(s, a), m)
  {
    hide CanBuild, Durable, Trap, WalLockFree;
    TrapStep(s, a);
    if FlusherStep(a) {
      assert forall x :: x != a.t ==> PcOf(Do(s, a), x) == PcOf(s, x);
    } else {
      assert forall x :: PcOf(Do(s, a), x) == PcOf(s, x);
    }
  }

  lemma TrappedStep(s: State, m: State, a: Action) returns (n: State)
    requires Trapped(s, m) && Can(s, a) && !a.Crash?
    ensures Trapped(Do(s, a), n)
  {
    hide Trapped, Can, Do;
    n := m;
    if WriterStep(a) {
      TrapWrites(s, m, a);
      n := Do(m, a);
    } else if a.RotClear? {
      TrapClears(s, m, a.t);
      n := m.(disk := m.disk.(walFlush := None));
    } else if a.RotRename? || a.RotCreate? {
      TrapRotates(s, m, a);
    } else {
      TrapOthers(s, m, a);
    }
  }

  /** A crash opens the shadow's tables from the state's disk. */
  lemma OpensAlike(s: State, m: State)
    requires Shadows(m, s)
    ensures var u, v := Open(s.disk, s.log), Open(m.disk, m.log); u == v.(disk := u.disk)
  {
    hide SortedSsts, MaxSnOf, NextSst, Fold, MaxSn, RecoveredDisk;
  }

  lemma TextWithin(s: State, m: State)
    requires LogsWithin(m) && m.log == s.log && LogText(m.disk) == LogText(s.disk)
    ensures LogsWithin(s)
  {
    hide Elems;
    ElemsConcat(Content(s.disk.walFlush), Content(s.disk.wal));
    ElemsConcat(Content(m.disk.walFlush), Content(m.disk.wal));
  }

  lemma TrappedCrash(s: State, m: State)
    requires Trapped(s, m)
    ensures Durable(Open(s.disk, s.log)) && CrashSafe(s)
  {
    hide Durable, Open, GetEntry, IsHighest, Trap, Shadows, LogsAlike;
    CrashDurable(m);
    DurableCrashSafe(m);
    OpensAlike(s, m);
    SameLog(s, m);
    SameAnswers(Open(s.disk, s.log), Open(m.disk, m.log));
    DurableAlike(s, m);
  }

  lemma SameLog(s: State, m: State)
    requires Shadows(m, s)
    ensures m.log == s.log
  {
  }

  lemma SameAnswers(u: State, v: State)
    requires u == v.(disk := u.disk)
    ensures forall k :: GetEntry(u, k) == GetEntry(v, k)
  {
    assert Layers(u) == Layers(v);
    hide Layers, FirstHit;
  }

  lemma DurableAlike(s: State, m: State)
    requires Trapped(s, m) && Durable(Open(m.disk, m.log))
    ensures Durable(Open(s.disk, s.log))
  {
    hide Trap, LogsAlike, Open, History, Reads, OneFlush, Files, IdOrder, Logged, Staged, Single, DiskFiles, LogsWithin;
    OpensAlike(s, m);
    ReadsAlike(Open(s.disk, s.log), Open(m.disk, m.log));
    ReopenStructure(s.disk, s.log);
    TextWithin(s, m);
    ReopenLogs(s);
  }

  /** The history and what reads see do not depend on the disk. */
  lemma ReadsAlike(u: State, v: State)
    requires u == v.(disk := u.disk) && History(v) && Reads(v)
    ensures History(u) && Reads(u)
  {
    hide WalFormat.Accepted, Ordered, Within, AnswersHighest;
    assert Layers(u) == Layers(v) && Applied(u) == Applied(v);
  }

  lemma {:induction false} TrappedRuns(s: State, m: State, acts: seq<Action>)
    requires Trapped(s, m) && DisciplinedRun(s, acts) && Run(s, acts).Some?
    ensures var u := Run(s, acts).value; Durable(u) || exists n :: Trapped(u, n)
  {
    hide Can, Do, Disciplined, Durable, Trapped;
    if acts != [] {
      var init, a := acts[..|acts| - 1], acts[|acts| - 1];
      TrappedRuns(s, m, init);
      var u := Run(s, init).value;
      if Durable(u) {
        EveryStepDurable(u, a);
      } else {
        var n :| Trapped(u, n);
        if a.Crash? {
          CrashOpens(u);
          TrappedCrash(u, n);
        } else {
          var n' := TrappedStep(u, n, a);
        }
      }
    }
  }

  lemma TrappedIsSafe(s: State, m: State)
    requires Trapped(s, m)
    ensures SafeFromHere(s)
  {
    hide Durable, DisciplinedRun, Run, CrashSafe, Trapped;
    forall u | Reaches(s, u) ensures CrashSafe(u) {
      var acts: seq<Action> :| DisciplinedRun(s, acts) && Run(s, acts) == Some(u);
      TrappedRuns(s, m, acts);
      if Durable(u) {
        DurableCrashSafe(u);
      } else {
        var n :| Trapped(u, n);
        TrappedCrash(u, n);
      }
    }
  }

  /** Just past a freeze, the shadow is the state before it. */
  function Thawed(s: State): State
    requires s.frozen.Some?
  {
    s.(active := s.frozen.value, frozen := None, flushers := map[], walOpen := true)
  }

  lemma ThawedReads(s: State)
    requires Reads(s) && s.frozen.Some? && s.active == map[]
    ensures Reads(Thawed(s))
  {
    hide Newest;
    var ls := Layers(Thawed(s));
    assert Layers(s) == [map[]] + ls && Applied(Thawed(s)) == Applied(s);
    EmptyRemoved(ls, Elems(Applied(s)));
  }

  lemma EmptyRemoved(ls: seq<Table>, rs: set<Rec>)
    requires var up := [map[]] + ls; Ordered(up) && Within(up, rs) && AnswersHighest(up, rs)
    ensures Ordered(ls) && Within(ls, rs) && AnswersHighest(ls, rs)
  {
    var up: seq<Table> := [map[]] + ls;
    assert up[1..] == ls;
    forall i | 0 <= i < |ls| ensures TableWithin(ls[i], rs) { assert up[i + 1] == ls[i]; }
    forall i, j, k | 0 <= i < j < |ls| && k in ls[i] && k in ls[j] ensures ls[j][k].sn <= ls[i][k].sn {
      assert up[i + 1] == ls[i] && up[j + 1] == ls[j];
    }
    forall k ensures IsHighest(rs, k, FirstHit(ls, k)) { assert IsHighest(rs, k, FirstHit(up, k)); }
  }

  lemma ThawedDurable(s: State, t: Tid)
    requires Durable(s) && OnlyBuilt(s) && PcOf(s, t).Froze? && s.frozen.Some? && !CanBuild(s.frozen.value)
    ensures Durable(Thawed(s)) && BeforeRotation(s) && s.worker.Resting? && s.queue == []
  {
    hide CanBuild, Running, TableOf;
    assert BeforeRotation(s) && !PcOf(s, t).Idle?;
    ThawedRunning(s);
    var m := Thawed(s);
    forall id | id in m.disk.sst ensures Listed(m, id) { assert Listed(s, id); }
  }

  lemma ThawedRunning(s: State)
    requires Running(s) && s.frozen.Some? && s.active == map[] && s.queue == [] && s.worker.Resting?
    ensures Running(Thawed(s))
  {
    hide WalFormat.Accepted, Reads;
    ThawedReads(s);
    forall h ensures HeldJob(Thawed(s), h).None? {}
  }

  lemma FrozeTraps(s: State, t: Tid)
    requires Durable(s) && OnlyBuilt(s) && PcOf(s, t).Froze? && s.frozen.Some? && !CanBuild(s.frozen.value)
    ensures Trapped(s, Thawed(s))
  {
    hide Durable, CanBuild, OnlyBuilt, OneFlush, TableOf;
    ThawedDurable(s, t);
    OneInCharge(s, t);
  }

  lemma OneInCharge(s: State, t: Tid)
    requires Durable(s) && PcOf(s, t).Froze?
    ensures OneFlush(s) && forall x :: PcOf(s, x).Froze? || PcOf(s, x).Idle?
  {
    hide Reads, History, Files, IdOrder, Logged, Staged, DiskFiles, LogsWithin, OneFlush;
    forall x ensures PcOf(s, x).Froze? || PcOf(s, x).Idle? { assert x != t ==> PcOf(s, x).Idle?; }
  }

  /** A write behind the freeze of a table the format cannot hold. */
  lemma TrappedWriteIsSafe(s: State, r: Rec, t: Tid)
    requires Durable(s) && OnlyBuilt(s) && Can(s, Append(r)) && PcOf(s, t).Froze?
    requires s.frozen.Some? && !CanBuild(s.frozen.value)
    ensures SafeFromHere(Do(s, Append(r)))
  {
    hide Durable, OnlyBuilt, CanBuild, SafeFromHere, Trapped, Can, Do, Thawed;
    FrozeTraps(s, t);
    var m := TrappedStep(s, Thawed(s), Append(r));
    TrappedIsSafe(Do(s, Append(r)), m);
  }
}
