/**
  What every step keeps on disk when flushers come one at a time and no write
  falls between a freeze and its rotation: logs and table files together always
  hold the latest operation on every key. Steps here do not include the crash.
 */
module EngineDurable {
  import opened Records
  import opened EngineModel
  import opened EngineVisible
  import WalFormat

  // ---------------------------------------------------------------------
  // Invariants
  // ---------------------------------------------------------------------

  /** The active table once a pending operation is applied. */
  function Settled(s: State): Table {
    if s.pending.Some? then Apply(s.active, s.pending.value) else s.active
  }

  /** A file's records, replayed into an empty table. */
  function TableOf(file: Option<seq<Rec>>): Table { Fold(map[], Content(file)) }

  /** The log of the active table replays to it. */
  ghost predicate ActiveLogged(s: State) { TableOf(s.disk.wal) == Settled(s) }

  /** A left-over wal.flush belongs to the newest table file. */
  ghost predicate FlushLogStale(s: State) {
    s.disk.walFlush.None? || (s.ssts != [] && TableOf(s.disk.walFlush) == s.ssts[|s.ssts| - 1].table)
  }

  ghost predicate Unfrozen(s: State) {
    && s.frozen.None? && s.walOpen && s.disk.wal.Some?
    && ActiveLogged(s) && FlushLogStale(s)
  }

  /** Frozen, its log already renamed. */
  ghost predicate AfterRotation(s: State) {
    && s.frozen.Some? && s.disk.walFlush.Some?
    && TableOf(s.disk.walFlush) == s.frozen.value && ActiveLogged(s)
  }

  /** Frozen, its log still in place: nothing written since. */
  ghost predicate BeforeRotation(s: State) {
    && s.frozen.Some? && s.disk.wal.Some? && TableOf(s.disk.wal) == s.frozen.value
    && s.active == map[] && s.pending.None? && FlushLogStale(s)
    && (s.walOpen ==> exists t :: PcOf(s, t).Froze?)
  }

  ghost predicate Logged(s: State) { Unfrozen(s) || AfterRotation(s) || BeforeRotation(s) }

  /** Which of the three holds, by where the flush is. */
  ghost predicate Staged(s: State) {
    && (forall t :: PcOf(s, t).Froze? || PcOf(s, t).Cleared? ==> BeforeRotation(s))
    && (forall t :: PcOf(s, t).Cleared? || PcOf(s, t).Renamed? ==> !s.walOpen)
    && (forall t :: PcOf(s, t).Renamed? ==> AfterRotation(s) && s.disk.wal.None?)
    && (forall t :: PcOf(s, t).Rotated? || PcOf(s, t).Marked? ==> AfterRotation(s) && s.walOpen && s.disk.wal.Some?)
    && (s.queue != [] || WorkerJob(s.worker).Some? ==> AfterRotation(s) && s.walOpen && s.disk.wal.Some?)
    && (s.worker.Installed? || s.worker.Unlinked? ==> s.frozen.None?)
  }

  /** One thread is in charge of flushing: a flusher, or else the worker. */
  ghost predicate Single(s: State) {
    && (forall t, u :: !PcOf(s, t).Idle? && !PcOf(s, u).Idle? ==> t == u)
    && (forall t :: !PcOf(s, t).Idle? ==> s.queue == [] && s.worker.Resting?)
    && (forall t :: PcOf(s, t).Marked? ==> s.inFlight)
    && (s.queue != [] ==> s.worker.Resting?)
    && (s.queue != [] || !s.worker.Resting? ==> s.inFlight)
  }

  /** Table files on disk are the listed ones, and possibly the frozen table's. */
  ghost predicate DiskFiles(s: State) {
    && (forall i :: 0 <= i < |s.ssts| ==> s.ssts[i].id in s.disk.sst && s.disk.sst[s.ssts[i].id] == s.ssts[i].table)
    && (forall id :: id in s.disk.sst ==>
          Listed(s, id) || (s.frozen.Some? && id + 1 == s.nextSst && s.disk.sst[id] == s.frozen.value))
  }

  ghost predicate Listed(s: State, id: nat) { exists i :: 0 <= i < |s.ssts| && s.ssts[i].id == id }

  /** The logs hold nothing but appended operations. */
  ghost predicate LogsWithin(s: State) {
    Elems(Content(s.disk.wal)) <= Elems(s.log) && Elems(Content(s.disk.walFlush)) <= Elems(s.log)
  }

  ghost predicate Durable(s: State) {
    Running(s) && Logged(s) && Staged(s) && Single(s) && DiskFiles(s) && LogsWithin(s)
  }

  // ---------------------------------------------------------------------
  // Logs
  // ---------------------------------------------------------------------

  lemma TableAppend(file: seq<Rec>, r: Rec)
    ensures TableOf(Some(file + [r])) == Apply(TableOf(Some(file)), r)
  {
    assert (file + [r])[..|file|] == file;
  }

  /** Writers append only when the active log is the active table's. */
  lemma WriterSeesActiveLog(s: State, r: Rec)
    requires Can(s, Append(r)) && Disciplined(s, Append(r)) && Logged(s)
    ensures ActiveLogged(s) && s.pending.None? && !BeforeRotation(s)
  {
    hide Fold, WalFormat.Accepted;
    assert forall t :: !PcOf(s, t).Froze?;
  }

  lemma AppendLogged(s: State, r: Rec)
    requires Can(s, Append(r)) && Disciplined(s, Append(r)) && Logged(s) && Staged(s)
    ensures Logged(Do(s, Append(r))) && Staged(Do(s, Append(r)))
  {
    WriterSeesActiveLog(s, r);
    TableAppend(s.disk.wal.value, r);
    hide TableOf, WalFormat.Accepted, BeforeRotation, Apply;
    var u := Do(s, Append(r));
    assert forall t :: PcOf(u, t) == PcOf(s, t);
    assert ActiveLogged(u);
  }

  lemma ApplyLogged(s: State)
    requires Can(s, ApplyPending) && Logged(s) && Staged(s)
    ensures Logged(Do(s, ApplyPending)) && Staged(Do(s, ApplyPending))
  {
    hide TableOf, Apply;
    var u := Do(s, ApplyPending);
    assert forall t :: PcOf(u, t) == PcOf(s, t);
    assert Settled(u) == Settled(s);
  }

  /** No flusher is inside a flush while the frozen slot is empty. */
  lemma NoFlusherInside(s: State)
    requires OneFlush(s) && s.frozen.None?
    ensures forall t :: PcOf(s, t).Idle? || PcOf(s, t).Waited?
  {
    forall t ensures PcOf(s, t).Idle? || PcOf(s, t).Waited? { assert HeldJob(s, AtFlusher(t)).None?; }
  }

  lemma FreezeLogged(s: State, t: Tid)
    requires Can(s, Freeze(t)) && Logged(s) && Staged(s) && OneFlush(s) && Single(s)
    ensures Logged(Do(s, Freeze(t))) && Staged(Do(s, Freeze(t)))
  {
    NoFlusherInside(s);
    hide TableOf, OneFlush;
    var u := Do(s, Freeze(t));
    assert PcOf(u, t).Froze?;
    assert forall x :: x != t ==> PcOf(u, x) == PcOf(s, x);
    assert BeforeRotation(u);
  }

  /** The three cases look at logs and tables only, and at who is just past a freeze. */
  lemma LoggedSame(s: State, u: State)
    requires u.active == s.active && u.frozen == s.frozen && u.ssts == s.ssts && u.pending == s.pending
    requires u.walOpen == s.walOpen && u.disk.wal == s.disk.wal && u.disk.walFlush == s.disk.walFlush
    requires forall x :: PcOf(u, x).Froze? == PcOf(s, x).Froze?
    ensures Unfrozen(u) == Unfrozen(s) && AfterRotation(u) == AfterRotation(s)
    ensures BeforeRotation(u) == BeforeRotation(s)
  {
    hide TableOf;
    if BeforeRotation(s) && s.walOpen {
      var x :| PcOf(s, x).Froze?;
      assert PcOf(u, x).Froze?;
    }
    if BeforeRotation(u) && u.walOpen {
      var x :| PcOf(u, x).Froze?;
      assert PcOf(s, x).Froze?;
    }
  }

  lemma ClearLogged(s: State, t: Tid)
    requires Can(s, RotClear(t)) && Staged(s) && Single(s)
    ensures Logged(Do(s, RotClear(t))) && Staged(Do(s, RotClear(t)))
  {
    hide TableOf;
    var u := Do(s, RotClear(t));
    assert PcOf(s, t).Froze? && PcOf(u, t).Cleared?;
    assert forall x :: x != t ==> PcOf(u, x) == PcOf(s, x) && PcOf(s, x).Idle?;
    assert BeforeRotation(u);
  }

  lemma RenameLogged(s: State, t: Tid)
    requires Can(s, RotRename(t)) && Staged(s) && Single(s)
    ensures Logged(Do(s, RotRename(t))) && Staged(Do(s, RotRename(t)))
  {
    EmptyLogs();
    hide TableOf;
    var u := Do(s, RotRename(t));
    assert PcOf(s, t).Cleared? && PcOf(u, t).Renamed?;
    assert forall x :: x != t ==> PcOf(u, x) == PcOf(s, x) && PcOf(s, x).Idle?;
    assert AfterRotation(u);
  }

  lemma CreateLogged(s: State, t: Tid)
    requires Can(s, RotCreate(t)) && Staged(s) && Single(s)
    ensures Logged(Do(s, RotCreate(t))) && Staged(Do(s, RotCreate(t)))
  {
    EmptyLogs();
    hide TableOf;
    var u := Do(s, RotCreate(t));
    assert PcOf(s, t).Renamed? && PcOf(u, t).Rotated?;
    assert forall x :: x != t ==> PcOf(u, x) == PcOf(s, x) && PcOf(s, x).Idle?;
    assert AfterRotation(u);
  }

  lemma EmptyLogs()
    ensures TableOf(None) == map[] && TableOf(Some([])) == map[]
  {
  }

  lemma RotFailLogged(s: State, t: Tid)
    requires Can(s, RotFail(t)) && Logged(s) && Staged(s) && Single(s)
    ensures Logged(Do(s, RotFail(t))) && Staged(Do(s, RotFail(t)))
  {
    hide TableOf;
    var u := Do(s, RotFail(t));
    assert !PcOf(s, t).Idle? && PcOf(u, t).Idle?;
    forall x ensures PcOf(u, x).Idle? { if x != t { assert PcOf(u, x) == PcOf(s, x); } }
    if PcOf(s, t).Renamed? { assert AfterRotation(u); } else { assert BeforeRotation(u); }
  }

  lemma FlusherLogged(s: State, a: Action)
    requires Can(s, a) && (a.WaitPass? || a.Skip? || a.Mark? || a.Send?) && Logged(s) && Staged(s)
    requires Disciplined(s, a) && Single(s)
    ensures Logged(Do(s, a)) && Staged(Do(s, a))
  {
    hide TableOf, Unfrozen, AfterRotation, BeforeRotation, WalLockFree, CanBuild;
    var u := Do(s, a);
    assert forall x :: x != a.t ==> PcOf(u, x) == PcOf(s, x);
    assert forall x :: x != a.t ==> PcOf(s, x).Idle?;
    LoggedSame(s, u);
  }

  lemma WorkerLogged(s: State, a: Action)
    requires Can(s, a) && (a.Take? || a.Build? || a.Publish? || a.Done? || a.JobFail? || a.WaitErr? || a.Refuse?)
    requires Logged(s) && Staged(s)
    ensures Logged(Do(s, a)) && Staged(Do(s, a))
  {
    hide TableOf, CanBuild, WalFormat.Accepted, Unfrozen, AfterRotation, BeforeRotation;
    var u := Do(s, a);
    assert forall x :: PcOf(u, x) == PcOf(s, x);
    LoggedSame(s, u);
  }

  lemma InstallLogged(s: State)
    requires Can(s, Install) && Logged(s) && Staged(s) && Single(s) && Files(s) && OneFlush(s)
    ensures Logged(Do(s, Install)) && Staged(Do(s, Install))
  {
    hide TableOf;
    var u := Do(s, Install);
    assert HeldJob(s, AtWorker).Some?;
    assert forall x :: PcOf(u, x) == PcOf(s, x) && PcOf(s, x).Idle?;
    assert u.ssts[|u.ssts| - 1].table == s.frozen.value;
    assert Unfrozen(u);
  }

  lemma UnlinkLogged(s: State)
    requires Can(s, Unlink) && Logged(s) && Staged(s) && Single(s)
    ensures Logged(Do(s, Unlink)) && Staged(Do(s, Unlink))
  {
    hide TableOf;
    var u := Do(s, Unlink);
    assert forall x :: PcOf(u, x) == PcOf(s, x) && PcOf(s, x).Idle?;
    assert Unfrozen(u);
  }

  lemma KeepsLogged(s: State, a: Action)
    requires Can(s, a) && Disciplined(s, a) && !a.Crash? && Durable(s)
    ensures Logged(Do(s, a)) && Staged(Do(s, a))
  {
    hide Can, Do, Disciplined, Logged, Staged, Single, DiskFiles, LogsWithin, History, Reads, IdOrder, Files, OneFlush;
    match a
    case Append(r) => AppendLogged(s, r);
    case ApplyPending => ApplyLogged(s);
    case Freeze(t) => FreezeLogged(s, t);
    case RotClear(t) => ClearLogged(s, t);
    case RotRename(t) => RenameLogged(s, t);
    case RotCreate(t) => CreateLogged(s, t);
    case RotFail(t) => RotFailLogged(s, t);
    case Install => InstallLogged(s);
    case Unlink => UnlinkLogged(s);
    case WaitPass(_) => FlusherLogged(s, a);
    case Skip(_) => FlusherLogged(s, a);
    case Mark(_) => FlusherLogged(s, a);
    case Send(_) => FlusherLogged(s, a);
    case _ => WorkerLogged(s, a);
  }

  // ---------------------------------------------------------------------
  // One flusher, files, contents
  // ---------------------------------------------------------------------

  predicate FlusherStep(a: Action) {
    a.WaitPass? || a.Skip? || a.Freeze? || a.RotClear? || a.RotRename? || a.RotCreate? || a.RotFail? || a.Mark? || a.Send?
  }

  /** The flusher that moves was the one in charge, or all others are idle. */
  lemma FlusherKeepsSingle(s: State, a: Action)
    requires Can(s, a) && Disciplined(s, a) && Single(s) && FlusherStep(a)
    ensures Single(Do(s, a))
  {
    hide Apply, WalFormat.Accepted, WalLockFree;
    var u := Do(s, a);
    assert forall x :: x != a.t ==> PcOf(u, x) == PcOf(s, x);
    if !a.WaitPass? { assert !PcOf(s, a.t).Idle?; }
  }

  lemma OthersKeepSingle(s: State, a: Action)
    requires Can(s, a) && !a.Crash? && Single(s) && |s.queue| <= 1 && !FlusherStep(a)
    ensures Single(Do(s, a))
  {
    hide CanBuild, Apply, WalFormat.Accepted, WalLockFree;
    assert forall x :: PcOf(Do(s, a), x) == PcOf(s, x);
  }

  lemma KeepsSingle(s: State, a: Action)
    requires Can(s, a) && Disciplined(s, a) && !a.Crash? && Single(s) && |s.queue| <= 1
    ensures Single(Do(s, a))
  {
    hide Can, Do, Disciplined, Single;
    if FlusherStep(a) { FlusherKeepsSingle(s, a); } else { OthersKeepSingle(s, a); }
  }

  lemma PublishFiles(s: State)
    requires Can(s, Publish) && DiskFiles(s) && OneFlush(s) && Files(s) && IdOrder(s)
    ensures DiskFiles(Do(s, Publish))
  {
    var u := Do(s, Publish);
    assert HeldJob(s, AtWorker) == Some(s.worker.job);
    forall id | id in u.disk.sst && id != s.worker.job.id
      ensures Listed(u, id) || (u.frozen.Some? && id + 1 == u.nextSst && u.disk.sst[id] == u.frozen.value)
    {
      assert id in s.disk.sst;
      if Listed(s, id) {
        var i :| 0 <= i < |s.ssts| && s.ssts[i].id == id;
        assert u.ssts[i].id == id;
      }
    }
  }

  lemma InstallFiles(s: State)
    requires Can(s, Install) && DiskFiles(s) && OneFlush(s) && Files(s)
    ensures DiskFiles(Do(s, Install))
  {
    var u := Do(s, Install);
    assert HeldJob(s, AtWorker) == Some(s.worker.job);
    forall id | id in u.disk.sst ensures Listed(u, id) {
      if Listed(s, id) {
        var i :| 0 <= i < |s.ssts| && s.ssts[i].id == id;
        assert u.ssts[i].id == id;
      } else {
        assert u.ssts[|s.ssts|].id == id;
      }
    }
    forall i | 0 <= i < |u.ssts| ensures u.ssts[i].id in u.disk.sst && u.disk.sst[u.ssts[i].id] == u.ssts[i].table {
      if i < |s.ssts| { assert u.ssts[i] == s.ssts[i]; }
    }
  }

  lemma SameDiskFiles(s: State, u: State)
    requires DiskFiles(s) && u.ssts == s.ssts && u.disk.sst == s.disk.sst
    requires s.frozen.Some? ==> u.frozen == s.frozen && u.nextSst == s.nextSst
    ensures DiskFiles(u)
  {
    assert forall id :: Listed(u, id) == Listed(s, id);
  }

  /** Table files, their list, and a frozen table stay as they were. */
  ghost predicate SameFrozen(s: State, u: State) {
    && u.ssts == s.ssts && u.disk.sst == s.disk.sst
    && (s.frozen.Some? ==> u.frozen == s.frozen && u.nextSst == s.nextSst)
  }

  predicate WorkerStep(a: Action) {
    a.Take? || a.Build? || a.Unlink? || a.Done? || a.JobFail?
  }

  predicate RotationStep(a: Action) { a.RotClear? || a.RotRename? || a.RotCreate? || a.RotFail? }

  predicate WriterStep(a: Action) { a.Append? || a.Refuse? || a.ApplyPending? }

  lemma WriterKeepsFiles(s: State, a: Action)
    requires Can(s, a) && WriterStep(a)
    ensures SameFrozen(s, Do(s, a)) && Do(s, a).worker == s.worker
  {
    hide Apply, WalFormat.Accepted, WalLockFree;
  }

  lemma WorkerKeepsFiles(s: State, a: Action)
    requires Can(s, a) && WorkerStep(a)
    ensures SameFrozen(s, Do(s, a)) && (Do(s, a).worker.Built? ==> a.Build?)
  {
    hide CanBuild;
  }

  lemma RotationKeepsFiles(s: State, a: Action)
    requires Can(s, a) && RotationStep(a)
    ensures SameFrozen(s, Do(s, a)) && Do(s, a).worker == s.worker
  {
    hide WalLockFree, PcOf;
  }

  lemma FlusherKeepsFiles(s: State, a: Action)
    requires Can(s, a) && (a.WaitPass? || a.WaitErr? || a.Skip? || a.Freeze? || a.Mark? || a.Send?)
    ensures SameFrozen(s, Do(s, a)) && Do(s, a).worker == s.worker
  {
    hide WalLockFree, PcOf;
  }

  lemma FilesUntouched(s: State, a: Action)
    requires Can(s, a) && !a.Crash? && !a.Publish? && !a.Install?
    ensures SameFrozen(s, Do(s, a)) && (Do(s, a).worker == s.worker || !Do(s, a).worker.Built? || a.Build?)
  {
    hide Can, Do, SameFrozen;
    if WorkerStep(a) {
      WorkerKeepsFiles(s, a);
    } else if RotationStep(a) {
      RotationKeepsFiles(s, a);
    } else if WriterStep(a) {
      WriterKeepsFiles(s, a);
    } else {
      FlusherKeepsFiles(s, a);
    }
  }

  lemma KeepsDiskFiles(s: State, a: Action)
    requires Can(s, a) && !a.Crash? && DiskFiles(s) && OneFlush(s) && Files(s) && IdOrder(s)
    ensures DiskFiles(Do(s, a))
  {
    hide Can, Do, DiskFiles, OneFlush, Files, IdOrder;
    if a.Publish? {
      PublishFiles(s);
    } else if a.Install? {
      InstallFiles(s);
    } else {
      FilesUntouched(s, a);
      SameDiskFiles(s, Do(s, a));
    }
  }

  lemma ElemsSnoc(rs: seq<Rec>, r: Rec)
    ensures Elems(rs + [r]) == Elems(rs) + {r}
  {
  }

  lemma KeepsLogsWithin(s: State, a: Action)
    requires Can(s, a) && !a.Crash? && LogsWithin(s)
    ensures LogsWithin(Do(s, a))
  {
    hide CanBuild, Apply, WalFormat.Accepted, Elems;
    if a.Append? {
      ElemsSnoc(s.log, a.r);
      ElemsSnoc(s.disk.wal.value, a.r);
    }
    NothingInEmpty();
  }

  lemma NothingInEmpty()
    ensures Elems([]) == {}
  {
  }

  lemma KeepsDurable(s: State, a: Action)
    requires Can(s, a) && Disciplined(s, a) && !a.Crash? && Durable(s)
    ensures Durable(Do(s, a))
  {
    QueueShort(s);
    KeepsLogged(s, a);
    hide Can, Do, Disciplined, Logged, Staged, Single, DiskFiles, LogsWithin, History, Reads, IdOrder, Files, OneFlush;
    KeepsRunning(s, a);
    KeepsSingle(s, a);
    KeepsDiskFiles(s, a);
    KeepsLogsWithin(s, a);
  }
}
