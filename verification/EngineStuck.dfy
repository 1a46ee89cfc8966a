/**
  What a failed rotation or job leaves: a frozen table nobody carries to disk. It
  stays until the process restarts; any other frozen table can still leave, unless
  the format cannot hold it.
 */
module EngineStuck {
  import opened Records
  import opened EngineModel
  import opened EngineDurable
  import opened EngineFiles
  import opened EngineRecovery
  import opened EngineSteps
  import opened EngineVisible

  /** A frozen table, and no thread, queue or worker that holds its job. */
  ghost predicate Stuck(s: State) {
    s.frozen.Some? && forall h :: HeldJob(s, h).None?
  }

  /** The frozen table of a job whose rotation or build failed is stuck. */
  lemma FailureSticks(s: State, a: Action)
    requires Running(s) && Can(s, a)
    requires a.RotFail? || (a.JobFail? && WorkerJob(s.worker).Some?)
    ensures Stuck(Do(s, a)) && Do(s, a).frozen == s.frozen
  {
    hide History, Reads, Files, IdOrder, CanBuild, WalLockFree;
    var from := if a.RotFail? then AtFlusher(a.t) else AtWorker;
    assert HeldJob(s, from).Some?;
    var u := Do(s, a);
    forall h ensures HeldJob(u, h).None? {
      if h != from { assert HeldJob(u, h) == HeldJob(s, h); }
    }
  }

  /** With no holder, no step that moves a job, and no freeze, is possible. */
  lemma StuckRefuses(s: State, a: Action)
    requires Stuck(s) && Can(s, a)
    ensures !a.RotClear? && !a.RotRename? && !a.RotCreate? && !a.RotFail? && !a.Mark? && !a.Send?
    ensures !a.Freeze? && !a.Take? && !a.Build? && !a.Publish? && !a.Install?
  {
    hide CanBuild, WalLockFree;
    forall t ensures FlusherJob(PcOf(s, t)).None? { assert HeldJob(s, AtFlusher(t)).None?; }
    assert HeldJob(s, AtWorker).None? && HeldJob(s, AtQueue).None?;
  }

  lemma StuckStep(s: State, a: Action)
    requires Stuck(s) && Can(s, a) && !a.Crash?
    ensures Stuck(Do(s, a)) && Do(s, a).frozen == s.frozen
  {
    StuckRefuses(s, a);
    hide CanBuild, WalLockFree, Apply;
    forall h ensures HeldJob(Do(s, a), h).None? { assert HeldJob(s, h).None?; }
  }

  /**
    Until the next crash a stuck table stays frozen whatever threads do: every
    `schedule_flush` skips, nothing is frozen or installed, and no `flush` sees both
    tables empty.
   */
  lemma {:induction false} StuckUntilCrash(s: State, acts: seq<Action>)
    requires Stuck(s) && CrashFree(acts) && Run(s, acts).Some?
    ensures Stuck(Run(s, acts).value) && Run(s, acts).value.frozen == s.frozen
    ensures forall t :: Freeze(t) !in acts
    ensures Install !in acts
  {
    hide Stuck, Can, Do;
    if acts != [] {
      var init, a := acts[..|acts| - 1], acts[|acts| - 1];
      StuckUntilCrash(s, init);
      var m := Run(s, init).value;
      StuckStep(m, a);
      StuckRefuses(m, a);
      assert acts == init + [a];
    }
  }

  /**
    A crash frees the slot, and in durable states nothing of the table is lost: the
    reopened active table has each of its keys, and each of the old active one, at a
    version at least as high.
   */
  lemma CrashFreesSlot(s: State)
    requires Durable(s) && s.frozen.Some?
    ensures var u := Do(s, Crash);
      && u.frozen.None? && !Stuck(u)
      && (forall k :: k in s.frozen.value ==> k in u.active && s.frozen.value[k].sn <= u.active[k].sn)
      && (forall k :: k in s.active ==> k in u.active && s.active[k].sn <= u.active[k].sn)
  {
    hide TableOf, SortedSsts, RecoveredMaxSn, NextSst, RecoveredDisk, Running, Staged, Single, DiskFiles,
      LogsWithin, Replayed;
    forall k
      ensures k in s.frozen.value ==> k in Replayed(s.disk) && s.frozen.value[k].sn <= Replayed(s.disk)[k].sn
      ensures k in Settled(s) ==> k in Replayed(s.disk) && Settled(s)[k].sn <= Replayed(s.disk)[k].sn
    {
      ReplayedVersions(s.disk, k);
    }
    SettledAbove(s);
  }

  lemma SettledAbove(s: State)
    ensures forall k :: k in s.active ==> k in Settled(s) && s.active[k].sn <= Settled(s)[k].sn
  {
  }

  // ---------------------------------------------------------------------
  // A table somebody carries
  // ---------------------------------------------------------------------

  /** The log file is in its place, except in the middle of a rotation or after a broken one. */
  ghost predicate LogInPlace(s: State) {
    && (s.frozen.None? ==> s.disk.wal.Some?)
    && forall h :: HeldJob(s, h).Some? && !Renaming(s, h) ==> s.disk.wal.Some?
  }

  predicate Renaming(s: State, h: Holder) { h.AtFlusher? && PcOf(s, h.t).Renamed? }

  lemma OpenInPlace(d: Disk, log: seq<Rec>)
    ensures LogInPlace(Open(d, log))
  {
    hide Replayed, SortedSsts, RecoveredMaxSn, NextSst;
    forall h ensures HeldJob(Open(d, log), h).None? {}
  }

  lemma RotationInPlace(s: State, a: Action)
    requires Can(s, a) && OneFlush(s) && LogInPlace(s)
    requires a.RotClear? || a.RotRename? || a.RotCreate? || a.RotFail?
    ensures LogInPlace(Do(s, a))
  {
    hide WalLockFree, CanBuild;
    var u := Do(s, a);
    assert HeldJob(s, AtFlusher(a.t)).Some?;
    forall h | h != AtFlusher(a.t) ensures HeldJob(u, h) == HeldJob(s, h) {}
  }

  lemma WorkerInPlace(s: State, a: Action)
    requires Can(s, a) && OneFlush(s) && LogInPlace(s)
    requires a.Take? || a.Build? || a.Publish? || a.Install? || a.Unlink? || a.Done? || a.JobFail?
    ensures LogInPlace(Do(s, a))
  {
    hide CanBuild;
    var u := Do(s, a);
    assert a.Take? ==> HeldJob(s, AtQueue).Some?;
    assert a.Install? ==> HeldJob(s, AtWorker).Some?;
    forall h | HeldJob(u, h).Some? ensures HeldJob(s, if h.AtWorker? && a.Take? then AtQueue else h).Some? {
      if h.AtFlusher? { assert PcOf(u, h.t) == PcOf(s, h.t); }
      if h.AtQueue? && a.Take? { assert |s.queue| <= 1; }
    }
  }

  lemma OtherInPlace(s: State, a: Action)
    requires Can(s, a) && OneFlush(s) && LogInPlace(s)
    requires a.Append? || a.Refuse? || a.ApplyPending? || a.WaitErr? || a.WaitPass? || a.Skip? || a.Freeze? || a.Mark?
      || a.Send?
    ensures LogInPlace(Do(s, a))
  {
    hide CanBuild, WalLockFree, Apply;
    var u := Do(s, a);
    if a.Send? { assert HeldJob(s, AtFlusher(a.t)).Some?; }
    forall h | HeldJob(u, h).Some? && !Renaming(u, h) ensures u.disk.wal.Some? {
      if !a.Freeze? && !(a.Send? && h.AtQueue?) { assert HeldJob(s, h).Some? && !Renaming(s, h); }
    }
  }

  lemma KeepsLogInPlace(s: State, a: Action)
    requires Can(s, a) && !a.Crash? && OneFlush(s) && LogInPlace(s)
    ensures LogInPlace(Do(s, a))
  {
    hide Can, Do, OneFlush, LogInPlace;
    if a.RotClear? || a.RotRename? || a.RotCreate? || a.RotFail? {
      RotationInPlace(s, a);
    } else if a.Take? || a.Build? || a.Publish? || a.Install? || a.Unlink? || a.Done? || a.JobFail? {
      WorkerInPlace(s, a);
    } else {
      OtherInPlace(s, a);
    }
  }

  /** How far a job is from its install. */
  function Stage(s: State, h: Holder): nat {
    match h
    case AtQueue => 4
    case AtWorker =>
      (match s.worker case Took(_) => 3 case Built(_) => 2 case _ => 1)
    case AtFlusher(t) =>
      (match PcOf(s, t) case Froze(_) => 9 case Cleared(_) => 8 case Renamed(_) => 7 case Rotated(_) => 6 case _ => 5)
  }

  /** How far the worker is from taking a job. */
  function Rest(w: Worker): nat {
    match w case Installed(_) => 2 case Unlinked(_) => 1 case _ => 0
  }

  function Distance(s: State, h: Holder): nat {
    6 * Stage(s, h) + 2 * Rest(s.worker) + (if s.pending.Some? then 1 else 0)
  }

  /** The step frees the slot, or brings the job nearer to its install. */
  ghost predicate Nearer(s: State, h: Holder, a: Action, g: Holder) {
    && Can(s, a) && !a.Crash?
    && (Do(s, a).frozen.None? || (HeldJob(Do(s, a), g) == HeldJob(s, h) && Distance(Do(s, a), g) < Distance(s, h)))
  }

  lemma WorkerNearer(s: State) returns (a: Action)
    requires Files(s) && s.pending.None? && HeldJob(s, AtWorker).Some? && CanBuild(HeldJob(s, AtWorker).value.table)
    ensures Nearer(s, AtWorker, a, AtWorker)
  {
    hide CanBuild;
    a := match s.worker case Took(_) => Build case Built(_) => Publish case _ => Install;
  }

  lemma QueueNearer(s: State) returns (a: Action, g: Holder)
    requires s.pending.None? && |s.queue| == 1 && HeldJob(s, AtWorker).None?
    ensures Nearer(s, AtQueue, a, g)
  {
    hide CanBuild;
    a := match s.worker case Installed(_) => Unlink case Unlinked(_) => Done case _ => Take;
    g := if a.Take? then AtWorker else AtQueue;
  }

  lemma RotationNearer(s: State, t: Tid) returns (a: Action)
    requires WalLockFree(s) || PcOf(s, t).Cleared? || PcOf(s, t).Renamed?
    requires PcOf(s, t).Froze? || PcOf(s, t).Cleared? || PcOf(s, t).Renamed?
    requires PcOf(s, t).Cleared? ==> s.disk.wal.Some?
    ensures Nearer(s, AtFlusher(t), a, AtFlusher(t))
  {
    hide WalLockFree;
    a := match PcOf(s, t) case Froze(_) => RotClear(t) case Cleared(_) => RotRename(t) case _ => RotCreate(t);
  }

  lemma SendNearer(s: State, t: Tid) returns (a: Action, g: Holder)
    requires (PcOf(s, t).Rotated? || PcOf(s, t).Marked?) && s.queue == []
    ensures Nearer(s, AtFlusher(t), a, g)
  {
    hide WalLockFree;
    if PcOf(s, t).Rotated? {
      a, g := Mark(t), AtFlusher(t);
    } else {
      a, g := Send(t), AtQueue;
    }
  }

  /** The holder of the job is the only one, so nobody else is in its way. */
  lemma NobodyElse(s: State, h: Holder)
    requires OneFlush(s) && s.pending.None? && HeldJob(s, h).Some?
    ensures !h.AtWorker? ==> HeldJob(s, AtWorker).None?
    ensures if h.AtQueue? then |s.queue| == 1 else s.queue == []
    ensures h.AtFlusher? ==> WalLockFree(s) || PcOf(s, h.t).Cleared? || PcOf(s, h.t).Renamed?
  {
    forall g | g != h ensures HeldJob(s, g).None? {}
    assert !h.AtQueue? ==> HeldJob(s, AtQueue).None?;
    forall x | x in s.flushers && AtFlusher(x) != h ensures !s.flushers[x].Cleared? && !s.flushers[x].Renamed? {
      assert HeldJob(s, AtFlusher(x)).None?;
    }
  }

  lemma GetsNearer(s: State, h: Holder) returns (a: Action, g: Holder)
    requires Running(s) && LogInPlace(s) && HeldJob(s, h).Some? && CanBuild(HeldJob(s, h).value.table)
    ensures Nearer(s, h, a, g)
  {
    hide CanBuild, LogInPlace, History, Reads, OneFlush, IdOrder, Files;
    if s.pending.Some? {
      a, g := ApplyPending, h;
      ApplyNearer(s, h);
    } else {
      NobodyElse(s, h);
      LogThere(s, h);
      match h
      case AtWorker => g := AtWorker; a := WorkerNearer(s);
      case AtQueue => a, g := QueueNearer(s);
      case AtFlusher(t) =>
        if PcOf(s, t).Rotated? || PcOf(s, t).Marked? {
          a, g := SendNearer(s, t);
        } else {
          g := h;
          a := RotationNearer(s, t);
        }
    }
  }

  lemma LogThere(s: State, h: Holder)
    requires LogInPlace(s) && HeldJob(s, h).Some?
    ensures h.AtFlusher? && PcOf(s, h.t).Cleared? ==> s.disk.wal.Some?
  {
  }

  lemma ApplyNearer(s: State, h: Holder)
    requires s.pending.Some?
    ensures Nearer(s, h, ApplyPending, h)
  {
    hide Apply;
  }

  /** A carried table that can be written reaches its install on some run without crash or failure. */
  lemma {:induction false} FreesSlot(s: State, h: Holder) returns (acts: seq<Action>)
    requires Running(s) && LogInPlace(s) && HeldJob(s, h).Some? && CanBuild(HeldJob(s, h).value.table)
    ensures CrashFree(acts) && Run(s, acts).Some? && Run(s, acts).value.frozen.None?
    decreases Distance(s, h)
  {
    hide Can, Do, Run, CanBuild, LogInPlace, History, Reads, OneFlush, IdOrder, Files, HeldJob, Distance;
    var a, g := GetsNearer(s, h);
    var u := Do(s, a);
    RunOne(s, a);
    if u.frozen.None? {
      acts := [a];
    } else {
      KeepsRunning(s, a);
      KeepsLogInPlace(s, a);
      var rest := FreesSlot(u, g);
      RunConcat(s, [a], rest, u);
      acts := [a] + rest;
    }
  }

  /** A table the format cannot hold never leaves the slot. */
  lemma {:induction false} UnbuildableStays(s: State, acts: seq<Action>)
    requires Running(s) && OnlyBuilt(s) && s.frozen.Some? && !CanBuild(s.frozen.value)
    requires CrashFree(acts) && Run(s, acts).Some?
    ensures var u := Run(s, acts).value; Running(u) && OnlyBuilt(u) && u.frozen == s.frozen
  {
    hide Can, Do, CanBuild, OnlyBuilt, History, Reads, OneFlush, IdOrder, Files;
    if acts != [] {
      var init, a := acts[..|acts| - 1], acts[|acts| - 1];
      UnbuildableStays(s, init);
      var m := Run(s, init).value;
      KeepsRunning(m, a);
      KeepsOnlyBuilt(m, a);
      FrozenContentsFixed(m, a);
      if a.Install? { InstallsBuilt(m); }
    }
  }

  /** Only a table that could be written is installed. */
  lemma InstallsBuilt(s: State)
    requires Can(s, Install) && OnlyBuilt(s) && Files(s)
    ensures CanBuild(s.worker.job.table)
  {
    hide CanBuild;
  }

  /**
    Exactly which frozen tables can leave the slot without a restart: those that some
    thread, the queue or the worker still carries and the format can hold.
   */
  lemma SlotFreesIff(s: State)
    requires Running(s) && LogInPlace(s) && OnlyBuilt(s) && s.frozen.Some?
    ensures (exists acts: seq<Action> :: CrashFree(acts) && Run(s, acts).Some? && Run(s, acts).value.frozen.None?)
      <==> !Stuck(s) && CanBuild(s.frozen.value)
  {
    hide Run, CrashFree, LogInPlace, History, Reads, IdOrder, Files, CanBuild, OnlyBuilt;
    if Stuck(s) {
      forall acts: seq<Action> | CrashFree(acts) && Run(s, acts).Some? ensures Run(s, acts).value.frozen.Some? {
        StuckUntilCrash(s, acts);
      }
    } else if !CanBuild(s.frozen.value) {
      forall acts: seq<Action> | CrashFree(acts) && Run(s, acts).Some? ensures Run(s, acts).value.frozen.Some? {
        UnbuildableStays(s, acts);
      }
    } else {
      var h :| HeldJob(s, h).Some?;
      var acts := FreesSlot(s, h);
    }
  }

  lemma {:induction false} RunInPlace(s: State, acts: seq<Action>)
    requires Running(s) && LogInPlace(s) && OnlyBuilt(s) && CrashFree(acts) && Run(s, acts).Some?
    ensures Running(Run(s, acts).value) && LogInPlace(Run(s, acts).value) && OnlyBuilt(Run(s, acts).value)
  {
    hide Can, Do, LogInPlace, OnlyBuilt, History, Reads, OneFlush, IdOrder, Files;
    if acts != [] {
      var init, a := acts[..|acts| - 1], acts[|acts| - 1];
      RunInPlace(s, init);
      KeepsRunning(Run(s, init).value, a);
      KeepsLogInPlace(Run(s, init).value, a);
      KeepsOnlyBuilt(Run(s, init).value, a);
    }
  }

  /** So it is after every crash-free run from a new directory. */
  lemma SlotFreesOnEveryRun(acts: seq<Action>)
    requires CrashFree(acts) && Run(Fresh(), acts).Some? && Run(Fresh(), acts).value.frozen.Some?
    ensures var s := Run(Fresh(), acts).value;
      (exists more: seq<Action> :: CrashFree(more) && Run(s, more).Some? && Run(s, more).value.frozen.None?)
      <==> !Stuck(s) && CanBuild(s.frozen.value)
  {
    hide Run, CrashFree, LogInPlace, OnlyBuilt, Running, CanBuild, Open;
    FreshRunning();
    OpenInPlace(EMPTY_DISK, []);
    FreshOnlyBuilt();
    RunInPlace(Fresh(), acts);
    SlotFreesIff(Run(Fresh(), acts).value);
  }
}
