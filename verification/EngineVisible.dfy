/**
  What every step keeps while the engine runs: reads answer with the last
  applied operation, at most one flush is unfinished and the frozen slot is its
  table, table files are listed in id order. Any number of flushers, writes
  between freeze and rotation, failed rotations and failed jobs included.
 */
module EngineVisible {
  import opened Bytes
  import opened Records
  import opened EngineModel
  import opened EngineLayers
  import WalFormat

  // ---------------------------------------------------------------------
  // Invariants
  // ---------------------------------------------------------------------

  /** Appended operations are numbered in ascending order, below the next number. */
  ghost predicate History(s: State) {
    && (forall i, j :: 0 <= i < j < |s.log| ==> s.log[i].sn < s.log[j].sn)
    && (forall i :: 0 <= i < |s.log| ==> s.log[i].sn < s.nextSn && WalFormat.Accepted(s.log[i]))
    && (s.pending.Some? ==> s.log != [] && s.log[|s.log| - 1] == s.pending.value)
    && s.nextSn < U64_LIMIT
  }

  /** Reads see exactly the applied operations, newest first. */
  ghost predicate Reads(s: State) {
    && Ordered(Layers(s))
    && Within(Layers(s), Elems(Applied(s)))
    && AnswersHighest(Layers(s), Elems(Applied(s)))
  }

  /** Who carries a frozen table towards disk. */
  datatype Holder = AtFlusher(t: Tid) | AtQueue | AtWorker

  function FlusherJob(pc: Flusher): Option<Job> {
    match pc
    case Idle => None
    case Waited => None
    case Froze(j) => Some(j)
    case Cleared(j) => Some(j)
    case Renamed(j) => Some(j)
    case Rotated(j) => Some(j)
    case Marked(j) => Some(j)
  }

  /** The worker's job until it is installed. */
  function WorkerJob(w: Worker): Option<Job> {
    match w
    case Resting => None
    case Took(j) => Some(j)
    case Built(j) => Some(j)
    case Published(j) => Some(j)
    case Installed(_) => None
    case Unlinked(_) => None
  }

  function HeldJob(s: State, h: Holder): Option<Job> {
    match h
    case AtFlusher(t) => FlusherJob(PcOf(s, t))
    case AtQueue => if s.queue == [] then None else Some(s.queue[0])
    case AtWorker => WorkerJob(s.worker)
  }

  /** At most one flush is unfinished, and the frozen slot holds its table. */
  ghost predicate OneFlush(s: State) {
    && |s.queue| <= 1
    && (forall g, h :: HeldJob(s, g).Some? && HeldJob(s, h).Some? ==> g == h)
    && (forall h :: HeldJob(s, h).Some? ==>
          s.frozen == Some(HeldJob(s, h).value.table) && HeldJob(s, h).value.id + 1 == s.nextSst)
    && (s.frozen.Some? && !s.broken ==> exists h :: HeldJob(s, h).Some?)
  }

  /** The worker's files hold its table. */
  ghost predicate Files(s: State) {
    && (s.worker.Built? ==> s.worker.job.id in s.disk.tmp && s.disk.tmp[s.worker.job.id] == s.worker.job.table)
    && (s.worker.Published? ==> s.worker.job.id in s.disk.sst && s.disk.sst[s.worker.job.id] == s.worker.job.table)
  }

  /** The list of table files is in id order, below the ids still to be given. */
  ghost predicate IdOrder(s: State) {
    && (forall i, j :: 0 <= i < j < |s.ssts| ==> s.ssts[i].id < s.ssts[j].id)
    && (forall i :: 0 <= i < |s.ssts| ==> s.ssts[i].id + (if s.frozen.Some? then 1 else 0) < s.nextSst)
  }

  ghost predicate Running(s: State) {
    History(s) && Reads(s) && OneFlush(s) && Files(s) && IdOrder(s)
  }

  // ---------------------------------------------------------------------
  // Steps that touch the log or the tables
  // ---------------------------------------------------------------------

  lemma AppendKeepsHistory(s: State, r: Rec)
    requires Can(s, Append(r)) && History(s)
    ensures History(Do(s, Append(r)))
  {
    hide WalFormat.Accepted;
    var t := Do(s, Append(r));
    forall i | 0 <= i < |t.log| ensures t.log[i].sn < t.nextSn && WalFormat.Accepted(t.log[i]) {
      if i < |s.log| { assert t.log[i] == s.log[i]; }
    }
  }

  lemma KeepsHistory(s: State, a: Action)
    requires Can(s, a) && !a.Crash? && History(s)
    ensures History(Do(s, a))
  {
    hide CanBuild, WalFormat.Accepted, Apply;
    if a.Append? { AppendKeepsHistory(s, a.r); }
  }

  lemma AppliedKept(s: State, a: Action)
    requires Can(s, a) && !a.Crash? && !a.ApplyPending? && History(s)
    ensures Applied(Do(s, a)) == Applied(s)
  {
    hide Fold, CanBuild;
    if a.Append? { assert (s.log + [a.r])[..|s.log|] == s.log; }
  }

  lemma ReadsFrozen(s: State, t: Tid)
    requires Can(s, Freeze(t)) && Reads(s)
    ensures Reads(Do(s, Freeze(t)))
  {
    hide AnswersHighest, Within, Ordered;
    var ls := Layers(s);
    EmptyOnTop(ls, Elems(Applied(s)));
    assert Layers(Do(s, Freeze(t))) == [map[]] + ls;
  }

  /** Installing replaces the frozen table by the same table at the front of the files. */
  lemma LayersInstalled(s: State)
    requires Can(s, Install) && Files(s) && OneFlush(s)
    ensures Layers(Do(s, Install)) == Layers(s)
  {
    hide CanBuild, Newest;
    assert HeldJob(s, AtWorker).Some?;
    NewestPush(s.ssts, Sst(s.worker.job.id, s.disk.sst[s.worker.job.id]));
  }

  function Below(s: State): seq<Table> {
    (match s.frozen case None => [] case Some(t) => [t]) + Newest(s.ssts)
  }

  lemma LayersSplit(s: State)
    ensures Layers(s) == [s.active] + Below(s)
    ensures s.pending.Some? ==>
      Layers(s.(active := Apply(s.active, s.pending.value), pending := None))
        == [Apply(s.active, s.pending.value)] + Below(s)
  {
    hide Apply;
  }

  /** A pending operation is numbered above all applied ones. */
  lemma PendingIsNewest(s: State)
    requires s.pending.Some? && History(s)
    ensures s.log == Applied(s) + [s.pending.value]
    ensures Elems(s.log) == Elems(Applied(s)) + {s.pending.value}
    ensures forall q :: q in Elems(Applied(s)) ==> q.sn < s.pending.value.sn
  {
    hide WalFormat.Accepted;
    var ap := Applied(s);
    assert s.log == ap + [s.pending.value];
    forall q | q in Elems(ap) ensures q.sn < s.pending.value.sn {
      var i :| 0 <= i < |ap| && ap[i] == q;
      assert s.log[i] == q;
    }
  }

  lemma ReadsApplied(s: State)
    requires Can(s, ApplyPending) && Reads(s) && History(s)
    ensures Reads(Do(s, ApplyPending))
  {
    PendingIsNewest(s);
    LayersSplit(s);
    hide AnswersHighest, Within, Ordered, Apply, Layers, History, Elems, Below;
    ApplyOnTop(s.active, Below(s), Elems(Applied(s)), s.pending.value);
  }

  /** Every other step leaves the layers as they are. */
  lemma LayersKept(s: State, a: Action)
    requires Can(s, a) && !a.Crash? && !a.Freeze? && !a.Install? && !a.ApplyPending?
    ensures Layers(Do(s, a)) == Layers(s)
  {
    hide CanBuild;
  }

  lemma KeepsReads(s: State, a: Action)
    requires Can(s, a) && !a.Crash? && Running(s)
    ensures Reads(Do(s, a))
  {
    hide Can, Do, Layers, Applied, History, OneFlush, Files, IdOrder;
    if a.Freeze? {
      ReadsFrozen(s, a.t);
    } else if a.ApplyPending? {
      ReadsApplied(s);
    } else if a.Install? {
      LayersInstalled(s);
      AppliedKept(s, a);
    } else {
      LayersKept(s, a);
      AppliedKept(s, a);
    }
  }

  // ---------------------------------------------------------------------
  // The flush token
  // ---------------------------------------------------------------------

  /** A flusher moves to another place without gaining or losing its job. */
  lemma FlusherMoves(s: State, u: State, t: Tid, pc: Flusher)
    requires OneFlush(s) && u.flushers == s.flushers[t := pc]
    requires FlusherJob(pc) == FlusherJob(PcOf(s, t))
    requires u.queue == s.queue && u.worker == s.worker && u.frozen == s.frozen && u.nextSst == s.nextSst
    requires u.broken == s.broken
    ensures OneFlush(u)
  {
    forall h ensures HeldJob(u, h) == HeldJob(s, h) {}
    if s.frozen.Some? && !s.broken {
      var h :| HeldJob(s, h).Some?;
      assert HeldJob(u, h).Some?;
    }
  }

  /** A job passes from one holder to another. */
  lemma JobPasses(s: State, u: State, from: Holder, to: Holder)
    requires OneFlush(s) && HeldJob(s, from).Some? && from != to
    requires HeldJob(u, from).None? && HeldJob(u, to) == HeldJob(s, from)
    requires forall h :: h != from && h != to ==> HeldJob(u, h) == HeldJob(s, h)
    requires |u.queue| <= 1 && u.frozen == s.frozen && u.nextSst == s.nextSst && u.broken == s.broken
    ensures OneFlush(u)
  {
    forall h | h != to ensures HeldJob(u, h).None? {
      assert h != from ==> HeldJob(u, h) == HeldJob(s, h);
    }
  }

  /** A job is dropped: frozen stays, the flush is broken. */
  lemma JobDropped(s: State, u: State)
    requires OneFlush(s) && u.broken && u.frozen == s.frozen && u.nextSst == s.nextSst && |u.queue| <= 1
    requires forall h :: HeldJob(u, h).Some? ==> HeldJob(u, h) == HeldJob(s, h)
    ensures OneFlush(u)
  {
  }

  lemma TokenFlusher(s: State, a: Action)
    requires Can(s, a) && OneFlush(s)
    requires a.WaitPass? || a.Skip? || a.RotClear? || a.RotRename? || a.RotCreate? || a.Mark?
    ensures OneFlush(Do(s, a))
  {
    hide OneFlush, Can;
    assert Can(s, a);
    FlusherPcs(s, a);
    FlusherMoves(s, Do(s, a), a.t, PcOf(Do(s, a), a.t));
  }

  lemma FlusherPcs(s: State, a: Action)
    requires Can(s, a)
    requires a.WaitPass? || a.Skip? || a.RotClear? || a.RotRename? || a.RotCreate? || a.Mark?
    ensures var u := Do(s, a);
      && u.flushers == s.flushers[a.t := PcOf(u, a.t)] && FlusherJob(PcOf(u, a.t)) == FlusherJob(PcOf(s, a.t))
      && u.queue == s.queue && u.worker == s.worker && u.frozen == s.frozen && u.nextSst == s.nextSst
      && u.broken == s.broken
  {
  }

  lemma TokenFreeze(s: State, t: Tid)
    requires Can(s, Freeze(t)) && OneFlush(s)
    ensures OneFlush(Do(s, Freeze(t)))
  {
    var u := Do(s, Freeze(t));
    forall h ensures HeldJob(s, h).None? {}
    forall h | h != AtFlusher(t) ensures HeldJob(u, h).None? {
      assert HeldJob(u, h) == HeldJob(s, h);
    }
    assert HeldJob(u, AtFlusher(t)) == Some(Job(s.active, s.nextSst));
  }

  lemma TokenSend(s: State, t: Tid)
    requires Can(s, Send(t)) && OneFlush(s)
    ensures OneFlush(Do(s, Send(t)))
  {
    var u := Do(s, Send(t));
    assert HeldJob(s, AtFlusher(t)).Some?;
    assert s.queue != [] ==> HeldJob(s, AtQueue).Some?;
    forall h | h != AtFlusher(t) && h != AtQueue ensures HeldJob(u, h) == HeldJob(s, h) {}
    JobPasses(s, u, AtFlusher(t), AtQueue);
  }

  lemma TokenTake(s: State)
    requires Can(s, Take) && OneFlush(s)
    ensures OneFlush(Do(s, Take))
  {
    var u := Do(s, Take);
    forall h | h != AtQueue && h != AtWorker ensures HeldJob(u, h) == HeldJob(s, h) {}
    JobPasses(s, u, AtQueue, AtWorker);
  }

  lemma TokenInstall(s: State)
    requires Can(s, Install) && OneFlush(s)
    ensures OneFlush(Do(s, Install))
  {
    var u := Do(s, Install);
    assert HeldJob(s, AtWorker).Some?;
    forall h ensures HeldJob(u, h).None? {
      assert h != AtWorker ==> HeldJob(u, h) == HeldJob(s, h);
    }
  }

  lemma TokenFails(s: State, a: Action)
    requires Can(s, a) && OneFlush(s) && (a.RotFail? || a.JobFail?)
    ensures OneFlush(Do(s, a))
  {
    var u := Do(s, a);
    forall h | HeldJob(u, h).Some? ensures HeldJob(u, h) == HeldJob(s, h) {}
    hide OneFlush;
    assert |u.queue| <= 1 by { QueueShort(s); }
    JobDropped(s, u);
  }

  lemma QueueShort(s: State)
    requires OneFlush(s)
    ensures |s.queue| <= 1
  {
  }

  /** Steps that leave every holder alone. */
  lemma TokenSame(s: State, u: State)
    requires OneFlush(s) && u.flushers == s.flushers && u.queue == s.queue
    requires WorkerJob(u.worker) == WorkerJob(s.worker)
    requires u.frozen == s.frozen && u.nextSst == s.nextSst && u.broken == s.broken
    ensures OneFlush(u)
  {
    forall h ensures HeldJob(u, h) == HeldJob(s, h) {}
    if s.frozen.Some? && !s.broken {
      var h :| HeldJob(s, h).Some?;
      assert HeldJob(u, h).Some?;
    }
  }

  lemma TokenOther(s: State, a: Action)
    requires Can(s, a) && OneFlush(s)
    requires a.Append? || a.Refuse? || a.ApplyPending? || a.WaitErr? || a.Build? || a.Publish? || a.Unlink? || a.Done?
    ensures OneFlush(Do(s, a))
  {
    hide OneFlush, CanBuild, Apply;
    TokenSame(s, Do(s, a));
  }

  lemma KeepsToken(s: State, a: Action)
    requires Can(s, a) && !a.Crash? && OneFlush(s)
    ensures OneFlush(Do(s, a))
  {
    hide Can, Do, OneFlush;
    match a
    case Freeze(t) => TokenFreeze(s, t);
    case Send(t) => TokenSend(s, t);
    case Take => TokenTake(s);
    case Install => TokenInstall(s);
    case RotFail(_) => TokenFails(s, a);
    case JobFail => TokenFails(s, a);
    case Append(_) => TokenOther(s, a);
    case Refuse(_) => TokenOther(s, a);
    case ApplyPending => TokenOther(s, a);
    case WaitErr => TokenOther(s, a);
    case Build => TokenOther(s, a);
    case Publish => TokenOther(s, a);
    case Unlink => TokenOther(s, a);
    case Done => TokenOther(s, a);
    case _ => TokenFlusher(s, a);
  }

  lemma KeepsFiles(s: State, a: Action)
    requires Can(s, a) && !a.Crash? && Files(s)
    ensures Files(Do(s, a))
  {
    hide CanBuild, Apply;
  }

  lemma InstallIdOrder(s: State)
    requires Can(s, Install) && IdOrder(s) && OneFlush(s)
    ensures IdOrder(Do(s, Install))
  {
    assert HeldJob(s, AtWorker).Some?;
    var u := Do(s, Install);
    forall i | 0 <= i < |u.ssts| ensures u.ssts[i].id < u.nextSst {
      if i < |s.ssts| { assert u.ssts[i] == s.ssts[i]; }
    }
    forall i, j | 0 <= i < j < |u.ssts| ensures u.ssts[i].id < u.ssts[j].id {
      assert u.ssts[i] == s.ssts[i];
      if j < |s.ssts| { assert u.ssts[j] == s.ssts[j]; }
    }
  }

  lemma OtherIdOrder(s: State, a: Action)
    requires Can(s, a) && !a.Crash? && !a.Install? && IdOrder(s)
    ensures IdOrder(Do(s, a))
  {
    hide CanBuild, Apply, WalLockFree, WalFormat.Accepted;
  }

  lemma KeepsIdOrder(s: State, a: Action)
    requires Can(s, a) && !a.Crash? && IdOrder(s) && OneFlush(s)
    ensures IdOrder(Do(s, a))
  {
    hide Can, Do, IdOrder, OneFlush;
    if a.Install? { InstallIdOrder(s); } else { OtherIdOrder(s, a); }
  }

  /** Every crash-free step keeps all of it. */
  lemma KeepsRunning(s: State, a: Action)
    requires Can(s, a) && !a.Crash? && Running(s)
    ensures Running(Do(s, a))
  {
    hide Can, Do, History, Reads, OneFlush, Files, IdOrder;
    KeepsHistory(s, a);
    KeepsReads(s, a);
    KeepsToken(s, a);
    KeepsFiles(s, a);
    KeepsIdOrder(s, a);
  }

  lemma {:induction false} RunKeepsRunning(s: State, acts: seq<Action>)
    requires Running(s) && CrashFree(acts) && Run(s, acts).Some?
    ensures Running(Run(s, acts).value)
  {
    hide Can, Do, Running;
    if acts != [] {
      RunKeepsRunning(s, acts[..|acts| - 1]);
      KeepsRunning(Run(s, acts[..|acts| - 1]).value, acts[|acts| - 1]);
    }
  }

  // ---------------------------------------------------------------------
  // Theorems
  // ---------------------------------------------------------------------

  /** No two operations have the same number. */
  lemma LogConsistent(s: State)
    requires History(s)
    ensures Consistent(Elems(s.log)) && Consistent(Elems(Applied(s)))
  {
    hide WalFormat.Accepted;
    forall a, b | a in Elems(s.log) && b in Elems(s.log) && a.key == b.key && a.sn == b.sn ensures a == b {
      var i :| 0 <= i < |s.log| && s.log[i] == a;
      var j :| 0 <= j < |s.log| && s.log[j] == b;
      assert !(i < j) && !(j < i);
    }
    assert Elems(Applied(s)) <= Elems(s.log);
  }

  /** A read tells the last applied operation on its key. */
  lemma GetTells(s: State, k: Str)
    requires Running(s)
    ensures if k == [] then Get(s, k) == Err(EmptyKey)
            else Get(s, k).Ok? && TellsLast(Get(s, k).value, Elems(Applied(s)), k)
  {
    hide History, OneFlush, Files, IdOrder, Applied, Elems, GetEntry, Answer, TellsLast;
    ReadsAnswer(s, k);
    LogConsistent(s);
    AnswerTells(Elems(Applied(s)), k, GetEntry(s, k));
  }

  /**
    Visibility: on every crash-free run, with any interleaving of writers and
    flushers, a read of any non-empty key tells the key's last applied operation: the
    number and value of a put, the number of a delete, or that there was neither.
   */
  lemma ReadsSeeLastApplied(s: State, acts: seq<Action>, k: Str)
    requires Running(s) && CrashFree(acts) && Run(s, acts).Some?
    ensures var u := Run(s, acts).value;
      if k == [] then Get(u, k) == Err(EmptyKey)
      else Get(u, k).Ok? && TellsLast(Get(u, k).value, Elems(Applied(u)), k)
  {
    hide Running, Can, Do, Get, TellsLast;
    RunKeepsRunning(s, acts);
    GetTells(Run(s, acts).value, k);
  }

  lemma ReadsAnswer(s: State, k: Str)
    requires Running(s)
    ensures IsHighest(Elems(Applied(s)), k, GetEntry(s, k))
  {
  }

  /** How many writes took a number. */
  function NumbersIn(acts: seq<Action>): nat {
    if acts == [] then 0
    else NumbersIn(acts[..|acts| - 1]) + (match acts[|acts| - 1] case Append(_) => 1 case Refuse(_) => 1 case _ => 0)
  }

  /**
    Between crashes every write that reaches the open log takes the next number, accepted
    or refused: the n-th gets the first number plus n - 1.
   */
  lemma {:induction false} NumbersTaken(s: State, acts: seq<Action>, i: nat)
    requires CrashFree(acts) && Run(s, acts).Some? && i < |acts|
    ensures Run(s, acts).value.nextSn == s.nextSn + NumbersIn(acts)
    ensures acts[i].Append? || acts[i].Refuse? ==> acts[i].r.sn == s.nextSn + NumbersIn(acts[..i])
    decreases |acts|
  {
    hide Do, Can;
    var init, a := acts[..|acts| - 1], acts[|acts| - 1];
    var m := Run(s, init).value;
    if init == [] {
    } else {
      NumbersTaken(s, init, if i < |init| then i else 0);
      if i < |init| { assert acts[..i] == init[..i]; }
    }
    TakesNumber(m, a);
    if i == |init| { assert acts[..i] == init; }
  }

  lemma TakesNumber(s: State, a: Action)
    requires Can(s, a) && !a.Crash?
    ensures Do(s, a).nextSn == s.nextSn + (if a.Append? || a.Refuse? then 1 else 0)
    ensures a.Append? || a.Refuse? ==> a.r.sn == s.nextSn
  {
    hide CanBuild, WalLockFree, PcOf, Apply, WalFormat.Accepted;
  }

  /** No step of a flush, finished or failed, changes any answer: only an operation applied does, and only for its key. */
  lemma StepsKeepAnswers(s: State, a: Action, k: Str)
    requires Can(s, a) && !a.Crash? && Running(s)
    requires a.ApplyPending? ==> s.pending.value.key != k
    ensures GetEntry(Do(s, a), k) == GetEntry(s, k)
  {
    hide Can, Do, Layers, History, Reads, OneFlush, Files, IdOrder, FirstHit;
    if a.ApplyPending? {
      LayersApplied(s);
      ApplyOtherKey(s.active, Below(s), s.pending.value, k);
    } else if a.Freeze? {
      LayersFrozen(s, a.t);
      EmptyTransparent(Layers(s), k);
    } else if a.Install? {
      LayersInstalled(s);
    } else {
      LayersKept(s, a);
    }
  }

  lemma LayersApplied(s: State)
    requires Can(s, ApplyPending)
    ensures s.pending.Some? && Layers(s) == [s.active] + Below(s)
    ensures Layers(Do(s, ApplyPending)) == [Apply(s.active, s.pending.value)] + Below(s)
  {
    LayersSplit(s);
    hide Layers, Below, Apply;
  }

  lemma LayersFrozen(s: State, t: Tid)
    requires Can(s, Freeze(t))
    ensures Layers(Do(s, Freeze(t))) == [map[]] + Layers(s)
  {
  }

  /**
    The frozen slot: at most one flush is under way, its table is the frozen one
    and its id the last one given; without failures the slot is empty exactly
    when no flush is under way.
   */
  lemma FrozenIsTheUnfinishedFlush(s: State, acts: seq<Action>, g: Holder, h: Holder)
    requires Running(s) && CrashFree(acts) && Run(s, acts).Some?
    requires HeldJob(Run(s, acts).value, g).Some?
    ensures var u := Run(s, acts).value;
      && u.frozen == Some(HeldJob(u, g).value.table) && HeldJob(u, g).value.id + 1 == u.nextSst
      && (HeldJob(u, h).Some? ==> g == h)
  {
    hide Can, Do, History, Reads, Files, IdOrder;
    RunKeepsRunning(s, acts);
  }

  lemma EmptySlotMeansNoFlush(s: State, acts: seq<Action>)
    requires Running(s) && CrashFree(acts) && Run(s, acts).Some? && !Run(s, acts).value.broken
    ensures Run(s, acts).value.frozen.None? <==> forall h :: HeldJob(Run(s, acts).value, h).None?
  {
    hide Can, Do, History, Reads, Files, IdOrder;
    RunKeepsRunning(s, acts);
  }

  /** From freeze to install the frozen table does not change, and only its own install clears it. */
  lemma FrozenContentsFixed(s: State, a: Action)
    requires Can(s, a) && !a.Crash? && Running(s) && s.frozen.Some?
    ensures Do(s, a).frozen == s.frozen
      || (a.Install? && s.worker.job.table == s.frozen.value && Do(s, a).frozen.None?
          && Do(s, a).ssts == s.ssts + [Sst(s.worker.job.id, s.frozen.value)])
  {
    if a.Install? { assert HeldJob(s, AtWorker).Some?; }
  }

  // ---------------------------------------------------------------------
  // Strict order from a fresh directory
  // ---------------------------------------------------------------------

  lemma StrictApply(s: State)
    requires Can(s, ApplyPending) && Running(s) && StrictlyOrdered(Layers(s))
    ensures StrictlyOrdered(Layers(Do(s, ApplyPending)))
  {
    PendingIsNewest(s);
    LayersApplied(s);
    hide Layers, Below, Apply, StrictlyOrdered, Elems, Do;
    StrictApplyOnTop(s.active, Below(s), Elems(Applied(s)), s.pending.value);
  }

  lemma KeepsStrictOrder(s: State, a: Action)
    requires Can(s, a) && !a.Crash? && Running(s) && StrictlyOrdered(Layers(s))
    ensures StrictlyOrdered(Layers(Do(s, a)))
  {
    hide Can, Do, Layers, History, Reads, OneFlush, Files, IdOrder, StrictlyOrdered;
    if a.ApplyPending? {
      StrictApply(s);
    } else if a.Freeze? {
      StrictEmptyOnTop(Layers(s));
      LayersFrozen(s, a.t);
    } else if a.Install? {
      LayersInstalled(s);
    } else {
      LayersKept(s, a);
    }
  }

  lemma FreshRunning()
    ensures Running(Fresh()) && StrictlyOrdered(Layers(Fresh()))
  {
    var s := Fresh();
    assert Content(EMPTY_DISK.walFlush) + Content(EMPTY_DISK.wal) == [];
    assert s.active == map[] && s.ssts == [] && s.nextSn == 1 && Newest(s.ssts) == [];
    assert Layers(s) == [map[]];
    assert Elems(Applied(s)) == {};
    forall k ensures IsHighest({}, k, FirstHit(Layers(s), k)) {}
    forall h ensures HeldJob(s, h).None? {}
  }

  /**
    From a new directory, as long as nothing crashes: every number in the active
    table exceeds every number in the frozen one, which exceeds all in the table
    files, each newer file above each older one, and list order is id order.
   */
  lemma {:induction false} LayersStrictlyOrdered(acts: seq<Action>)
    requires CrashFree(acts) && Run(Fresh(), acts).Some?
    ensures Running(Run(Fresh(), acts).value) && StrictlyOrdered(Layers(Run(Fresh(), acts).value))
    ensures IdOrder(Run(Fresh(), acts).value)
  {
    hide Can, Do, Fresh, Layers, StrictlyOrdered, History, Reads, OneFlush, Files, IdOrder;
    if acts == [] {
      FreshRunning();
    } else {
      LayersStrictlyOrdered(acts[..|acts| - 1]);
      KeepsRunning(Run(Fresh(), acts[..|acts| - 1]).value, acts[|acts| - 1]);
      KeepsStrictOrder(Run(Fresh(), acts[..|acts| - 1]).value, acts[|acts| - 1]);
    }
  }
}
