/**
  Why durability needs its discipline. A write acknowledged between a freeze
  and the log rotation is lost by a crash after that flush, unless the format
  cannot hold the frozen table; a write anywhere else never is. With two flushers
  past the wait at once, one can rotate while the other's job is about to delete
  the flush log, and a write is lost as well, unless a table that can never leave
  blocks them. Short histories from a new directory reach each case.
 */
module EngineGaps {
  import opened Bytes
  import opened Records
  import opened EngineModel
  import opened EngineLayers
  import opened EngineVisible
  import opened EngineDurable
  import opened EngineRecovery
  import opened EngineSafety
  import opened EngineFiles
  import EngineBuilds
  import EngineSteps
  import EngineStuck
  import WalFormat

  // ---------------------------------------------------------------------
  // A lost operation
  // ---------------------------------------------------------------------

  /** Nothing on disk is numbered as high as `sn`. */
  ghost predicate DiskBelow(d: Disk, sn: nat) {
    && Content(d.wal) == [] && d.walFlush.None?
    && forall id, k :: id in d.sst && k in d.sst[id] ==> d.sst[id][k].sn < sn
  }

  lemma OpenedLayers(d: Disk, log: seq<Rec>, sn: nat)
    requires DiskBelow(d, sn)
    ensures Layers(Open(d, log)) == [map[]] + Newest(SortedSsts(d.sst))
  {
    hide RecoveredMaxSn, SortedSsts, Newest;
    assert [] + Content(d.wal) == [];
  }

  lemma OpenedBelow(d: Disk, log: seq<Rec>, sn: nat, k: Str)
    requires DiskBelow(d, sn)
    ensures GetEntry(Open(d, log), k).Some? ==> GetEntry(Open(d, log), k).value.sn < sn
  {
    hide Open, Layers, SortedSsts, Newest, FirstHit;
    var ls, out := Layers(Open(d, log)), SortedSsts(d.sst);
    OpenedLayers(d, log, sn);
    SortedLists(d.sst);
    HitLayer(ls, k);
    if GetEntry(Open(d, log), k).Some? {
      var i :| 0 <= i < |ls| && k in ls[i] && ls[i][k] == GetEntry(Open(d, log), k).value;
      NewestLength(out);
      NewestAt(out, |out| - i);
      assert ls[i] == Newest(out)[i - 1] == out[|out| - i].table;
    }
  }

  /** An operation in the log above everything on disk: a crash loses it. */
  lemma LostOperation(s: State, r: Rec)
    requires r in s.log && DiskBelow(s.disk, r.sn)
    ensures !CrashSafe(s)
  {
    OpenedBelow(s.disk, s.log, r.sn, r.key);
    hide Open, GetEntry, DiskBelow;
    assert r in Elems(s.log);
    assert !IsHighest(Elems(s.log), r.key, GetEntry(Open(s.disk, s.log), r.key));
  }

  /** Before an append, every version in a table file or layer is older than the new number. */
  lemma FilesOlder(s: State, sn: nat)
    requires History(s) && Reads(s) && DiskFiles(s) && s.pending.None? && s.nextSn <= sn
    ensures forall id, k :: id in s.disk.sst && k in s.disk.sst[id] ==> s.disk.sst[id][k].sn < sn
    ensures forall i, k :: 0 <= i < |Layers(s)| && k in Layers(s)[i] ==> Layers(s)[i][k].sn < sn
  {
    hide Layers, DiskFiles, WalFormat.Accepted;
    forall id, k | id in s.disk.sst && k in s.disk.sst[id] ensures s.disk.sst[id][k].sn < sn {
      FileWithin(s, id);
      LogNumber(s, Rec(k, s.disk.sst[id][k].sn, s.disk.sst[id][k].op));
    }
    forall i, k | 0 <= i < |Layers(s)| && k in Layers(s)[i] ensures Layers(s)[i][k].sn < sn {
      assert TableWithin(Layers(s)[i], Elems(Applied(s)));
      LogNumber(s, Rec(k, Layers(s)[i][k].sn, Layers(s)[i][k].op));
    }
  }

  // ---------------------------------------------------------------------
  // The flush goes on
  // ---------------------------------------------------------------------

  /** A flusher alone, nothing queued, no writer inside: what the rest of a flush needs. */
  ghost predicate Quiet(s: State) {
    s.pending.None? && s.queue == [] && s.worker.Resting?
  }

  ghost predicate NoRotation(s: State) {
    forall t :: t in s.flushers ==> !s.flushers[t].Cleared? && !s.flushers[t].Renamed?
  }

  /** The three steps of a rotation move the log's content aside and start an empty log. */
  lemma Rotates(s: State, m: State, t: Tid) returns (u: State)
    requires Reaches(s, m) && Quiet(m) && NoRotation(m) && PcOf(m, t).Froze? && m.disk.wal.Some?
    ensures Reaches(s, u)
    ensures var job := PcOf(m, t).job;
      u == m.(flushers := m.flushers[t := Rotated(job)], walOpen := true,
              disk := m.disk.(walFlush := m.disk.wal, wal := Some([])))
  {
    u := RotatesFreely(s, m, t);
  }

  /** As `Rotates`, whatever the worker is doing. */
  lemma RotatesFreely(s: State, m: State, t: Tid) returns (u: State)
    requires Reaches(s, m) && m.pending.None? && NoRotation(m) && PcOf(m, t).Froze? && m.disk.wal.Some?
    ensures Reaches(s, u)
    ensures var job := PcOf(m, t).job;
      u == m.(flushers := m.flushers[t := Rotated(job)], walOpen := true,
              disk := m.disk.(walFlush := m.disk.wal, wal := Some([])))
  {
    hide Reaches;
    var job := PcOf(m, t).job;
    ReachStep(s, m, RotClear(t));
    var a := Do(m, RotClear(t));
    ReachStep(s, a, RotRename(t));
    var b := Do(a, RotRename(t));
    ReachStep(s, b, RotCreate(t));
    u := Do(b, RotCreate(t));
    assert m.flushers[t := Cleared(job)][t := Renamed(job)][t := Rotated(job)] == m.flushers[t := Rotated(job)];
  }

  /** From a rotated flush to the worker holding the job. */
  lemma HandsOver(s: State, m: State, t: Tid) returns (u: State)
    requires Reaches(s, m) && Quiet(m) && PcOf(m, t).Rotated?
    ensures Reaches(s, u)
    ensures u == m.(flushers := m.flushers[t := Idle], inFlight := true, lastErr := false,
                    worker := Took(PcOf(m, t).job))
  {
    hide Reaches;
    var job := PcOf(m, t).job;
    ReachStep(s, m, Mark(t));
    var a := Do(m, Mark(t));
    ReachStep(s, a, Send(t));
    var b := Do(a, Send(t));
    assert m.flushers[t := Marked(job)][t := Idle] == m.flushers[t := Idle];
    ReachStep(s, b, Take);
    u := Do(b, Take);
    assert u.queue == [] == m.queue;
  }

  /** From a rotated flush to the worker's reader being installed. */
  lemma Installs(s: State, m: State, t: Tid) returns (u: State)
    requires Reaches(s, m) && Quiet(m) && PcOf(m, t).Rotated? && CanBuild(PcOf(m, t).job.table)
    ensures Reaches(s, u)
    ensures var job := PcOf(m, t).job;
      && u.worker == Installed(job) && u.queue == [] && u.pending.None? && u.frozen.None?
      && u.flushers == m.flushers[t := Idle] && u.active == m.active && u.walOpen == m.walOpen
      && u.nextSn == m.nextSn && u.log == m.log
      && u.disk.wal == m.disk.wal && u.disk.walFlush == m.disk.walFlush
      && u.disk.sst == m.disk.sst[job.id := job.table]
  {
    hide Reaches, CanBuild;
    var c := HandsOver(s, m, t);
    ReachStep(s, c, Build);
    var d := Do(c, Build);
    ReachStep(s, d, Publish);
    var e := Do(d, Publish);
    ReachStep(s, e, Install);
    u := Do(e, Install);
  }

  /** A write, acknowledged. */
  lemma Writes(s: State, m: State, r: Rec) returns (u: State)
    requires Reaches(s, m) && Can(m, Append(r)) && Disciplined(m, Append(r))
    ensures Reaches(s, u)
    ensures u == m.(disk := m.disk.(wal := Some(m.disk.wal.value + [r])), nextSn := m.nextSn + 1,
                    log := m.log + [r], active := Apply(m.active, r), pending := None)
  {
    hide Reaches, WalFormat.Accepted, WalLockFree;
    ReachStep(s, m, Append(r));
    var a := Do(m, Append(r));
    ReachStep(s, a, ApplyPending);
    u := Do(a, ApplyPending);
  }

  // ---------------------------------------------------------------------
  // A write between freeze and rotation
  // ---------------------------------------------------------------------

  lemma GapState(s: State, r: Rec, t: Tid) returns (u: State)
    requires Durable(s) && Can(s, Append(r)) && PcOf(s, t).Froze?
    ensures var a := Do(s, Append(r));
      && Reaches(a, u) && Quiet(u) && NoRotation(u) && PcOf(u, t) == PcOf(s, t) && u.disk.wal.Some?
      && u.log == s.log + [r] && u.disk.sst == s.disk.sst
  {
    hide WalFormat.Accepted, Reads, History, OneFlush, Files, IdOrder, Logged, Staged, DiskFiles, LogsWithin, Reaches;
    var a := Do(s, Append(r));
    ReachSelf(a);
    ReachStep(a, a, ApplyPending);
    u := Do(a, ApplyPending);
    assert !PcOf(s, t).Idle?;
  }

  /** A write acknowledged in the gap is gone once the flush has deleted its log. */
  lemma GapWriteIsLost(s: State, r: Rec, t: Tid)
    requires Durable(s) && Can(s, Append(r)) && PcOf(s, t).Froze? && CanBuild(PcOf(s, t).job.table)
    ensures !SafeFromHere(Do(s, Append(r)))
  {
    hide Durable, Reaches, CanBuild, Can, Do, CrashSafe, Layers;
    var a, job := Do(s, Append(r)), PcOf(s, t).job;
    GapOlder(s, r, t);
    var b := GapState(s, r, t);
    var c := Rotates(a, b, t);
    assert PcOf(c, t) == Rotated(job);
    var d := Installs(a, c, t);
    var e := Unlinks(a, d);
    assert r in e.log;
    LostOperation(e, r);
  }

  lemma GapOlder(s: State, r: Rec, t: Tid)
    requires Durable(s) && Can(s, Append(r)) && PcOf(s, t).Froze?
    ensures forall id, k :: id in s.disk.sst && k in s.disk.sst[id] ==> s.disk.sst[id][k].sn < r.sn
    ensures var table := PcOf(s, t).job.table; forall k :: k in table ==> table[k].sn < r.sn
  {
    assert HeldJob(s, AtFlusher(t)).Some?;
    TopLayers(s);
    hide History, Reads, DiskFiles, Files, IdOrder, Logged, Staged, Single, LogsWithin, WalFormat.Accepted, Layers;
    FilesOlder(s, r.sn);
    var table := PcOf(s, t).job.table;
    forall k | k in table ensures table[k].sn < r.sn { assert k in Layers(s)[1]; }
  }

  lemma Unlinks(s: State, m: State) returns (u: State)
    requires Reaches(s, m) && m.worker.Installed?
    ensures Reaches(s, u) && u.disk == m.disk.(walFlush := None) && u.log == m.log
  {
    hide Reaches;
    ReachStep(s, m, Unlink);
    u := Do(m, Unlink);
  }

  /**
    Exactly which writes are safe: in a durable state, an append survives every
    later disciplined history and crash if and only if no flusher stands between
    its freeze and its rotation with a table that can be written.
   */
  lemma AppendSafeIff(s: State, r: Rec)
    requires Durable(s) && OnlyBuilt(s) && Can(s, Append(r))
    ensures SafeFromHere(Do(s, Append(r)))
      <==> forall t :: t in s.flushers && s.flushers[t].Froze? ==> !CanBuild(s.flushers[t].job.table)
  {
    hide Durable, OnlyBuilt, CanBuild, SafeFromHere, Can, Do;
    if t :| t in s.flushers && s.flushers[t].Froze? {
      FrozeHolds(s, t);
      if CanBuild(s.flushers[t].job.table) { GapWriteIsLost(s, r, t); } else { TrappedWriteIsSafe(s, r, t); }
    } else {
      NobodyFroze(s, r);
      EveryStepDurable(s, Append(r));
      DurableIsSafe(Do(s, Append(r)));
    }
  }

  lemma FrozeHolds(s: State, t: Tid)
    requires Durable(s) && t in s.flushers && s.flushers[t].Froze?
    ensures s.frozen == Some(s.flushers[t].job.table)
    ensures forall x :: x in s.flushers && s.flushers[x].Froze? ==> x == t
  {
    hide Reads, History, Files, IdOrder, Logged, Staged, DiskFiles, LogsWithin;
    assert HeldJob(s, AtFlusher(t)).Some?;
    forall x | x in s.flushers && s.flushers[x].Froze? ensures x == t { assert !PcOf(s, x).Idle? && !PcOf(s, t).Idle?; }
  }

  lemma NobodyFroze(s: State, r: Rec)
    requires Can(s, Append(r)) && forall t :: t in s.flushers ==> !s.flushers[t].Froze?
    ensures Disciplined(s, Append(r))
  {
    hide WalFormat.Accepted, WalLockFree;
  }

  // ---------------------------------------------------------------------
  // Two flushers at once
  // ---------------------------------------------------------------------

  lemma FreezesNow(s: State, m: State, t: Tid) returns (u: State)
    requires Reaches(s, m) && Can(m, Freeze(t))
    ensures Reaches(s, u)
    ensures u == m.(flushers := m.flushers[t := Froze(Job(m.active, m.nextSst))],
                    active := map[], frozen := Some(m.active), nextSst := m.nextSst + 1)
  {
    hide Reaches;
    ReachStep(s, m, Freeze(t));
    u := Do(m, Freeze(t));
  }

  /** The second flusher past its wait, the first one's job installed but its log not yet removed. */
  ghost predicate Overlap(u: State, v: Tid) {
    && u.worker.Installed? && u.pending.None? && u.frozen.None? && u.walOpen && u.disk.wal.Some?
    && PcOf(u, v).Waited? && forall x :: x != v ==> PcOf(u, x).Idle?
  }

  /** Two flushers past the wait and nobody else inside. */
  ghost predicate TwoInside(m: State, t: Tid, v: Tid) {
    && Quiet(m) && t != v && PcOf(m, v).Waited? && !PcOf(m, t).Idle? && !PcOf(m, t).Marked?
    && forall x :: x != t && x != v ==> PcOf(m, x).Idle?
  }

  /** A flusher that has frozen a table finishes its rotation, wherever it stands in it. */
  lemma ReachesRotated(s: State, m: State, t: Tid, v: Tid) returns (u: State)
    requires Reaches(s, m) && TwoInside(m, t, v) && !PcOf(m, t).Waited?
    requires PcOf(m, t).Froze? || PcOf(m, t).Cleared? ==> m.disk.wal.Some?
    requires PcOf(m, t).Rotated? ==> m.walOpen && m.disk.wal.Some?
    ensures Reaches(s, u) && u.flushers == m.flushers[t := Rotated(PcOf(m, t).job)] && Quiet(u)
    ensures u.walOpen && u.disk.wal.Some? && u.disk.sst == m.disk.sst && u.log == m.log && u.nextSn == m.nextSn
  {
    hide Reaches;
    var job := PcOf(m, t).job;
    if PcOf(m, t).Froze? {
      forall x | x in m.flushers ensures !m.flushers[x].Cleared? && !m.flushers[x].Renamed? {
        assert PcOf(m, x) == m.flushers[x];
      }
      u := RotatesFreely(s, m, t);
    } else if PcOf(m, t).Rotated? {
      u := m;
      assert m.flushers[t := Rotated(job)] == m.flushers;
    } else {
      var b := m;
      if PcOf(m, t).Cleared? {
        ReachStep(s, m, RotRename(t));
        b := Do(m, RotRename(t));
      }
      ReachStep(s, b, RotCreate(t));
      u := Do(b, RotCreate(t));
      assert m.flushers[t := Renamed(job)][t := Rotated(job)] == m.flushers[t := Rotated(job)];
    }
  }

  /** From a rotated first flush to its installed reader, the second flusher still past its wait. */
  lemma InstallsFirst(s: State, m: State, t: Tid, v: Tid) returns (u: State)
    requires Reaches(s, m) && TwoInside(m, t, v) && PcOf(m, t).Rotated? && CanBuild(PcOf(m, t).job.table)
    requires m.walOpen && m.disk.wal.Some?
    ensures Reaches(s, u) && Overlap(u, v) && u.nextSn == m.nextSn && u.log == m.log
    ensures var job := PcOf(m, t).job; u.disk.sst == m.disk.sst[job.id := job.table]
  {
    hide Reaches, CanBuild;
    u := Installs(s, m, t);
    assert PcOf(u, t).Idle?;
    forall x | x != t ensures PcOf(u, x) == PcOf(m, x) {}
  }

  /** The first flusher freezes and its flush runs up to the installed reader. */
  lemma FirstFlush(s: State, m: State, t: Tid, v: Tid) returns (u: State)
    requires Reaches(s, m) && TwoInside(m, t, v) && PcOf(m, t).Waited? && m.disk.wal.Some?
    requires m.frozen.None? && m.active != map[] && CanBuild(m.active)
    ensures Reaches(s, u) && Overlap(u, v) && u.nextSn == m.nextSn && u.log == m.log
    ensures u.disk.sst == m.disk.sst[m.nextSst := m.active]
  {
    hide Reaches, CanBuild;
    var a := FreezesNow(s, m, t);
    var job := Job(m.active, m.nextSst);
    assert PcOf(a, t) == Froze(job);
    forall x | x != t ensures PcOf(a, x) == PcOf(m, x) {}
    var b := ReachesRotated(s, a, t, v);
    assert PcOf(b, t) == Rotated(job);
    forall x | x != t ensures PcOf(b, x) == PcOf(m, x) {}
    u := InstallsFirst(s, b, t, v);
  }

  /** A write, then the second flusher rotates, then the first job deletes the flush log. */
  lemma SecondRotation(s: State, m: State, v: Tid, r: Rec) returns (u: State)
    requires Reaches(s, m) && Overlap(m, v) && r.sn == m.nextSn < U64_LIMIT - 1 && WalFormat.Accepted(r)
    ensures Reaches(s, u) && u.log == m.log + [r] && u.disk.sst == m.disk.sst
    ensures u.disk.wal == Some([]) && u.disk.walFlush.None?
  {
    hide Reaches, WalFormat.Accepted;
    forall x | x in m.flushers ensures !m.flushers[x].Cleared? && !m.flushers[x].Renamed? && !m.flushers[x].Froze? {
      assert PcOf(m, x) == m.flushers[x];
    }
    var a := Writes(s, m, r);
    assert r.key in a.active;
    var b := FreezesNow(s, a, v);
    assert PcOf(b, v).Froze?;
    var c := RotatesFreely(s, b, v);
    u := Unlinks(s, c);
  }

  /** The smallest write: a tombstone. */
  function Probe(sn: nat): Rec { Rec([0], sn, Delete) }

  lemma ProbeAccepted(sn: nat)
    requires sn < U64_LIMIT
    ensures WalFormat.Accepted(Probe(sn)) && CanBuild(map[Probe(sn).key := Entry(sn, Delete)])
  {
    EngineBuilds.SingletonBuilds(Probe(sn));
  }

  /** From an overlap with older files only, one more write can be lost. */
  lemma OverlapLoses(s: State, m: State, v: Tid)
    requires Reaches(s, m) && Overlap(m, v) && m.nextSn < U64_LIMIT - 1
    requires forall id, k :: id in m.disk.sst && k in m.disk.sst[id] ==> m.disk.sst[id][k].sn < m.nextSn
    ensures !SafeFromHere(s)
  {
    hide Reaches, CrashSafe, CanBuild, WalFormat.Accepted, Overlap;
    var r := Probe(m.nextSn);
    ProbeAccepted(m.nextSn);
    var u := SecondRotation(s, m, v, r);
    assert r in u.log;
    LostOperation(u, r);
  }

  /** Everything stored is numbered below the next number. */
  ghost predicate AllOlder(d: Disk, t: Table, sn: nat) {
    && (forall id, k :: id in d.sst && k in d.sst[id] ==> d.sst[id][k].sn < sn)
    && (forall k :: k in t ==> t[k].sn < sn)
  }

  /** A flusher past its wait, with something to freeze. */
  ghost predicate MayFreeze(m: State, t: Tid, v: Tid) {
    && TwoInside(m, t, v) && PcOf(m, t).Waited? && m.frozen.None? && m.walOpen && m.disk.wal.Some?
    && AllOlder(m.disk, m.active, m.nextSn)
  }

  /** If need be after one write, the first flusher has a table to freeze. */
  lemma GetsTable(a: State, t: Tid, v: Tid) returns (m: State)
    requires MayFreeze(a, t, v) && a.nextSn < U64_LIMIT - 2 && (a.active != map[] ==> CanBuild(a.active))
    ensures Reaches(a, m) && MayFreeze(m, t, v) && m.active != map[] && CanBuild(m.active) && m.nextSn < U64_LIMIT - 1
  {
    hide Reaches, CanBuild, WalFormat.Accepted;
    ReachSelf(a);
    m := a;
    if a.active == map[] {
      var r := Probe(a.nextSn);
      ProbeAccepted(a.nextSn);
      forall x | x in a.flushers ensures !a.flushers[x].Cleared? && !a.flushers[x].Renamed? && !a.flushers[x].Froze? {
        assert PcOf(a, x) == a.flushers[x];
      }
      m := Writes(a, a, r);
      assert m.active == map[r.key := Entry(r.sn, r.op)];
      assert AllOlder(m.disk, m.active, m.nextSn);
      forall x ensures PcOf(m, x) == PcOf(a, x) {}
      assert TwoInside(m, t, v);
    }
  }

  /** The first flusher has not frozen yet. */
  lemma WaitedLoses(a: State, t: Tid, v: Tid)
    requires MayFreeze(a, t, v) && a.nextSn < U64_LIMIT - 2 && (a.active != map[] ==> CanBuild(a.active))
    ensures !SafeFromHere(a)
  {
    hide Reaches, CanBuild, SafeFromHere, Overlap, TwoInside;
    var m := GetsTable(a, t, v);
    var u := FirstFlush(a, m, t, v);
    OverlapLoses(a, u, v);
  }

  /** The first flusher has frozen its table. */
  lemma FrozeLoses(s: State, a: State, t: Tid, v: Tid)
    requires Durable(s) && s.pending.None? && s.nextSn < U64_LIMIT - 2
    requires Can(s, WaitPass(v)) && a == Do(s, WaitPass(v)) && TwoInside(a, t, v) && !PcOf(a, t).Waited?
    requires s.frozen.Some? ==> CanBuild(s.frozen.value)
    ensures !SafeFromHere(a)
  {
    hide Durable, Reaches, CanBuild, SafeFromHere, Overlap;
    assert PcOf(a, t) == PcOf(s, t) && HeldJob(s, AtFlusher(t)).Some?;
    HeldOlder(s, t);
    HeldLog(s, t);
    ReachSelf(a);
    var job := PcOf(a, t).job;
    var b := ReachesRotated(a, a, t, v);
    assert PcOf(b, t) == Rotated(job);
    forall x | x != t ensures PcOf(b, x) == PcOf(a, x) {}
    var u := InstallsFirst(a, b, t, v);
    OverlapLoses(a, u, v);
  }

  /** The log is in its place for whoever is about to rename it, and open after a rotation. */
  lemma HeldLog(s: State, t: Tid)
    requires Durable(s)
    ensures PcOf(s, t).Froze? || PcOf(s, t).Cleared? ==> s.disk.wal.Some?
    ensures PcOf(s, t).Rotated? ==> s.walOpen && s.disk.wal.Some?
  {
    hide Running, Single, DiskFiles, LogsWithin, TableOf;
  }

  lemma HeldOlder(s: State, t: Tid)
    requires Durable(s) && s.pending.None? && HeldJob(s, AtFlusher(t)).Some?
    ensures s.frozen == Some(PcOf(s, t).job.table)
    ensures forall id, k :: id in s.disk.sst && k in s.disk.sst[id] ==> s.disk.sst[id][k].sn < s.nextSn
    ensures var table := PcOf(s, t).job.table; forall k :: k in table ==> table[k].sn < s.nextSn
  {
    TopLayers(s);
    hide History, Reads, DiskFiles, Files, IdOrder, Logged, Staged, Single, LogsWithin, WalFormat.Accepted, Layers;
    FilesOlder(s, s.nextSn);
    var table := PcOf(s, t).job.table;
    forall k | k in table ensures table[k].sn < s.nextSn { assert k in Layers(s)[1]; }
  }

  /** With no stuck table and the one flusher merely past its wait, nothing is frozen. */
  lemma WaitedUnfrozen(s: State, t: Tid)
    requires Durable(s) && !EngineStuck.Stuck(s) && PcOf(s, t).Waited? && !s.inFlight
    ensures s.frozen.None?
  {
    hide History, Reads, Files, IdOrder, Logged, Staged, DiskFiles, LogsWithin;
  }

  /** Two flushers past the wait, no writer inside, nothing stuck: a write can be lost. */
  lemma TogetherLoses(s: State, t: Tid, v: Tid)
    requires Durable(s) && Can(s, WaitPass(v)) && s.pending.None? && !EngineStuck.Stuck(s) && s.nextSn < U64_LIMIT - 2
    requires !Doomed(s)
    requires t in s.flushers && t != v && !s.flushers[t].Idle?
    ensures !SafeFromHere(Do(s, WaitPass(v)))
  {
    hide Durable, SafeFromHere, CanBuild, TwoInside;
    var a := Do(s, WaitPass(v));
    InsideTogether(s, t, v);
    if PcOf(s, t).Waited? {
      WaitedUnfrozen(s, t);
      PassedMayFreeze(s, t, v);
      WaitedLoses(a, t, v);
    } else {
      FrozeLoses(s, a, t, v);
    }
  }

  /** The same with a writer inside: it applies its operation first. */
  lemma WriterThenLoses(s: State, t: Tid, v: Tid)
    requires Durable(s) && Can(s, WaitPass(v)) && s.pending.Some? && !EngineStuck.Stuck(s) && s.nextSn < U64_LIMIT - 2
    requires !Doomed(s)
    requires t in s.flushers && t != v && !s.flushers[t].Idle?
    ensures !SafeFromHere(Do(s, WaitPass(v)))
  {
    hide Durable, SafeFromHere, CanBuild, Apply, Reaches;
    var a, s2 := Do(s, WaitPass(v)), Do(s, ApplyPending);
    EveryStepDurable(s, ApplyPending);
    SameHolders(s, s2);
    TogetherLoses(s2, t, v);
    ReachSelf(a);
    ReachStep(a, a, ApplyPending);
    assert Do(a, ApplyPending) == Do(s2, WaitPass(v));
    UnsafeBefore(a, Do(a, ApplyPending));
  }

  lemma SameHolders(s: State, u: State)
    requires u.flushers == s.flushers && u.queue == s.queue && u.worker == s.worker && u.frozen == s.frozen
    ensures EngineStuck.Stuck(u) <==> EngineStuck.Stuck(s)
  {
    assert forall h :: HeldJob(u, h) == HeldJob(s, h);
  }

  /** Histories join. */
  lemma {:induction false} DisciplinedConcat(s: State, a: seq<Action>, b: seq<Action>, m: State)
    requires DisciplinedRun(s, a) && Run(s, a) == Some(m) && DisciplinedRun(m, b) && Run(m, b).Some?
    ensures DisciplinedRun(s, a + b) && Run(s, a + b) == Run(m, b)
  {
    hide Can, Do, Disciplined;
    EngineSteps.RunConcat(s, a, b, m);
    if b == [] {
      assert a + b == a;
    } else {
      var init := b[..|b| - 1];
      DisciplinedConcat(s, a, init, m);
      EngineSteps.RunConcat(s, a, init, m);
      assert (a + b)[..|a + b| - 1] == a + init;
    }
  }

  lemma UnsafeBefore(s: State, m: State)
    requires Reaches(s, m) && !SafeFromHere(m)
    ensures !SafeFromHere(s)
  {
    hide DisciplinedRun, Run, CrashSafe;
    var u :| Reaches(m, u) && !CrashSafe(u);
    var a: seq<Action> :| DisciplinedRun(s, a) && Run(s, a) == Some(m);
    var b: seq<Action> :| DisciplinedRun(m, b) && Run(m, b) == Some(u);
    DisciplinedConcat(s, a, b, m);
    assert Reaches(s, u);
  }

  // ---------------------------------------------------------------------
  // The exact condition
  // ---------------------------------------------------------------------

  predicate OthersIdle(s: State, v: Tid) { forall u :: u in s.flushers && u != v ==> s.flushers[u].Idle? }

  /**
    Exactly when a flusher may pass its wait: letting `v` through keeps every later
    disciplined history safe from loss by a crash if and only if every other flusher is
    idle, or the table in the slot, or to be put there next, can never leave it.
   */
  lemma WaitSafeIff(s: State, v: Tid)
    requires Durable(s) && OnlyBuilt(s) && Can(s, WaitPass(v)) && s.nextSn < U64_LIMIT - 2
    ensures SafeFromHere(Do(s, WaitPass(v))) <==> OthersIdle(s, v) || EngineStuck.Stuck(s) || Doomed(s)
  {
    hide Durable, SafeFromHere, OnlyBuilt, EngineStuck.Stuck, Doomed, Blocked;
    var a := Do(s, WaitPass(v));
    if OthersIdle(s, v) {
      EveryStepDurable(s, WaitPass(v));
      DurableIsSafe(a);
    } else if EngineStuck.Stuck(s) || Doomed(s) {
      BlockedPass(s, v);
      BlockedIsSafe(a);
    } else {
      var t :| t in s.flushers && t != v && !s.flushers[t].Idle?;
      if s.pending.Some? { WriterThenLoses(s, t, v); } else { TogetherLoses(s, t, v); }
    }
  }

  // ---------------------------------------------------------------------
  // From a new directory
  // ---------------------------------------------------------------------

  lemma FreshState()
    ensures Fresh() == State(map[], None, [], true, 1, 1, false, false, map[], [], Resting, None,
                             Disk(Some([]), None, map[], map[]), [], false)
  {
    assert [] + Content(EMPTY_DISK.wal) == [];
  }

  /** One write, then a freeze. */
  const FROZE: seq<Action> := [Append(Probe(1)), ApplyPending, WaitPass(0), Freeze(0)]

  lemma FrozeState() returns (s: State)
    ensures DisciplinedRun(Fresh(), FROZE) && Run(Fresh(), FROZE) == Some(s)
    ensures s == State(map[], Some(map[Probe(1).key := Entry(1, Delete)]), [], true, 2, 2, false, false,
                       map[0 := Froze(Job(map[Probe(1).key := Entry(1, Delete)], 1))], [], Resting, None,
                       Disk(Some([Probe(1)]), None, map[], map[]), [Probe(1)], false)
  {
    FreshState();
    ProbeAccepted(1);
    hide WalFormat.Accepted, Fresh, CanBuild;
    var f := Fresh();
    var a := Do(f, Append(Probe(1)));
    var b := Do(a, ApplyPending);
    var c := Do(b, WaitPass(0));
    s := Do(c, Freeze(0));
    assert [] + [Probe(1)] == [Probe(1)];
    FourSteps(f, FROZE[0], FROZE[1], FROZE[2], FROZE[3]);
  }

  lemma DisciplinedSnoc(s: State, acts: seq<Action>, m: State, a: Action)
    requires DisciplinedRun(s, acts) && Run(s, acts) == Some(m) && Can(m, a) && Disciplined(m, a)
    ensures DisciplinedRun(s, acts + [a]) && Run(s, acts + [a]) == Some(Do(m, a))
  {
    hide Can, Do, Disciplined;
    assert (acts + [a])[..|acts|] == acts;
  }

  lemma FourSteps(s: State, a: Action, b: Action, c: Action, d: Action)
    requires Can(s, a) && Disciplined(s, a)
    requires var m := Do(s, a); Can(m, b) && Disciplined(m, b)
    requires var m := Do(Do(s, a), b); Can(m, c) && Disciplined(m, c)
    requires var m := Do(Do(Do(s, a), b), c); Can(m, d) && Disciplined(m, d)
    ensures DisciplinedRun(s, [a, b, c, d]) && Run(s, [a, b, c, d]) == Some(Do(Do(Do(Do(s, a), b), c), d))
  {
    hide Can, Do, Disciplined;
    DisciplinedSnoc(s, [], s, a);
    assert [] + [a] == [a];
    DisciplinedSnoc(s, [a], Do(s, a), b);
    assert [a] + [b] == [a, b];
    DisciplinedSnoc(s, [a, b], Do(Do(s, a), b), c);
    assert [a, b] + [c] == [a, b, c];
    DisciplinedSnoc(s, [a, b, c], Do(Do(Do(s, a), b), c), d);
    assert [a, b, c] + [d] == [a, b, c, d];
  }

  /** The gap is reached: write, freeze, and a second write before the rotation is lost. */
  lemma GapHappens()
    ensures DisciplinedRun(Fresh(), FROZE) && Run(Fresh(), FROZE).Some?
    ensures var s := Run(Fresh(), FROZE).value;
      PcOf(s, 0).Froze? && Can(s, Append(Probe(2))) && !SafeFromHere(Do(s, Append(Probe(2))))
  {
    hide WalFormat.Accepted, Fresh, Run, DisciplinedRun, Durable, CanBuild, SafeFromHere, Do;
    var s := FrozeState();
    DisciplinedRunsDurable(FROZE);
    ProbeAccepted(1);
    ProbeAccepted(2);
    GapWriteIsLost(s, Probe(2), 0);
  }

  /** The overlap is reached: in a new directory a first flusher passes its wait, then a second. */
  lemma OverlapHappens()
    ensures DisciplinedRun(Fresh(), [WaitPass(0)]) && Run(Fresh(), [WaitPass(0)]).Some?
    ensures var s := Run(Fresh(), [WaitPass(0)]).value;
      Can(s, WaitPass(1)) && !SafeFromHere(Do(s, WaitPass(1)))
  {
    FreshState();
    hide Durable, SafeFromHere, CanBuild, Fresh;
    var s := Do(Fresh(), WaitPass(0));
    DisciplinedSnoc(Fresh(), [], Fresh(), WaitPass(0));
    assert [] + [WaitPass(0)] == [WaitPass(0)];
    RunsOnlyBuilt([WaitPass(0)]);
    EngineBuilds.EmptyBuilds();
    WaitSafeIff(s, 1);
    assert s.flushers[0] == Waited;
  }

  lemma BrokenState() returns (u: State)
    ensures DisciplinedRun(Fresh(), FROZE + [RotFail(0)]) && Run(Fresh(), FROZE + [RotFail(0)]) == Some(u)
    ensures EngineStuck.Stuck(u) && EngineSteps.Alone(u, 0) && !u.lastErr
  {
    hide Fresh, CanBuild, Run, DisciplinedRun;
    var s := FrozeState();
    u := Do(s, RotFail(0));
    DisciplinedSnoc(Fresh(), FROZE, s, RotFail(0));
    forall h ensures HeldJob(u, h).None? {}
  }

  /**
    The stuck slot is reached: write, freeze, and the system refuses to rotate. A `flush`
    alone with that engine goes round for ever.
   */
  lemma StuckHappens(io: EngineSteps.Faults)
    ensures DisciplinedRun(Fresh(), FROZE + [RotFail(0)]) && Run(Fresh(), FROZE + [RotFail(0)]).Some?
    ensures var s := Run(Fresh(), FROZE + [RotFail(0)]).value;
      && EngineStuck.Stuck(s) && EngineSteps.Alone(s, 0)
      && forall n :: EngineSteps.FlushAfter(s, 0, io, n).Loops?
  {
    hide Fresh, CanBuild, EngineSteps.FlushAfter, Do, Run, DisciplinedRun, Can;
    var u := BrokenState();
    forall n ensures EngineSteps.FlushAfter(u, 0, io, n).Loops? { EngineSteps.FlushSpins(u, 0, io, n); }
  }

  lemma PassedMayFreeze(s: State, t: Tid, v: Tid)
    requires Durable(s) && Can(s, WaitPass(v)) && s.pending.None? && s.frozen.None?
    requires TwoInside(Do(s, WaitPass(v)), t, v) && PcOf(s, t).Waited?
    ensures MayFreeze(Do(s, WaitPass(v)), t, v)
  {
    ActiveOlder(s, s.nextSn);
    hide Running, Staged, Single, DiskFiles, LogsWithin, ActiveLogged, FlushLogStale, TwoInside;
  }

  lemma InsideTogether(s: State, t: Tid, v: Tid)
    requires Durable(s) && Can(s, WaitPass(v)) && s.pending.None? && t != v && !PcOf(s, t).Idle?
    ensures TwoInside(Do(s, WaitPass(v)), t, v) && PcOf(Do(s, WaitPass(v)), t) == PcOf(s, t)
  {
    hide Running, Logged, Staged, DiskFiles, LogsWithin;
    var a := Do(s, WaitPass(v));
    forall x | x != t ensures PcOf(s, x).Idle? {}
    forall x | x != t && x != v ensures PcOf(a, x).Idle? { assert PcOf(a, x) == PcOf(s, x); }
    assert PcOf(a, t) == PcOf(s, t) && PcOf(a, v).Waited?;
  }

  lemma ActiveOlder(s: State, sn: nat)
    requires Durable(s) && s.pending.None? && s.nextSn <= sn
    ensures forall id, k :: id in s.disk.sst && k in s.disk.sst[id] ==> s.disk.sst[id][k].sn < sn
    ensures forall k :: k in s.active ==> s.active[k].sn < sn
  {
    TopLayers(s);
    hide History, Reads, DiskFiles, Files, IdOrder, Logged, Staged, Single, LogsWithin, WalFormat.Accepted, Layers;
    FilesOlder(s, sn);
    forall k | k in s.active ensures s.active[k].sn < sn { assert k in Layers(s)[0]; }
  }
}
