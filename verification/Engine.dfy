/**
  The engine object: tables, log, directory and counters updated in place, one
  method per critical section. Its ghost field follows the machine of
  EngineModel; every method's contract is that object and machine take the same
  step, so what is proved of the machine holds of the object.
 */
module Engines {
  import opened Bytes
  import opened Records
  import opened EngineModel
  import opened EngineFiles
  import opened EngineStart
  import opened MemTables
  import opened Wals
  import WalFormat
  import WalRecovery
  import SstReader
  import SstWriters
  import Bloom
  import opened EngineBuilds
  import opened EngineSteps
  import opened EngineVisible

  /** What a flusher hands to the worker: the frozen table itself, not a copy. */
  datatype FlushJob = FlushJob(frozen: MemTable, id: nat)

  // ---------------------------------------------------------------------
  // A directory holding a machine disk
  // ---------------------------------------------------------------------

  /** The file starts with the log; `tidy` ones have less than a page behind it. */
  ghost predicate LogFile(crc: Checksum, direct: bool, tidy: bool, f: File?, content: Option<seq<Rec>>)
    reads f
  {
    match content
    case None => f == null
    case Some(rs) =>
      && f != null && WalRecovery.StartsLog(crc, direct, f.bytes, rs)
      && (tidy ==> WalRecovery.IsLog(crc, direct, f.bytes, rs))
  }

  ghost predicate LogFiles(
    crc: Checksum, direct: bool, tidy: bool, dir: Dir, wal: Option<seq<Rec>>, walFlush: Option<seq<Rec>>)
    reads dir`wal, dir`walFlush, dir.wal, dir.walFlush
  {
    && LogFile(crc, direct, tidy, dir.wal, wal) && LogFile(crc, direct, tidy, dir.walFlush, walFlush)
    && (dir.wal != null ==> dir.wal != dir.walFlush)
  }

  /** Every table file is complete; a temporary file is, if its table can be written at all. */
  ghost predicate TableFiles(
    crc: Checksum, tmpBytes: map<nat, Str>, sstBytes: map<nat, Str>, tmp: map<nat, Table>, sst: map<nat, Table>)
  {
    && (forall id :: id in tmp && CanBuild(tmp[id]) ==> id in tmpBytes && tmpBytes[id] == SstBytes(crc, tmp[id]))
    && sstBytes.Keys == sst.Keys
    && (forall id :: id in sst ==> CanBuild(sst[id]) && sstBytes[id] == SstBytes(crc, sst[id]))
  }

  lemma TmpWritten(crc: Checksum, tmpBytes: map<nat, Str>, sstBytes: map<nat, Str>, tmp: map<nat, Table>,
                   sst: map<nat, Table>, id: nat, t: Table)
    requires TableFiles(crc, tmpBytes, sstBytes, tmp, sst)
    ensures TableFiles(crc, tmpBytes[id := SstBytes(crc, t)], sstBytes, tmp[id := t], sst)
  {
    hide CanBuild, SstBytes;
  }

  lemma TmpPublished(crc: Checksum, tmpBytes: map<nat, Str>, sstBytes: map<nat, Str>, tmp: map<nat, Table>,
                     sst: map<nat, Table>, id: nat)
    requires TableFiles(crc, tmpBytes, sstBytes, tmp, sst) && id in tmp && CanBuild(tmp[id])
    ensures id in tmpBytes
    ensures TableFiles(crc, tmpBytes - {id}, sstBytes[id := tmpBytes[id]], tmp - {id}, sst[id := tmp[id]])
  {
    hide CanBuild, SstBytes;
  }

  lemma FileStored(crc: Checksum, tmpBytes: map<nat, Str>, sstBytes: map<nat, Str>, tmp: map<nat, Table>,
                   sst: map<nat, Table>, id: nat)
    requires TableFiles(crc, tmpBytes, sstBytes, tmp, sst) && id in sst
    ensures id in sstBytes && sstBytes[id] == SstBytes(crc, sst[id]) && CanBuild(sst[id])
  {
    hide CanBuild, SstBytes;
  }

  // ---------------------------------------------------------------------
  // How the object's fields match the machine's
  // ---------------------------------------------------------------------

  /** The objects an open log is made of. */
  ghost function WalParts(wal: Wal?): set<object> {
    if wal == null then {} else {wal, wal.buf, wal.file}
  }

  ghost function JobTables(jobs: seq<FlushJob>): set<object> {
    set j | j in jobs :: j.frozen
  }

  /** The frozen table is its own object: writes to the active one cannot reach it. */
  ghost predicate FrozenIs(frozen: MemTable?, t: Option<Table>, active: MemTable)
    reads frozen
  {
    match t
    case None => frozen == null
    case Some(v) => frozen != null && frozen != active && frozen.table == v
  }

  ghost predicate JobIs(j: FlushJob, m: Job, active: MemTable)
    reads j.frozen
  {
    j.frozen != active && j.frozen.table == m.table && j.id == m.id
  }

  ghost predicate JobsMatch(jobs: seq<FlushJob>, queue: seq<Job>, active: MemTable)
    reads JobTables(jobs)
  {
    |jobs| == |queue| && forall i :: 0 <= i < |jobs| ==> JobIs(jobs[i], queue[i], active)
  }

  ghost predicate ReadersMatch(crc: Checksum, hs: seq<Handle>, ssts: seq<Sst>) {
    && |hs| == |ssts|
    && forall i :: 0 <= i < |hs| ==> hs[i].id == ssts[i].id && ReaderAnswers(crc, hs[i].reader, ssts[i].table)
  }

  ghost predicate AllOpened(hs: seq<Handle>) {
    forall i :: 0 <= i < |hs| ==> SstReader.Opened(hs[i].reader)
  }

  /** File `i` gives the result, and no newer one knows the key. */
  ghost predicate AnsweredBy(crc: Checksum, hs: seq<Handle>, key: Str, i: nat, res: Result<Lookup>)
    requires AllOpened(hs)
  {
    && i < |hs| && SstReader.Get(crc, hs[i].reader, key) == res && res != Ok(Missing)
    && forall j :: i < j < |hs| ==> SstReader.Get(crc, hs[j].reader, key) == Ok(Missing)
  }

  lemma ReaderPushed(crc: Checksum, hs: seq<Handle>, ssts: seq<Sst>, h: Handle, x: Sst)
    requires ReadersMatch(crc, hs, ssts) && h.id == x.id && ReaderAnswers(crc, h.reader, x.table)
    ensures ReadersMatch(crc, hs + [h], ssts + [x])
  {
    hide ReaderAnswers;
  }

  /** The open log is the directory's, and holds what the machine's log holds. */
  ghost predicate LogIs(crc: Checksum, direct: bool, tidy: bool, wal: Wal?, dir: Dir, content: Option<seq<Rec>>)
    reads dir`wal, WalParts(wal)
  {
    wal != null ==>
      && wal.Valid() && wal.Clean() && (tidy ==> wal.Tidy()) && wal.crc == crc && wal.direct == direct
      && dir.wal == wal.file && content == Some(wal.log)
  }

  /** From `off` on, writing has not changed where the log reads as ending. */
  ghost predicate KeepsEnd(crc: Checksum, before: Str, after: Str, off: nat) {
    forall at :: at >= off ==> WalRecovery.EndsAt(crc, after, at) == WalRecovery.EndsAt(crc, before, at)
  }

  // ---------------------------------------------------------------------
  // The engine
  // ---------------------------------------------------------------------

  class Engine {
    const crc: Checksum
    const direct: bool
    const capacity: nat
    const dir: Dir
    /** Whether no log file has a stale page behind its last frame. */
    ghost const tidy: bool
    var active: MemTable
    var frozen: MemTable?
    var sstables: seq<Handle>
    var wal: Wal?
    var nextSn: nat
    var nextSst: nat
    var inFlight: bool
    var lastErr: bool
    var jobs: seq<FlushJob>
    ghost var model: State

    constructor Assemble(crc: Checksum, direct: bool, capacity: nat, dir: Dir, active: MemTable, sstables: seq<Handle>,
                         wal: Wal, nextSn: nat, nextSst: nat, ghost tidy: bool, ghost model: State)
      ensures this.crc == crc && this.direct == direct && this.capacity == capacity && this.dir == dir
      ensures this.active == active && frozen == null && this.sstables == sstables && this.wal == wal
      ensures this.nextSn == nextSn && this.nextSst == nextSst && !inFlight && !lastErr && jobs == []
      ensures this.tidy == tidy && this.model == model
    {
      this.crc, this.direct, this.capacity, this.dir := crc, direct, capacity, dir;
      this.active, this.frozen, this.sstables, this.wal := active, null, sstables, wal;
      this.nextSn, this.nextSst, this.inFlight, this.lastErr, this.jobs := nextSn, nextSst, false, false, [];
      this.tidy, this.model := tidy, model;
    }

    ghost predicate Valid()
      reads this, dir, active, frozen, JobTables(jobs), WalParts(wal), dir.wal, dir.walFlush
    {
      && active.table == model.active
      && FrozenIs(frozen, model.frozen, active)
      && JobsMatch(jobs, model.queue, active)
      && ReadersMatch(crc, sstables, model.ssts)
      && nextSn == model.nextSn && nextSst == model.nextSst && inFlight == model.inFlight && lastErr == model.lastErr
      && (wal != null <==> model.walOpen)
      && LogIs(crc, direct, tidy, wal, dir, model.disk.wal)
      && LogFiles(crc, direct, tidy, dir, model.disk.wal, model.disk.walFlush)
      && TableFiles(crc, dir.tmp, dir.sst, model.disk.tmp, model.disk.sst)
    }

    /** None of the objects below is the engine or its directory. */
    lemma Apart()
      ensures this !in JobTables(jobs) && this !in WalParts(wal)
      ensures dir !in JobTables(jobs) && dir !in WalParts(wal)
      ensures JobTables(jobs) !! WalParts(wal) && active !in WalParts(wal)
      ensures wal != null ==> wal.buf.data !in JobTables(jobs)
    {
    }

    /** What can be read off the object of the machine's state. */
    lemma Mirrors()
      requires Valid()
      ensures active.table == model.active && (frozen == null <==> model.frozen.None?)
      ensures inFlight == model.inFlight && lastErr == model.lastErr && nextSn == model.nextSn
      ensures (dir.wal == null <==> model.disk.wal.None?) && (dir.walFlush == null <==> model.disk.walFlush.None?)
    {
      hide LogIs, TableFiles, ReadersMatch, JobsMatch, WalRecovery.StartsLog, WalRecovery.IsLog;
    }

    // -------------------------------------------------------------------
    // Reads
    // -------------------------------------------------------------------

    /** Active table, frozen table, then readers newest first. */
    method Get(key: Str) returns (res: Result<Lookup>)
      requires Valid()
      ensures res == EngineModel.Get(model, key)
      ensures Running(model) ==>
        if key == [] then res == Err(EmptyKey) else res.Ok? && TellsLast(res.value, Elems(Applied(model)), key)
    {
      if Running(model) { GetTells(model, key); }
      res := Search(key);
    }

    method Search(key: Str) returns (res: Result<Lookup>)
      requires Valid()
      ensures res == EngineModel.Get(model, key)
    {
      if key == [] { return Err(EmptyKey); }
      hide ReaderAnswers, Newest, CanBuild, LogFiles, TableFiles, LogIs, JobsMatch;
      assert Layers(model)[0] == model.active;
      var hit := active.Get(key);
      if !hit.Missing? { return Ok(hit); }
      SkipTop(model, key);
      if frozen != null {
        var older := frozen.Get(key);
        if !older.Missing? { return Ok(older); }
      }
      res := GetFromReaders(key);
    }

    /** Newest first; an error ends the search as an answer does. */
    method GetFromReaders(key: Str) returns (res: Result<Lookup>)
      requires AllOpened(sstables) && key != []
      ensures res == Ok(Missing) || exists i :: AnsweredBy(crc, sstables, key, i, res)
      ensures res == Ok(Missing) ==>
        forall i :: 0 <= i < |sstables| ==> SstReader.Get(crc, sstables[i].reader, key) == Ok(Missing)
      ensures ReadersMatch(crc, sstables, model.ssts) ==> res == Ok(Answer(FirstHit(Newest(model.ssts), key)))
    {
      hide SstReader.Get, SstReader.Opened, Newest;
      ghost var known := ReadersMatch(crc, sstables, model.ssts);
      var i := |sstables|;
      if known { assert model.ssts[..i] == model.ssts; }
      while i > 0
        invariant 0 <= i <= |sstables|
        invariant forall j :: i <= j < |sstables| ==> SstReader.Get(crc, sstables[j].reader, key) == Ok(Missing)
        invariant known ==> FirstHit(Newest(model.ssts[..i]), key) == FirstHit(Newest(model.ssts), key)
      {
        i := i - 1;
        if known {
          NewestStep(model.ssts[..i + 1], key);
          assert model.ssts[..i + 1][..i] == model.ssts[..i];
          assert ReaderAnswers(crc, sstables[i].reader, model.ssts[i].table);
        }
        var one := SstReader.Get(crc, sstables[i].reader, key);
        if one.Err? || !one.value.Missing? {
          assert AnsweredBy(crc, sstables, key, i, one);
          return one;
        }
      }
      NewestNone(key);
      return Ok(Missing);
    }

    // -------------------------------------------------------------------
    // Writes
    // -------------------------------------------------------------------

    /** Takes a number and appends to the open log; a record too large changes no file. */
    method AppendToLog(r: Rec) returns (res: Result<()>)
      requires Valid() && wal != null && WalLockFree(model) && r.key != [] && r.sn == nextSn < U64_LIMIT - 1
      modifies this`nextSn, this`model, WalParts(wal), if wal == null then {} else {wal.buf.data}
      ensures Valid() && active.table == old(active.table) && active !in WalParts(wal)
      ensures res.Ok? <==> WalFormat.Accepted(r)
      ensures var a := if res.Ok? then Append(r) else Refuse(r);
        Can(old(model), a) && model == Do(old(model), a)
      ensures nextSn == old(nextSn) + 1 && wal.log == if res.Ok? then old(wal.log) + [r] else old(wal.log)
      ensures KeepsEnd(crc, old(wal.file.bytes), wal.file.bytes, wal.offset) && old(wal.offset) <= wal.offset
      ensures wal.buf.data == old(wal.buf.data) || fresh(wal.buf.data)
    {
      hide WalFormat.Image, WalFormat.Accepted, WalFormat.Frame, WalFormat.CheckHeader, WalRecovery.Holds,
        WalRecovery.AllAccepted, WalLockFree, ReadersMatch, TableFiles, WalRecovery.IsLog, WalRecovery.EndsAt;
      Apart();
      WalRecovery.EndUnmoved(crc, wal.file.bytes, wal.offset, WalFormat.Frame(crc, r));
      res := wal.Append(r);
      nextSn := nextSn + 1;
      model := Do(model, if res.Ok? then Append(r) else Refuse(r));
    }

    /** Only the active table changes: the frozen one and queued ones are other objects. */
    method ApplyToActive(r: Rec)
      requires Valid() && model.pending == Some(r)
      modifies this`model, active`table, active`approx
      ensures Valid() && Can(old(model), ApplyPending) && model == Do(old(model), ApplyPending)
      ensures active.table == Apply(old(active.table), r)
    {
      hide LogIs, LogFiles, TableFiles, ReadersMatch, Apply;
      Apart();
      match r.op {
        case Put(v) => var _ := active.Insert(r.key, v, r.sn);
        case Delete => var _ := active.Remove(r.key, r.sn);
      }
      model := Do(model, ApplyPending);
    }

    /** Log first, then the active table, under the log's lock. */
    method Write(key: Str, op: Op) returns (res: Result<()>)
      requires Valid() && WalLockFree(model) && model.nextSn < U64_LIMIT - 1
      modifies this`nextSn, this`model, active, WalParts(wal), if wal == null then {} else {wal.buf.data}
      ensures Valid()
      ensures var r := Rec(key, old(nextSn), op);
        if key == [] then res == Err(EmptyKey) && model == old(model)
        else if !old(model).walOpen then res == Err(WalCorrupt) && model == old(model)
        else if WalFormat.Accepted(r) then
          res == Ok(()) && Run(old(model), [Append(r), ApplyPending]) == Some(model)
        else
          res.Err? && Run(old(model), [Refuse(r)]) == Some(model)
      ensures nextSn == old(nextSn) + (if key == [] || wal == null then 0 else 1)
      ensures wal != null ==>
        && wal.log == (if res.Ok? then old(wal.log) + [Rec(key, old(nextSn), op)] else old(wal.log))
        && KeepsEnd(crc, old(wal.file.bytes), wal.file.bytes, wal.offset) && old(wal.offset) <= wal.offset
        && (wal.buf.data == old(wal.buf.data) || fresh(wal.buf.data))
    {
      hide WalRecovery.EndsAt, LogIs, LogFiles, TableFiles, ReadersMatch, JobsMatch, FrozenIs, WalFormat.Accepted,
        WalLockFree, Apply, Run;
      if key == [] { return Err(EmptyKey); }
      if wal == null { return Err(WalCorrupt); }
      var r := Rec(key, nextSn, op);
      res := AppendToLog(r);
      if res.Err? {
        RunOne(old(model), Refuse(r));
        return;
      }
      ApplyToActive(r);
      RunTwo(old(model), Append(r), ApplyPending);
      return Ok(());
    }

    // -------------------------------------------------------------------
    // Scheduling a flush
    // -------------------------------------------------------------------

    /** With no job in flight: passes, or reports a failed job and forgets it. */
    method ReportError() returns (res: Result<()>)
      requires Valid() && !inFlight
      modifies this`lastErr, this`model
      ensures Valid() && (res.Err? <==> old(lastErr)) && !lastErr
      ensures if old(lastErr) then Can(old(model), WaitErr) && model == Do(old(model), WaitErr) else model == old(model)
    {
      hide LogIs, LogFiles, TableFiles, ReadersMatch, JobsMatch, FrozenIs, Apply;
      if lastErr {
        Apart();
        model := Do(model, WaitErr);
        lastErr := false;
        return Err(FlushFailed);
      }
      return Ok(());
    }

    /** The wait at the head of `schedule_flush` has passed. */
    method PassWait(t: Tid)
      requires Valid() && PcOf(model, t).Idle? && !inFlight && !lastErr
      modifies this`model
      ensures Valid() && Can(old(model), WaitPass(t)) && model == Do(old(model), WaitPass(t))
    {
      hide LogIs, LogFiles, TableFiles, ReadersMatch, JobsMatch, FrozenIs, Apply;
      Apart();
      model := Do(model, WaitPass(t));
    }

    /** Swaps in an empty table; the old one becomes the frozen one, the same object. */
    method SwapActive(t: Tid) returns (job: FlushJob)
      requires Valid() && Can(model, Freeze(t))
      modifies this`active, this`frozen, this`nextSst, this`model
      ensures Valid() && model == Do(old(model), Freeze(t))
      ensures fresh(active) && active.table == map[] && active.capacity == capacity && frozen == old(active)
      ensures job == FlushJob(old(active), old(nextSst)) && nextSst == old(nextSst) + 1
      ensures JobIs(job, PcOf(model, t).job, active)
    {
      hide Can, Do, PcOf, LogIs, LogFiles, TableFiles, ReadersMatch, Apply;
      Apart();
      FreezeStep(model, t);
      var id := nextSst;
      frozen := active;
      active := new MemTable(capacity);
      nextSst := nextSst + 1;
      model := Do(model, Freeze(t));
      return FlushJob(frozen, id);
    }

    /** Freezes the active table unless it is empty or another one is still frozen. */
    method FreezeActive(t: Tid) returns (job: Option<FlushJob>)
      requires Valid() && PcOf(model, t).Waited? && model.pending.None?
      modifies this`active, this`frozen, this`nextSst, this`model
      ensures Valid() && (job.None? <==> old(frozen) != null || old(active.table) == map[])
      ensures var a := if job.None? then Skip(t) else Freeze(t); Can(old(model), a) && model == Do(old(model), a)
      ensures job.Some? ==> frozen == old(active) && active.table == map[] && nextSst == old(nextSst) + 1
      ensures job.Some? ==> job.value == FlushJob(old(active), old(nextSst)) && JobIs(job.value, PcOf(model, t).job, active)
      ensures job.None? ==> active == old(active) && frozen == old(frozen) && nextSst == old(nextSst)
    {
      hide LogIs, LogFiles, TableFiles, ReadersMatch, JobsMatch, Apply;
      if frozen != null || active.table == map[] {
        Apart();
        model := Do(model, Skip(t));
        return None;
      }
      var made := SwapActive(t);
      return Some(made);
    }

    /** Closes the log and removes an old wal.flush. */
    method CloseLog(t: Tid)
      requires Valid() && Can(model, RotClear(t))
      modifies this`wal, this`model, dir`walFlush
      ensures Valid() && model == Do(old(model), RotClear(t))
      ensures wal == null && dir.wal == old(dir.wal) && dir.walFlush == null
    {
      hide Can, Do, PcOf, TableFiles, ReadersMatch, WalLockFree, WalRecovery.StartsLog, WalRecovery.IsLog;
      Apart();
      ClearStep(model, t);
      wal := null;
      if dir.walFlush != null { dir.walFlush := null; }
      model := Do(model, RotClear(t));
    }

    method RenameLog(t: Tid)
      requires Valid() && Can(model, RotRename(t)) && wal == null
      modifies this`model, dir`wal, dir`walFlush
      ensures Valid() && model == Do(old(model), RotRename(t))
      ensures dir.walFlush == old(dir.wal) && dir.wal == null && wal == null
    {
      hide Can, TableFiles, ReadersMatch, WalLockFree, WalRecovery.StartsLog, WalRecovery.IsLog;
      Apart();
      dir.walFlush := dir.wal;
      dir.wal := null;
      model := Do(model, RotRename(t));
    }

    method CreateLog(t: Tid)
      requires Valid() && Can(model, RotCreate(t)) && wal == null
      modifies this`wal, this`model, dir`wal
      ensures Valid() && model == Do(old(model), RotCreate(t)) && dir.walFlush == old(dir.walFlush)
      ensures wal != null && fresh(wal) && wal.log == [] && dir.wal == wal.file && fresh(dir.wal)
    {
      hide Can, Do, PcOf, TableFiles, ReadersMatch, WalLockFree, WalFormat.Image, WalFormat.CheckHeader, WalRecovery.Holds,
        WalRecovery.StartsLog, WalRecovery.IsLog;
      Apart();
      CreateStep(model, t);
      var file := new File();
      var log := new Wal.Create(crc, file, direct);
      dir.wal := file;
      wal := log;
      model := Do(model, RotCreate(t));
    }

    /** A refused file operation: the slot of the log stays empty and the files as they are. */
    method AbandonRotation(t: Tid)
      requires Valid() && Can(model, RotFail(t))
      modifies this`wal, this`model
      ensures Valid() && model == Do(old(model), RotFail(t)) && wal == null
    {
      hide Can, LogFiles, TableFiles, ReadersMatch, JobsMatch, FrozenIs, WalLockFree;
      Apart();
      wal := null;
      model := Do(model, RotFail(t));
    }

    /** Under the log's lock: the log so far becomes wal.flush and a new one begins. */
    method RotateWal(t: Tid, f: RotFault) returns (res: Result<()>)
      requires Valid() && Can(model, RotClear(t))
      modifies this`wal, this`model, dir`wal, dir`walFlush
      ensures Valid()
      ensures var end := RotEnd(old(model.disk), f);
        Run(old(model), Rotation(t, end)) == Some(model) && (res.Ok? <==> end.RotOk?)
      ensures res.Ok? <==>
        !(f.RemoveFails? && old(dir.walFlush) != null) && !f.RenameFails? && old(dir.wal) != null && !f.CreateFails?
      ensures res.Ok? ==> dir.walFlush == old(dir.wal) && wal != null && fresh(wal) && wal.log == [] && dir.wal == wal.file
      ensures res.Err? ==> res.error == IoFailed && wal == null
    {
      hide Valid, WalLockFree, Run, Can, Do;
      ghost var s := model;
      RotationSteps(s, t);
      Mirrors();
      if dir.walFlush != null && f.RemoveFails? {
        AbandonRotation(t);
        RunOne(s, RotFail(t));
        return Err(IoFailed);
      }
      CloseLog(t);
      if f.RenameFails? || dir.wal == null {
        AbandonRotation(t);
        RunTwo(s, RotClear(t), RotFail(t));
        return Err(IoFailed);
      }
      RenameLog(t);
      if f.CreateFails? {
        AbandonRotation(t);
        RunThree(s, RotClear(t), RotRename(t), RotFail(t));
        return Err(IoFailed);
      }
      CreateLog(t);
      RunThree(s, RotClear(t), RotRename(t), RotCreate(t));
      return Ok(());
    }

    method MarkInFlight(t: Tid)
      requires Valid() && Can(model, Mark(t))
      modifies this`inFlight, this`lastErr, this`model
      ensures Valid() && model == Do(old(model), Mark(t)) && inFlight && !lastErr
    {
      hide Can, LogIs, LogFiles, TableFiles, ReadersMatch, JobsMatch, FrozenIs, Apply;
      Apart();
      inFlight, lastErr := true, false;
      model := Do(model, Mark(t));
    }

    method SendJob(t: Tid, job: FlushJob)
      requires Valid() && Can(model, Send(t)) && JobIs(job, PcOf(model, t).job, active)
      modifies this`jobs, this`model
      ensures Valid() && model == Do(old(model), Send(t)) && jobs == old(jobs) + [job]
    {
      hide LogIs, LogFiles, TableFiles, ReadersMatch, FrozenIs, Apply;
      Apart();
      jobs := jobs + [job];
      model := Do(model, Send(t));
    }

    /** From the freeze to the queue: rotates the log, marks a flush in flight, sends the job. */
    method HandOverJob(t: Tid, job: FlushJob, f: RotFault) returns (res: Result<()>)
      requires Valid() && Can(model, RotClear(t)) && JobIs(job, PcOf(model, t).job, active)
      modifies this`wal, this`inFlight, this`lastErr, this`jobs, this`model, dir`wal, dir`walFlush
      ensures Valid()
      ensures var end := RotEnd(old(model.disk), f);
        Run(old(model), HandOver(t, end)) == Some(model) && (res.Ok? <==> end.RotOk?)
      ensures res.Ok? ==> jobs == old(jobs) + [job] && inFlight && !lastErr && dir.walFlush == old(dir.wal)
      ensures res.Err? ==> jobs == old(jobs) && inFlight == old(inFlight) && lastErr == old(lastErr) && wal == null
    {
      hide Valid, WalLockFree, Run, Can, Do;
      ghost var s := model;
      res := RotateWal(t, f);
      if res.Err? {
        assert Rotation(t, RotEnd(s.disk, f)) + [] == Rotation(t, RotEnd(s.disk, f));
        return;
      }
      ghost var m := RotatedNow(s, t, f);
      MarkInFlight(t);
      MarkStep(m, t);
      SendJob(t, job);
      RunTwo(m, Mark(t), Send(t));
      RunConcat(s, Rotation(t, RotOk), [Mark(t), Send(t)], m);
    }

    /** What `schedule_flush` does once its wait has passed. */
    method FreezeAndSend(t: Tid, f: RotFault) returns (res: Result<()>)
      requires Valid() && PcOf(model, t).Idle? && !inFlight && !lastErr && model.pending.None?
      requires Skips(model) || WalLockFree(model)
      modifies this, dir`wal, dir`walFlush
      ensures Valid() && Run(old(model), Scheduling(old(model), t, f)) == Some(model)
      ensures res.Err? <==> !old(Skips(model)) && !RotEnd(old(model.disk), f).RotOk?
    {
      hide Valid, Run, Apply;
      ghost var s := model;
      PassWait(t);
      Mirrors();
      var job := FreezeActive(t);
      if job.None? {
        RunTwo(s, WaitPass(t), Skip(t));
        return Ok(());
      }
      RunTwo(s, WaitPass(t), Freeze(t));
      RunConcat(s, [WaitPass(t), Freeze(t)], HandOver(t, RotEnd(s.disk, f)), model);
      res := HandOverJob(t, job.value, f);
    }

    /** A whole `schedule_flush` by one thread: its wait, then freeze, rotation and job. */
    method ScheduleFlush(t: Tid, first: JobFault, f: RotFault) returns (res: Result<()>)
      requires Valid() && PcOf(model, t).Idle? && model.pending.None?
      requires inFlight ==> OneJob(model) && Loggable(model.queue[0].table)
      requires WalLockFree(model) || (!inFlight && (lastErr || Skips(model)))
      modifies this, dir
      ensures Valid()
      ensures match Waits(old(model), first)
        case Ends(_, u) => res.Err? && model == u
        case Loops(u) =>
          && Run(u, Scheduling(u, t, f)) == Some(model)
          && (res.Err? <==> !Skips(u) && !RotEnd(u.disk, f).RotOk?)
    {
      hide Valid, Run, WalLockFree, JobRound, Skips, Scheduling;
      Mirrors();
      WaitKeepsLock(model, first);
      res := WaitFlush(first);
      if res.Ok? { res := FreezeAndSend(t, f); }
    }

    // -------------------------------------------------------------------
    // The worker
    // -------------------------------------------------------------------

    method TakeJob() returns (job: FlushJob)
      requires Valid() && Can(model, Take)
      modifies this`jobs, this`model
      ensures Valid() && model == Do(old(model), Take)
      ensures job == old(jobs)[0] && jobs == old(jobs)[1..] && JobIs(job, model.worker.job, active)
    {
      hide LogIs, LogFiles, TableFiles, ReadersMatch, Apply;
      Apart();
      job := jobs[0];
      jobs := jobs[1..];
      model := Do(model, Take);
    }

    method WriteTable(mem: MemTable) returns (file: Result<Str>)
      requires Valid() && Loggable(mem.table)
      ensures Valid() && (file.Ok? <==> CanBuild(mem.table))
      ensures file.Ok? ==> file.value == SstBytes(crc, mem.table)
    {
      hide LogIs, LogFiles, TableFiles, ReadersMatch, SstWriters.Flushable, SstWriters.TableFile, Iter, Bloom.New,
        WalFormat.Accepted;
      Apart();
      LoggableNumbers(mem.table);
      BuildsIffBloomAccepts(mem.table);
      file := SstWriters.FlushTable(crc, mem.table, BLOCK_SIZE, BITS_PER_KEY);
      assert JobsMatch(jobs, model.queue, active) && LogIs(crc, direct, tidy, wal, dir, model.disk.wal);
    }

    method StoreTmp(id: nat, bytes: Str)
      requires Valid() && Can(model, Build) && id == model.worker.job.id && bytes == SstBytes(crc, model.worker.job.table)
      modifies dir`tmp, this`model
      ensures Valid() && model == Do(old(model), Build) && dir.tmp == old(dir.tmp)[id := bytes]
    {
      hide LogIs, LogFiles, TableFiles, ReadersMatch, JobsMatch, FrozenIs, Apply, CanBuild, SstBytes;
      Apart();
      TmpWritten(crc, dir.tmp, dir.sst, model.disk.tmp, model.disk.sst, id, model.worker.job.table);
      dir.tmp := dir.tmp[id := bytes];
      model := Do(model, Build);
    }

    /** The job's error becomes the next waiter's; frozen table and wal.flush stay. */
    method FailJob()
      requires Valid() && Can(model, JobFail)
      modifies this`inFlight, this`lastErr, this`model
      ensures Valid() && model == Do(old(model), JobFail) && !inFlight && lastErr
    {
      hide Can, LogIs, LogFiles, TableFiles, ReadersMatch, JobsMatch, FrozenIs, Apply;
      Apart();
      inFlight, lastErr := false, true;
      model := Do(model, JobFail);
    }

    /** Writes the table to the temporary file; it fails if the system or the format refuses. */
    method BuildFile(job: FlushJob, refused: bool) returns (res: Result<()>)
      requires Valid() && model.worker.Took? && JobIs(job, model.worker.job, active) && Loggable(job.frozen.table)
      modifies dir`tmp, this`model, this`inFlight, this`lastErr
      ensures Valid() && (res.Ok? <==> CanBuild(old(model).worker.job.table) && !refused)
      ensures var a := if res.Ok? then Build else JobFail; Can(old(model), a) && model == Do(old(model), a)
    {
      hide LogIs, LogFiles, TableFiles, ReadersMatch, JobsMatch, FrozenIs, Apply, CanBuild, SstBytes, Loggable, Do;
      var file := WriteTable(job.frozen);
      if file.Err? || refused {
        FailJob();
        return Err(if file.Err? then file.error else IoFailed);
      }
      StoreTmp(job.id, file.value);
      return Ok(());
    }

    /** Renames the finished file to its final name. */
    method PublishFile(id: nat)
      requires Valid() && Can(model, Publish) && id == model.worker.job.id && CanBuild(model.disk.tmp[id])
      modifies this`model, dir`tmp, dir`sst
      ensures Valid() && model == Do(old(model), Publish)
      ensures id in old(dir.tmp) && dir.sst == old(dir.sst)[id := old(dir.tmp)[id]] && dir.tmp == old(dir.tmp) - {id}
    {
      hide Can, Do, LogIs, LogFiles, TableFiles, ReadersMatch, JobsMatch, FrozenIs, Apply, CanBuild, SstBytes;
      Apart();
      PublishStep(model);
      TmpPublished(crc, dir.tmp, dir.sst, model.disk.tmp, model.disk.sst, id);
      dir.sst := dir.sst[id := dir.tmp[id]];
      dir.tmp := dir.tmp - {id};
      model := Do(model, Publish);
    }

    method OpenFile(id: nat) returns (reader: SstReader.Reader)
      requires Valid() && id in model.disk.sst
      ensures Valid() && ReaderAnswers(crc, reader, model.disk.sst[id])
      ensures id in dir.sst && SstReader.OpenSst(crc, dir.sst[id]) == Ok(reader)
    {
      hide LogIs, LogFiles, TableFiles, ReadersMatch, JobsMatch, FrozenIs, CanBuild, SstBytes, ReaderAnswers,
        SstReader.OpenSst, SstReader.Opened, SstWriters.ReadFooter;
      FileStored(crc, dir.tmp, dir.sst, model.disk.tmp, model.disk.sst, id);
      SstFileOpens(crc, model.disk.sst[id]);
      reader := SstReader.OpenSst(crc, dir.sst[id]).value;
    }

    /** Reader in and frozen table out, in one step. */
    method SwapIn(id: nat, reader: SstReader.Reader)
      requires Valid() && Can(model, Install) && id == model.worker.job.id && ReaderAnswers(crc, reader, model.disk.sst[id])
      modifies this`sstables, this`frozen, this`model
      ensures Valid() && model == Do(old(model), Install)
      ensures frozen == null && sstables == old(sstables) + [Handle(id, reader)]
    {
      hide LogIs, LogFiles, TableFiles, ReadersMatch, JobsMatch, Apply, ReaderAnswers;
      Apart();
      ReaderPushed(crc, sstables, model.ssts, Handle(id, reader), Sst(id, model.disk.sst[id]));
      sstables := sstables + [Handle(id, reader)];
      frozen := null;
      model := Do(model, Install);
    }

    /** Opens the published file and installs its reader in place of the frozen table. */
    method InstallReader(id: nat)
      requires Valid() && Can(model, Install) && id == model.worker.job.id
      modifies this`sstables, this`frozen, this`model
      ensures Valid() && model == Do(old(model), Install) && frozen == null && id in dir.sst
      ensures SstReader.OpenSst(crc, dir.sst[id]).Ok?
      ensures sstables == old(sstables) + [Handle(id, SstReader.OpenSst(crc, dir.sst[id]).value)]
    {
      hide LogIs, LogFiles, TableFiles, ReadersMatch, JobsMatch, FrozenIs, Apply, ReaderAnswers, Do, SstReader.OpenSst;
      var reader := OpenFile(id);
      SwapIn(id, reader);
    }

    /** Removes the log of the installed table. */
    method RemoveFlushLog()
      requires Valid() && Can(model, Unlink)
      modifies this`model, dir`walFlush
      ensures Valid() && model == Do(old(model), Unlink) && dir.walFlush == null
    {
      hide Can, LogIs, TableFiles, ReadersMatch, JobsMatch, FrozenIs, Apply, WalFormat.Image, WalRecovery.AllAccepted;
      Apart();
      if dir.walFlush != null { dir.walFlush := null; }
      model := Do(model, Unlink);
    }

    method MarkDone()
      requires Valid() && Can(model, Done)
      modifies this`inFlight, this`lastErr, this`model
      ensures Valid() && model == Do(old(model), Done) && !inFlight && !lastErr
    {
      hide Can, LogIs, LogFiles, TableFiles, ReadersMatch, JobsMatch, FrozenIs, Apply;
      Apart();
      inFlight, lastErr := false, false;
      model := Do(model, Done);
    }

    /** From the published file to the report: open it, install the reader, remove the log. */
    method FinishJob(id: nat, f: JobFault) returns (res: Result<()>)
      requires Valid() && Can(model, Install) && id == model.worker.job.id
      modifies this, dir`walFlush
      ensures Valid() && active == old(active)
      ensures var refused := f.UnlinkFails? && old(model).disk.walFlush.Some?;
        && (res.Ok? <==> !f.OpenFails? && !refused)
        && Run(old(model), if f.OpenFails? then [JobFail] else if refused then [Install, JobFail]
                           else [Install, Unlink, Done]) == Some(model)
    {
      hide Valid, Run, CanBuild, Can, Do;
      ghost var m := model;
      InstallSteps(m);
      Mirrors();
      if f.OpenFails? {
        FailJob();
        RunOne(m, JobFail);
        return Err(IoFailed);
      }
      InstallReader(id);
      Mirrors();
      if f.UnlinkFails? && dir.walFlush != null {
        FailJob();
        RunTwo(m, Install, JobFail);
        return Err(IoFailed);
      }
      RemoveFlushLog();
      MarkDone();
      RunThree(m, Install, Unlink, Done);
      return Ok(());
    }

    /** One turn of the worker: build, publish, install, remove the log, report. */
    method RunJob(f: JobFault) returns (res: Result<()>)
      requires Valid() && Can(model, Take) && model.pending.None? && Loggable(model.queue[0].table)
      modifies this, dir`walFlush, dir`tmp, dir`sst
      ensures Valid() && active == old(active)
      ensures var end := JobEnd(old(model).queue[0].table, old(model).disk, f);
        Run(old(model), Working(end)) == Some(model) && (res.Ok? <==> end.JobOk?)
      ensures res.Ok? <==> CanBuild(old(model).queue[0].table) && !f.WriteFails? && !f.MoveFails? && !f.OpenFails?
                           && !(f.UnlinkFails? && old(dir.walFlush) != null)
    {
      hide Valid, Run, CanBuild, Loggable, Can, Do;
      ghost var s := model;
      TakeStep(s);
      Mirrors();
      var job := TakeJob();
      res := BuildFile(job, f.WriteFails?);
      if res.Err? {
        RunTwo(s, Take, JobFail);
        return;
      }
      RunTwo(s, Take, Build);
      ghost var b := TakesAndBuilds(s);
      if f.MoveFails? {
        FailJob();
        RunSnoc(s, [Take, Build], b, JobFail);
        assert [Take, Build] + [JobFail] == [Take, Build, JobFail];
        return Err(IoFailed);
      }
      PublishFile(job.id);
      ghost var m := Publishes(b);
      RunSnoc(s, [Take, Build], b, Publish);
      assert [Take, Build] + [Publish] == [Take, Build, Publish];
      res := FinishJob(job.id, f);
      JoinRuns(s, m, model, f);
    }

    /**
      A whole `wait_flush` by one thread: while a job is in flight the worker takes its
      turn; then the wait passes or reports the error.
     */
    method WaitFlush(f: JobFault) returns (res: Result<()>)
      requires Valid() && (inFlight ==> OneJob(model) && Loggable(model.queue[0].table))
      modifies this, dir`walFlush, dir`tmp, dir`sst
      ensures Valid() && !inFlight && !lastErr && active == old(active)
      ensures model == Waits(old(model), f).at && (res.Ok? <==> Waits(old(model), f).Loops?)
    {
      hide Valid, Run, CanBuild, Loggable, Working, JobEnd, Do;
      ghost var s := model;
      Mirrors();
      while inFlight
        invariant Valid() && active == old(active)
        invariant inFlight ==> model == s && OneJob(s) && Loggable(s.queue[0].table)
        invariant !inFlight && !old(inFlight) ==> model == s && lastErr == old(lastErr)
        invariant !inFlight && old(inFlight) ==>
          OneJob(s) && Run(s, Working(JobEnd(s.queue[0].table, s.disk, f))) == Some(model)
        decreases if inFlight then 1 else 0
      {
        var done := RunJob(f);
        JobRoundParts(s, f);
        Mirrors();
      }
      Mirrors();
      if old(inFlight) { JobRoundParts(s, f); }
      res := ReportError();
    }

    /** Schedules the active table and waits for the worker. */
    method FlushOnce(t: Tid, io: Faults) returns (res: Result<()>)
      requires Valid() && Alone(model, t) && !Skips(model) && !lastErr && Loggable(active.table)
      modifies this, dir
      ensures Valid() && model == FlushRound(old(model), t, io).at
      ensures res.Ok? <==> FlushRound(old(model), t, io).Loops?
    {
      hide Valid, Run, CanBuild, Loggable, Scheduling, Working, JobEnd, FlushRound, JobRound;
      ghost var s := model;
      Mirrors();
      RoundParts(s, t, io);
      res := ScheduleFlush(t, JobOk, io.rot);
      if res.Err? { return; }
      Mirrors();
      res := WaitFlush(io.job);
    }

    /**
      `flush` by the only thread: it waits for a job in flight and goes through the turns
      of the machine's loop, the worker taking its turn in each wait, and returns what
      they end with.
     */
    method Flush(t: Tid, first: JobFault, io: Faults) returns (res: Result<()>)
      requires Valid() && Lone(model, t) && (inFlight || frozen == null || lastErr)
      requires Loggable(active.table) && (inFlight ==> Loggable(model.queue[0].table))
      modifies this, dir
      ensures Valid() && FlushFrom(old(model), t, first, io, 2) == Ends(res.Ok?, model)
    {
      hide Valid, Run, CanBuild, Loggable, FlushRound, RoundWorks, JobRound;
      Mirrors();
      ghost var s, n := model, 0;
      ghost var u := Waits(s, first).at;
      if !s.inFlight || Waits(s, first).Loops? { FlushTwice(if s.inFlight then u else s, t, io); }
      while true
        invariant Valid() && Lone(model, t) && n <= 1
        invariant n == 0 ==> model == s && active.table == old(active.table)
        invariant n == 1 ==> Waits(s, first).Loops? && FlushTurn(u, t, io) == Loops(model)
        invariant n == 1 ==> Alone(model, t) && !model.lastErr && model.active == map[] && model.frozen.None?
        decreases 1 - n
      {
        Mirrors();
        res := WaitFlush(first);
        Mirrors();
        if res.Err? { return; }
        if active.table == map[] && frozen == null { return Ok(()); }
        res := FlushOnce(t, io);
        if res.Err? { return; }
        n := n + 1;
      }
    }
  }

  // ---------------------------------------------------------------------
  // Single steps, spelled out
  // ---------------------------------------------------------------------

  lemma FreezeStep(s: State, t: Tid)
    requires Can(s, Freeze(t))
    ensures var u := Do(s, Freeze(t));
      && u == s.(flushers := u.flushers, active := map[], frozen := Some(s.active), nextSst := s.nextSst + 1)
      && PcOf(u, t) == Froze(Job(s.active, s.nextSst))
  {
  }

  lemma ClearStep(s: State, t: Tid)
    requires Can(s, RotClear(t))
    ensures var u := Do(s, RotClear(t));
      u == s.(flushers := u.flushers, walOpen := false, disk := s.disk.(walFlush := None))
  {
  }

  lemma CreateStep(s: State, t: Tid)
    requires Can(s, RotCreate(t))
    ensures var u := Do(s, RotCreate(t));
      u == s.(flushers := u.flushers, walOpen := true, disk := s.disk.(wal := Some([])))
  {
  }

  lemma MarkStep(s: State, t: Tid)
    requires PcOf(s, t).Rotated?
    ensures Can(s, Mark(t)) && Can(Do(s, Mark(t)), Send(t)) && PcOf(Do(s, Mark(t)), t).job == PcOf(s, t).job
  {
  }

  lemma PublishStep(s: State)
    requires Can(s, Publish)
    ensures var id := s.worker.job.id;
      id in s.disk.tmp &&
      Do(s, Publish) == s.(worker := Published(s.worker.job),
                           disk := s.disk.(sst := s.disk.sst[id := s.disk.tmp[id]], tmp := s.disk.tmp - {id}))
  {
  }

  lemma TakeStep(s: State)
    requires Can(s, Take)
    ensures s.queue != [] && Do(s, Take).worker == Took(s.queue[0])
  {
  }

  lemma InstallSteps(s: State)
    requires Can(s, Install)
    ensures Can(s, JobFail) && Can(Do(s, Install), JobFail) && Can(Do(s, Install), Unlink)
    ensures Can(Do(Do(s, Install), Unlink), Done) && Do(s, Install).disk.walFlush == s.disk.walFlush
  {
  }

  lemma RotationSteps(s: State, t: Tid)
    requires Can(s, RotClear(t))
    ensures Can(s, RotFail(t)) && Can(Do(s, RotClear(t)), RotFail(t)) && Do(s, RotClear(t)).disk.wal == s.disk.wal
    ensures s.disk.wal.Some? ==>
      && Can(Do(s, RotClear(t)), RotRename(t)) && Can(Do(Do(s, RotClear(t)), RotRename(t)), RotCreate(t))
      && Can(Do(Do(s, RotClear(t)), RotRename(t)), RotFail(t))
  {
    hide WalLockFree;
  }

  lemma RotatedNow(s: State, t: Tid, f: RotFault) returns (m: State)
    requires Can(s, RotClear(t)) && RotEnd(s.disk, f).RotOk?
    ensures Run(s, Rotation(t, RotOk)) == Some(m) && PcOf(m, t) == Rotated(PcOf(s, t).job)
    ensures Can(m, Mark(t))
  {
    hide Run, WalLockFree;
    m := RotationWorks(s, t);
  }

  /** A job's first three steps and the rest make one turn. */
  lemma JoinRuns(s: State, m: State, u: State, f: JobFault)
    requires Can(s, Take) && CanBuild(s.queue[0].table) && !f.WriteFails? && !f.MoveFails?
    requires Run(s, [Take, Build, Publish]) == Some(m)
    requires m.disk.walFlush == s.disk.walFlush
    requires Run(m, if f.OpenFails? then [JobFail] else if f.UnlinkFails? && m.disk.walFlush.Some? then [Install, JobFail]
                    else [Install, Unlink, Done]) == Some(u)
    ensures Run(s, Working(JobEnd(s.queue[0].table, s.disk, f))) == Some(u)
  {
    hide Run, CanBuild, Can, Do;
    RunConcat(s, [Take, Build, Publish],
              if f.OpenFails? then [JobFail] else if f.UnlinkFails? && m.disk.walFlush.Some? then [Install, JobFail]
              else [Install, Unlink, Done], m);
  }

  /** Waiting moves neither flushers nor writers. */
  lemma WaitKeepsLock(s: State, f: JobFault)
    requires s.inFlight ==> OneJob(s)
    ensures WalLockFree(s) ==> WalLockFree(Waits(s, f).at)
    ensures s.pending.None? ==> Waits(s, f).at.pending.None?
  {
    hide JobRound;
  }

  lemma RoundParts(s: State, t: Tid, io: Faults)
    requires Alone(s, t) && !Skips(s) && !s.lastErr
    ensures Run(s, Scheduling(s, t, io.rot)).Some?
    ensures var u, end := Run(s, Scheduling(s, t, io.rot)).value, RotEnd(s.disk, io.rot);
      && Scheduled(s, t, end, u)
      && (end.RotOk? ==>
            OneJob(u) && u.inFlight && FlushRound(s, t, io) == JobRound(u, io.job))
      && (!end.RotOk? ==> FlushRound(s, t, io) == Ends(false, u))
  {
    hide Run, Scheduling, JobRound;
    Schedules(s, t, io.rot);
  }

  lemma JobRoundParts(u: State, f: JobFault)
    requires OneJob(u)
    ensures var end := JobEnd(u.queue[0].table, u.disk, f);
      && Run(u, Working(end)).Some?
      && var v := Run(u, Working(end)).value;
         TurnOver(u, v, end) && JobRound(u, f) == if v.lastErr then Ends(false, Do(v, WaitErr)) else Loops(v)
  {
    hide Run, Working, JobEnd;
    Works(u, f);
  }

  lemma SkipTop(s: State, k: Str)
    requires k !in s.active
    ensures FirstHit(Layers(s), k) ==
      if s.frozen.Some? && k in s.frozen.value then Some(s.frozen.value[k]) else FirstHit(Newest(s.ssts), k)
  {
    hide Newest;
    var ls := Layers(s);
    if s.frozen.Some? {
      assert ls[1..] == [s.frozen.value] + Newest(s.ssts);
      assert ls[1..][1..] == Newest(s.ssts);
    } else {
      assert ls[1..] == Newest(s.ssts);
    }
  }

  lemma NewestStep(ssts: seq<Sst>, k: Str)
    requires ssts != []
    ensures var last := ssts[|ssts| - 1].table;
      FirstHit(Newest(ssts), k) == if k in last then Some(last[k]) else FirstHit(Newest(ssts[..|ssts| - 1]), k)
  {
    assert Newest(ssts)[1..] == Newest(ssts[..|ssts| - 1]);
  }

  lemma NewestNone(k: Str)
    ensures FirstHit(Newest([]), k) == None
  {
  }

  lemma LoggableNumbers(t: Table)
    requires Loggable(t)
    ensures forall k :: k in t ==> t[k].sn < U64_LIMIT
  {
    forall k | k in t ensures t[k].sn < U64_LIMIT { AcceptedFields(Rec(k, t[k].sn, t[k].op)); }
  }
}
