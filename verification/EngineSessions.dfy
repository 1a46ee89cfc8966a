/**
  The engine object over sessions: opening a directory, losing the object, opening
  again. Recovery is proved against the byte-level functions of EngineFiles, and its
  result is the state the machine reopens to.
 */
module EngineSessions {
  import opened Bytes
  import opened Records
  import opened EngineModel
  import opened EngineBuilds
  import opened EngineFiles
  import opened EngineStart
  import opened MemTables
  import opened Wals
  import opened Engines
  import opened EngineSteps
  import opened EngineVisible
  import opened EngineDurable
  import opened EngineRecovery
  import WalFormat
  import WalRecovery
  import SstReader

  // ---------------------------------------------------------------------
  // Opening a directory
  // ---------------------------------------------------------------------

  /** The engine holds what `ByteOpen` computes, and so does its directory. */
  ghost predicate Matches(e: Engine, st: ByteState)
    reads e, e.active, e.dir, e.dir.wal, e.dir.walFlush
  {
    && e.active.table == st.active && e.frozen == null && e.jobs == [] && !e.inFlight && !e.lastErr
    && SameReaders(e.sstables, st.readers)
    && e.nextSn == st.nextSn && e.nextSst == st.nextSst && e.dir.Files() == st.disk
  }

  ghost predicate SameReaders(hs: seq<Handle>, rds: seq<SstReader.Reader>) {
    |hs| == |rds| && forall i :: 0 <= i < |hs| ==> hs[i].reader == rds[i]
  }

  /** Table files, then logs: what `open_with` reads before it opens the log for appending. */
  method RecoverDir(crc: Checksum, direct: bool, dir: Dir, mem: MemTable)
    returns (res: Result<seq<Handle>>, maxSn: nat, nextSst: nat)
    requires mem.table == map[]
    modifies dir, mem`table, mem`approx
    ensures var b := old(dir.Files());
      match LoadDir(crc, b)
      case Err(e) => res == Err(e)
      case Ok((rds, t, top)) =>
        && res.Ok? && Handles(res.value, SortedIds(b.sst.Keys), rds) && mem.table == t && maxSn == top
        && nextSst == NextId(SortedIds(b.sst.Keys)) && dir.sst == b.sst && dir.tmp == old(dir.tmp)
        && dir.walFlush == null
        && (if b.walFlush.None? then dir.wal == old(dir.wal)
            else dir.wal != null && fresh(dir.wal) && dir.wal.bytes == WalFormat.Image(crc, direct, Iter(mem.table)))
  {
    hide LoadSsts, LoadLogs, SortedIds, NextId, Fold, MaxSn, Iter, WalFormat.Image, Handles;
    res, maxSn, nextSst := LoadReaders(crc, dir.sst);
    if res.Err? { return; }
    var seen := RecoverWals(crc, direct, dir, mem, maxSn);
    if seen.Err? { return Err(seen.error), 0, 0; }
    maxSn := seen.value;
  }

  /** The log recovery leaves opens; it is the checkpoint if there was a wal.flush. */
  lemma LeftLogOpens(crc: Checksum, direct: bool, b: ByteDisk)
    requires LoadDir(crc, b).Ok?
    ensures b.wal.Some? ==> WalFormat.OpenLog(crc, b.wal.value).Ok?
    ensures var rs := Iter(LoadDir(crc, b).value.1); TidyLog(crc, direct, WalFormat.Image(crc, direct, rs), rs)
  {
    hide LoadSsts, SortedIds, Fold, MaxSn, Iter, WalFormat.OpenLog, Loggable, WalRecovery.AllAccepted, WalFormat.Image;
    RecoveredLoggable(crc, b);
    IterAccepted(LoadDir(crc, b).value.1);
    TidyReopens(crc, direct, WalFormat.Image(crc, direct, Iter(LoadDir(crc, b).value.1)), Iter(LoadDir(crc, b).value.1));
  }

  /** A log with less than a page behind it. */
  ghost predicate TidyLog(crc: Checksum, direct: bool, bytes: Str, rs: seq<Rec>) {
    WalRecovery.IsLog(crc, direct, bytes, rs) && EndsLog(crc, direct, bytes, rs)
  }

  lemma TidyReopens(crc: Checksum, direct: bool, bytes: Str, rs: seq<Rec>)
    requires WalRecovery.IsLog(crc, direct, bytes, rs)
    ensures TidyLog(crc, direct, bytes, rs)
  {
    hide WalFormat.Image, WalRecovery.AllAccepted, WalFormat.OpenLog, WalRecovery.EndsAt;
    WalRecovery.LogReopens(crc, direct, bytes, rs);
  }

  /**
    A whole `open_with`: the result is that of `ByteOpen` on the directory's bytes,
    errors included. `w` names what the log held, if there was no wal.flush.
   */
  method OpenBytes(crc: Checksum, direct: bool, capacity: nat, dir: Dir, ghost w: Option<seq<Rec>>, ghost model: State)
    returns (res: Result<Engine>)
    modifies dir
    ensures match ByteOpen(crc, direct, old(dir.Files()))
      case Err(e) => res == Err(e)
      case Ok(st) => res.Ok? && fresh(res.value) && Matches(res.value, st)
    ensures res.Ok? ==>
      var e, b := res.value, old(dir.Files());
      && e.crc == crc && e.direct == direct && e.dir == dir && e.model == model && dir.tmp == old(dir.tmp)
      && e.capacity == capacity && e.active.capacity == capacity
      && dir.sst == b.sst && dir.walFlush == null
      && Handles(e.sstables, SortedIds(b.sst.Keys), LoadDir(crc, b).value.0)
      && e.wal != null && e.wal.Valid() && e.wal.crc == crc && e.wal.direct == direct && dir.wal == e.wal.file
      && e.tidy == (b.walFlush.Some? || TidyBytes(crc, direct, b.wal, w))
      && (b.walFlush.Some? || ReopensAs(crc, direct, b.wal, w) ==>
            && e.wal.Clean() && (e.tidy ==> e.wal.Tidy())
            && e.wal.log == if b.walFlush.Some? then Iter(e.active.table) else Content(w))
  {
    hide LoadDir, SortedIds, NextId, Iter, WalFormat.Image, WalFormat.OpenLog, WalRecovery.AllAccepted,
      WalFormat.CheckHeader, WalRecovery.Holds, WalRecovery.IsLog;
    ghost var b := dir.Files();
    var mem := new MemTable(capacity);
    var readers, maxSn, nextSst := RecoverDir(crc, direct, dir, mem);
    if readers.Err? { return Err(readers.error); }
    LeftLogOpens(crc, direct, b);
    ghost var rs := if b.walFlush.Some? then Iter(mem.table) else Content(w);
    var wal := OpenOrCreate(crc, direct, dir, rs);
    if maxSn + 1 >= U64_LIMIT { return Err(SequenceOverflow); }
    var e := new Engine.Assemble(crc, direct, capacity, dir, mem, readers.value, wal.value, maxSn + 1, nextSst,
                                 b.walFlush.Some? || TidyBytes(crc, direct, b.wal, w), model);
    return Ok(e);
  }

  /** The file starts with the log, and what lies behind reads as its end. */
  ghost predicate ReopensAs(crc: Checksum, direct: bool, file: Option<Str>, w: Option<seq<Rec>>) {
    match w
    case None => file.None?
    case Some(rs) => file.Some? && EndsLog(crc, direct, file.value, rs)
  }

  ghost predicate TidyBytes(crc: Checksum, direct: bool, file: Option<Str>, w: Option<seq<Rec>>) {
    match w
    case None => file.None?
    case Some(rs) => file.Some? && TidyLog(crc, direct, file.value, rs)
  }

  /**
    The directory loads to a machine disk whose numbers are not exhausted. Without a
    wal.flush, which recovery replaces, the log also has to be fit for further appends.
   */
  ghost predicate HoldsDisk(crc: Checksum, direct: bool, dir: Dir, d: Disk)
    reads dir, dir.wal, dir.walFlush
  {
    && Encodes(crc, dir.Files(), d) && TableFiles(crc, dir.tmp, dir.sst, d.tmp, d.sst)
    && (dir.walFlush == null <==> d.walFlush.None?)
    && (d.walFlush.None? ==> ReopensAs(crc, direct, dir.Files().wal, d.wal))
    && RecoveredMaxSn(d) + 1 < U64_LIMIT
  }

  /**
    As `OpenBytes`; and a directory holding a machine disk opens to a valid engine in
    the state the machine reopens to.
   */
  method OpenWith(crc: Checksum, direct: bool, capacity: nat, dir: Dir, ghost d: Disk, ghost log: seq<Rec>)
    returns (res: Result<Engine>)
    modifies dir
    ensures match ByteOpen(crc, direct, old(dir.Files()))
      case Err(e) => res == Err(e)
      case Ok(st) => res.Ok? && fresh(res.value) && Matches(res.value, st)
    ensures res.Ok? ==> res.value.dir == dir && res.value.crc == crc && res.value.direct == direct
    ensures old(HoldsDisk(crc, direct, dir, d)) ==>
      && res.Ok? && res.value.Valid() && res.value.model == EngineModel.Open(d, log)
      && res.value.tidy == old(dir.walFlush != null || TidyBytes(crc, direct, dir.Files().wal, d.wal))
  {
    hide ByteOpen, LoadDir, SortedIds, NextId, NextSst, SortedSsts, RecoveredMaxSn, Replayed, Handles, Loaded, Iter,
      WalFormat.Image, WalFormat.CheckHeader, WalRecovery.IsLog, WalRecovery.Holds, TableFiles, Engine.Valid,
      ReadersMatch, Encodes, ReopensAs, TidyBytes;
    ghost var b := dir.Files();
    ghost var good := HoldsDisk(crc, direct, dir, d);
    if good { HeldDiskOpens(crc, direct, dir, d); }
    res := OpenBytes(crc, direct, capacity, dir, d.wal, EngineModel.Open(d, log));
    if good {
      ghost var e := res.value;
      HandlesMatch(crc, e.sstables, LoadDir(crc, b).value.0, b, d);
      StartsValid(e, e.wal.log, d, log);
    }
  }

  lemma HeldDiskOpens(crc: Checksum, direct: bool, dir: Dir, d: Disk)
    requires HoldsDisk(crc, direct, dir, d)
    ensures var b := dir.Files();
      && b.walFlush.Some? == d.walFlush.Some? && b.sst.Keys == d.sst.Keys
      && (b.walFlush.None? ==> ReopensAs(crc, direct, b.wal, d.wal))
      && LoadDir(crc, b).Ok? && ByteOpen(crc, direct, b).Ok?
      && var st := ByteOpen(crc, direct, b).value;
         && st.active == Replayed(d) && Loaded(crc, st.readers, SortedSsts(d.sst))
         && st.readers == LoadDir(crc, b).value.0
         && st.nextSn == RecoveredMaxSn(d) + 1 && st.nextSst == NextSst(SortedSsts(d.sst))
  {
    hide LoadDir, LoadLog, SortedIds, NextId, NextSst, SortedSsts, RecoveredMaxSn, Replayed, Loaded, CanBuild, SstBytes,
      WalRecovery.IsLog, RecoveredWal;
    OpenMatches(crc, direct, dir.Files(), d);
  }

  // ---------------------------------------------------------------------
  // Crashes
  // ---------------------------------------------------------------------

  /** Behind its frames, the file reads as the end of the log. */
  ghost predicate FileEnds(crc: Checksum, direct: bool, f: File?, content: Option<seq<Rec>>)
    reads f
  {
    f != null && content.Some? ==> WalRecovery.EndsAt(crc, f.bytes, |WalFormat.Image(crc, direct, content.value)|)
  }

  ghost predicate Recoverable(e: Engine)
    reads e, e.dir, e.dir.wal, e.dir.walFlush
  {
    && FileEnds(e.crc, e.direct, e.dir.wal, e.model.disk.wal)
    && FileEnds(e.crc, e.direct, e.dir.walFlush, e.model.disk.walFlush)
  }

  lemma HeldLogLoads(crc: Checksum, direct: bool, tidy: bool, f: File?, content: Option<seq<Rec>>)
    requires LogFile(crc, direct, tidy, f, content)
    ensures FileEnds(crc, direct, f, content) <==> LoadLog(crc, BytesOf(f)) == Ok(Content(content))
    ensures FileEnds(crc, direct, f, content) ==> ReopensAs(crc, direct, BytesOf(f), content)
    ensures tidy ==> FileEnds(crc, direct, f, content) && TidyBytes(crc, direct, BytesOf(f), content)
  {
    hide WalRecovery.IsLog, WalRecovery.EndsAt, WalFormat.OpenLog, WalFormat.Image, WalRecovery.AllAccepted,
      WalRecovery.Holds;
    if content.Some? {
      WalRecovery.StartedReopens(crc, direct, f.bytes, content.value);
      if tidy { TidyReopens(crc, direct, f.bytes, content.value); }
    }
  }

  /** Exactly when reopening reads back both logs: when both files read as ending behind them. */
  lemma RecoverableIff(e: Engine)
    requires e.Valid()
    ensures Recoverable(e) <==>
      (LoadLog(e.crc, BytesOf(e.dir.wal)) == Ok(Content(e.model.disk.wal))
       && LoadLog(e.crc, BytesOf(e.dir.walFlush)) == Ok(Content(e.model.disk.walFlush)))
    ensures e.tidy ==> Recoverable(e)
  {
    hide FrozenIs, JobsMatch, ReadersMatch, LogIs, LogFile, FileEnds, LoadLog, TableFiles;
    HeldLogLoads(e.crc, e.direct, e.tidy, e.dir.wal, e.model.disk.wal);
    HeldLogLoads(e.crc, e.direct, e.tidy, e.dir.walFlush, e.model.disk.walFlush);
  }

  /** What a crash leaves of a valid engine holds the machine's disk. */
  lemma CrashImage(e: Engine)
    requires e.Valid() && Recoverable(e) && RecoveredMaxSn(e.model.disk) + 1 < U64_LIMIT
    ensures HoldsDisk(e.crc, e.direct, e.dir, e.model.disk)
    ensures e.tidy ==> TidyBytes(e.crc, e.direct, e.dir.Files().wal, e.model.disk.wal)
  {
    hide FrozenIs, JobsMatch, ReadersMatch, LogIs, WalRecovery.IsLog, WalRecovery.StartsLog, LoadLog, CanBuild, SstBytes,
      RecoveredMaxSn, FileEnds, ReopensAs, TidyBytes;
    var d := e.model.disk;
    HeldLogLoads(e.crc, e.direct, e.tidy, e.dir.wal, d.wal);
    HeldLogLoads(e.crc, e.direct, e.tidy, e.dir.walFlush, d.walFlush);
  }

  /** A crash loses the object; opening its directory again is the machine's crash step. */
  method Restart(e: Engine) returns (res: Result<Engine>)
    requires e.Valid() && (e.tidy || Recoverable(e)) && RecoveredMaxSn(e.model.disk) + 1 < U64_LIMIT
    modifies e.dir
    ensures res.Ok? && fresh(res.value) && res.value.Valid() && Run(old(e.model), [Crash]) == Some(res.value.model)
    ensures e.tidy ==> res.value.tidy
  {
    hide Engine.Valid, HoldsDisk, RecoveredMaxSn, Run, EngineModel.Open, ByteOpen, Matches, Recoverable,
      TidyBytes, LoadLog;
    ghost var s := e.model;
    RecoverableIff(e);
    CrashImage(e);
    RunOne(s, Crash);
    res := OpenWith(e.crc, e.direct, e.capacity, e.dir, s.disk, s.log);
  }

  /** What an append leaves that is cut after `len` bytes. */
  ghost function Torn(wal: Wal, r: Rec, len: nat): Str
    requires len < WalFormat.FrameLen(r)
    reads wal, wal.file
  {
    WalFormat.WriteAt(wal.file.bytes, wal.offset, WalFormat.Frame(wal.crc, r)[..len])
  }

  /**
    A crash in the middle of an append, after any number of bytes: the reopened engine
    is a valid one without the cut operation, and the session goes on from it as the
    machine does. Only if whole pages stay behind is it not tidy: its own restart then
    needs the log to read as ending behind its frames.
   */
  method RestartTorn(e: Engine, r: Rec, len: nat) returns (res: Result<Engine>)
    requires e.Valid() && e.wal != null && WalFormat.Accepted(r) && len < WalFormat.FrameLen(r)
    requires e.tidy || (FileEnds(e.crc, e.direct, e.dir.walFlush, e.model.disk.walFlush)
                        && WalRecovery.EndsAt(e.crc, Torn(e.wal, r, len), e.wal.offset))
    requires RecoveredMaxSn(e.model.disk) + 1 < U64_LIMIT
    modifies e.dir, e.wal.file
    ensures res.Ok? && fresh(res.value) && res.value.Valid() && Run(old(e.model), [Crash]) == Some(res.value.model)
    ensures e.tidy && (len < WalFormat.PAGE || old(e.dir.walFlush) != null) ==> res.value.tidy
  {
    hide Engine.Valid, HoldsDisk, RecoveredMaxSn, Run, EngineModel.Open, ByteOpen, Matches, WalFormat.Frame,
      WalFormat.FrameLen, WalFormat.Accepted, FileEnds, TidyBytes, WalRecovery.EndsAt, Torn;
    ghost var s := e.model;
    TearLog(e, e.wal, r, len);
    RunOne(s, Crash);
    res := OpenWith(e.crc, e.direct, e.capacity, e.dir, s.disk, s.log);
  }

  /** The first bytes of the frame reach the file, and nothing else happens. */
  method TearLog(e: Engine, wal: Wal, r: Rec, len: nat)
    requires e.Valid() && e.wal == wal && WalFormat.Accepted(r) && len < WalFormat.FrameLen(r)
    requires e.tidy || (FileEnds(e.crc, e.direct, e.dir.walFlush, e.model.disk.walFlush)
                        && WalRecovery.EndsAt(e.crc, Torn(wal, r, len), wal.offset))
    requires RecoveredMaxSn(e.model.disk) + 1 < U64_LIMIT
    modifies wal.file
    ensures HoldsDisk(e.crc, e.direct, e.dir, e.model.disk) && wal.file.bytes == old(Torn(wal, r, len))
    ensures e.tidy && len < WalFormat.PAGE ==> TidyBytes(e.crc, e.direct, e.dir.Files().wal, e.model.disk.wal)
  {
    hide FrozenIs, JobsMatch, ReadersMatch, WalRecovery.IsLog, CanBuild, SstBytes, RecoveredMaxSn, WalFormat.Frame,
      WalFormat.Accepted, WalFormat.FrameLen, WalFormat.OpenLog, WalFormat.Image, WalFormat.CheckHeader, WalRecovery.Holds,
      WalRecovery.EndsAt, WalRecovery.AllAccepted, TidyBytes, ReopensAs;
    var file := wal.file;
    ghost var d := e.model.disk;
    HeldLogLoads(e.crc, e.direct, e.tidy, e.dir.walFlush, d.walFlush);
    WalRecovery.TornWriteReopens(e.crc, e.direct, file.bytes, wal.log, r, len);
    file.bytes := WalFormat.WriteAt(file.bytes, wal.offset, WalFormat.Frame(wal.crc, r)[..len]);
    HeldLogLoads(e.crc, e.direct, e.tidy && len < WalFormat.PAGE, e.dir.wal, d.wal);
  }

  /** A write moves the machine by its steps and nothing else: the log's lock is free again. */
  lemma WriteFrames(s: State, r: Rec, u: State)
    requires WalLockFree(s)
    requires u == s || Run(s, [Append(r), ApplyPending]) == Some(u) || Run(s, [Refuse(r)]) == Some(u)
    ensures WalLockFree(u) && u.nextSn <= s.nextSn + 1 && u.disk.walFlush == s.disk.walFlush
    ensures exists acts: seq<Action> :: Run(s, acts) == Some(u)
  {
    hide WalFormat.Accepted, Apply;
    StaysAt(s);
    if Run(s, [Append(r), ApplyPending]) == Some(u) {
      assert [Append(r), ApplyPending][..1] == [Append(r)];
      TookOne(s, Append(r));
    } else if u != s {
      TookOne(s, Refuse(r));
    }
  }

  lemma TookOne(s: State, a: Action)
    requires Run(s, [a]).Some?
    ensures Can(s, a) && Run(s, [a]) == Some(Do(s, a))
  {
    hide Can, Do;
    assert [a][..0] == [];
  }

  /** The records of the writes that reach the log, numbered one after the other. */
  ghost function Taken(ops: seq<(Str, Op)>, sn: nat): seq<Rec> {
    if ops == [] then []
    else
      var before, (key, op) := Taken(ops[..|ops| - 1], sn), ops[|ops| - 1];
      if key == [] then before else before + [Rec(key, sn + |before|, op)]
  }

  /** The n-th of them has the first number plus n, whether the log accepts it or not. */
  lemma {:induction false} TakenNumbers(ops: seq<(Str, Op)>, sn: nat, n: nat)
    requires n < |Taken(ops, sn)|
    ensures Taken(ops, sn)[n].sn == sn + n
  {
    var init := ops[..|ops| - 1];
    if n < |Taken(init, sn)| { TakenNumbers(init, sn, n); }
  }

  ghost function AcceptedOf(rs: seq<Rec>): seq<Rec> {
    if rs == [] then []
    else AcceptedOf(rs[..|rs| - 1]) + (if WalFormat.Accepted(rs[|rs| - 1]) then [rs[|rs| - 1]] else [])
  }

  /** One more write takes the next number. */
  lemma TakesNext(ops: seq<(Str, Op)>, n: nat, sn: nat)
    requires n < |ops|
    ensures var before, after := Taken(ops[..n], sn), Taken(ops[..n + 1], sn);
      if ops[n].0 == [] then after == before
      else
        var r := Rec(ops[n].0, sn + |before|, ops[n].1);
        after == before + [r] && AcceptedOf(after) == AcceptedOf(before) + (if WalFormat.Accepted(r) then [r] else [])
  {
    hide WalFormat.Accepted;
    assert ops[..n + 1][..n] == ops[..n];
  }

  /**
    A session's writes, whatever stale bytes the log was opened over: each that reaches the
    log takes the next number, and the accepted ones are in the log in order. Should the
    engine crash after them, its log is read back exactly if and only if the bytes the
    session found read as the end of the log where its last frame ends.
   */
  method WriteAll(e: Engine, ops: seq<(Str, Op)>) returns (ghost acts: seq<Action>)
    requires e.Valid() && e.wal != null && WalLockFree(e.model) && e.model.nextSn + |ops| < U64_LIMIT - 1
    modifies e`nextSn, e`model, e.active, WalParts(e.wal), if e.wal == null then {} else {e.wal.buf.data}
    ensures e.Valid() && Run(old(e.model), acts) == Some(e.model)
    ensures e.nextSn == old(e.nextSn) + |Taken(ops, old(e.nextSn))|
    ensures e.wal.log == old(e.wal.log) + AcceptedOf(Taken(ops, old(e.nextSn)))
    ensures Recoverable(e) <==>
      (FileEnds(e.crc, e.direct, e.dir.walFlush, e.model.disk.walFlush)
       && WalRecovery.EndsAt(e.crc, old(e.wal.file.bytes), e.wal.offset))
  {
    hide Engine.Valid, Run, WalLockFree, WalRecovery.EndsAt, WalFormat.Accepted, FileEnds, Taken, AcceptedOf;
    var wal := e.wal;
    ghost var sn := e.nextSn;
    acts := [];
    StaysAt(e.model);
    NothingTaken(sn);
    assert wal.log + [] == wal.log;
    for i := 0 to |ops|
      invariant e.Valid() && WalLockFree(e.model) && e.model.nextSn + |ops| - i < U64_LIMIT - 1
      invariant Run(old(e.model), acts) == Some(e.model) && e.active == old(e.active)
      invariant wal.buf.data == old(wal.buf.data) || fresh(wal.buf.data)
      invariant KeepsEnd(e.crc, old(wal.file.bytes), wal.file.bytes, wal.offset)
      invariant e.nextSn == sn + |Taken(ops[..i], sn)| && wal.log == old(wal.log) + AcceptedOf(Taken(ops[..i], sn))
    {
      ghost var s := e.model;
      e.Mirrors();
      OpenMirrors(e);
      TakesNext(ops, i, sn);
      var res := e.Write(ops[i].0, ops[i].1);
      WriteFrames(s, Rec(ops[i].0, s.nextSn, ops[i].1), e.model);
      ghost var more: seq<Action> :| Run(s, more) == Some(e.model);
      RunConcat(old(e.model), acts, more, s);
      acts := acts + more;
    }
    assert ops[..|ops|] == ops;
    OpenLogEnds(e);
  }

  lemma NothingTaken(sn: nat)
    ensures Taken([], sn) == [] && AcceptedOf([]) == []
  {
  }

  /** A write and then a read of its key: the read tells the write, with the number it took. */
  method ReadYourWrite(e: Engine, key: Str, op: Op) returns (res: Result<Lookup>)
    requires e.Valid() && Running(e.model) && WalLockFree(e.model) && e.wal != null && e.nextSn < U64_LIMIT - 1
    requires WalFormat.Accepted(Rec(key, e.nextSn, op))
    modifies e`nextSn, e`model, e.active, WalParts(e.wal), if e.wal == null then {} else {e.wal.buf.data}
    ensures e.nextSn == old(e.nextSn) + 1
    ensures op.Put? ==> res == Ok(Alive(old(e.nextSn), op.value))
    ensures op.Delete? ==> res == Ok(Deleted(old(e.nextSn)))
  {
    hide Engine.Valid, Run, WalLockFree, WalFormat.Accepted, Running, Applied, TellsLast;
    ghost var s, r := e.model, Rec(key, e.nextSn, op);
    e.Mirrors();
    AcceptedFields(r);
    OpenMirrors(e);
    var written := e.Write(key, op);
    WriteIsLast(s, r, e.model);
    res := e.Get(key);
    ToldLast(res, Elems(Applied(e.model)), r);
  }

  lemma OpenMirrors(e: Engine)
    requires e.Valid() && e.wal != null
    ensures e.model.walOpen
  {
    hide FrozenIs, JobsMatch, ReadersMatch, TableFiles, LogIs, LogFiles;
  }

  lemma WriteIsLast(s: State, r: Rec, u: State)
    requires Running(s) && Run(s, [Append(r), ApplyPending]) == Some(u)
    ensures Running(u) && IsLast(Elems(Applied(u)), r)
  {
    hide WalFormat.Accepted, Apply, Reads, OneFlush, Files, IdOrder, WalLockFree;
    var acts := [Append(r), ApplyPending];
    assert acts[..1] == [Append(r)];
    TookOne(s, Append(r));
    assert CrashFree(acts);
    RunKeepsRunning(s, acts);
    assert u.log == s.log + [r] && u.pending.None?;
    assert u.log[|s.log|] == r;
  }

  lemma ToldLast(res: Result<Lookup>, s: set<Rec>, r: Rec)
    requires res.Ok? && TellsLast(res.value, s, r.key) && IsLast(s, r)
    ensures res == Ok(match r.op case Put(v) => Alive(r.sn, v) case Delete => Deleted(r.sn))
  {
  }

  lemma StaysAt(s: State)
    ensures Run(s, []) == Some(s)
  {
  }

  lemma OpenLogEnds(e: Engine)
    requires e.Valid() && e.wal != null
    ensures FileEnds(e.crc, e.direct, e.dir.wal, e.model.disk.wal)
      <==> WalRecovery.EndsAt(e.crc, e.wal.file.bytes, e.wal.offset)
  {
    hide FrozenIs, JobsMatch, ReadersMatch, TableFiles, WalRecovery.EndsAt, WalRecovery.StartsLog, WalRecovery.IsLog,
      WalFormat.Image, WalRecovery.Holds, WalFormat.CheckHeader;
  }

  /** A freshly assembled engine over what recovery of `d` left behind. */
  lemma StartsValid(e: Engine, rs: seq<Rec>, d: Disk, log: seq<Rec>)
    requires e.model == EngineModel.Open(d, log) && e.active.table == Replayed(d)
    requires e.frozen == null && e.jobs == [] && !e.inFlight && !e.lastErr
    requires e.nextSn == RecoveredMaxSn(d) + 1 && e.nextSst == NextSst(SortedSsts(d.sst))
    requires ReadersMatch(e.crc, e.sstables, SortedSsts(d.sst))
    requires RecoveredDisk(d).wal == Some(rs)
    requires e.wal != null && LogIs(e.crc, e.direct, e.tidy, e.wal, e.dir, Some(rs)) && e.dir.walFlush == null
    requires TableFiles(e.crc, e.dir.tmp, e.dir.sst, d.tmp, d.sst)
    ensures e.Valid()
  {
    hide TableFiles, ReadersMatch, SortedSsts, Replayed, RecoveredMaxSn, NextSst, WalFormat.Image, WalFormat.CheckHeader,
      WalRecovery.AllAccepted, WalRecovery.Holds, Iter;
  }

  lemma HandlesMatch(crc: Checksum, hs: seq<Handle>, rds: seq<SstReader.Reader>, b: ByteDisk, d: Disk)
    requires Handles(hs, SortedIds(b.sst.Keys), rds) && b.sst.Keys == d.sst.Keys && Loaded(crc, rds, SortedSsts(d.sst))
    ensures ReadersMatch(crc, hs, SortedSsts(d.sst))
  {
    hide SortedIds, ReaderAnswers;
  }

  // ---------------------------------------------------------------------
  // The object over whole histories
  // ---------------------------------------------------------------------

  /** Every table a running engine may flush holds operations the log accepted. */
  lemma FlushedTablesLoggable(s: State, h: Holder)
    requires Running(s)
    ensures Loggable(s.active)
    ensures HeldJob(s, h).Some? ==> Loggable(HeldJob(s, h).value.table)
  {
    hide OneFlush, Files, IdOrder, WalFormat.Accepted, HeldJob, Newest;
    assert Layers(s)[0] == s.active;
    LayerLoggable(s, 0);
    if s.frozen.Some? {
      assert Layers(s)[1] == s.frozen.value;
      LayerLoggable(s, 1);
    }
    if HeldJob(s, h).Some? { HeldIsFrozen(s, h); }
  }

  lemma HeldIsFrozen(s: State, h: Holder)
    requires OneFlush(s) && HeldJob(s, h).Some?
    ensures s.frozen == Some(HeldJob(s, h).value.table)
  {
  }

  /** A new directory. */
  method OpenNew(crc: Checksum, direct: bool, capacity: nat) returns (e: Engine)
    ensures fresh(e) && fresh(e.dir) && e.Valid() && e.tidy && e.model == Fresh()
  {
    hide EngineModel.Open, RecoveredMaxSn, Engine.Valid, ByteOpen, Matches;
    var dir := new Dir();
    EmptyNumbers();
    assert HoldsDisk(crc, direct, dir, EMPTY_DISK);
    var res := OpenWith(crc, direct, capacity, dir, EMPTY_DISK, []);
    e := res.value;
  }

  lemma EmptyNumbers()
    ensures RecoveredMaxSn(EMPTY_DISK) == 0
  {
  }

  /**
    Losing the object at any point of a disciplined history and reading from its
    reopened directory: the read tells the key's highest-numbered appended operation.
   */
  method ReadAfterCrash(e: Engine, key: Str, ghost acts: seq<Action>) returns (res: Result<Lookup>)
    requires e.Valid() && (e.tidy || Recoverable(e)) && key != []
    requires DisciplinedRun(Fresh(), acts) && Run(Fresh(), acts) == Some(e.model)
    modifies e.dir
    ensures res.Ok? && TellsLast(res.value, Elems(old(e.model.log)), key)
  {
    hide Engine.Valid, Run, DisciplinedRun, Fresh, Durable, EngineModel.Open, GetEntry, RecoveredMaxSn, EngineModel.Get,
      TellsLast, Running;
    ghost var s := e.model;
    CrashKeepsEveryWrite(acts, key);
    DisciplinedRunsDurable(acts);
    RecoveredNumberFits(s);
    var again := Restart(e);
    RunOne(s, Crash);
    res := again.value.Get(key);
  }
}
