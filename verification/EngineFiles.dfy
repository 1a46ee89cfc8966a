/**
  The engine down to the bytes on disk. `ByteOpen` recovers from file contents
  alone, as `open_with` does; the theorems say that it reaches the state the
  machine model reopens to, also when the last append was torn at any byte.
 */
module EngineFiles {
  import opened Bytes
  import opened Records
  import opened EngineModel
  import opened EngineVisible
  import opened EngineDurable
  import opened EngineRecovery
  import opened WalFormat
  import WalRecovery
  import Bloom
  import SstFormat
  import SstReader
  import SstWriters

  /** The files recovery looks at, by content. */
  datatype ByteDisk = ByteDisk(wal: Option<Str>, walFlush: Option<Str>, sst: map<nat, Str>)

  /** What opening produces: the replayed table, readers oldest first, counters, the files left. */
  datatype ByteState = ByteState(
    active: Table, readers: seq<SstReader.Reader>, nextSn: nat, nextSst: nat, disk: ByteDisk)

  // ---------------------------------------------------------------------
  // Opening from bytes
  // ---------------------------------------------------------------------

  /** Footers and readers of the table files, oldest first, and the highest footer number. */
  function LoadSsts(crc: Checksum, files: map<nat, Str>, ids: seq<nat>)
    : (res: Result<(seq<SstReader.Reader>, nat)>)
    requires forall i :: 0 <= i < |ids| ==> ids[i] in files
    ensures res.Ok? ==> |res.value.0| == |ids| && forall i :: 0 <= i < |ids| ==> SstReader.Opened(res.value.0[i])
  {
    if ids == [] then Ok(([], 0))
    else
      match LoadSsts(crc, files, ids[..|ids| - 1])
      case Err(e) => Err(e)
      case Ok((rds, m)) =>
        var bytes := files[ids[|ids| - 1]];
        match SstWriters.ReadFooter(crc, bytes)
        case Err(e) => Err(e)
        case Ok(footer) =>
          match SstReader.OpenSst(crc, bytes)
          case Err(e) => Err(e)
          case Ok(rd) => Ok((rds + [rd], Max(m, footer.maxSn)))
  }

  /** The records a log file replays, none if it is absent. */
  function LoadLog(crc: Checksum, file: Option<Str>): Result<seq<Rec>> {
    match file
    case None => Ok([])
    case Some(bytes) =>
      match OpenLog(crc, bytes)
      case Err(e) => Err(e)
      case Ok((rs, _)) => Ok(rs)
  }

  function NextId(ids: seq<nat>): nat {
    if ids == [] then 1 else Max(NextId(ids[..|ids| - 1]), ids[|ids| - 1] + 1)
  }

  /** The log file after recovery: a checkpoint if there was a wal.flush, else as it was. */
  function RecoveredWal(crc: Checksum, direct: bool, b: ByteDisk, mem: Table): Str {
    if b.walFlush.Some? then Image(crc, direct, Iter(mem))
    else if b.wal.Some? then b.wal.value
    else Image(crc, direct, [])
  }

  /** What both logs replay, wal.flush first. */
  function LoadLogs(crc: Checksum, b: ByteDisk): Result<seq<Rec>> {
    match LoadLog(crc, b.walFlush)
    case Err(e) => Err(e)
    case Ok(fs) =>
      match LoadLog(crc, b.wal)
      case Err(e) => Err(e)
      case Ok(ws) => Ok(fs + ws)
  }

  /** Readers, replayed table and highest number, in the order errors are met. */
  function LoadDir(crc: Checksum, b: ByteDisk): (res: Result<(seq<SstReader.Reader>, Table, nat)>)
    ensures res.Ok? ==> forall i :: 0 <= i < |res.value.0| ==> SstReader.Opened(res.value.0[i])
  {
    match LoadSsts(crc, b.sst, SortedIds(b.sst.Keys))
    case Err(e) => Err(e)
    case Ok((rds, m)) =>
      match LoadLogs(crc, b)
      case Err(e) => Err(e)
      case Ok(rs) => Ok((rds, Fold(map[], rs), Max(m, MaxSn(rs))))
  }

  function ByteOpen(crc: Checksum, direct: bool, b: ByteDisk): (res: Result<ByteState>)
    ensures res.Ok? ==> forall i :: 0 <= i < |res.value.readers| ==> SstReader.Opened(res.value.readers[i])
  {
    match LoadDir(crc, b)
    case Err(e) => Err(e)
    case Ok((rds, mem, top)) =>
      if top + 1 >= U64_LIMIT then Err(SequenceOverflow)
      else
        Ok(ByteState(mem, rds, top + 1, NextId(SortedIds(b.sst.Keys)),
                     ByteDisk(Some(RecoveredWal(crc, direct, b, mem)), None, b.sst)))
  }

  /** Newest reader first; a tombstone answers, an error stops the search. */
  function ReadersGet(crc: Checksum, rds: seq<SstReader.Reader>, k: Str): Result<Lookup>
    requires forall i :: 0 <= i < |rds| ==> SstReader.Opened(rds[i])
  {
    if rds == [] then Ok(Missing)
    else
      match SstReader.Get(crc, rds[|rds| - 1], k)
      case Err(e) => Err(e)
      case Ok(Missing) => ReadersGet(crc, rds[..|rds| - 1], k)
      case Ok(hit) => Ok(hit)
  }

  function ByteGet(crc: Checksum, st: ByteState, k: Str): Result<Lookup>
    requires forall i :: 0 <= i < |st.readers| ==> SstReader.Opened(st.readers[i])
  {
    if k == [] then Err(EmptyKey)
    else if k in st.active then Ok(Answer(Some(st.active[k])))
    else ReadersGet(crc, st.readers, k)
  }

  // ---------------------------------------------------------------------
  // Which directories open
  // ---------------------------------------------------------------------

  ghost predicate FileOpens(crc: Checksum, bytes: Str) { SstReader.OpenSst(crc, bytes).Ok? }

  /** The footer is read twice, with the same outcome. */
  lemma FooterFirst(crc: Checksum, bytes: Str)
    ensures SstReader.OpenSst(crc, bytes).Ok? ==> SstWriters.ReadFooter(crc, bytes).Ok?
    ensures SstWriters.ReadFooter(crc, bytes).Err? ==>
      SstReader.OpenSst(crc, bytes) == Err(SstWriters.ReadFooter(crc, bytes).error)
  {
  }

  /** File `i` does not open, for the reason `e`, and all before it do. */
  ghost predicate FirstBad(crc: Checksum, files: map<nat, Str>, ids: seq<nat>, i: nat, e: Error)
    requires forall j :: 0 <= j < |ids| ==> ids[j] in files
  {
    i < |ids| && SstReader.OpenSst(crc, files[ids[i]]) == Err(e) && forall j :: 0 <= j < i ==> FileOpens(crc, files[ids[j]])
  }

  /** Table files are opened in order: all of them, or the first that fails decides the error. */
  lemma {:induction false} LoadsInOrder(crc: Checksum, files: map<nat, Str>, ids: seq<nat>)
    requires forall i :: 0 <= i < |ids| ==> ids[i] in files
    ensures LoadSsts(crc, files, ids).Ok? <==> forall i :: 0 <= i < |ids| ==> FileOpens(crc, files[ids[i]])
    ensures LoadSsts(crc, files, ids).Err? ==> exists i :: FirstBad(crc, files, ids, i, LoadSsts(crc, files, ids).error)
  {
    hide SstReader.OpenSst, SstWriters.ReadFooter, SstReader.Opened;
    if ids != [] {
      var init, last := ids[..|ids| - 1], |ids| - 1;
      LoadsInOrder(crc, files, init);
      FooterFirst(crc, files[ids[last]]);
      forall j | 0 <= j < last ensures ids[j] == init[j] {}
      if LoadSsts(crc, files, init).Err? {
        var i :| FirstBad(crc, files, init, i, LoadSsts(crc, files, init).error);
        assert FirstBad(crc, files, ids, i, LoadSsts(crc, files, ids).error);
      } else if LoadSsts(crc, files, ids).Err? {
        forall j | 0 <= j < last ensures FileOpens(crc, files[ids[j]]) { assert FileOpens(crc, files[init[j]]); }
        assert FirstBad(crc, files, ids, last, LoadSsts(crc, files, ids).error);
      } else {
        forall j | 0 <= j < last ensures FileOpens(crc, files[ids[j]]) { assert FileOpens(crc, files[init[j]]); }
      }
    }
  }

  /** Every table file and both logs open. */
  ghost predicate AllOpen(crc: Checksum, b: ByteDisk) {
    && (forall id :: id in b.sst ==> FileOpens(crc, b.sst[id]))
    && (b.walFlush.Some? ==> OpenLog(crc, b.walFlush.value).Ok?) && (b.wal.Some? ==> OpenLog(crc, b.wal.value).Ok?)
  }

  lemma LoadsIff(crc: Checksum, b: ByteDisk)
    ensures LoadDir(crc, b).Ok? <==> AllOpen(crc, b)
    ensures (forall id :: id in b.sst ==> FileOpens(crc, b.sst[id])) ==>
      && (b.walFlush.Some? && OpenLog(crc, b.walFlush.value).Err? ==>
            LoadDir(crc, b) == Err(OpenLog(crc, b.walFlush.value).error))
      && ((b.walFlush.Some? ==> OpenLog(crc, b.walFlush.value).Ok?) && b.wal.Some? && OpenLog(crc, b.wal.value).Err? ==>
            LoadDir(crc, b) == Err(OpenLog(crc, b.wal.value).error))
  {
    hide LoadSsts, OpenLog, SortedIds, Fold, MaxSn, FileOpens;
    var ids := SortedIds(b.sst.Keys);
    LoadsInOrder(crc, b.sst, ids);
    forall id | id in b.sst ensures exists i :: 0 <= i < |ids| && ids[i] == id { IdsComplete(b.sst.Keys, id); }
    if forall i :: 0 <= i < |ids| ==> FileOpens(crc, b.sst[ids[i]]) {
      forall id | id in b.sst ensures FileOpens(crc, b.sst[id]) {
        var i :| 0 <= i < |ids| && ids[i] == id;
      }
    }
  }

  /** Exactly which directories open: everything in them does, and numbers are left. */
  lemma OpensIff(crc: Checksum, direct: bool, b: ByteDisk)
    ensures ByteOpen(crc, direct, b).Ok? <==>
      AllOpen(crc, b) && LoadDir(crc, b).Ok? && LoadDir(crc, b).value.2 < 0xFFFF_FFFF_FFFF_FFFF
    ensures AllOpen(crc, b) && ByteOpen(crc, direct, b).Err? ==> ByteOpen(crc, direct, b).error == SequenceOverflow
  {
    hide LoadDir, AllOpen, RecoveredWal, NextId, SortedIds;
    LoadsIff(crc, b);
  }

  // ---------------------------------------------------------------------
  // The bytes of a model disk
  // ---------------------------------------------------------------------

  ghost function LogBytes(crc: Checksum, direct: bool, file: Option<seq<Rec>>): Option<Str> {
    match file
    case None => None
    case Some(rs) => Some(Image(crc, direct, rs))
  }

  ghost function SstBytes(crc: Checksum, t: Table): Str {
    if CanBuild(t) then SstWriters.TableFile(crc, BLOCK_SIZE, BITS_PER_KEY, Iter(t)) else []
  }

  ghost function DiskBytes(crc: Checksum, direct: bool, d: Disk): ByteDisk {
    ByteDisk(LogBytes(crc, direct, d.wal), LogBytes(crc, direct, d.walFlush),
             map id | id in d.sst :: SstBytes(crc, d.sst[id]))
  }

  /** The byte disk replays to the model disk's logs and holds its table files. */
  ghost predicate Encodes(crc: Checksum, b: ByteDisk, d: Disk) {
    && LoadLog(crc, b.wal) == Ok(Content(d.wal)) && LoadLog(crc, b.walFlush) == Ok(Content(d.walFlush))
    && b.sst.Keys == d.sst.Keys
    && forall id :: id in d.sst ==> CanBuild(d.sst[id]) && b.sst[id] == SstBytes(crc, d.sst[id])
  }

  /** `rd` answers every key as the table does. */
  ghost predicate ReaderAnswers(crc: Checksum, rd: SstReader.Reader, t: Table) {
    SstReader.Opened(rd) && forall k :: k != [] ==> SstReader.Get(crc, rd, k) == Ok(Answer(At(t, k)))
  }

  lemma SstFileOpens(crc: Checksum, t: Table)
    requires CanBuild(t)
    ensures SstWriters.ReadFooter(crc, SstBytes(crc, t)).Ok?
    ensures SstWriters.ReadFooter(crc, SstBytes(crc, t)).value.maxSn == MaxSn(Iter(t))
    ensures SstReader.OpenSst(crc, SstBytes(crc, t)).Ok?
    ensures ReaderAnswers(crc, SstReader.OpenSst(crc, SstBytes(crc, t)).value, t)
  {
    hide SstReader.OpenSst, SstReader.Get, SstWriters.TableFile, SstWriters.ReadFooter, SstWriters.Flushable, Iter, MaxSn,
      SstReader.Opened, Answer;
    SstWriters.FlushedFooter(crc, BLOCK_SIZE, BITS_PER_KEY, Iter(t));
    var bytes := SstBytes(crc, t);
    SstWriters.FlushedTableAnswers(crc, BLOCK_SIZE, BITS_PER_KEY, t, [0]);
    forall k | k != [] ensures SstReader.Get(crc, SstReader.OpenSst(crc, bytes).value, k) == Ok(Answer(At(t, k))) {
      SstWriters.FlushedTableAnswers(crc, BLOCK_SIZE, BITS_PER_KEY, t, k);
    }
  }

  /** The file of a table: blocks cut greedily at 4096 bytes, a filter of eight hashes with ten bits a key. */
  lemma TableFileShape(crc: Checksum, t: Table) returns (bs: seq<seq<Rec>>, f: Bloom.Filter)
    requires CanBuild(t)
    ensures SstFormat.Greedy(4096, bs, Iter(t)) && Bloom.Sound(f) && Bloom.ToBytes(f).Ok?
    ensures SstBytes(crc, t) == SstFormat.FileBytes(crc, bs, Bloom.ToBytes(f).value)
    ensures var bits := if 10 * |t| < 256 then 256 else 10 * |t|;
      f.k == 8 && 256 * (f.numBlocks - 1) < bits <= 256 * f.numBlocks
    ensures forall k :: k in t ==> Bloom.MayContain(f, k)
  {
    hide Bloom.New, Bloom.ToBytes, Bloom.MayContain, Bloom.InsertAll,
      SstFormat.Blocks, SstFormat.Greedy, SstFormat.FileBytes,
      SstFormat.Buildable, Iter, Elems, SstWriters.FilterFor;
    var rs := Iter(t);
    bs, f := SstFormat.Blocks(4096, rs), SstWriters.FilterFor(rs, 10);
    SstFormat.BlocksIff(4096, rs, bs);
    SstWriters.FilterSized(rs, 10);
    SstWriters.StoredFilter(rs, 10);
    FilterWritten(rs);
    forall k | k in t ensures Bloom.MayContain(f, k) { KeyListed(t, k); }
  }

  lemma FilterWritten(rs: seq<Rec>)
    requires Bloom.New(Max(|rs|, 1), 10).Ok?
    ensures var f := SstWriters.FilterFor(rs, 10);
      Bloom.Sound(f) && Bloom.ToBytes(f) == Ok(SstWriters.FilterBlob(rs, 10))
  {
    hide Bloom.New, Bloom.InsertAll, Bloom.ToBytes, Bloom.FromBytes;
    Bloom.BytesRoundTrip(SstWriters.FilterFor(rs, 10));
  }

  lemma KeyListed(t: Table, k: Str)
    requires k in t
    ensures exists r :: r in Iter(t) && r.key == k
  {
    hide Iter;
    assert Rec(k, t[k].sn, t[k].op) in Elems(Iter(t));
  }

  /** Readers loaded oldest first answer as the listed tables, and footers give the highest number. */
  ghost predicate Loaded(crc: Checksum, rds: seq<SstReader.Reader>, ssts: seq<Sst>) {
    |rds| == |ssts| && forall i :: 0 <= i < |ssts| ==> ReaderAnswers(crc, rds[i], ssts[i].table)
  }

  function ListOf(files: map<nat, Table>, ids: seq<nat>): seq<Sst>
    requires forall i :: 0 <= i < |ids| ==> ids[i] in files
  {
    seq(|ids|, i requires 0 <= i < |ids| => Sst(ids[i], files[ids[i]]))
  }

  lemma LoadStep(crc: Checksum, files: map<nat, Str>, ids: seq<nat>)
    requires ids != [] && (forall i :: 0 <= i < |ids| ==> ids[i] in files) && LoadSsts(crc, files, ids[..|ids| - 1]).Ok?
    requires SstWriters.ReadFooter(crc, files[ids[|ids| - 1]]).Ok? && SstReader.OpenSst(crc, files[ids[|ids| - 1]]).Ok?
    ensures var init := LoadSsts(crc, files, ids[..|ids| - 1]).value;
      LoadSsts(crc, files, ids)
        == Ok((init.0 + [SstReader.OpenSst(crc, files[ids[|ids| - 1]]).value],
               Max(init.1, SstWriters.ReadFooter(crc, files[ids[|ids| - 1]]).value.maxSn)))
  {
    hide SstWriters.ReadFooter, SstReader.OpenSst, SstReader.Opened;
  }

  lemma LoadedSnoc(crc: Checksum, rds: seq<SstReader.Reader>, ssts: seq<Sst>)
    requires |rds| == |ssts| > 0 && Loaded(crc, rds[..|rds| - 1], ssts[..|ssts| - 1])
    requires ReaderAnswers(crc, rds[|rds| - 1], ssts[|ssts| - 1].table)
    ensures Loaded(crc, rds, ssts)
  {
    hide ReaderAnswers;
    forall i | 0 <= i < |ssts| ensures ReaderAnswers(crc, rds[i], ssts[i].table) {
      if i < |ssts| - 1 {
        assert ReaderAnswers(crc, rds[..|rds| - 1][i], ssts[..|ssts| - 1][i].table);
      }
    }
  }

  lemma {:induction false} LoadsAll(crc: Checksum, files: map<nat, Str>, tables: map<nat, Table>, ids: seq<nat>)
    requires files.Keys == tables.Keys && forall i :: 0 <= i < |ids| ==> ids[i] in tables
    requires forall id :: id in tables ==> CanBuild(tables[id]) && files[id] == SstBytes(crc, tables[id])
    ensures var res := LoadSsts(crc, files, ids);
      res.Ok? && Loaded(crc, res.value.0, ListOf(tables, ids)) && res.value.1 == MaxSnOf(ListOf(tables, ids))
  {
    hide CanBuild, SstBytes, ReaderAnswers, Iter, MaxSn, SstWriters.ReadFooter, SstReader.OpenSst;
    if ids != [] {
      var init, last := ids[..|ids| - 1], ids[|ids| - 1];
      LoadsAll(crc, files, tables, init);
      SstFileOpens(crc, tables[last]);
      LoadStep(crc, files, ids);
      var list := ListOf(tables, ids);
      assert list[..|list| - 1] == ListOf(tables, init);
      assert list[|list| - 1] == Sst(last, tables[last]);
      LoadedSnoc(crc, LoadSsts(crc, files, ids).value.0, list);
      MaxSnStep(list);
    }
  }

  lemma MaxSnStep(ssts: seq<Sst>)
    requires ssts != []
    ensures MaxSnOf(ssts) == Max(MaxSnOf(ssts[..|ssts| - 1]), MaxSn(Iter(ssts[|ssts| - 1].table)))
  {
  }

  lemma {:induction false} NextIdMatches(files: map<nat, Table>, ids: seq<nat>)
    requires forall i :: 0 <= i < |ids| ==> ids[i] in files
    ensures NextId(ids) == NextSst(ListOf(files, ids))
  {
    if ids != [] {
      NextIdMatches(files, ids[..|ids| - 1]);
      assert ListOf(files, ids)[..|ids| - 1] == ListOf(files, ids[..|ids| - 1]);
    }
  }

  /** Opening the bytes reaches what the model reopens to. */
  lemma OpenMatches(crc: Checksum, direct: bool, b: ByteDisk, d: Disk)
    requires Encodes(crc, b, d) && RecoveredMaxSn(d) + 1 < U64_LIMIT
    ensures var res := ByteOpen(crc, direct, b);
      && res.Ok? && res.value.active == Replayed(d) && Loaded(crc, res.value.readers, SortedSsts(d.sst))
      && res.value.nextSn == RecoveredMaxSn(d) + 1 && res.value.nextSst == NextSst(SortedSsts(d.sst))
  {
    hide LoadSsts, LoadLog, SortedIds, Fold, MaxSn, MaxSnOf, NextSst, NextId, CanBuild, SstBytes, Loaded, RecoveredWal;
    var ids := SortedIds(d.sst.Keys);
    LoadsAll(crc, b.sst, d.sst, ids);
    NextIdMatches(d.sst, ids);
    assert ListOf(d.sst, ids) == SortedSsts(d.sst);
  }

  lemma {:induction false} ReadersSearch(crc: Checksum, rds: seq<SstReader.Reader>, ssts: seq<Sst>, k: Str)
    requires Loaded(crc, rds, ssts) && k != []
    ensures forall i :: 0 <= i < |rds| ==> SstReader.Opened(rds[i])
    ensures ReadersGet(crc, rds, k) == Ok(Answer(FirstHit(Newest(ssts), k)))
  {
    hide SstReader.Get, SstReader.Opened;
    assert forall i :: 0 <= i < |rds| ==> ReaderAnswers(crc, rds[i], ssts[i].table);
    if rds != [] {
      ReadersSearch(crc, rds[..|rds| - 1], ssts[..|ssts| - 1], k);
      assert Newest(ssts)[1..] == Newest(ssts[..|ssts| - 1]);
    }
  }

  /** Reading the byte state is reading the reopened model. */
  lemma ByteGetMatches(crc: Checksum, st: ByteState, d: Disk, log: seq<Rec>, k: Str)
    requires st.active == Replayed(d) && Loaded(crc, st.readers, SortedSsts(d.sst)) && k != []
    ensures forall i :: 0 <= i < |st.readers| ==> SstReader.Opened(st.readers[i])
    ensures ByteGet(crc, st, k) == Ok(Answer(GetEntry(Open(d, log), k)))
  {
    hide Replayed, SortedSsts, ReadersGet, Loaded, Newest, RecoveredMaxSn, SstReader.Opened;
    ReadersSearch(crc, st.readers, SortedSsts(d.sst), k);
    var u := Open(d, log);
    var below := Newest(SortedSsts(d.sst));
    assert Layers(u) == [u.active] + [] + below;
    assert Layers(u)[1..] == below;
  }

  // ---------------------------------------------------------------------
  // Which tables reach the disk
  // ---------------------------------------------------------------------

  /** Table files exist only for tables a flush can write. */
  ghost predicate OnlyBuilt(s: State) {
    && (forall id :: id in s.disk.sst ==> CanBuild(s.disk.sst[id]))
    && (s.worker.Built? ==> CanBuild(s.worker.job.table))
  }

  lemma BuildOnlyBuilt(s: State)
    requires Can(s, Build) && OnlyBuilt(s)
    ensures OnlyBuilt(Do(s, Build))
  {
    hide CanBuild;
  }

  lemma PublishOnlyBuilt(s: State)
    requires Can(s, Publish) && OnlyBuilt(s) && Files(s)
    ensures OnlyBuilt(Do(s, Publish))
  {
    hide CanBuild;
  }

  lemma InstallOnlyBuilt(s: State)
    requires Can(s, Install) && OnlyBuilt(s)
    ensures OnlyBuilt(Do(s, Install))
  {
    hide CanBuild;
  }

  lemma CrashOnlyBuilt(s: State)
    requires OnlyBuilt(s)
    ensures OnlyBuilt(Do(s, Crash))
  {
    hide CanBuild, RecoveredDisk, Replayed, SortedSsts;
    RecoveredKeepsFiles(s.disk);
  }

  lemma KeepsOnlyBuilt(s: State, a: Action)
    requires Can(s, a) && OnlyBuilt(s) && Files(s)
    ensures OnlyBuilt(Do(s, a))
  {
    hide Can, Do, CanBuild, Files;
    match a
    case Build => BuildOnlyBuilt(s);
    case Publish => PublishOnlyBuilt(s);
    case Install => InstallOnlyBuilt(s);
    case Crash => CrashOnlyBuilt(s);
    case _ => FilesUntouched(s, a);
  }

  lemma RecoveredKeepsFiles(d: Disk)
    ensures RecoveredDisk(d).sst == d.sst
  {
  }

  lemma {:induction false} RunsOnlyBuilt(acts: seq<Action>)
    requires DisciplinedRun(Fresh(), acts) && Run(Fresh(), acts).Some?
    ensures OnlyBuilt(Run(Fresh(), acts).value) && Durable(Run(Fresh(), acts).value)
  {
    DisciplinedRunsDurable(acts);
    hide Can, Do, Disciplined, OnlyBuilt, Reads, Logged, Staged, Single, DiskFiles, LogsWithin, History,
      OneFlush, IdOrder, Files;
    if acts == [] {
      FreshOnlyBuilt();
    } else {
      RunsOnlyBuilt(acts[..|acts| - 1]);
      KeepsOnlyBuilt(Run(Fresh(), acts[..|acts| - 1]).value, acts[|acts| - 1]);
    }
  }

  lemma FreshOnlyBuilt()
    ensures OnlyBuilt(Fresh())
  {
    hide CanBuild;
  }

  // ---------------------------------------------------------------------
  // Crash images
  // ---------------------------------------------------------------------

  lemma LogsAccepted(s: State)
    requires History(s) && LogsWithin(s)
    ensures WalRecovery.AllAccepted(Content(s.disk.wal)) && WalRecovery.AllAccepted(Content(s.disk.walFlush))
  {
    hide Accepted;
    forall r | r in Elems(s.log) ensures Accepted(r) {}
    WithinAccepted(s, Content(s.disk.wal));
    WithinAccepted(s, Content(s.disk.walFlush));
  }

  lemma WithinAccepted(s: State, rs: seq<Rec>)
    requires Elems(rs) <= Elems(s.log) && forall r :: r in Elems(s.log) ==> Accepted(r)
    ensures WalRecovery.AllAccepted(rs)
  {
    hide Accepted;
    forall i | 0 <= i < |rs| ensures Accepted(rs[i]) { assert rs[i] in Elems(rs); }
  }

  lemma LogFileLoads(crc: Checksum, direct: bool, file: Option<seq<Rec>>)
    requires WalRecovery.AllAccepted(Content(file))
    ensures LoadLog(crc, LogBytes(crc, direct, file)) == Ok(Content(file))
  {
    hide OpenLog, Image;
    if file.Some? { WalRecovery.WholeLogRecovers(crc, direct, file.value); }
  }

  lemma DiskEncodes(crc: Checksum, direct: bool, s: State)
    requires Durable(s) && OnlyBuilt(s)
    ensures Encodes(crc, DiskBytes(crc, direct, s.disk), s.disk)
  {
    hide LoadLog, LogBytes, CanBuild, SstBytes, Reads, Logged, Staged, Single, DiskFiles, OneFlush, IdOrder, Files,
      History, LogsWithin, WalRecovery.AllAccepted;
    LogsAccepted(s);
    LogFileLoads(crc, direct, s.disk.wal);
    LogFileLoads(crc, direct, s.disk.walFlush);
  }

  lemma RecoveredNumberFits(s: State)
    requires Durable(s)
    ensures RecoveredMaxSn(s.disk) + 1 < U64_LIMIT
  {
    hide RecoveredMaxSn, Reads, Logged, Staged, Single, DiskFiles, OneFlush, IdOrder, Files, LogsWithin, Accepted;
    SettleFirst(s);
    MaxSnWasGiven(if s.pending.Some? then Do(s, ApplyPending) else s);
  }

  /**
    Durability down to the bytes: take the files of any state of a disciplined
    history, over any number of sessions, and open them. Recovery succeeds, and
    every key answers with exactly its highest-numbered appended operation.
   */
  lemma BytesKeepEveryWrite(crc: Checksum, direct: bool, acts: seq<Action>, k: Str)
    requires DisciplinedRun(Fresh(), acts) && Run(Fresh(), acts).Some? && k != []
    ensures var s := Run(Fresh(), acts).value;
      var res := ByteOpen(crc, direct, DiskBytes(crc, direct, s.disk));
      && res.Ok?
      && ByteGet(crc, res.value, k).Ok? && TellsLast(ByteGet(crc, res.value, k).value, Elems(s.log), k)
      && (forall r :: r in s.log ==> r.sn < res.value.nextSn)
  {
    RunsOnlyBuilt(acts);
    CrashKeepsEveryWrite(acts, k);
    forall r | r in Run(Fresh(), acts).value.log
      ensures r.sn < Open(Run(Fresh(), acts).value.disk, Run(Fresh(), acts).value.log).nextSn
    {
      NumbersStayFresh(acts, r);
    }
    hide Run, Fresh, Durable, OnlyBuilt, Open, ByteOpen, ByteGet, DisciplinedRun, Encodes, DiskBytes, Elems, GetEntry;
    var s := Run(Fresh(), acts).value;
    DiskEncodes(crc, direct, s);
    RecoveredNumberFits(s);
    OpenMatches(crc, direct, DiskBytes(crc, direct, s.disk), s.disk);
    ByteGetMatches(crc, ByteOpen(crc, direct, DiskBytes(crc, direct, s.disk)).value, s.disk, s.log, k);
    OpenNumbers(s.disk, s.log);
  }

  lemma OpenNumbers(d: Disk, log: seq<Rec>)
    ensures Open(d, log).nextSn == RecoveredMaxSn(d) + 1
  {
  }

  /** The disk in the middle of appending `r`: the log file ends somewhere inside the new frame. */
  ghost function TornDisk(crc: Checksum, direct: bool, s: State, r: Rec, len: nat): ByteDisk
    requires s.disk.wal.Some? && len <= |Image(crc, direct, s.disk.wal.value + [r])|
  {
    DiskBytes(crc, direct, s.disk).(wal := Some(Image(crc, direct, s.disk.wal.value + [r])[..len]))
  }

  lemma TornEncodes(crc: Checksum, direct: bool, s: State, r: Rec, len: nat)
    requires Durable(s) && OnlyBuilt(s) && s.disk.wal.Some? && Accepted(r)
    requires |Image(crc, direct, s.disk.wal.value)| <= len < |Image(crc, direct, s.disk.wal.value + [r])|
    ensures Encodes(crc, TornDisk(crc, direct, s, r, len), s.disk)
  {
    DiskEncodes(crc, direct, s);
    LogsAccepted(s);
    hide CanBuild, SstBytes, Durable, OnlyBuilt, Accepted, OpenLog, Image, LogBytes, WalRecovery.AllAccepted;
    WalRecovery.TornAppendRecovers(crc, direct, s.disk.wal.value, r, len);
  }

  /**
    A crash in the middle of an append, the last frame cut at any byte: recovery
    succeeds and answers from all operations appended before; the cut one never
    shows. (Whole, it counts as appended: `BytesKeepEveryWrite` after the step.)
   */
  lemma TornAppendKeepsTheRest(crc: Checksum, direct: bool, acts: seq<Action>, r: Rec, len: nat, k: Str)
    requires DisciplinedRun(Fresh(), acts) && Run(Fresh(), acts).Some? && k != []
    requires var s := Run(Fresh(), acts).value;
      Can(s, Append(r))
        && |Image(crc, direct, s.disk.wal.value)| <= len < |Image(crc, direct, s.disk.wal.value + [r])|
    ensures var s := Run(Fresh(), acts).value;
      var res := ByteOpen(crc, direct, TornDisk(crc, direct, s, r, len));
      && res.Ok?
      && ByteGet(crc, res.value, k).Ok? && TellsLast(ByteGet(crc, res.value, k).value, Elems(s.log), k)
  {
    RunsOnlyBuilt(acts);
    CrashKeepsEveryWrite(acts, k);
    hide Run, Fresh, Durable, OnlyBuilt, Open, ByteOpen, ByteGet, DisciplinedRun, Encodes, Elems, Image, TornDisk, GetEntry,
      Accepted, WalLockFree;
    var s := Run(Fresh(), acts).value;
    TornEncodes(crc, direct, s, r, len);
    RecoveredNumberFits(s);
    OpenMatches(crc, direct, TornDisk(crc, direct, s, r, len), s.disk);
    ByteGetMatches(crc, ByteOpen(crc, direct, TornDisk(crc, direct, s, r, len)).value, s.disk, s.log, k);
  }

  /** Reopening untorn files leaves exactly the files of the reopened model: the next session starts from them. */
  lemma RecoveryLeavesModelDisk(crc: Checksum, direct: bool, s: State)
    requires Durable(s) && OnlyBuilt(s)
    ensures var res := ByteOpen(crc, direct, DiskBytes(crc, direct, s.disk));
      res.Ok? && res.value.disk == DiskBytes(crc, direct, Open(s.disk, s.log).disk)
  {
    DiskEncodes(crc, direct, s);
    RecoveredNumberFits(s);
    OpenMatches(crc, direct, DiskBytes(crc, direct, s.disk), s.disk);
    hide Durable, OnlyBuilt, Encodes, SortedSsts, DiskBytes, RecoveredMaxSn, ByteOpen, Replayed, Loaded, NextSst;
    var b := DiskBytes(crc, direct, s.disk);
    OpenDisk(crc, direct, b);
    RecoveredBytes(crc, direct, s.disk);
  }

  lemma OpenDisk(crc: Checksum, direct: bool, b: ByteDisk)
    requires ByteOpen(crc, direct, b).Ok?
    ensures var st := ByteOpen(crc, direct, b).value;
      st.disk == ByteDisk(Some(RecoveredWal(crc, direct, b, st.active)), None, b.sst)
  {
    hide LoadDir, RecoveredWal;
  }

  lemma RecoveredBytes(crc: Checksum, direct: bool, d: Disk)
    ensures var b := DiskBytes(crc, direct, d);
      ByteDisk(Some(RecoveredWal(crc, direct, b, Replayed(d))), None, b.sst) == DiskBytes(crc, direct, RecoveredDisk(d))
  {
    hide Iter, Image, Replayed, SstBytes;
  }
}
