/**
  Starting an engine on a data directory: readers for the table files, replay of
  both logs, the checkpoint. Each loop is proved against the byte-level recovery
  functions of EngineFiles, errors included.
 */
module EngineStart {
  import opened Bytes
  import opened Records
  import opened EngineModel
  import opened EngineBuilds
  import opened EngineFiles
  import opened MemTables
  import opened Wals
  import WalFormat
  import WalRecovery
  import SstReader
  import SstWriters

  /** Directory entries: names for log files, contents for table files. */
  class Dir {
    var wal: File?
    var walFlush: File?
    var tmp: map<nat, Str>
    var sst: map<nat, Str>

    constructor ()
      ensures wal == null && walFlush == null && tmp == map[] && sst == map[]
    {
      wal, walFlush, tmp, sst := null, null, map[], map[];
    }

    /** The bytes a crash leaves behind. */
    ghost function Files(): ByteDisk
      reads this, wal, walFlush
    {
      ByteDisk(BytesOf(wal), BytesOf(walFlush), sst)
    }
  }

  ghost function BytesOf(f: File?): Option<Str>
    reads f
  {
    if f == null then None else Some(f.bytes)
  }

  datatype Handle = Handle(id: nat, reader: SstReader.Reader)

  // ---------------------------------------------------------------------
  // Table files
  // ---------------------------------------------------------------------

  lemma LoadSstsFails(crc: Checksum, files: map<nat, Str>, ids: seq<nat>, n: nat)
    requires n <= |ids| && (forall i :: 0 <= i < |ids| ==> ids[i] in files)
    requires LoadSsts(crc, files, ids[..n]).Err?
    ensures LoadSsts(crc, files, ids) == LoadSsts(crc, files, ids[..n])
  {
    hide SstReader.OpenSst, SstWriters.ReadFooter, SstReader.Opened;
    if n < |ids| {
      assert ids[..|ids| - 1][..n] == ids[..n];
      LoadSstsFails(crc, files, ids[..|ids| - 1], n);
    } else {
      assert ids[..n] == ids;
    }
  }

  /** The handles carry these readers under these ids. */
  ghost predicate Handles(hs: seq<Handle>, ids: seq<nat>, rds: seq<SstReader.Reader>) {
    |hs| == |ids| == |rds| && forall i :: 0 <= i < |hs| ==> hs[i] == Handle(ids[i], rds[i])
  }

  /** Opens every table file in id order; the first bad one is the error. */
  method LoadReaders(crc: Checksum, files: map<nat, Str>)
    returns (res: Result<seq<Handle>>, maxSn: nat, nextSst: nat)
    ensures var ids := SortedIds(files.Keys);
      match LoadSsts(crc, files, ids)
      case Err(e) => res == Err(e)
      case Ok((rds, m)) => res.Ok? && Handles(res.value, ids, rds) && maxSn == m && nextSst == NextId(ids)
  {
    hide SstReader.OpenSst, SstWriters.ReadFooter, SstReader.Opened, SortedIds;
    var ids := SortedIds(files.Keys);
    var out: seq<Handle> := [];
    maxSn, nextSst := 0, 1;
    for i := 0 to |ids|
      invariant LoadSsts(crc, files, ids[..i]).Ok?
      invariant Handles(out, ids[..i], LoadSsts(crc, files, ids[..i]).value.0)
      invariant maxSn == LoadSsts(crc, files, ids[..i]).value.1 && nextSst == NextId(ids[..i])
    {
      assert ids[..i + 1][..i] == ids[..i];
      var bytes := files[ids[i]];
      var footer := SstWriters.ReadFooter(crc, bytes);
      if footer.Err? {
        LoadSstsFails(crc, files, ids, i + 1);
        return Err(footer.error), 0, 0;
      }
      maxSn := Records.Max(maxSn, footer.value.maxSn);
      var reader := SstReader.OpenSst(crc, bytes);
      if reader.Err? {
        LoadSstsFails(crc, files, ids, i + 1);
        return Err(reader.error), 0, 0;
      }
      out := out + [Handle(ids[i], reader.value)];
      nextSst := Records.Max(nextSst, ids[i] + 1);
    }
    assert ids[..|ids|] == ids;
    return Ok(out), maxSn, nextSst;
  }

  // ---------------------------------------------------------------------
  // Replaying and checkpointing
  // ---------------------------------------------------------------------

  /** Replays a log into a table and raises the highest number seen. */
  method ApplyReplay(wal: Wal, mem: MemTable, maxSn: nat) returns (seen: nat)
    requires wal.Valid()
    modifies mem`table, mem`approx
    ensures mem.table == Fold(old(mem.table), wal.log)
    ensures seen == Records.Max(maxSn, MaxSn(wal.log))
  {
    hide WalFormat.CheckHeader, WalRecovery.Holds, Apply;
    var rs := wal.Replay();
    var recs := rs.value;
    seen := maxSn;
    for i := 0 to |recs|
      invariant mem.table == Fold(old(mem.table), recs[..i])
      invariant seen == Records.Max(maxSn, MaxSn(recs[..i]))
    {
      assert recs[..i + 1][..i] == recs[..i];
      var r := recs[i];
      seen := Records.Max(seen, r.sn);
      match r.op {
        case Put(v) => var _ := mem.Insert(r.key, v, r.sn);
        case Delete => var _ := mem.Remove(r.key, r.sn);
      }
    }
    assert recs[..|recs|] == recs;
  }

  /** Opens one log file, if it is there, and replays it. */
  method ReplayFile(crc: Checksum, direct: bool, file: File?, mem: MemTable, maxSn: nat) returns (res: Result<nat>)
    modifies mem`table, mem`approx
    ensures match LoadLog(crc, BytesOf(file))
      case Err(e) => res == Err(e) && mem.table == old(mem.table)
      case Ok(rs) => res == Ok(Records.Max(maxSn, MaxSn(rs))) && mem.table == Fold(old(mem.table), rs)
  {
    hide WalFormat.OpenLog, WalFormat.CheckHeader, WalRecovery.Holds;
    if file == null { return Ok(maxSn); }
    var w := Wals.Open(crc, file, direct);
    if w.Err? { return Err(w.error); }
    var seen := ApplyReplay(w.value, mem, maxSn);
    return Ok(seen);
  }

  lemma {:induction false} FoldLoggable(t: Table, rs: seq<Rec>)
    requires Loggable(t) && WalRecovery.AllAccepted(rs)
    ensures Loggable(Fold(t, rs))
  {
    hide WalFormat.Accepted;
    if rs != [] { FoldLoggable(t, rs[..|rs| - 1]); }
  }

  lemma LoadedAccepted(crc: Checksum, file: Option<Str>)
    requires LoadLog(crc, file).Ok?
    ensures WalRecovery.AllAccepted(LoadLog(crc, file).value)
  {
    hide WalFormat.Accepted, WalFormat.CheckHeader, WalFormat.Scan;
    if file.Some? { WalRecovery.ScannedAccepted(crc, file.value, WalFormat.PAGE, |file.value|); }
  }

  lemma IterAccepted(t: Table)
    requires Loggable(t)
    ensures WalRecovery.AllAccepted(Iter(t))
  {
    hide WalFormat.Accepted, Iter;
    var rs := Iter(t);
    forall i | 0 <= i < |rs| ensures WalFormat.Accepted(rs[i]) { assert rs[i] in Elems(rs); }
  }

  /** Writes every entry of the table, in key order, to an empty log. */
  method Checkpoint(mem: MemTable, wal: Wal)
    requires wal.Valid() && wal.Tidy() && wal.log == [] && Loggable(mem.table)
    requires wal.file.bytes == WalFormat.Image(wal.crc, wal.direct, [])
    modifies wal, wal.file, wal.buf, wal.buf.data
    ensures wal.Valid() && wal.Tidy() && wal.log == Iter(mem.table)
    ensures wal.file.bytes == WalFormat.Image(wal.crc, wal.direct, wal.log)
    ensures Fold(map[], wal.log) == mem.table
    ensures wal.buf.data == old(wal.buf.data) || fresh(wal.buf.data)
  {
    hide Iter, Fold, WalFormat.Image, WalFormat.Accepted, WalFormat.CheckHeader, WalRecovery.Holds, WalFormat.Frame,
      WalRecovery.IsLog;
    var rs := Iter(mem.table);
    CheckpointRestores(mem.table);
    IterAccepted(mem.table);
    for i := 0 to |rs|
      invariant wal.Valid() && wal.Tidy() && wal.log == rs[..i]
      invariant wal.file.bytes == WalFormat.Image(wal.crc, wal.direct, wal.log)
      invariant wal.buf.data == old(wal.buf.data) || fresh(wal.buf.data)
    {
      AcceptedFields(rs[i]);
      var ok := wal.Append(rs[i]);
    }
    assert rs[..|rs|] == rs;
  }

  lemma {:induction false} MaxSnConcat(rs: seq<Rec>, qs: seq<Rec>)
    ensures MaxSn(rs + qs) == Records.Max(MaxSn(rs), MaxSn(qs))
  {
    if qs == [] {
      assert rs + qs == rs;
    } else {
      MaxSnConcat(rs, qs[..|qs| - 1]);
      assert (rs + qs)[..|rs + qs| - 1] == rs + qs[..|qs| - 1];
    }
  }

  /** wal.flush, then wal; both replaced by a checkpoint if there was a wal.flush. */
  method RecoverWals(crc: Checksum, direct: bool, dir: Dir, mem: MemTable, maxSn: nat) returns (res: Result<nat>)
    requires mem.table == map[]
    modifies dir, mem`table, mem`approx
    ensures dir.sst == old(dir.sst) && dir.tmp == old(dir.tmp)
    ensures var rs := LoadLogs(crc, old(dir.Files()));
      match rs
      case Err(e) => res == Err(e) && dir.Files() == old(dir.Files())
      case Ok(rs) =>
        && res == Ok(Records.Max(maxSn, MaxSn(rs))) && mem.table == Fold(map[], rs)
        && dir.walFlush == null
        && (if old(dir.walFlush) == null then dir.wal == old(dir.wal)
            else dir.wal != null && fresh(dir.wal) && dir.wal.bytes == WalFormat.Image(crc, direct, Iter(mem.table)))
  {
    hide LoadLog, WalFormat.Image, Iter, Fold, MaxSn, Loggable, WalRecovery.AllAccepted, WalFormat.CheckHeader,
      WalRecovery.Holds, WalRecovery.IsLog;
    ghost var b := dir.Files();
    var hadFlush := dir.walFlush != null;
    var seen := ReplayFile(crc, direct, dir.walFlush, mem, maxSn);
    if seen.Err? { return seen; }
    res := ReplayFile(crc, direct, dir.wal, mem, seen.value);
    if res.Err? { return; }
    ghost var fs, ws := LoadLog(crc, b.walFlush).value, LoadLog(crc, b.wal).value;
    FoldConcat(map[], fs, ws);
    MaxSnConcat(fs, ws);
    if hadFlush {
      RecoveredLoggable(crc, b);
      dir.wal, dir.walFlush := null, null;
      var file := new File();
      dir.wal := file;
      var wal := new Wal.Create(crc, file, direct);
      Checkpoint(mem, wal);
    }
  }

  lemma RecoveredLoggable(crc: Checksum, b: ByteDisk)
    requires LoadLogs(crc, b).Ok?
    ensures Loggable(Fold(map[], LoadLogs(crc, b).value))
  {
    hide LoadLog, Fold, WalFormat.Accepted;
    LoadedAccepted(crc, b.walFlush);
    LoadedAccepted(crc, b.wal);
    FoldLoggable(map[], LoadLogs(crc, b).value);
  }

  /** The image of `rs`, and remains that read as the end of the log. */
  ghost predicate EndsLog(crc: Checksum, direct: bool, bytes: Str, rs: seq<Rec>) {
    WalRecovery.StartsLog(crc, direct, bytes, rs)
      && WalRecovery.EndsAt(crc, bytes, |WalFormat.Image(crc, direct, rs)|)
  }

  /** Opens the log left by recovery for appending, or creates one. */
  method OpenOrCreate(crc: Checksum, direct: bool, dir: Dir, ghost rs: seq<Rec>) returns (res: Result<Wal>)
    modifies dir`wal
    ensures old(dir.wal) != null ==> dir.wal == old(dir.wal) && (res.Ok? <==> WalFormat.OpenLog(crc, dir.wal.bytes).Ok?)
    ensures old(dir.wal) != null && res.Ok? ==> res.value.log == WalFormat.OpenLog(crc, dir.wal.bytes).value.0
    ensures old(dir.wal) == null ==>
      res.Ok? && dir.wal != null && fresh(dir.wal) && res.value.log == [] && res.value.Tidy()
      && dir.wal.bytes == WalFormat.Image(crc, direct, [])
    ensures res.Ok? ==>
      && fresh(res.value) && fresh(res.value.buf) && res.value.Valid() && res.value.file == dir.wal
      && res.value.crc == crc && res.value.direct == direct
    ensures old(dir.wal) != null && EndsLog(crc, direct, dir.wal.bytes, rs) ==>
      res.Ok? && res.value.log == rs && res.value.Clean()
      && (WalRecovery.IsLog(crc, direct, dir.wal.bytes, rs) ==> res.value.Tidy())
  {
    hide WalFormat.OpenLog, WalFormat.Image, WalRecovery.AllAccepted, WalFormat.CheckHeader, WalRecovery.Holds,
      WalRecovery.EndsAt;
    if dir.wal == null {
      var file := new File();
      dir.wal := file;
      var made := new Wal.Create(crc, file, direct);
      return Ok(made);
    }
    if EndsLog(crc, direct, dir.wal.bytes, rs) {
      WalRecovery.StartedReopens(crc, direct, dir.wal.bytes, rs);
    }
    res := Wals.Open(crc, dir.wal, direct);
  }
}
