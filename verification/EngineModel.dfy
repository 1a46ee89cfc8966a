/**
  The engine as a machine whose steps are its critical sections. Any number of
  writer and flusher threads, one flush worker, a disk, and crashes. A log of
  all appended operations is kept as history; nothing reads it.
 */
module EngineModel {
  import opened Bytes
  import opened Records
  import WalFormat
  import SstWriters

  const BLOCK_SIZE: nat := 4096
  const BITS_PER_KEY: Byte := 10

  type Tid = nat

  /** A frozen table on its way to disk. */
  datatype Job = Job(table: Table, id: nat)

  /** Where a thread is inside `schedule_flush` and `rotate_wal`. */
  datatype Flusher =
    | Idle
    | Waited                // past wait_flush
    | Froze(job: Job)       // tables swapped, snapshot lock released
    | Cleared(job: Job)     // log closed, old wal.flush removed
    | Renamed(job: Job)     // wal renamed to wal.flush
    | Rotated(job: Job)     // new wal created
    | Marked(job: Job)      // in_flight set

  /** Where the worker is inside `run_worker` and `install_sst`. */
  datatype Worker =
    | Resting
    | Took(job: Job)
    | Built(job: Job)       // .sst.tmp complete
    | Published(job: Job)   // renamed to .sst
    | Installed(job: Job)   // reader pushed, frozen cleared
    | Unlinked(job: Job)    // wal.flush removed

  datatype Sst = Sst(id: nat, table: Table)

  /** Files by content: logs as records, table files as tables. */
  datatype Disk = Disk(
    wal: Option<seq<Rec>>, walFlush: Option<seq<Rec>>, tmp: map<nat, Table>, sst: map<nat, Table>)

  datatype State = State(
    active: Table, frozen: Option<Table>, ssts: seq<Sst>,
    walOpen: bool, nextSn: nat, nextSst: nat,
    inFlight: bool, lastErr: bool,
    flushers: map<Tid, Flusher>, queue: seq<Job>, worker: Worker,
    pending: Option<Rec>,   // appended, not yet applied: its writer holds the log's lock
    disk: Disk,
    log: seq<Rec>,          // history: every operation appended
    broken: bool)           // history: some rotation or job failed

  datatype Action =
    | Append(r: Rec) | Refuse(r: Rec) | ApplyPending
    | WaitPass(t: Tid) | WaitErr | Skip(t: Tid) | Freeze(t: Tid)
    | RotClear(t: Tid) | RotRename(t: Tid) | RotCreate(t: Tid) | RotFail(t: Tid)
    | Mark(t: Tid) | Send(t: Tid)
    | Take | Build | Publish | Install | Unlink | Done | JobFail
    | Crash

  function PcOf(s: State, t: Tid): Flusher {
    if t in s.flushers then s.flushers[t] else Idle
  }

  function Content(file: Option<seq<Rec>>): seq<Rec> {
    match file
    case None => []
    case Some(rs) => rs
  }

  /** The log's lock is free: no writer between append and apply, no rotation under way. */
  predicate WalLockFree(s: State) {
    s.pending.None? && forall t :: t in s.flushers ==> !s.flushers[t].Cleared? && !s.flushers[t].Renamed?
  }

  /** The flush of this table can be written: Bloom size accepted, lengths representable. */
  ghost predicate CanBuild(t: Table) {
    && SstWriters.Flushable(BLOCK_SIZE, BITS_PER_KEY, Iter(t))
    && forall crc: Checksum :: |SstWriters.TableFile(crc, BLOCK_SIZE, BITS_PER_KEY, Iter(t))| < U64_LIMIT
  }

  // ---------------------------------------------------------------------
  // Recovery
  // ---------------------------------------------------------------------

  predicate IsTop(ids: set<nat>, m: nat) { m in ids && forall i :: i in ids ==> i <= m }

  lemma TopExists(ids: set<nat>)
    requires ids != {}
    ensures exists m :: IsTop(ids, m)
  {
    var x :| x in ids;
    var rest := ids - {x};
    if rest == {} {
      assert ids == {x};
      assert IsTop(ids, x);
    } else {
      TopExists(rest);
      var m :| IsTop(rest, m);
      var top := if m < x then x else m;
      forall i | i in ids ensures i <= top { assert i == x || i in rest; }
      assert IsTop(ids, top);
    }
  }

  function Top(ids: set<nat>): (m: nat)
    requires ids != {}
    ensures IsTop(ids, m)
  {
    TopExists(ids);
    var m :| m in ids && IsTop(ids, m);
    m
  }

  function SortedIds(ids: set<nat>): (out: seq<nat>)
    ensures |out| == |ids| && forall i :: 0 <= i < |out| ==> out[i] in ids
    decreases |ids|
  {
    if ids == {} then [] else SortedIds(ids - {Top(ids)}) + [Top(ids)]
  }

  /** Table files in ascending id order. */
  function SortedSsts(files: map<nat, Table>): (out: seq<Sst>) {
    var ids := SortedIds(files.Keys);
    seq(|ids|, i requires 0 <= i < |ids| => Sst(ids[i], files[ids[i]]))
  }

  function MaxSnOf(ssts: seq<Sst>): nat {
    if ssts == [] then 0
    else Max(MaxSnOf(ssts[..|ssts| - 1]), MaxSn(Iter(ssts[|ssts| - 1].table)))
  }

  /** Next table id: one past the highest file. */
  function NextSst(ssts: seq<Sst>): nat {
    if ssts == [] then 1 else Max(NextSst(ssts[..|ssts| - 1]), ssts[|ssts| - 1].id + 1)
  }

  /** The table rebuilt from the logs: wal.flush first, then wal. */
  function Replayed(d: Disk): Table {
    Fold(map[], Content(d.walFlush) + Content(d.wal))
  }

  /** Logs after recovery: rewritten from the table when there was a wal.flush. */
  function RecoveredDisk(d: Disk): Disk {
    var wal := if d.walFlush.Some? then Iter(Replayed(d)) else Content(d.wal);
    Disk(Some(wal), None, d.tmp, d.sst)
  }

  function RecoveredMaxSn(d: Disk): nat {
    Max(MaxSnOf(SortedSsts(d.sst)), MaxSn(Content(d.walFlush) + Content(d.wal)))
  }

  /** Opening a data directory. */
  function Open(d: Disk, log: seq<Rec>): State {
    State(Replayed(d), None, SortedSsts(d.sst), true, RecoveredMaxSn(d) + 1, NextSst(SortedSsts(d.sst)),
          false, false, map[], [], Resting, None, RecoveredDisk(d), log, false)
  }

  const EMPTY_DISK: Disk := Disk(None, None, map[], map[])

  /** A new directory, opened. */
  function Fresh(): State { Open(EMPTY_DISK, []) }

  // ---------------------------------------------------------------------
  // Steps
  // ---------------------------------------------------------------------

  ghost predicate Can(s: State, a: Action) {
    match a
    case Append(r) =>
      WalLockFree(s) && s.walOpen && s.disk.wal.Some? && r.sn == s.nextSn < U64_LIMIT - 1 && WalFormat.Accepted(r)
    case Refuse(r) =>
      WalLockFree(s) && s.walOpen && r.sn == s.nextSn < U64_LIMIT - 1
        && r.key != [] && !WalFormat.Accepted(r)
    case ApplyPending => s.pending.Some?
    case WaitPass(t) => PcOf(s, t).Idle? && !s.inFlight && !s.lastErr
    case WaitErr => !s.inFlight && s.lastErr
    case Skip(t) => PcOf(s, t).Waited? && (s.frozen.Some? || s.active == map[])
    case Freeze(t) => PcOf(s, t).Waited? && s.frozen.None? && s.active != map[] && s.pending.None?
    case RotClear(t) => PcOf(s, t).Froze? && WalLockFree(s)
    case RotRename(t) => PcOf(s, t).Cleared? && s.disk.wal.Some?
    case RotCreate(t) => PcOf(s, t).Renamed?
    case RotFail(t) => (PcOf(s, t).Froze? && WalLockFree(s)) || PcOf(s, t).Cleared? || PcOf(s, t).Renamed?
    case Mark(t) => PcOf(s, t).Rotated?
    case Send(t) => PcOf(s, t).Marked?
    case Take => s.worker.Resting? && s.queue != []
    case Build => s.worker.Took? && CanBuild(s.worker.job.table)
    case Publish => s.worker.Built? && s.worker.job.id in s.disk.tmp
    case Install => s.worker.Published? && s.worker.job.id in s.disk.sst && s.pending.None?
    case Unlink => s.worker.Installed?
    case Done => s.worker.Unlinked?
    case JobFail => s.worker.Took? || s.worker.Built? || s.worker.Published? || s.worker.Installed?
    case Crash => true
  }

  function SetPc(s: State, t: Tid, pc: Flusher): State {
    s.(flushers := s.flushers[t := pc])
  }

  ghost function Do(s: State, a: Action): State
    requires Can(s, a)
  {
    match a
    case Append(r) =>
      s.(disk := s.disk.(wal := Some(s.disk.wal.value + [r])), nextSn := s.nextSn + 1,
         pending := Some(r), log := s.log + [r])
    case Refuse(r) => s.(nextSn := s.nextSn + 1)
    case ApplyPending => s.(active := Apply(s.active, s.pending.value), pending := None)
    case WaitPass(t) => SetPc(s, t, Waited)
    case WaitErr => s.(lastErr := false)
    case Skip(t) => SetPc(s, t, Idle)
    case Freeze(t) =>
      SetPc(s, t, Froze(Job(s.active, s.nextSst)))
        .(active := map[], frozen := Some(s.active), nextSst := s.nextSst + 1)
    case RotClear(t) =>
      SetPc(s, t, Cleared(PcOf(s, t).job)).(walOpen := false, disk := s.disk.(walFlush := None))
    case RotRename(t) =>
      SetPc(s, t, Renamed(PcOf(s, t).job)).(disk := s.disk.(walFlush := s.disk.wal, wal := None))
    case RotCreate(t) =>
      SetPc(s, t, Rotated(PcOf(s, t).job)).(walOpen := true, disk := s.disk.(wal := Some([])))
    case RotFail(t) => SetPc(s, t, Idle).(walOpen := false, broken := true)
    case Mark(t) => SetPc(s, t, Marked(PcOf(s, t).job)).(inFlight := true, lastErr := false)
    case Send(t) => SetPc(s, t, Idle).(queue := s.queue + [PcOf(s, t).job])
    case Take => s.(worker := Took(s.queue[0]), queue := s.queue[1..])
    case Build =>
      s.(worker := Built(s.worker.job), disk := s.disk.(tmp := s.disk.tmp[s.worker.job.id := s.worker.job.table]))
    case Publish =>
      var id := s.worker.job.id;
      s.(worker := Published(s.worker.job),
         disk := s.disk.(sst := s.disk.sst[id := s.disk.tmp[id]], tmp := s.disk.tmp - {id}))
    case Install =>
      var id := s.worker.job.id;
      s.(worker := Installed(s.worker.job), ssts := s.ssts + [Sst(id, s.disk.sst[id])], frozen := None)
    case Unlink => s.(worker := Unlinked(s.worker.job), disk := s.disk.(walFlush := None))
    case Done => s.(worker := Resting, inFlight := false, lastErr := false)
    case JobFail => s.(worker := Resting, inFlight := false, lastErr := true, broken := true)
    case Crash => Open(s.disk, s.log)
  }

  // ---------------------------------------------------------------------
  // Reads
  // ---------------------------------------------------------------------

  /** Table contents, oldest file first, as a list newest first. */
  function Newest(ssts: seq<Sst>): seq<Table> {
    if ssts == [] then [] else [ssts[|ssts| - 1].table] + Newest(ssts[..|ssts| - 1])
  }

  /** What a read looks at, in order. */
  function Layers(s: State): seq<Table> {
    [s.active] + (match s.frozen case None => [] case Some(t) => [t]) + Newest(s.ssts)
  }

  /** The first layer that knows the key answers. */
  function FirstHit(ls: seq<Table>, k: Str): Option<Entry> {
    if ls == [] then None
    else if k in ls[0] then Some(ls[0][k])
    else FirstHit(ls[1..], k)
  }

  function GetEntry(s: State, k: Str): Option<Entry> { FirstHit(Layers(s), k) }

  function Get(s: State, k: Str): Result<Lookup> {
    if k == [] then Err(EmptyKey) else Ok(Answer(GetEntry(s, k)))
  }

  /** The operations applied so far: all appended ones but a pending one. */
  function Applied(s: State): seq<Rec> {
    if s.pending.Some? && s.log != [] then s.log[..|s.log| - 1] else s.log
  }

  // ---------------------------------------------------------------------
  // Runs
  // ---------------------------------------------------------------------

  /** Running `acts` from `s`; None when some step is not enabled. */
  ghost function Run(s: State, acts: seq<Action>): Option<State> {
    if acts == [] then Some(s)
    else
      match Run(s, acts[..|acts| - 1])
      case None => None
      case Some(m) => if Can(m, acts[|acts| - 1]) then Some(Do(m, acts[|acts| - 1])) else None
  }

  ghost predicate CrashFree(acts: seq<Action>) {
    forall i :: 0 <= i < |acts| ==> !acts[i].Crash?
  }

  /** One flusher at a time, and no write between a freeze and its rotation. */
  ghost predicate Disciplined(s: State, a: Action) {
    match a
    case WaitPass(t) => forall u :: u in s.flushers && u != t ==> s.flushers[u].Idle?
    case Append(_) => forall u :: u in s.flushers ==> !s.flushers[u].Froze?
    case _ => true
  }

  ghost predicate DisciplinedRun(s: State, acts: seq<Action>) {
    acts == [] ||
    (DisciplinedRun(s, acts[..|acts| - 1]) && Run(s, acts[..|acts| - 1]).Some?
      && Disciplined(Run(s, acts[..|acts| - 1]).value, acts[|acts| - 1]))
  }
}
