/**
  Crash and reopen. From every state a disciplined history reaches, the disk
  alone gives every key its highest-numbered operation, numbers given after
  reopening are new, and the reopened engine is again durable: so the theorems
  hold over any number of sessions.
 */
module EngineRecovery {
  import opened Bytes
  import opened Records
  import opened EngineModel
  import opened EngineLayers
  import opened EngineVisible
  import opened EngineDurable
  import WalFormat

  // ---------------------------------------------------------------------
  // Sorted table files
  // ---------------------------------------------------------------------

  /** `out` lists exactly the files of `files`, ids ascending. */
  ghost predicate ListsFiles(out: seq<Sst>, files: map<nat, Table>) {
    && (forall i, j :: 0 <= i < j < |out| ==> out[i].id < out[j].id)
    && (forall i :: 0 <= i < |out| ==> out[i].id in files && files[out[i].id] == out[i].table)
    && (forall id :: id in files ==> exists i :: 0 <= i < |out| && out[i].id == id)
  }

  lemma {:induction false} IdsComplete(ids: set<nat>, id: nat)
    requires id in ids
    ensures id in SortedIds(ids)
    decreases |ids|
  {
    if id != Top(ids) { IdsComplete(ids - {Top(ids)}, id); }
  }

  lemma {:induction false} IdsAscend(ids: set<nat>, i: nat, j: nat)
    requires i < j < |SortedIds(ids)|
    ensures SortedIds(ids)[i] < SortedIds(ids)[j]
    decreases |ids|
  {
    var m, out := Top(ids), SortedIds(ids);
    var tail := SortedIds(ids - {m});
    assert out == tail + [m];
    if j < |tail| { IdsAscend(ids - {m}, i, j); }
    else { assert tail[i] in ids - {m}; }
  }

  lemma SortedLists(files: map<nat, Table>)
    ensures ListsFiles(SortedSsts(files), files)
  {
    hide SortedIds;
    var ids, out := SortedIds(files.Keys), SortedSsts(files);
    forall id | id in files ensures exists i :: 0 <= i < |out| && out[i].id == id {
      IdsComplete(files.Keys, id);
      var i :| 0 <= i < |ids| && ids[i] == id;
      assert out[i].id == id;
    }
    forall i, j | 0 <= i < j < |out| ensures out[i].id < out[j].id { IdsAscend(files.Keys, i, j); }
  }

  lemma {:induction false} NextSstAbove(ssts: seq<Sst>)
    ensures NextSst(ssts) >= 1 && forall i :: 0 <= i < |ssts| ==> ssts[i].id < NextSst(ssts)
  {
    if ssts != [] { NextSstAbove(ssts[..|ssts| - 1]); }
  }

  lemma {:induction false} MaxSnOfBounds(ssts: seq<Sst>)
    ensures forall i, k :: 0 <= i < |ssts| && k in ssts[i].table ==> ssts[i].table[k].sn <= MaxSnOf(ssts)
    ensures MaxSnOf(ssts) > 0 ==>
      exists i, k :: 0 <= i < |ssts| && k in ssts[i].table && ssts[i].table[k].sn == MaxSnOf(ssts)
  {
    if ssts != [] {
      hide Iter, MaxSn;
      var init, last := ssts[..|ssts| - 1], ssts[|ssts| - 1];
      MaxSnOfBounds(init);
      TableMax(last.table);
      if MaxSnOf(init) < MaxSn(Iter(last.table)) {
        var k :| k in last.table && last.table[k].sn == MaxSnOf(ssts);
        assert ssts[|ssts| - 1].table[k].sn == MaxSnOf(ssts);
      } else if MaxSnOf(init) > 0 {
        var i, k :| 0 <= i < |init| && k in init[i].table && init[i].table[k].sn == MaxSnOf(init);
        assert ssts[i] == init[i];
      }
      forall i, k | 0 <= i < |ssts| && k in ssts[i].table ensures ssts[i].table[k].sn <= MaxSnOf(ssts) {
        if i < |init| { assert ssts[i] == init[i]; }
      }
    }
  }

  /** The footer's highest number bounds the table, and is one of its numbers. */
  lemma TableMax(t: Table)
    ensures forall k :: k in t ==> t[k].sn <= MaxSn(Iter(t))
    ensures t != map[] ==> exists k :: k in t && t[k].sn == MaxSn(Iter(t))
    ensures t == map[] ==> MaxSn(Iter(t)) == 0
  {
    var rs := Iter(t);
    MaxSnBounds(rs);
    forall k | k in t ensures t[k].sn <= MaxSn(rs) {
      assert Rec(k, t[k].sn, t[k].op) in Elems(rs);
    }
    if t != map[] {
      var r :| r in rs && r.sn == MaxSn(rs);
      assert r in Elems(rs);
      assert r.key in t && t[r.key].sn == r.sn;
    }
  }

  // ---------------------------------------------------------------------
  // The replayed table
  // ---------------------------------------------------------------------

  lemma ElemsConcat(rs: seq<Rec>, qs: seq<Rec>)
    ensures Elems(rs + qs) == Elems(rs) + Elems(qs)
  {
  }

  lemma ReplaySummarizes(rs: seq<Rec>)
    ensures Summarizes(Fold(map[], rs), Elems(rs))
  {
    FoldSummarizes(map[], rs);
    assert RecsOf(map[]) + Elems(rs) == Elems(rs);
  }

  /** The replayed table has at least what each log's own table has, and nothing else. */
  lemma ReplayedVersions(d: Disk, k: Str)
    ensures k in Replayed(d) <==> k in TableOf(d.walFlush) || k in TableOf(d.wal)
    ensures k in TableOf(d.walFlush) ==> TableOf(d.walFlush)[k].sn <= Replayed(d)[k].sn
    ensures k in TableOf(d.wal) ==> TableOf(d.wal)[k].sn <= Replayed(d)[k].sn
  {
    var f, w := Content(d.walFlush), Content(d.wal);
    ReplaySummarizes(f);
    ReplaySummarizes(w);
    ReplaySummarizes(f + w);
    ElemsConcat(f, w);
    hide Fold, Elems;
    assert IsHighest(Elems(f), k, At(TableOf(d.walFlush), k));
    assert IsHighest(Elems(w), k, At(TableOf(d.wal), k));
    assert IsHighest(Elems(f + w), k, At(Replayed(d), k));
  }

  lemma ReplayedWithin(s: State)
    requires LogsWithin(s)
    ensures TableWithin(Replayed(s.disk), Elems(s.log))
  {
    var f, w := Content(s.disk.walFlush), Content(s.disk.wal);
    ReplaySummarizes(f + w);
    ElemsConcat(f, w);
    var t := Replayed(s.disk);
    hide Fold, Elems;
    forall k | k in t ensures Rec(k, t[k].sn, t[k].op) in Elems(s.log) {
      assert IsHighest(Elems(f + w), k, At(t, k));
    }
  }

  // ---------------------------------------------------------------------
  // Layers of the reopened engine, with no operation pending
  // ---------------------------------------------------------------------

  /** `t` has at least the version any table file has of a key. */
  ghost predicate Dominates(t: Table, files: map<nat, Table>) {
    forall id, k :: id in files && k in files[id] && k in t ==> files[id][k].sn <= t[k].sn
  }

  /** Where the `i`-th listed file is among the layers. */
  function Depth(s: State, i: nat): nat
    requires i < |s.ssts|
  {
    (if s.frozen.Some? then 2 else 1) + (|s.ssts| - 1 - i)
  }

  lemma LayerOfFile(s: State, i: nat)
    requires i < |s.ssts|
    ensures Depth(s, i) < |Layers(s)| && Layers(s)[Depth(s, i)] == s.ssts[i].table
    ensures Layers(s)[0] == s.active
    ensures s.frozen.Some? ==> Layers(s)[1] == s.frozen.value
  {
    NewestAt(s.ssts, i);
  }

  lemma TopLayers(s: State)
    ensures |Layers(s)| > 0 && Layers(s)[0] == s.active
    ensures s.frozen.Some? ==> |Layers(s)| > 1 && Layers(s)[1] == s.frozen.value
  {
  }

  lemma ActiveDominates(s: State)
    requires Ordered(Layers(s)) && DiskFiles(s)
    ensures Dominates(s.active, s.disk.sst)
  {
    hide Layers;
    TopLayers(s);
    forall id, k | id in s.disk.sst && k in s.disk.sst[id] && k in s.active
      ensures s.disk.sst[id][k].sn <= s.active[k].sn
    {
      if Listed(s, id) {
        var i :| 0 <= i < |s.ssts| && s.ssts[i].id == id;
        LayerOfFile(s, i);
        assert k in Layers(s)[0] && k in Layers(s)[Depth(s, i)];
      } else {
        assert k in Layers(s)[0] && k in Layers(s)[1];
      }
    }
  }

  lemma FrozenDominates(s: State)
    requires Ordered(Layers(s)) && DiskFiles(s) && s.frozen.Some?
    ensures Dominates(s.frozen.value, s.disk.sst)
  {
    hide Layers;
    TopLayers(s);
    forall id, k | id in s.disk.sst && k in s.disk.sst[id] && k in s.frozen.value
      ensures s.disk.sst[id][k].sn <= s.frozen.value[k].sn
    {
      if Listed(s, id) {
        var i :| 0 <= i < |s.ssts| && s.ssts[i].id == id;
        LayerOfFile(s, i);
        assert k in Layers(s)[1] && k in Layers(s)[Depth(s, i)];
      }
    }
  }

  /** Among the listed files a later one dominates an earlier one. */
  lemma LaterFileNewer(s: State, i: nat, j: nat, k: Str)
    requires Ordered(Layers(s)) && i <= j < |s.ssts| && k in s.ssts[i].table && k in s.ssts[j].table
    ensures s.ssts[i].table[k].sn <= s.ssts[j].table[k].sn
  {
    hide Layers;
    LayerOfFile(s, i);
    LayerOfFile(s, j);
    if i < j { assert k in Layers(s)[Depth(s, j)] && k in Layers(s)[Depth(s, i)]; }
  }

  lemma LastFileDominates(s: State)
    requires Ordered(Layers(s)) && DiskFiles(s) && s.frozen.None? && s.ssts != []
    ensures Dominates(s.ssts[|s.ssts| - 1].table, s.disk.sst)
  {
    hide Layers, Ordered;
    var t := s.ssts[|s.ssts| - 1].table;
    forall id, k | id in s.disk.sst && k in s.disk.sst[id] && k in t ensures s.disk.sst[id][k].sn <= t[k].sn {
      var i :| 0 <= i < |s.ssts| && s.ssts[i].id == id;
      LaterFileNewer(s, i, |s.ssts| - 1, k);
    }
  }

  /** A key of the frozen table was never in an older left-over log only. */
  lemma FlushLogDominates(s: State)
    requires Ordered(Layers(s)) && DiskFiles(s) && Logged(s)
    ensures AfterRotation(s) || Unfrozen(s) ==> Dominates(TableOf(s.disk.walFlush), s.disk.sst)
  {
    hide TableOf, Layers, Ordered, Dominates, DiskFiles;
    if AfterRotation(s) {
      FrozenDominates(s);
    } else if Unfrozen(s) {
      if s.disk.walFlush.Some? { LastFileDominates(s); } else { NothingReplayed(s.disk.sst); }
    }
  }

  lemma NothingReplayed(files: map<nat, Table>)
    ensures TableOf(None) == map[] && Dominates(map[], files)
  {
  }

  /** Before rotation a left-over log's keys are answered above the files by a version at least as new. */
  lemma ReplayedDominates(s: State)
    requires Ordered(Layers(s)) && DiskFiles(s) && Logged(s) && s.pending.None?
    ensures Dominates(Replayed(s.disk), s.disk.sst)
  {
    var t := Replayed(s.disk);
    forall id, k | id in s.disk.sst && k in s.disk.sst[id] && k in t
      ensures s.disk.sst[id][k].sn <= t[k].sn
    {
      ReplayedVersions(s.disk, k);
      ReplayedOver(s, id, k);
    }
  }

  lemma ReplayedOver(s: State, id: nat, k: Str)
    requires Ordered(Layers(s)) && DiskFiles(s) && Logged(s) && s.pending.None?
    requires id in s.disk.sst && k in s.disk.sst[id]
    requires k in TableOf(s.disk.walFlush) || k in TableOf(s.disk.wal)
    ensures (k in TableOf(s.disk.wal) && s.disk.sst[id][k].sn <= TableOf(s.disk.wal)[k].sn)
      || (k in TableOf(s.disk.walFlush) && s.disk.sst[id][k].sn <= TableOf(s.disk.walFlush)[k].sn)
  {
    hide TableOf, Layers, Ordered;
    if k in TableOf(s.disk.wal) {
      if BeforeRotation(s) { FrozenDominates(s); } else { ActiveDominates(s); }
    } else if BeforeRotation(s) {
      StaleLogOver(s, id, k);
    } else {
      FlushLogDominates(s);
    }
  }

  /** With the frozen table's log still in place, a left-over wal.flush is the newest file's. */
  lemma StaleLogOver(s: State, id: nat, k: Str)
    requires Ordered(Layers(s)) && DiskFiles(s) && BeforeRotation(s)
    requires id in s.disk.sst && k in s.disk.sst[id]
    requires k !in TableOf(s.disk.wal) && k in TableOf(s.disk.walFlush)
    ensures s.disk.sst[id][k].sn <= TableOf(s.disk.walFlush)[k].sn
  {
    hide Layers, Ordered, TableOf;
    if s.disk.walFlush.None? { NothingReplayed(s.disk.sst); }
    assert Listed(s, id);
    var i :| 0 <= i < |s.ssts| && s.ssts[i].id == id;
    LaterFileNewer(s, i, |s.ssts| - 1, k);
  }

  // ---------------------------------------------------------------------
  // Order, contents and coverage after reopening
  // ---------------------------------------------------------------------

  function Reopened(s: State): seq<Table> { [Replayed(s.disk)] + Newest(SortedSsts(s.disk.sst)) }

  lemma ReopenedAt(s: State, i: nat)
    requires 0 < i < |Reopened(s)|
    ensures var out := SortedSsts(s.disk.sst);
      |Reopened(s)| == |out| + 1 && Reopened(s)[i] == out[|out| - i].table
  {
    var out := SortedSsts(s.disk.sst);
    NewestLength(out);
    NewestAt(out, |out| - i);
  }

  /** Of two files on disk, the one with the higher id is the newer. */
  lemma HigherIdNewer(s: State, lo: nat, hi: nat, k: Str)
    requires Ordered(Layers(s)) && DiskFiles(s) && IdOrder(s)
    requires lo < hi && lo in s.disk.sst && hi in s.disk.sst && k in s.disk.sst[lo] && k in s.disk.sst[hi]
    ensures s.disk.sst[lo][k].sn <= s.disk.sst[hi][k].sn
  {
    hide Layers, Ordered;
    if Listed(s, hi) {
      var j :| 0 <= j < |s.ssts| && s.ssts[j].id == hi;
      assert Listed(s, lo);
      var i :| 0 <= i < |s.ssts| && s.ssts[i].id == lo;
      LaterFileNewer(s, i, j, k);
    } else {
      FrozenDominates(s);
    }
  }

  lemma ReopenedPair(s: State, i: nat, j: nat, k: Str)
    requires Ordered(Layers(s)) && DiskFiles(s) && IdOrder(s) && Dominates(Replayed(s.disk), s.disk.sst)
    requires i < j < |Reopened(s)| && k in Reopened(s)[i] && k in Reopened(s)[j]
    ensures Reopened(s)[j][k].sn <= Reopened(s)[i][k].sn
  {
    hide Layers, Ordered, IdOrder, DiskFiles, Newest, SortedSsts, Replayed;
    var out := SortedSsts(s.disk.sst);
    SortedLists(s.disk.sst);
    ReopenedAt(s, j);
    if i > 0 {
      ReopenedAt(s, i);
      HigherIdNewer(s, out[|out| - j].id, out[|out| - i].id, k);
    }
  }

  lemma ReopenedOrdered(s: State)
    requires Ordered(Layers(s)) && DiskFiles(s) && IdOrder(s) && Logged(s) && s.pending.None?
    ensures Ordered(Reopened(s))
  {
    hide Layers, Ordered, Logged, IdOrder, DiskFiles, Reopened, Dominates, Replayed;
    ReplayedDominates(s);
    var ls: seq<Table> := Reopened(s);
    forall i, j, k | 0 <= i < j < |ls| && k in ls[i] && k in ls[j] ensures ls[j][k].sn <= ls[i][k].sn {
      ReopenedPair(s, i, j, k);
    }
    OrderedByDefinition(ls);
  }

  lemma OrderedByDefinition(ls: seq<Table>)
    requires forall i, j, k :: 0 <= i < j < |ls| && k in ls[i] && k in ls[j] ==> ls[j][k].sn <= ls[i][k].sn
    ensures Ordered(ls)
  {
  }

  lemma FileWithin(s: State, id: nat)
    requires Within(Layers(s), Elems(Applied(s))) && DiskFiles(s) && id in s.disk.sst && s.pending.None?
    ensures TableWithin(s.disk.sst[id], Elems(s.log))
  {
    hide Layers;
    TopLayers(s);
    if Listed(s, id) {
      var i :| 0 <= i < |s.ssts| && s.ssts[i].id == id;
      LayerOfFile(s, i);
      assert TableWithin(Layers(s)[Depth(s, i)], Elems(s.log));
    } else {
      assert TableWithin(Layers(s)[1], Elems(s.log));
    }
  }

  lemma ReopenedWithin(s: State)
    requires Within(Layers(s), Elems(Applied(s))) && DiskFiles(s) && LogsWithin(s) && s.pending.None?
    ensures Within(Reopened(s), Elems(s.log))
  {
    hide Layers, DiskFiles, LogsWithin, TableWithin;
    var ls, out := Reopened(s), SortedSsts(s.disk.sst);
    SortedLists(s.disk.sst);
    ReplayedWithin(s);
    forall i | 0 <= i < |ls| ensures TableWithin(ls[i], Elems(s.log)) {
      if i > 0 {
        ReopenedAt(s, i);
        FileWithin(s, out[|out| - i].id);
      }
    }
  }

  /** A file on disk is a layer after reopening. */
  lemma FileCovers(s: State, id: nat, r: Rec)
    requires id in s.disk.sst && r.key in s.disk.sst[id] && r.sn <= s.disk.sst[id][r.key].sn
    ensures CoveredBy(Reopened(s), r)
  {
    hide SortedSsts, Newest, Reopened, ListsFiles;
    SortedLists(s.disk.sst);
    var i := PlaceOf(SortedSsts(s.disk.sst), s.disk.sst, id);
    ReopenedLength(s);
    var at := |SortedSsts(s.disk.sst)| - i;
    ReopenedAt(s, at);
    assert Reopened(s)[at] == s.disk.sst[id];
  }

  lemma PlaceOf(out: seq<Sst>, files: map<nat, Table>, id: nat) returns (i: nat)
    requires ListsFiles(out, files) && id in files
    ensures i < |out| && out[i].id == id && out[i].table == files[id]
  {
    i :| 0 <= i < |out| && out[i].id == id;
  }

  lemma ReopenedLength(s: State)
    ensures |Reopened(s)| == |SortedSsts(s.disk.sst)| + 1
  {
    hide SortedSsts;
    NewestLength(SortedSsts(s.disk.sst));
  }

  lemma ReplayCovers(s: State, r: Rec)
    requires r.key in Replayed(s.disk) && r.sn <= Replayed(s.disk)[r.key].sn
    ensures CoveredBy(Reopened(s), r)
  {
    hide Replayed;
    assert Reopened(s)[0] == Replayed(s.disk);
  }

  /** Every layer of the running engine is on disk. */
  lemma LayerOnDisk(s: State, i: nat, r: Rec)
    requires DiskFiles(s) && Logged(s) && s.pending.None?
    requires i < |Layers(s)| && r.key in Layers(s)[i] && r.sn <= Layers(s)[i][r.key].sn
    ensures CoveredBy(Reopened(s), r)
  {
    hide Replayed, Fold;
    TopLayers(s);
    ReplayedVersions(s.disk, r.key);
    var top := if s.frozen.Some? then 2 else 1;
    if i < top {
      ReplayCovers(s, r);
    } else {
      NewestLength(s.ssts);
      var x := |s.ssts| - 1 - (i - top);
      LayerOfFile(s, x);
      assert Depth(s, x) == i;
      FileCovers(s, s.ssts[x].id, r);
    }
  }

  lemma ReopenedAnswers(s: State)
    requires Durable(s) && s.pending.None?
    ensures Ordered(Reopened(s)) && Within(Reopened(s), Elems(s.log)) && AnswersHighest(Reopened(s), Elems(s.log))
  {
    hide Layers, Reopened, Ordered, Within, AnswersHighest, DiskFiles, Logged, LogsWithin, IdOrder, History,
      OneFlush, Files, Staged, Single, CoveredBy;
    ReopenedOrdered(s);
    ReopenedWithin(s);
    forall r | r in Elems(s.log) ensures CoveredBy(Reopened(s), r) {
      CoverageFromHighest(Layers(s), Elems(s.log), r);
      CoveredLayer(Layers(s), r);
      var i :| 0 <= i < |Layers(s)| && r.key in Layers(s)[i] && r.sn <= Layers(s)[i][r.key].sn;
      LayerOnDisk(s, i, r);
    }
    HighestFromCoverage(Reopened(s), Elems(s.log));
  }

  lemma CoveredLayer(ls: seq<Table>, r: Rec)
    requires CoveredBy(ls, r)
    ensures exists i :: 0 <= i < |ls| && r.key in ls[i] && r.sn <= ls[i][r.key].sn
  {
  }

  // ---------------------------------------------------------------------
  // Fresh numbers
  // ---------------------------------------------------------------------

  lemma ReplayedBelowMax(d: Disk, k: Str)
    requires k in Replayed(d)
    ensures Replayed(d)[k].sn <= RecoveredMaxSn(d)
  {
    var rs := Content(d.walFlush) + Content(d.wal);
    ReplaySummarizes(rs);
    MaxSnBounds(rs);
    hide Fold, SortedSsts;
    assert IsHighest(Elems(rs), k, At(Replayed(d), k));
  }

  /** Reopening finds a number at least as high as every operation ever appended. */
  lemma AllNumbersSeen(s: State, r: Rec)
    requires Durable(s) && s.pending.None? && r in Elems(s.log)
    ensures r.sn <= RecoveredMaxSn(s.disk)
  {
    ReopenedAnswers(s);
    hide Durable, Replayed, SortedSsts, RecoveredMaxSn, Reopened;
    CoverageFromHighest(Reopened(s), Elems(s.log), r);
    CoveredLayer(Reopened(s), r);
    var i :| 0 <= i < |Reopened(s)| && r.key in Reopened(s)[i] && r.sn <= Reopened(s)[i][r.key].sn;
    LayerBelowMax(s, i, r.key);
  }

  lemma LayerBelowMax(s: State, i: nat, k: Str)
    requires i < |Reopened(s)| && k in Reopened(s)[i]
    ensures Reopened(s)[i][k].sn <= RecoveredMaxSn(s.disk)
  {
    hide Replayed, SortedSsts;
    if i == 0 {
      ReplayedBelowMax(s.disk, k);
    } else {
      ReopenedAt(s, i);
      MaxSnOfBounds(SortedSsts(s.disk.sst));
    }
  }

  /** Some log record or stored version on disk has the number. */
  ghost predicate NumberOnDisk(d: Disk, sn: nat) {
    || (exists r :: r in Content(d.walFlush) + Content(d.wal) && r.sn == sn)
    || (exists id, k :: id in d.sst && k in d.sst[id] && d.sst[id][k].sn == sn)
  }

  /**
    What opening any disk computes: a table with the highest version of each logged key;
    a next number one past the highest on disk, a next id one past the highest file.
   */
  lemma OpensExactly(d: Disk, log: seq<Rec>)
    ensures var u := Open(d, log);
      && Summarizes(u.active, Elems(Content(d.walFlush) + Content(d.wal)))
      && (forall sn: nat :: NumberOnDisk(d, sn) ==> sn < u.nextSn)
      && (u.nextSn == 1 || NumberOnDisk(d, u.nextSn - 1))
      && (forall id :: id in d.sst ==> id < u.nextSst) && (u.nextSst == 1 || u.nextSst - 1 in d.sst)
  {
    hide Fold, SortedSsts, MaxSn, MaxSnOf, NextSst, RecoveredDisk, Elems, Summarizes;
    ReplaySummarizes(Content(d.walFlush) + Content(d.wal));
    HighestOnDisk(d);
    NextIdExact(d);
  }

  lemma HighestOnDisk(d: Disk)
    ensures forall sn: nat :: NumberOnDisk(d, sn) ==> sn <= RecoveredMaxSn(d)
    ensures RecoveredMaxSn(d) == 0 || NumberOnDisk(d, RecoveredMaxSn(d))
  {
    hide Fold, SortedSsts, MaxSn, MaxSnOf;
    var rs, out := Content(d.walFlush) + Content(d.wal), SortedSsts(d.sst);
    MaxSnBounds(rs);
    MaxSnOfBounds(out);
    SortedLists(d.sst);
    forall id, k | id in d.sst && k in d.sst[id] ensures d.sst[id][k].sn <= MaxSnOf(out) {
      var i := PlaceOf(out, d.sst, id);
    }
    NoNumbers();
    if RecoveredMaxSn(d) > 0 && RecoveredMaxSn(d) == MaxSn(rs) {
      var r :| r in rs && r.sn == MaxSn(rs);
    } else if RecoveredMaxSn(d) > 0 {
      var i, k :| 0 <= i < |out| && k in out[i].table && out[i].table[k].sn == MaxSnOf(out);
      assert out[i].id in d.sst && k in d.sst[out[i].id] && d.sst[out[i].id][k].sn == RecoveredMaxSn(d);
    }
  }

  lemma NoNumbers()
    ensures MaxSn([]) == 0
  {
  }

  lemma NextIdExact(d: Disk)
    ensures var n := NextSst(SortedSsts(d.sst));
      (forall id :: id in d.sst ==> id < n) && (n == 1 || n - 1 in d.sst)
  {
    hide SortedSsts, NextSst;
    var out := SortedSsts(d.sst);
    SortedLists(d.sst);
    NextSstAbove(out);
    NextSstHit(out);
    forall id | id in d.sst ensures id < NextSst(out) { var i := PlaceOf(out, d.sst, id); }
  }

  lemma {:induction false} NextSstHit(ssts: seq<Sst>)
    ensures NextSst(ssts) == 1 || exists i :: 0 <= i < |ssts| && ssts[i].id + 1 == NextSst(ssts)
  {
    if ssts != [] {
      var init := ssts[..|ssts| - 1];
      NextSstHit(init);
      if NextSst(ssts) == NextSst(init) && NextSst(init) != 1 {
        var i :| 0 <= i < |init| && init[i].id + 1 == NextSst(init);
        assert ssts[i] == init[i];
      } else {
        assert NextSst(ssts) == 1 || ssts[|ssts| - 1].id + 1 == NextSst(ssts);
      }
    }
  }

  /** The number reopening finds was given before: it stays below the next one. */
  lemma MaxSnWasGiven(s: State)
    requires Durable(s) && s.pending.None?
    ensures RecoveredMaxSn(s.disk) < s.nextSn || RecoveredMaxSn(s.disk) == 0
  {
    var out := SortedSsts(s.disk.sst);
    var rs := Content(s.disk.walFlush) + Content(s.disk.wal);
    ElemsConcat(Content(s.disk.walFlush), Content(s.disk.wal));
    MaxSnBounds(rs);
    MaxSnOfBounds(out);
    SortedLists(s.disk.sst);
    hide SortedSsts, Layers, Fold, OneFlush, Staged, Single, Files, IdOrder, AnswersHighest, Ordered, Logged;
    if RecoveredMaxSn(s.disk) > 0 {
      if RecoveredMaxSn(s.disk) == MaxSn(rs) {
        var r :| r in rs && r.sn == MaxSn(rs);
        assert r in Elems(rs);
        LogNumber(s, r);
      } else {
        var i, k :| 0 <= i < |out| && k in out[i].table && out[i].table[k].sn == MaxSnOf(out);
        FileWithin(s, out[i].id);
        LogNumber(s, Rec(k, out[i].table[k].sn, out[i].table[k].op));
      }
    }
  }

  lemma LogNumber(s: State, r: Rec)
    requires History(s) && r in Elems(s.log)
    ensures r.sn < s.nextSn
  {
  }

  // ---------------------------------------------------------------------
  // Reopening
  // ---------------------------------------------------------------------

  lemma ReopenHistory(s: State)
    requires Durable(s) && s.pending.None?
    ensures History(Open(s.disk, s.log))
  {
    hide RecoveredMaxSn, Replayed, SortedSsts, WalFormat.Accepted, OneFlush, Staged, Single, Files, IdOrder, Reads, Logged,
      DiskFiles, LogsWithin;
    MaxSnWasGiven(s);
    var u := Open(s.disk, s.log);
    forall i | 0 <= i < |u.log| ensures u.log[i].sn < u.nextSn && WalFormat.Accepted(u.log[i]) {
      assert u.log[i] in Elems(s.log);
      AllNumbersSeen(s, u.log[i]);
    }
  }

  lemma ReopenReads(s: State)
    requires Durable(s) && s.pending.None?
    ensures Reads(Open(s.disk, s.log))
  {
    ReopenedAnswers(s);
    hide Durable, Ordered, Within, AnswersHighest, Replayed, SortedSsts, RecoveredMaxSn, Newest;
    var u := Open(s.disk, s.log);
    assert Layers(u) == [Replayed(s.disk)] + [] + Newest(SortedSsts(s.disk.sst));
    assert Layers(u) == Reopened(s);
    assert Applied(u) == s.log;
  }

  lemma ReopenStructure(d: Disk, log: seq<Rec>)
    ensures var u := Open(d, log);
      OneFlush(u) && Files(u) && IdOrder(u) && Staged(u) && Single(u) && DiskFiles(u)
  {
    hide RecoveredMaxSn, Replayed, SortedSsts;
    var u := Open(d, log);
    assert forall t :: PcOf(u, t).Idle?;
    ReopenNoFlush(d, log);
    ReopenFiles(d, log);
  }

  lemma ReopenNoFlush(d: Disk, log: seq<Rec>)
    ensures OneFlush(Open(d, log))
  {
    hide RecoveredMaxSn, Replayed, SortedSsts, NextSst;
    var u := Open(d, log);
    forall h ensures HeldJob(u, h).None? {}
  }

  lemma ReopenFiles(d: Disk, log: seq<Rec>)
    ensures IdOrder(Open(d, log)) && DiskFiles(Open(d, log))
  {
    hide RecoveredMaxSn, Replayed, SortedSsts, NextSst;
    SortedLists(d.sst);
    NextSstAbove(SortedSsts(d.sst));
  }

  lemma ReopenLogs(s: State)
    requires LogsWithin(s)
    ensures Logged(Open(s.disk, s.log)) && LogsWithin(Open(s.disk, s.log))
  {
    hide RecoveredMaxSn, SortedSsts;
    var u, t := Open(s.disk, s.log), Replayed(s.disk);
    if s.disk.walFlush.Some? {
      CheckpointRestores(t);
      ReplayedWithin(s);
      hide Fold;
      assert Elems(Iter(t)) == RecsOf(t) <= Elems(s.log);
    } else {
      assert [] + Content(s.disk.wal) == Content(s.disk.wal);
    }
    assert Unfrozen(u);
  }

  lemma ReopenDurable(s: State)
    requires Durable(s) && s.pending.None?
    ensures Durable(Open(s.disk, s.log))
  {
    hide Open, History, Reads, OneFlush, Files, IdOrder, Logged, Staged, Single, DiskFiles, LogsWithin;
    ReopenHistory(s);
    ReopenReads(s);
    ReopenStructure(s.disk, s.log);
    ReopenLogs(s);
  }

  /** A crash with an operation appended but not applied is a crash just after applying it. */
  lemma SettleFirst(s: State)
    requires Durable(s)
    ensures var u := if s.pending.Some? then Do(s, ApplyPending) else s;
      Durable(u) && u.pending.None? && u.disk == s.disk && u.log == s.log && u.nextSn == s.nextSn
  {
    hide Durable, Apply;
    if s.pending.Some? { KeepsDurable(s, ApplyPending); }
  }

  lemma CrashDurable(s: State)
    requires Durable(s)
    ensures Durable(Open(s.disk, s.log))
  {
    hide Durable, Open;
    SettleFirst(s);
    ReopenDurable(if s.pending.Some? then Do(s, ApplyPending) else s);
  }

  lemma EveryStepDurable(s: State, a: Action)
    requires Can(s, a) && Disciplined(s, a) && Durable(s)
    ensures Durable(Do(s, a))
  {
    if a.Crash? {
      CrashDurable(s);
    } else {
      hide Can, Do, Durable, Disciplined;
      KeepsDurable(s, a);
    }
  }

  lemma FreshDurable()
    ensures Durable(Fresh())
  {
    FreshRunning();
    ReopenStructure(EMPTY_DISK, []);
    assert Content(EMPTY_DISK.walFlush) + Content(EMPTY_DISK.wal) == [];
    assert Unfrozen(Fresh());
  }

  lemma {:induction false} DisciplinedRunsDurable(acts: seq<Action>)
    requires DisciplinedRun(Fresh(), acts) && Run(Fresh(), acts).Some?
    ensures Durable(Run(Fresh(), acts).value)
  {
    hide Can, Do, Durable, Disciplined, Fresh;
    if acts == [] {
      FreshDurable();
    } else {
      DisciplinedRunsDurable(acts[..|acts| - 1]);
      EveryStepDurable(Run(Fresh(), acts[..|acts| - 1]).value, acts[|acts| - 1]);
    }
  }

  // ---------------------------------------------------------------------
  // Theorems
  // ---------------------------------------------------------------------

  /**
    Crash durability, over any number of sessions: crash any state of a
    disciplined history and reopen. A read of any key tells exactly its
    highest-numbered operation among all appended ones: all acknowledged writes
    of all sessions, and the one appended but not yet applied, if any.
   */
  lemma CrashKeepsEveryWrite(acts: seq<Action>, k: Str)
    requires DisciplinedRun(Fresh(), acts) && Run(Fresh(), acts).Some?
    ensures var s := Run(Fresh(), acts).value;
      && IsHighest(Elems(s.log), k, GetEntry(Open(s.disk, s.log), k))
      && (k != [] ==> Get(Open(s.disk, s.log), k).Ok? && TellsLast(Get(Open(s.disk, s.log), k).value, Elems(s.log), k))
  {
    hide Run, Fresh, Durable, Open, DisciplinedRun, Get, GetEntry, TellsLast, IsHighest;
    DisciplinedRunsDurable(acts);
    var s := Run(Fresh(), acts).value;
    CrashDurable(s);
    AnswersOf(Open(s.disk, s.log), k);
    if k != [] { DurableTells(Open(s.disk, s.log), k); }
    OpenApplied(s.disk, s.log);
  }

  lemma DurableTells(s: State, k: Str)
    requires Durable(s) && k != []
    ensures Get(s, k).Ok? && TellsLast(Get(s, k).value, Elems(Applied(s)), k)
  {
    hide Running, Logged, Staged, Single, DiskFiles, LogsWithin, Get, TellsLast;
    GetTells(s, k);
  }

  lemma AnswersOf(s: State, k: Str)
    requires Durable(s)
    ensures IsHighest(Elems(Applied(s)), k, GetEntry(s, k))
  {
    hide Logged, Staged, Single, DiskFiles, LogsWithin, History, OneFlush, Files, IdOrder;
  }

  lemma OpenApplied(d: Disk, log: seq<Rec>)
    ensures Applied(Open(d, log)) == log && Open(d, log).log == log
  {
  }

  /** While running, between crashes, reads tell the last applied operation. */
  lemma ReadsBetweenCrashes(acts: seq<Action>, k: Str)
    requires DisciplinedRun(Fresh(), acts) && Run(Fresh(), acts).Some? && k != []
    ensures var s := Run(Fresh(), acts).value;
      Get(s, k).Ok? && TellsLast(Get(s, k).value, Elems(Applied(s)), k)
  {
    hide Run, Fresh, Durable, DisciplinedRun, Get, TellsLast;
    DisciplinedRunsDurable(acts);
    DurableTells(Run(Fresh(), acts).value, k);
  }

  /** After reopening, the next number exceeds every number of every earlier session. */
  lemma NumbersStayFresh(acts: seq<Action>, r: Rec)
    requires DisciplinedRun(Fresh(), acts) && Run(Fresh(), acts).Some?
    requires r in Run(Fresh(), acts).value.log
    ensures var s := Run(Fresh(), acts).value;
      r.sn < Open(s.disk, s.log).nextSn < U64_LIMIT
  {
    DisciplinedRunsDurable(acts);
    hide Run, Fresh, Durable, Open, DisciplinedRun;
    var s := Run(Fresh(), acts).value;
    CrashDurable(s);
    OpenApplied(s.disk, s.log);
    NumbersBelowNext(Open(s.disk, s.log), r);
  }

  lemma NumbersBelowNext(s: State, r: Rec)
    requires Durable(s) && r in s.log
    ensures r.sn < s.nextSn < U64_LIMIT
  {
    hide WalFormat.Accepted, Reads, Logged, Staged, Single, DiskFiles, LogsWithin, OneFlush, Files, IdOrder;
  }

  /**
    Layer order over crashes: a newer layer never holds an older version of a
    key than a layer below it, and equal numbers mean the same operation.
   */
  lemma LayersOrderedForever(acts: seq<Action>, i: nat, j: nat, k: Str)
    requires DisciplinedRun(Fresh(), acts) && Run(Fresh(), acts).Some?
    requires var ls := Layers(Run(Fresh(), acts).value); i < j < |ls| && k in ls[i] && k in ls[j]
    ensures var ls := Layers(Run(Fresh(), acts).value);
      ls[j][k].sn <= ls[i][k].sn && (ls[j][k].sn == ls[i][k].sn ==> ls[j][k] == ls[i][k])
  {
    DisciplinedRunsDurable(acts);
    hide Run, Fresh, Layers, DisciplinedRun, Logged, Staged, Single, DiskFiles, LogsWithin, OneFlush, Files, IdOrder;
    SameNumberSameEntry(Run(Fresh(), acts).value, i, j, k);
  }

  lemma SameNumberSameEntry(s: State, i: nat, j: nat, k: Str)
    requires History(s) && Reads(s) && i < j < |Layers(s)| && k in Layers(s)[i] && k in Layers(s)[j]
    ensures Layers(s)[j][k].sn <= Layers(s)[i][k].sn
    ensures Layers(s)[j][k].sn == Layers(s)[i][k].sn ==> Layers(s)[j][k] == Layers(s)[i][k]
  {
    hide Layers, WalFormat.Accepted;
    var x, y := Layers(s)[i][k], Layers(s)[j][k];
    assert TableWithin(Layers(s)[i], Elems(Applied(s))) && TableWithin(Layers(s)[j], Elems(Applied(s)));
    var ap := Applied(s);
    assert Rec(k, x.sn, x.op) in ap && Rec(k, y.sn, y.op) in ap;
    var a :| 0 <= a < |ap| && ap[a] == Rec(k, x.sn, x.op);
    var b :| 0 <= b < |ap| && ap[b] == Rec(k, y.sn, y.op);
    assert s.log[a] == ap[a] && s.log[b] == ap[b];
  }
}
