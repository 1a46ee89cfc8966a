/**
  The MemTable: a sorted map with one version per key and a running estimate of
  the bytes it holds. The skip list is modelled by a map; atomic counters by a
  field. Machine-word arithmetic saturates where the source's does.
 */
module MemTables {
  import opened Bytes
  import opened Records

  const ENTRY_OVERHEAD: nat := 16

  function SatAdd(a: nat, b: nat): nat { if a + b > USIZE_MAX then USIZE_MAX else a + b }

  function SatSub(a: nat, b: nat): nat { if a < b then 0 else a - b }

  /** Bytes charged for an entry. */
  function EncodedSize(k: Str, e: Entry): nat {
    SatAdd(SatAdd(|k|, |ValueOf(e.op)|), ENTRY_OVERHEAD)
  }

  /** The table and its byte counter. */
  datatype Mem = Mem(table: Table, approx: nat)

  /** What one put or delete does to table and counter. */
  function Install(m: Mem, r: Rec): Mem {
    var e := Entry(r.sn, r.op);
    if r.key in m.table && m.table[r.key].sn > r.sn then m
    else
      var oldSize := if r.key in m.table then EncodedSize(r.key, m.table[r.key]) else 0;
      Mem(m.table[r.key := e], SatAdd(SatSub(m.approx, oldSize), EncodedSize(r.key, e)))
  }

  function InstallAll(m: Mem, rs: seq<Rec>): Mem {
    if rs == [] then m else Install(InstallAll(m, rs[..|rs| - 1]), rs[|rs| - 1])
  }

  // ---------------------------------------------------------------------
  // Accounting
  // ---------------------------------------------------------------------

  /** Unbounded size of one entry. */
  function TrueSize(k: Str, e: Entry): nat {
    |k| + |ValueOf(e.op)| + ENTRY_OVERHEAD
  }

  /** Sum of the sizes of all stored entries. */
  ghost function TotalSize(t: Table): nat
    decreases |t|
  {
    if t == map[] then 0
    else
      var k :| k in t;
      assert (t - {k}).Keys == t.Keys - {k};
      TrueSize(k, t[k]) + TotalSize(t - {k})
  }

  lemma {:induction false} TotalWithout(t: Table, k: Str)
    requires k in t
    ensures TotalSize(t) == TrueSize(k, t[k]) + TotalSize(t - {k})
    decreases |t|
  {
    var j :| j in t && TotalSize(t) == TrueSize(j, t[j]) + TotalSize(t - {j});
    assert (t - {j}).Keys == t.Keys - {j} && (t - {k}).Keys == t.Keys - {k};
    if j != k {
      TotalWithout(t - {j}, k);
      TotalWithout(t - {k}, j);
      assert (t - {j}) - {k} == (t - {k}) - {j};
    }
  }

  lemma TotalUpdate(t: Table, k: Str, e: Entry)
    ensures TotalSize(t[k := e]) + (if k in t then TrueSize(k, t[k]) else 0)
         == TotalSize(t) + TrueSize(k, e)
  {
    var u := t[k := e];
    TotalWithout(u, k);
    if k in t {
      TotalWithout(t, k);
      assert u - {k} == t - {k};
    } else {
      assert u - {k} == t;
    }
  }

  /** One installation keeps the counter exact while the total fits a word. */
  lemma InstallExact(m: Mem, r: Rec)
    requires m.approx == TotalSize(m.table) <= USIZE_MAX
    requires TotalSize(Install(m, r).table) <= USIZE_MAX
    ensures Install(m, r).approx == TotalSize(Install(m, r).table)
  {
    if !(r.key in m.table && m.table[r.key].sn > r.sn) {
      var e := Entry(r.sn, r.op);
      TotalUpdate(m.table, r.key, e);
      TotalWithout(m.table[r.key := e], r.key);
      if r.key in m.table { TotalWithout(m.table, r.key); }
    }
  }

  /** The number held to a machine word. */
  function Word64(n: int): nat { if n < 0 then 0 else if n < U64_LIMIT then n else U64_LIMIT - 1 }

  /**
    What one put or delete charges, saturation included: nothing if it is stale; else the
    bytes of key and value and 16 more, less what the version it replaces was charged.
   */
  lemma InstallCharges(m: Mem, r: Rec)
    requires m.approx < U64_LIMIT
    ensures var before := match At(m.table, r.key)
        case None => 0
        case Some(Entry(_, Put(v))) => Word64(|r.key| + |v| + 16)
        case Some(Entry(_, Delete)) => Word64(|r.key| + 16);
      var charge := match r.op case Put(v) => Word64(|r.key| + |v| + 16) case Delete => Word64(|r.key| + 16);
      Install(m, r).approx ==
        if r.key in m.table && m.table[r.key].sn > r.sn then m.approx else Word64(Word64(m.approx - before) + charge)
  {
  }

  /**
    Over any run of puts and deletes, stale and equal-numbered ones included,
    the table is the fold of the records, and the counter is the sum of the
    stored sizes as long as that sum fits a word at every step.
   */
  lemma {:induction false} RunAccounting(rs: seq<Rec>)
    requires forall n :: 0 <= n <= |rs| ==> TotalSize(Fold(map[], rs[..n])) <= USIZE_MAX
    ensures InstallAll(Mem(map[], 0), rs) == Mem(Fold(map[], rs), TotalSize(Fold(map[], rs)))
  {
    if rs != [] {
      var init := rs[..|rs| - 1];
      forall n | 0 <= n <= |init| ensures TotalSize(Fold(map[], init[..n])) <= USIZE_MAX {
        assert init[..n] == rs[..n];
      }
      RunAccounting(init);
      assert rs[..|rs|] == rs;
      InstallExact(InstallAll(Mem(map[], 0), init), rs[|rs| - 1]);
    }
  }

  // ---------------------------------------------------------------------
  // The table object
  // ---------------------------------------------------------------------

  class MemTable {
    var table: Table
    var approx: nat
    const capacity: nat

    constructor (capacity: nat)
      ensures table == map[] && approx == 0 && this.capacity == capacity
    {
      this.table := map[];
      this.approx := 0;
      this.capacity := capacity;
    }

    /** Installs `r` unless a strictly newer version of its key is stored. */
    method ApplyRecord(r: Rec) returns (applied: bool)
      modifies this`table, this`approx
      ensures Mem(table, approx) == Install(Mem(old(table), old(approx)), r)
      ensures table == Apply(old(table), r)
      ensures applied <==> At(table, r.key) == Some(Entry(r.sn, r.op))
      ensures !applied ==> table == old(table) && r.sn < old(table)[r.key].sn
    {
      var newEntry := Entry(r.sn, r.op);
      var newSize := EncodedSize(r.key, newEntry);
      var oldSize := if r.key in table then EncodedSize(r.key, table[r.key]) else 0;
      if r.key !in table || r.sn >= table[r.key].sn {
        table := table[r.key := newEntry];
      }
      applied := table[r.key].sn == r.sn;
      if applied {
        approx := SatAdd(SatSub(approx, oldSize), newSize);
      }
    }

    method Insert(key: Str, value: Str, sn: nat) returns (applied: bool)
      modifies this`table, this`approx
      ensures Mem(table, approx) == Install(Mem(old(table), old(approx)), Rec(key, sn, Put(value)))
      ensures table == Apply(old(table), Rec(key, sn, Put(value)))
      ensures applied <==> At(table, key) == Some(Entry(sn, Put(value)))
    {
      applied := ApplyRecord(Rec(key, sn, Put(value)));
    }

    /** A tombstone is stored even when the key was absent. */
    method Remove(key: Str, sn: nat) returns (applied: bool)
      modifies this`table, this`approx
      ensures Mem(table, approx) == Install(Mem(old(table), old(approx)), Rec(key, sn, Delete))
      ensures table == Apply(old(table), Rec(key, sn, Delete))
      ensures applied <==> At(table, key) == Some(Entry(sn, Delete))
    {
      applied := ApplyRecord(Rec(key, sn, Delete));
    }

    method Get(key: Str) returns (hit: Lookup)
      ensures hit == Answer(At(table, key))
      ensures forall n: nat, v: Str :: hit == Alive(n, v) <==> key in table && table[key] == Entry(n, Put(v))
      ensures forall n: nat :: hit == Deleted(n) <==> key in table && table[key] == Entry(n, Delete)
      ensures hit == Missing <==> key !in table
    {
      if key !in table {
        hit := Missing;
      } else if table[key].op.Delete? {
        hit := Deleted(table[key].sn);
      } else {
        hit := Alive(table[key].sn, table[key].op.value);
      }
    }
  }

  /** A put, a read, a delete, a read: each read tells what was just done, unless the number was stale. */
  method PutThenDelete(t: MemTable, key: Str, value: Str, sn: nat, later: nat) returns (put: Lookup, deleted: Lookup)
    requires (key in t.table ==> t.table[key].sn <= sn) && sn <= later
    modifies t`table, t`approx
    ensures put == Alive(sn, value) && deleted == Deleted(later)
  {
    var _ := t.Insert(key, value, sn);
    put := t.Get(key);
    var _ := t.Remove(key, later);
    deleted := t.Get(key);
  }
}
