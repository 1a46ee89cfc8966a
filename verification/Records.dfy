/**
  Records and tables. A table keeps one version per key; `Apply` installs a
  record unless a strictly newer version is already there. The lemmas say what
  a table built by applying records means, whatever the order of application.
 */
module Records {
  import opened Bytes

  datatype Option<+T> = None | Some(value: T)

  datatype Result<+T> = Ok(value: T) | Err(error: Error)

  /** The library's error variants, without their messages. */
  datatype Error =
    | EmptyKey
    | Unaligned
    | SequenceOverflow
    | WalCorrupt
    | UnsupportedWalVersion(version: nat)
    | WalRecordTooLarge(size: nat)
    | BloomInvalid
    | BloomCorrupt
    | SstCorrupt
    | SstRecordTooLarge(size: nat)
    | FlushFailed
    | IoFailed

  /** A 32-bit checksum; no property of it is used but that it is a function. */
  type Word32 = x: nat | x < U32_LIMIT

  type Checksum = Str -> Word32

  /** A live value, or the tombstone of a delete. */
  datatype Op = Put(value: Str) | Delete

  /** The bytes an operation stores: none for a tombstone. */
  function ValueOf(op: Op): Str {
    match op
    case Put(v) => v
    case Delete => []
  }

  /** One write: key, sequence number, operation. */
  datatype Rec = Rec(key: Str, sn: nat, op: Op)

  /** What a table stores under a key. */
  datatype Entry = Entry(sn: nat, op: Op)

  type Table = map<Str, Entry>

  /** The three answers of a lookup: a tombstone is not an absent key. */
  datatype Lookup = Alive(sn: nat, value: Str) | Deleted(sn: nat) | Missing

  function Answer(e: Option<Entry>): Lookup {
    match e
    case None => Missing
    case Some(Entry(sn, Put(v))) => Alive(sn, v)
    case Some(Entry(sn, Delete)) => Deleted(sn)
  }

  function At(t: Table, k: Str): Option<Entry> {
    if k in t then Some(t[k]) else None
  }

  function Apply(t: Table, r: Rec): Table {
    if r.key in t && t[r.key].sn > r.sn then t else t[r.key := Entry(r.sn, r.op)]
  }

  /** Apply `rs` in order, starting from `t`. */
  function Fold(t: Table, rs: seq<Rec>): Table {
    if rs == [] then t else Apply(Fold(t, rs[..|rs| - 1]), rs[|rs| - 1])
  }

  function Elems(rs: seq<Rec>): set<Rec> {
    set r | r in rs
  }

  /** The records a table stores. */
  function RecsOf(t: Table): set<Rec> {
    set k | k in t :: Rec(k, t[k].sn, t[k].op)
  }

  /** Equal key and sequence number imply the same record. */
  ghost predicate Consistent(s: set<Rec>) {
    forall a, b :: a in s && b in s && a.key == b.key && a.sn == b.sn ==> a == b
  }

  /** `e` is the highest-numbered operation on `k` among `s`, or there is none. */
  ghost predicate IsHighest(s: set<Rec>, k: Str, e: Option<Entry>) {
    match e
    case None => forall r :: r in s ==> r.key != k
    case Some(x) =>
      && Rec(k, x.sn, x.op) in s
      && forall r :: r in s && r.key == k ==> r.sn <= x.sn
  }

  /** `r` is an operation of `s`, and none on its key has a higher number. */
  ghost predicate IsLast(s: set<Rec>, r: Rec) {
    r in s && forall q :: q in s && q.key == r.key ==> q.sn <= r.sn
  }

  /** `hit` tells exactly what the highest-numbered operation on `k` did: its number, and its value or its removal. */
  ghost predicate TellsLast(hit: Lookup, s: set<Rec>, k: Str) {
    && (forall n: nat, v: Str :: hit == Alive(n, v) <==> IsLast(s, Rec(k, n, Put(v))))
    && (forall n: nat :: hit == Deleted(n) <==> IsLast(s, Rec(k, n, Delete)))
    && (hit == Missing <==> forall r :: r in s ==> r.key != k)
  }

  lemma AnswerTells(s: set<Rec>, k: Str, e: Option<Entry>)
    requires IsHighest(s, k, e) && Consistent(s)
    ensures TellsLast(Answer(e), s, k)
  {
  }

  /** `t` answers every key with its highest-numbered operation in `s`. */
  ghost predicate Summarizes(t: Table, s: set<Rec>) {
    forall k :: IsHighest(s, k, At(t, k))
  }

  lemma ApplySummarizes(t: Table, s: set<Rec>, r: Rec)
    requires Summarizes(t, s)
    ensures Summarizes(Apply(t, r), s + {r})
  {
    forall k ensures IsHighest(s + {r}, k, At(Apply(t, r), k)) {
      assert IsHighest(s, k, At(t, k));
    }
  }

  lemma RecsOfSummary(t: Table)
    ensures Summarizes(t, RecsOf(t))
  {
    forall k ensures IsHighest(RecsOf(t), k, At(t, k)) {
      if k in t { assert Rec(k, t[k].sn, t[k].op) in RecsOf(t); }
    }
  }

  /** Applying `rs` to `t`, in any order, leaves the per-key maximum. */
  lemma {:induction false} FoldSummarizes(t: Table, rs: seq<Rec>)
    ensures Summarizes(Fold(t, rs), RecsOf(t) + Elems(rs))
  {
    if rs == [] {
      RecsOfSummary(t);
      assert RecsOf(t) + Elems(rs) == RecsOf(t);
    } else {
      var init, last := rs[..|rs| - 1], rs[|rs| - 1];
      FoldSummarizes(t, init);
      ApplySummarizes(Fold(t, init), RecsOf(t) + Elems(init), last);
      assert rs == init + [last];
      assert RecsOf(t) + Elems(rs) == RecsOf(t) + Elems(init) + {last};
    }
  }

  /** A consistent set of records has one summary. */
  lemma SummaryUnique(t: Table, u: Table, s: set<Rec>)
    requires Summarizes(t, s) && Summarizes(u, s) && Consistent(s)
    ensures t == u
  {
    forall k ensures At(t, k) == At(u, k) {
      assert IsHighest(s, k, At(t, k)) && IsHighest(s, k, At(u, k));
    }
    assert forall k :: k in t <==> At(t, k).Some?;
    assert forall k :: k in u <==> At(u, k).Some?;
    forall k | k in t ensures k in u && t[k] == u[k] { assert At(t, k) == At(u, k); }
    forall k | k in u ensures k in t { assert At(t, k) == At(u, k); }
  }

  /** Replay is order-independent and idempotent: only the set of records counts. */
  lemma ReplayOrderFree(t: Table, rs: seq<Rec>, qs: seq<Rec>)
    requires Elems(rs) == Elems(qs)
    requires Consistent(RecsOf(t) + Elems(rs))
    ensures Fold(t, rs) == Fold(t, qs)
  {
    FoldSummarizes(t, rs);
    FoldSummarizes(t, qs);
    SummaryUnique(Fold(t, rs), Fold(t, qs), RecsOf(t) + Elems(rs));
  }

  /** Replaying records a table already reflects changes nothing. */
  lemma ReplayIdempotent(rs: seq<Rec>, again: seq<Rec>)
    requires Elems(again) <= Elems(rs) && Consistent(Elems(rs))
    ensures Fold(Fold(map[], rs), again) == Fold(map[], rs) == Fold(map[], again + rs)
  {
    var t := Fold(map[], rs);
    FoldSummarizes(map[], rs);
    FoldSummarizes(map[], again + rs);
    FoldSummarizes(t, again);
    assert RecsOf(map[]) + Elems(rs) == Elems(rs);
    assert Elems(again + rs) == Elems(again) + Elems(rs) == Elems(rs);
    SummaryUnique(t, Fold(map[], again + rs), Elems(rs));
    var s := RecsOf(t) + Elems(again);
    SummaryWithin(t, Elems(rs), Elems(again));
    assert Consistent(s);
    SummaryUnique(t, Fold(t, again), s);
  }

  /** A summary of `s` also summarizes itself together with any part of `s`. */
  lemma SummaryWithin(t: Table, s: set<Rec>, part: set<Rec>)
    requires Summarizes(t, s) && part <= s
    ensures RecsOf(t) <= s && Summarizes(t, RecsOf(t) + part)
  {
    forall r | r in RecsOf(t) ensures r in s {
      assert IsHighest(s, r.key, At(t, r.key));
    }
    forall k ensures IsHighest(RecsOf(t) + part, k, At(t, k)) {
      assert IsHighest(s, k, At(t, k));
      if k in t { assert Rec(k, t[k].sn, t[k].op) in RecsOf(t); }
    }
  }

  lemma {:induction false} FoldConcat(t: Table, rs: seq<Rec>, qs: seq<Rec>)
    ensures Fold(t, rs + qs) == Fold(Fold(t, rs), qs)
  {
    if qs == [] {
      assert rs + qs == rs;
    } else {
      var init := qs[..|qs| - 1];
      FoldConcat(t, rs, init);
      assert (rs + qs)[..|rs + qs| - 1] == rs + init;
    }
  }

  // ---------------------------------------------------------------------
  // Ordered iteration
  // ---------------------------------------------------------------------

  /** Keys strictly ascending. */
  ghost predicate Ascending(rs: seq<Rec>) {
    forall i, j :: 0 <= i < j < |rs| ==> Less(rs[i].key, rs[j].key)
  }

  predicate IsMinKey(ks: set<Str>, m: Str) {
    m in ks && forall k :: k in ks && k != m ==> Less(m, k)
  }

  lemma {:induction false} MinKeyExists(ks: set<Str>)
    requires ks != {}
    ensures exists m :: IsMinKey(ks, m)
    decreases |ks|
  {
    var x :| x in ks;
    var rest := ks - {x};
    if rest == {} {
      assert ks == {x};
      assert IsMinKey(ks, x);
    } else {
      MinKeyExists(rest);
      var m :| IsMinKey(rest, m);
      LessTotal(x, m);
      if Less(x, m) {
        forall k | k in ks && k != x ensures Less(x, k) {
          if k != m { LessTransitive(x, m, k); }
        }
        assert IsMinKey(ks, x);
      } else {
        assert IsMinKey(ks, m);
      }
    }
  }

  lemma MinKeyUnique(ks: set<Str>)
    ensures forall m, n :: IsMinKey(ks, m) && IsMinKey(ks, n) ==> m == n
  {
    forall m, n | IsMinKey(ks, m) && IsMinKey(ks, n) ensures m == n {
      if m != n { LessAsymmetric(m, n); }
    }
  }

  function MinKey(ks: set<Str>): (m: Str)
    requires ks != {}
    ensures IsMinKey(ks, m)
  {
    MinKeyExists(ks);
    MinKeyUnique(ks);
    var m :| m in ks && IsMinKey(ks, m);
    m
  }

  lemma RecsOfSplit(t: Table, k: Str)
    requires k in t
    ensures RecsOf(t) == {Rec(k, t[k].sn, t[k].op)} + RecsOf(t - {k})
  {
    forall r ensures r in RecsOf(t) <==> r in {Rec(k, t[k].sn, t[k].op)} + RecsOf(t - {k}) {
      if r in RecsOf(t) && r.key != k { assert r.key in t - {k}; }
    }
  }

  lemma ElemsCons(r: Rec, rs: seq<Rec>)
    ensures Elems([r] + rs) == {r} + Elems(rs)
  {
  }

  /** The ordered iteration of a table, tombstones included. */
  function Iter(t: Table): (rs: seq<Rec>)
    ensures Elems(rs) == RecsOf(t) && |rs| == |t|
    decreases |t|
  {
    if t == map[] then []
    else
      var k := MinKey(t.Keys);
      var rest := t - {k};
      assert rest.Keys == t.Keys - {k};
      var tail := Iter(rest);
      RecsOfSplit(t, k);
      ElemsCons(Rec(k, t[k].sn, t[k].op), tail);
      [Rec(k, t[k].sn, t[k].op)] + tail
  }

  lemma {:induction false} IterAscending(t: Table)
    ensures Ascending(Iter(t))
    decreases |t|
  {
    if t != map[] {
      var k := MinKey(t.Keys);
      var rest := t - {k};
      assert rest.Keys == t.Keys - {k};
      var tail := Iter(rest);
      IterAscending(rest);
      forall j | 0 <= j < |tail| ensures Less(k, tail[j].key) {
        assert tail[j] in Elems(tail);
      }
      var rs := [Rec(k, t[k].sn, t[k].op)] + tail;
      assert Iter(t) == rs;
      forall i, j | 0 <= i < j < |rs| ensures Less(rs[i].key, rs[j].key) {
        if i > 0 { assert rs[i] == tail[i - 1] && rs[j] == tail[j - 1]; }
      }
    }
  }

  /** Replaying a table's own records, in key order, rebuilds the table. */
  lemma CheckpointRestores(t: Table)
    ensures Fold(map[], Iter(t)) == t
  {
    FoldSummarizes(map[], Iter(t));
    assert RecsOf(map[]) + Elems(Iter(t)) == RecsOf(t);
    RecsOfSummary(t);
    SummaryUnique(t, Fold(map[], Iter(t)), RecsOf(t));
  }

  /** Records appended after a checkpoint act on the checkpointed table, higher numbers winning. */
  lemma CheckpointThenAppends(t: Table, rs: seq<Rec>)
    ensures Fold(map[], Iter(t) + rs) == Fold(t, rs)
    ensures Summarizes(Fold(map[], Iter(t) + rs), RecsOf(t) + Elems(rs))
  {
    CheckpointRestores(t);
    FoldConcat(map[], Iter(t), rs);
    FoldSummarizes(t, rs);
  }

  // ---------------------------------------------------------------------
  // Lookup in an ordered list
  // ---------------------------------------------------------------------

  /** Plain lookup in a list of records. */
  function Find(rs: seq<Rec>, k: Str): Option<Entry> {
    if rs == [] then None
    else if rs[0].key == k then Some(Entry(rs[0].sn, rs[0].op))
    else Find(rs[1..], k)
  }

  lemma {:induction false} FindAt(rs: seq<Rec>, k: Str, i: nat)
    requires Ascending(rs) && i < |rs| && rs[i].key == k
    ensures Find(rs, k) == Some(Entry(rs[i].sn, rs[i].op))
  {
    if i > 0 {
      LessAsymmetric(rs[0].key, rs[i].key);
      FindAt(rs[1..], k, i - 1);
    }
  }

  lemma {:induction false} FindNone(rs: seq<Rec>, k: Str)
    requires forall i :: 0 <= i < |rs| ==> rs[i].key != k
    ensures Find(rs, k) == None
  {
    if rs != [] { FindNone(rs[1..], k); }
  }

  lemma {:induction false} FindConcat(rs: seq<Rec>, qs: seq<Rec>, k: Str)
    ensures Find(rs + qs, k) == if Find(rs, k).Some? then Find(rs, k) else Find(qs, k)
  {
    if rs == [] {
      assert rs + qs == qs;
    } else {
      assert (rs + qs)[1..] == rs[1..] + qs;
      FindConcat(rs[1..], qs, k);
    }
  }

  /** Looking a key up in the ordered iteration is looking it up in the table. */
  lemma FindIter(t: Table, k: Str)
    ensures Find(Iter(t), k) == At(t, k)
  {
    var rs := Iter(t);
    IterAscending(t);
    if k in t {
      assert Rec(k, t[k].sn, t[k].op) in Elems(rs);
      var i :| 0 <= i < |rs| && rs[i] == Rec(k, t[k].sn, t[k].op);
      FindAt(rs, k, i);
    } else {
      forall i | 0 <= i < |rs| ensures rs[i].key != k { assert rs[i] in Elems(rs); }
      FindNone(rs, k);
    }
  }

  // ---------------------------------------------------------------------
  // Highest sequence number
  // ---------------------------------------------------------------------

  function Max(a: nat, b: nat): nat { if a < b then b else a }

  function MaxSn(rs: seq<Rec>): nat {
    if rs == [] then 0 else Max(MaxSn(rs[..|rs| - 1]), rs[|rs| - 1].sn)
  }

  lemma {:induction false} MaxSnBounds(rs: seq<Rec>)
    ensures forall r :: r in rs ==> r.sn <= MaxSn(rs)
    ensures rs != [] ==> exists r :: r in rs && r.sn == MaxSn(rs)
  {
    if rs != [] {
      var init, last := rs[..|rs| - 1], rs[|rs| - 1];
      MaxSnBounds(init);
      assert rs == init + [last];
      assert last in rs;
      if init == [] { assert last.sn == MaxSn(rs); }
    }
  }

  /** The record found in an ordered list is the only one on its key. */
  lemma FindTells(rs: seq<Rec>, key: Str)
    requires Ascending(rs)
    ensures TellsLast(Answer(Find(rs, key)), Elems(rs), key)
  {
    hide Less;
    FindListed(rs, key);
    forall i, j | 0 <= i < |rs| && 0 <= j < |rs| && rs[i].key == rs[j].key ensures i == j {
      if i < j { LessIrreflexive(rs[i].key); } else if j < i { LessIrreflexive(rs[j].key); }
    }
  }

  /** Looking up in a list gives one of its records on the key, or there is none. */
  lemma {:induction false} FindListed(rs: seq<Rec>, key: Str)
    ensures match Find(rs, key)
      case None => forall i :: 0 <= i < |rs| ==> rs[i].key != key
      case Some(e) => Rec(key, e.sn, e.op) in rs
  {
    if rs != [] {
      FindListed(rs[1..], key);
      assert rs == [rs[0]] + rs[1..];
    }
  }

  /**
    Although a table keeps one version per key, its highest stored number is the
    highest number ever written to it.
   */
  lemma TableMaxIsLogMax(rs: seq<Rec>)
    ensures MaxSn(Iter(Fold(map[], rs))) == MaxSn(rs)
  {
    var t := Fold(map[], rs);
    FoldSummarizes(map[], rs);
    assert RecsOf(map[]) + Elems(rs) == Elems(rs);
    MaxSnBounds(rs);
    MaxSnBounds(Iter(t));
    if rs != [] {
      var r :| r in rs && r.sn == MaxSn(rs);
      assert r in Elems(rs) && IsHighest(Elems(rs), r.key, At(t, r.key));
      var x := t[r.key];
      assert Rec(r.key, x.sn, x.op) in Elems(Iter(t));
    }
    if Iter(t) != [] {
      var r :| r in Iter(t) && r.sn == MaxSn(Iter(t));
      assert r in Elems(Iter(t));
      assert IsHighest(Elems(rs), r.key, At(t, r.key));
    }
  }
}
