/**
  Reading through layers of tables, newest first: when the first hit is the
  highest-numbered operation on a key.
 */
module EngineLayers {
  import opened Bytes
  import opened Records
  import opened EngineModel

  /** A newer layer never holds an older version of a key than a layer below it. */
  ghost predicate Ordered(ls: seq<Table>) {
    forall i, j, k :: 0 <= i < j < |ls| && k in ls[i] && k in ls[j] ==> ls[j][k].sn <= ls[i][k].sn
  }

  /** Every number in a newer layer exceeds every number in an older one. */
  ghost predicate StrictlyOrdered(ls: seq<Table>) {
    forall i, j, k, m :: 0 <= i < j < |ls| && k in ls[i] && m in ls[j] ==> ls[j][m].sn < ls[i][k].sn
  }

  ghost predicate TableWithin(t: Table, s: set<Rec>) {
    forall k :: k in t ==> Rec(k, t[k].sn, t[k].op) in s
  }

  /** All stored versions are among `s`. */
  ghost predicate Within(ls: seq<Table>, s: set<Rec>) {
    forall i :: 0 <= i < |ls| ==> TableWithin(ls[i], s)
  }

  /** Every key is answered with its highest-numbered operation in `s`. */
  ghost predicate AnswersHighest(ls: seq<Table>, s: set<Rec>) {
    forall k :: IsHighest(s, k, FirstHit(ls, k))
  }

  /** Some layer has this operation or a later one on the same key. */
  ghost predicate CoveredBy(ls: seq<Table>, r: Rec) {
    exists i :: 0 <= i < |ls| && r.key in ls[i] && r.sn <= ls[i][r.key].sn
  }

  /** The layer that answers, and nothing above it knows the key. */
  lemma {:induction false} HitLayer(ls: seq<Table>, k: Str)
    ensures match FirstHit(ls, k)
      case None => forall i :: 0 <= i < |ls| ==> k !in ls[i]
      case Some(e) => exists i :: 0 <= i < |ls| && k in ls[i] && ls[i][k] == e
                                  && forall j :: 0 <= j < i ==> k !in ls[j]
  {
    if ls != [] && k !in ls[0] {
      HitLayer(ls[1..], k);
      if FirstHit(ls, k).Some? {
        var i :| 0 <= i < |ls[1..]| && k in ls[1..][i] && ls[1..][i][k] == FirstHit(ls, k).value
          && forall j :: 0 <= j < i ==> k !in ls[1..][j];
        assert ls[i + 1] == ls[1..][i];
        forall j | 0 <= j < i + 1 ensures k !in ls[j] { if j > 0 { assert ls[j] == ls[1..][j - 1]; } }
      } else {
        forall i | 0 <= i < |ls| ensures k !in ls[i] { if i > 0 { assert ls[i] == ls[1..][i - 1]; } }
      }
    } else if ls != [] {
      assert k in ls[0] && ls[0][k] == FirstHit(ls, k).value;
    }
  }

  /** A hit carries at least the number any layer has for the key. */
  lemma HitIsNewest(ls: seq<Table>, k: Str, i: nat)
    requires Ordered(ls) && i < |ls| && k in ls[i]
    ensures FirstHit(ls, k).Some? && ls[i][k].sn <= FirstHit(ls, k).value.sn
  {
    HitLayer(ls, k);
  }

  lemma HighestFromCoverage(ls: seq<Table>, s: set<Rec>)
    requires Ordered(ls) && Within(ls, s) && forall r :: r in s ==> CoveredBy(ls, r)
    ensures AnswersHighest(ls, s)
  {
    forall k ensures IsHighest(s, k, FirstHit(ls, k)) {
      HitLayer(ls, k);
      forall r | r in s && r.key == k
        ensures FirstHit(ls, k).Some? && r.sn <= FirstHit(ls, k).value.sn
      {
        var i :| 0 <= i < |ls| && r.key in ls[i] && r.sn <= ls[i][r.key].sn;
        HitIsNewest(ls, k, i);
      }
      if FirstHit(ls, k).Some? {
        var i :| 0 <= i < |ls| && k in ls[i] && ls[i][k] == FirstHit(ls, k).value;
        assert TableWithin(ls[i], s);
      }
    }
  }

  lemma CoverageFromHighest(ls: seq<Table>, s: set<Rec>, r: Rec)
    requires AnswersHighest(ls, s) && r in s
    ensures CoveredBy(ls, r)
  {
    assert IsHighest(s, r.key, FirstHit(ls, r.key));
    HitLayer(ls, r.key);
  }

  /** Applying an operation newer than everything to the top layer. */
  lemma ApplyOnTop(a: Table, rest: seq<Table>, s: set<Rec>, r: Rec)
    requires Ordered([a] + rest) && Within([a] + rest, s) && AnswersHighest([a] + rest, s)
    requires forall q :: q in s ==> q.sn < r.sn
    ensures var ls := [Apply(a, r)] + rest;
      Ordered(ls) && Within(ls, s + {r}) && AnswersHighest(ls, s + {r})
  {
    var ls, was := [Apply(a, r)] + rest, [a] + rest;
    assert TableWithin(was[0], s);
    assert forall i :: 0 < i < |ls| ==> ls[i] == was[i];
    ApplyWithin(a, s, r);
    forall i | 0 <= i < |ls| ensures TableWithin(ls[i], s + {r}) {
      if i > 0 { assert TableWithin(was[i], s); }
    }
    forall i, j, k | 0 <= i < j < |ls| && k in ls[i] && k in ls[j] ensures ls[j][k].sn <= ls[i][k].sn {
      assert TableWithin(was[j], s);
      if i == 0 && k == r.key {
        assert Rec(k, ls[j][k].sn, ls[j][k].op) in s;
      } else {
        assert k in was[i] && k in was[j];
      }
    }
    forall k ensures IsHighest(s + {r}, k, FirstHit(ls, k)) {
      assert IsHighest(s, k, FirstHit(was, k));
      assert ls[1..] == rest && was[1..] == rest;
    }
  }

  lemma ApplyWithin(a: Table, s: set<Rec>, r: Rec)
    requires TableWithin(a, s) && forall q :: q in s ==> q.sn < r.sn
    ensures TableWithin(Apply(a, r), s + {r}) && Apply(a, r) == a[r.key := Entry(r.sn, r.op)]
  {
    if r.key in a { assert Rec(r.key, a[r.key].sn, a[r.key].op) in s; }
  }

  /** An empty table on top changes no answer. */
  lemma EmptyOnTop(ls: seq<Table>, s: set<Rec>)
    requires Ordered(ls) && Within(ls, s) && AnswersHighest(ls, s)
    ensures var up := [map[]] + ls;
      Ordered(up) && Within(up, s) && AnswersHighest(up, s)
  {
    var up: seq<Table> := [map[]] + ls;
    assert up[1..] == ls;
    forall i | 0 <= i < |up| ensures TableWithin(up[i], s) {
      if i > 0 { assert up[i] == ls[i - 1]; }
    }
    forall i, j, k | 0 <= i < j < |up| && k in up[i] && k in up[j] ensures up[j][k].sn <= up[i][k].sn {
      assert up[i] == ls[i - 1] && up[j] == ls[j - 1];
    }
    forall k ensures IsHighest(s, k, FirstHit(up, k)) {
      assert IsHighest(s, k, FirstHit(ls, k));
    }
  }

  lemma {:induction false} NewestAt(ssts: seq<Sst>, i: nat)
    requires i < |ssts|
    ensures |Newest(ssts)| == |ssts| && Newest(ssts)[|ssts| - 1 - i] == ssts[i].table
  {
    if i < |ssts| - 1 {
      NewestAt(ssts[..|ssts| - 1], i);
    } else {
      NewestLength(ssts);
    }
  }

  lemma {:induction false} NewestLength(ssts: seq<Sst>)
    ensures |Newest(ssts)| == |ssts|
  {
    if ssts != [] { NewestLength(ssts[..|ssts| - 1]); }
  }

  lemma NewestPush(ssts: seq<Sst>, x: Sst)
    ensures Newest(ssts + [x]) == [x.table] + Newest(ssts)
  {
    assert (ssts + [x])[..|ssts|] == ssts;
  }

  lemma StrictApplyOnTop(a: Table, rest: seq<Table>, s: set<Rec>, r: Rec)
    requires StrictlyOrdered([a] + rest) && Within([a] + rest, s)
    requires forall q :: q in s ==> q.sn < r.sn
    ensures StrictlyOrdered([Apply(a, r)] + rest)
  {
    var us, ls := [Apply(a, r)] + rest, [a] + rest;
    assert TableWithin(ls[0], s);
    ApplyWithin(a, s, r);
    assert forall i :: 0 < i < |ls| ==> us[i] == ls[i];
    forall i, j, k, m | 0 <= i < j < |us| && k in us[i] && m in us[j] ensures us[j][m].sn < us[i][k].sn {
      assert TableWithin(ls[j], s);
      assert Rec(m, ls[j][m].sn, ls[j][m].op) in s;
      if i > 0 || k != r.key { assert k in ls[i]; }
    }
  }

  lemma StrictEmptyOnTop(ls: seq<Table>)
    requires StrictlyOrdered(ls)
    ensures StrictlyOrdered([map[]] + ls)
  {
    var us: seq<Table> := [map[]] + ls;
    forall i, j, k, m | 0 <= i < j < |us| && k in us[i] && m in us[j] ensures us[j][m].sn < us[i][k].sn {
      assert us[i] == ls[i - 1] && us[j] == ls[j - 1];
    }
  }

  lemma ApplyOtherKey(a: Table, rest: seq<Table>, r: Rec, k: Str)
    requires r.key != k
    ensures FirstHit([Apply(a, r)] + rest, k) == FirstHit([a] + rest, k)
  {
    assert ([Apply(a, r)] + rest)[1..] == rest && ([a] + rest)[1..] == rest;
  }

  lemma EmptyTransparent(ls: seq<Table>, k: Str)
    ensures FirstHit([map[]] + ls, k) == FirstHit(ls, k)
  {
    assert ([map[]] + ls)[1..] == ls;
  }
}
