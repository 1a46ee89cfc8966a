/**
  An SSTable file as a whole: how an ordered stream of records is cut into
  blocks, and the bytes of data, index, Bloom filter and footer.
 */
module SstFormat {
  import opened Bytes
  import opened Records
  import opened SstCodec

  // ---------------------------------------------------------------------
  // Packing
  // ---------------------------------------------------------------------

  /** Finished blocks and the block being filled. */
  datatype Packing = Packing(blocks: seq<seq<Rec>>, cur: seq<Rec>)

  predicate Overflows(size: nat, cur: seq<Rec>, r: Rec) {
    cur != [] && |EncodeAll(cur)| + RecordLen(r) > size
  }

  function PackOne(size: nat, p: Packing, r: Rec): Packing {
    if Overflows(size, p.cur, r) then Packing(p.blocks + [p.cur], [r])
    else Packing(p.blocks, p.cur + [r])
  }

  function Pack(size: nat, rs: seq<Rec>): Packing {
    if rs == [] then Packing([], []) else PackOne(size, Pack(size, rs[..|rs| - 1]), rs[|rs| - 1])
  }

  /** Finished blocks, the last partial one included. */
  function AllBlocks(p: Packing): seq<seq<Rec>> {
    if p.cur == [] then p.blocks else p.blocks + [p.cur]
  }

  function Blocks(size: nat, rs: seq<Rec>): seq<seq<Rec>> { AllBlocks(Pack(size, rs)) }

  function Concat(bs: seq<seq<Rec>>): seq<Rec> {
    if bs == [] then [] else bs[0] + Concat(bs[1..])
  }

  lemma {:induction false} ConcatAppend(bs: seq<seq<Rec>>, cs: seq<seq<Rec>>)
    ensures Concat(bs + cs) == Concat(bs) + Concat(cs)
  {
    if bs == [] {
      assert bs + cs == cs;
    } else {
      assert (bs + cs)[1..] == bs[1..] + cs;
      ConcatAppend(bs[1..], cs);
    }
  }

  lemma ConcatSnoc(bs: seq<seq<Rec>>, b: seq<Rec>)
    ensures Concat(bs + [b]) == Concat(bs) + b
  {
    ConcatAppend(bs, [b]);
    assert Concat([b]) == b + Concat([]);
  }

  /** A block holds at least one record, and more than one only within the block size. */
  ghost predicate WellFilled(size: nat, b: seq<Rec>) {
    b != [] && (|b| == 1 || |EncodeAll(b)| <= size)
  }

  /** Blocks are well filled, and no block could have taken the first record of the next one. */
  ghost predicate Tight(size: nat, bs: seq<seq<Rec>>) {
    && (forall i :: 0 <= i < |bs| ==> WellFilled(size, bs[i]))
    && (forall i :: 0 < i < |bs| ==> Overflows(size, bs[i - 1], bs[i][0]))
  }

  lemma EncodeSnoc(b: seq<Rec>, r: Rec)
    ensures EncodeAll(b + [r]) == EncodeAll(b) + EncodeRecord(r)
  {
    EncodeAllConcat(b, [r]);
    assert EncodeAll([r]) == EncodeRecord(r) + EncodeAll([]);
  }

  lemma PackStep(size: nat, p: Packing, r: Rec)
    requires Tight(size, AllBlocks(p)) && (p.cur == [] ==> p.blocks == [])
    ensures var q := PackOne(size, p, r);
      && Tight(size, AllBlocks(q)) && q.cur != []
      && Concat(AllBlocks(q)) == Concat(AllBlocks(p)) + [r]
  {
    hide EncodeAll, EncodeRecord;
    var q := PackOne(size, p, r);
    EncodeSnoc(p.cur, r);
    ConcatSnoc(p.blocks, p.cur);
    ConcatSnoc(q.blocks, q.cur);
    if Overflows(size, p.cur, r) {
      assert q.blocks == AllBlocks(p);
      var bs := AllBlocks(q);
      forall i | 0 < i < |bs| ensures Overflows(size, bs[i - 1], bs[i][0]) {
        if i < |bs| - 1 { assert bs[i] == AllBlocks(p)[i] && bs[i - 1] == AllBlocks(p)[i - 1]; }
      }
    } else {
      PackExtends(size, p, r);
      assert Concat(p.blocks) + (p.cur + [r]) == (Concat(p.blocks) + p.cur) + [r];
      if p.cur == [] { assert p.blocks == []; }
    }
  }

  /** Growing the last block keeps the packing tight. */
  lemma PackExtends(size: nat, p: Packing, r: Rec)
    requires Tight(size, AllBlocks(p)) && (p.cur == [] ==> p.blocks == [])
    requires !Overflows(size, p.cur, r)
    ensures Tight(size, p.blocks + [p.cur + [r]])
  {
    hide EncodeAll, EncodeRecord;
    EncodeSnoc(p.cur, r);
    var bs := p.blocks + [p.cur + [r]];
    var n := |p.blocks|;
    assert WellFilled(size, bs[n]);
    forall i | 0 <= i < |bs| ensures WellFilled(size, bs[i]) {
      if i < n { assert bs[i] == AllBlocks(p)[i]; }
    }
    forall i | 0 < i < |bs| ensures Overflows(size, bs[i - 1], bs[i][0]) {
      assert bs[i - 1] == AllBlocks(p)[i - 1];
      if i < n { assert bs[i] == AllBlocks(p)[i]; }
      else { assert bs[i][0] == p.cur[0] && AllBlocks(p)[i] == p.cur; }
    }
  }

  lemma NothingPacked(size: nat)
    ensures AllBlocks(Packing([], [])) == [] && Concat([]) == [] && Tight(size, [])
  {
  }

  /** Block packing: the blocks concatenate to the input and are tight, for every stream. */
  lemma {:induction false} PackLaws(size: nat, rs: seq<Rec>)
    ensures Concat(Blocks(size, rs)) == rs && Tight(size, Blocks(size, rs))
    ensures rs != [] ==> Pack(size, rs).cur != []
  {
    hide PackOne, Overflows, Concat, Tight;
    if rs == [] {
      NothingPacked(size);
    } else {
      var init := rs[..|rs| - 1];
      PackLaws(size, init);
      PackStep(size, Pack(size, init), rs[|rs| - 1]);
      assert rs == init + [rs[|rs| - 1]];
    }
  }

  /**
    A cutting of a stream is greedy if blocks of several records keep within the block
    size, and the record after a block would have made it too large.
   */
  ghost predicate Greedy(size: nat, bs: seq<seq<Rec>>, rs: seq<Rec>) {
    && Concat(bs) == rs
    && (forall i :: 0 <= i < |bs| ==> bs[i] != [] && (|bs[i]| > 1 ==> |EncodeAll(bs[i])| <= size))
    && (forall i :: 0 < i < |bs| && bs[i] != [] ==> |EncodeAll(bs[i - 1])| + RecordLen(bs[i][0]) > size)
  }

  /** The writer's blocks are the greedy cutting, and there is no other. */
  lemma BlocksIff(size: nat, rs: seq<Rec>, bs: seq<seq<Rec>>)
    ensures bs == Blocks(size, rs) <==> Greedy(size, bs, rs)
  {
    PackLaws(size, rs);
    if Greedy(size, bs, rs) { GreedyUnique(size, bs, rs); }
    hide Blocks, EncodeAll, RecordLen, Concat;
    if bs == Blocks(size, rs) {
      forall i | 0 <= i < |bs| ensures bs[i] != [] && (|bs[i]| > 1 ==> |EncodeAll(bs[i])| <= size) {
        assert WellFilled(size, bs[i]);
      }
      forall i | 0 < i < |bs| ensures |EncodeAll(bs[i - 1])| + RecordLen(bs[i][0]) > size {
        assert Overflows(size, bs[i - 1], bs[i][0]);
      }
    }
  }

  lemma {:induction false} GreedyUnique(size: nat, bs: seq<seq<Rec>>, rs: seq<Rec>)
    requires Greedy(size, bs, rs)
    ensures bs == Blocks(size, rs)
    decreases |rs|
  {
    hide EncodeAll, RecordLen, Concat;
    if bs == [] {
      NothingPacked(size);
      EmptyConcat();
    } else {
      var n := |bs| - 1;
      var front, b := bs[..n], bs[n];
      assert bs == front + [b];
      ConcatSnoc(front, b);
      var r, init := b[|b| - 1], rs[..|rs| - 1];
      assert rs == Concat(front) + b && r == rs[|rs| - 1];
      if |b| == 1 {
        assert init == Concat(front);
        GreedyFront(size, bs, rs);
        GreedyUnique(size, front, init);
        PackLaws(size, init);
        assert [] + [r] == b == [r];
        if n > 0 { assert front[n - 1] == Pack(size, init).cur == bs[n - 1]; } else { EmptyConcat(); }
      } else {
        var less := b[..|b| - 1];
        assert b == less + [r] && init == Concat(front) + less;
        GreedyLess(size, front, less, r, rs);
        GreedyUnique(size, front + [less], init);
        PackLaws(size, init);
        EncodeSnoc(less, r);
        var p := Pack(size, init);
        assert init != [] && AllBlocks(p) == p.blocks + [p.cur] == front + [less];
        assert (p.blocks + [p.cur])[|p.blocks|] == p.cur && |p.blocks| == n;
        assert p.cur == less && p.blocks == (p.blocks + [p.cur])[..n] == front;
        assert bs[n] == b && |EncodeAll(b)| <= size;
        assert Pack(size, rs) == PackOne(size, p, r);
      }
    }
  }

  lemma EmptyConcat()
    ensures Concat([]) == []
  {
  }

  /** Without its last block a greedy cutting is one of the shorter stream. */
  lemma GreedyFront(size: nat, bs: seq<seq<Rec>>, rs: seq<Rec>)
    requires Greedy(size, bs, rs) && bs != []
    ensures Greedy(size, bs[..|bs| - 1], Concat(bs[..|bs| - 1]))
  {
    hide EncodeAll, RecordLen, Concat;
  }

  /** So it is without the last record of a longer last block. */
  lemma GreedyLess(size: nat, front: seq<seq<Rec>>, less: seq<Rec>, r: Rec, rs: seq<Rec>)
    requires Greedy(size, front + [less + [r]], rs) && less != []
    ensures Greedy(size, front + [less], Concat(front) + less)
  {
    hide EncodeAll, RecordLen, Concat;
    ConcatSnoc(front, less);
    EncodeSnoc(less, r);
    var bs, cs := front + [less + [r]], front + [less];
    assert bs[|front|] == less + [r];
    forall i | 0 <= i < |cs| ensures cs[i] != [] && (|cs[i]| > 1 ==> |EncodeAll(cs[i])| <= size) {
      if i < |front| { assert cs[i] == bs[i]; }
    }
    forall i | 0 < i < |cs| ensures |EncodeAll(cs[i - 1])| + RecordLen(cs[i][0]) > size {
      assert cs[i - 1] == bs[i - 1];
      assert cs[i][0] == bs[i][0];
    }
  }

  /** Adding records never changes a finished block. */
  lemma {:induction false} BlocksGrow(size: nat, rs: seq<Rec>, n: nat)
    requires n <= |rs|
    ensures Pack(size, rs[..n]).blocks <= Pack(size, rs).blocks
    ensures n < |rs| && Overflows(size, Pack(size, rs[..n]).cur, rs[n])
      ==> Pack(size, rs[..n]).blocks + [Pack(size, rs[..n]).cur] <= Pack(size, rs).blocks
    decreases |rs| - n
  {
    hide Overflows;
    if n < |rs| {
      assert rs[..n + 1][..n] == rs[..n];
      BlocksGrow(size, rs, n + 1);
    } else {
      assert rs[..n] == rs;
    }
  }

  // ---------------------------------------------------------------------
  // The file
  // ---------------------------------------------------------------------

  function HeaderOf(crc: Checksum, b: seq<Rec>): BlockHeader {
    BlockHeader(crc(EncodeAll(b)), |EncodeAll(b)|, |b|)
  }

  function BlockBytes(crc: Checksum, b: seq<Rec>): (s: Str)
    ensures |s| == BLOCK_HEADER_SIZE + |EncodeAll(b)|
  {
    EncodeBlockHeader(HeaderOf(crc, b)) + EncodeAll(b)
  }

  /** A block on disk: "BLK1", checksum, length and number of records, then the records. */
  lemma BlockFields(crc: Checksum, b: seq<Rec>)
    ensures var s, p := BlockBytes(crc, b), EncodeAll(b);
      && s[..4] == [66, 76, 75, 49] && s[4..8] == Le(crc(p), 4) && s[8..12] == Le(|p|, 4)
      && s[12..16] == Le(|b|, 4) && s[16..] == p
  {
    hide Le, EncodeAll;
  }

  function BlockLen(b: seq<Rec>): nat { BLOCK_HEADER_SIZE + |EncodeAll(b)| }

  function DataBytes(crc: Checksum, bs: seq<seq<Rec>>): Str {
    if bs == [] then [] else BlockBytes(crc, bs[0]) + DataBytes(crc, bs[1..])
  }

  /** Offset at which the blocks of `bs` end. */
  function DataLen(bs: seq<seq<Rec>>): nat {
    if bs == [] then 0 else BlockLen(bs[0]) + DataLen(bs[1..])
  }

  function FirstKey(b: seq<Rec>): Str { if b == [] then [] else b[0].key }

  function EntryFor(b: seq<Rec>, off: nat): IndexEntry {
    IndexEntry(off, BlockLen(b), |FirstKey(b)|)
  }

  /** The index blob for blocks that start at file offset `off`. */
  function IndexBytes(bs: seq<seq<Rec>>, off: nat): Str {
    if bs == [] then []
    else EncodeIndexEntry(EntryFor(bs[0], off)) + FirstKey(bs[0]) + IndexBytes(bs[1..], off + BlockLen(bs[0]))
  }

  function MinSn(rs: seq<Rec>): nat {
    if rs == [] then 0
    else if |rs| == 1 then rs[0].sn
    else
      var m, sn := MinSn(rs[..|rs| - 1]), rs[|rs| - 1].sn;
      if m < sn then m else sn
  }

  lemma {:induction false} MinSnBounds(rs: seq<Rec>)
    ensures forall r :: r in rs ==> MinSn(rs) <= r.sn
    ensures rs != [] ==> exists r :: r in rs && r.sn == MinSn(rs)
  {
    if |rs| == 1 {
      assert rs[0] in rs;
    } else if |rs| > 1 {
      var init, last := rs[..|rs| - 1], rs[|rs| - 1];
      MinSnBounds(init);
      assert rs == init + [last];
      var r :| r in init && r.sn == MinSn(init);
      assert r in rs && last in rs;
    }
  }

  function Keys(rs: seq<Rec>): seq<Str> { seq(|rs|, i requires 0 <= i < |rs| => rs[i].key) }

  function FooterFor(bs: seq<seq<Rec>>, bloomLen: nat): Footer {
    var rs := Concat(bs);
    Footer(DataLen(bs), |IndexBytes(bs, 0)|, DataLen(bs) + |IndexBytes(bs, 0)|, bloomLen,
           |rs|, |bs|, MinSn(rs), MaxSn(rs))
  }

  /** Data, index, Bloom filter, footer. */
  function FileBytes(crc: Checksum, bs: seq<seq<Rec>>, bloom: Str): Str {
    DataBytes(crc, bs) + IndexBytes(bs, 0) + bloom + EncodeFooter(crc, FooterFor(bs, |bloom|))
  }

  lemma {:induction false} DataLength(crc: Checksum, bs: seq<seq<Rec>>)
    ensures |DataBytes(crc, bs)| == DataLen(bs)
  {
    hide BlockBytes, EncodeAll;
    if bs != [] { DataLength(crc, bs[1..]); }
  }

  lemma {:induction false} DataConcat(crc: Checksum, bs: seq<seq<Rec>>, cs: seq<seq<Rec>>)
    ensures DataBytes(crc, bs + cs) == DataBytes(crc, bs) + DataBytes(crc, cs)
    ensures DataLen(bs + cs) == DataLen(bs) + DataLen(cs)
  {
    hide BlockBytes, BlockLen;
    if bs == [] {
      assert bs + cs == cs;
    } else {
      assert (bs + cs)[1..] == bs[1..] + cs;
      DataConcat(crc, bs[1..], cs);
    }
  }

  lemma {:induction false} IndexConcat(bs: seq<seq<Rec>>, cs: seq<seq<Rec>>, off: nat)
    ensures IndexBytes(bs + cs, off) == IndexBytes(bs, off) + IndexBytes(cs, off + DataLen(bs))
  {
    hide BlockLen, EncodeIndexEntry;
    if bs == [] {
      assert bs + cs == cs;
    } else {
      assert (bs + cs)[1..] == bs[1..] + cs;
      IndexConcat(bs[1..], cs, off + BlockLen(bs[0]));
    }
  }

  /** Blocks tile the data area: block `i` lies between the ends of its neighbours. */
  lemma BlockPlace(crc: Checksum, bs: seq<seq<Rec>>, i: nat)
    requires i < |bs|
    ensures DataLen(bs[..i]) + BlockLen(bs[i]) == DataLen(bs[..i + 1]) <= DataLen(bs)
    ensures |DataBytes(crc, bs)| == DataLen(bs)
    ensures DataBytes(crc, bs)[DataLen(bs[..i])..DataLen(bs[..i + 1])] == BlockBytes(crc, bs[i])
  {
    hide BlockBytes, BlockLen, DataBytes, DataLen;
    DataLength(crc, bs);
    DataLength(crc, bs[..i]);
    assert bs == bs[..i + 1] + bs[i + 1..] && bs[..i + 1] == bs[..i] + [bs[i]];
    DataConcat(crc, bs[..i + 1], bs[i + 1..]);
    DataConcat(crc, bs[..i], [bs[i]]);
    DataSingle(crc, bs[i]);
  }

  lemma DataSingle(crc: Checksum, b: seq<Rec>)
    ensures DataBytes(crc, [b]) == BlockBytes(crc, b) && DataLen([b]) == BlockLen(b)
    ensures |BlockBytes(crc, b)| == BlockLen(b)
  {
    hide BlockBytes;
    assert DataBytes(crc, [b]) == BlockBytes(crc, b) + DataBytes(crc, [b][1..]);
    assert DataLen([b]) == BlockLen(b) + DataLen([b][1..]);
  }

  /** Every block's length and key length fit their on-disk widths. */
  ghost predicate Buildable(bs: seq<seq<Rec>>) {
    forall i :: 0 <= i < |bs| ==> BlockLen(bs[i]) < U32_LIMIT && AllFit(bs[i])
  }
}
