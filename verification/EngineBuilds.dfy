/**
  When a flush can be written: for tables of operations the log accepted, the
  only thing that can refuse is the size limit of the Bloom filter.
 */
module EngineBuilds {
  import opened Bytes
  import opened Records
  import opened EngineLayers
  import opened EngineModel
  import opened EngineVisible
  import opened SstCodec
  import opened SstFormat
  import WalFormat
  import SstReader
  import SstWriters
  import Bloom

  /** Bytes a record of at most the log's limit can take, with block header or index entry. */
  const ROOM: nat := WalFormat.MAX_RECORD_BYTES + 32

  /** Every entry is one a log can hold. */
  ghost predicate Loggable(t: Table) {
    forall k :: k in t ==> WalFormat.Accepted(Rec(k, t[k].sn, t[k].op))
  }

  ghost predicate AllSmall(rs: seq<Rec>) {
    forall i :: 0 <= i < |rs| ==> RecordLen(rs[i]) <= WalFormat.MAX_RECORD_BYTES && Fits(rs[i])
  }

  lemma AcceptedSmall(r: Rec)
    requires WalFormat.Accepted(r)
    ensures RecordLen(r) <= WalFormat.MAX_RECORD_BYTES && Fits(r)
  {
    WalFormat.AlignUpLeast(WalFormat.FRAME_HEADER + WalFormat.PayloadSize(r));
  }

  lemma SingleRecordLen(r: Rec)
    ensures |EncodeAll([r])| == RecordLen(r)
  {
    hide EncodeRecord;
    assert EncodeAll([r]) == EncodeRecord(r) + EncodeAll([]);
  }

  /** A well-filled block of small records is small. */
  lemma BlockSmall(b: seq<Rec>)
    requires WellFilled(BLOCK_SIZE, b) && AllSmall(b)
    ensures BlockLen(b) <= ROOM && |FirstKey(b)| + INDEX_ENTRY_SIZE <= ROOM && AllFit(b)
  {
    hide EncodeAll;
    if |b| == 1 {
      assert b == [b[0]];
      SingleRecordLen(b[0]);
    }
    SstReader.FirstKeyShort(b);
  }

  ghost predicate SmallBlocks(bs: seq<seq<Rec>>) {
    forall i :: 0 <= i < |bs| ==>
      bs[i] != [] && BlockLen(bs[i]) <= ROOM && |FirstKey(bs[i])| + INDEX_ENTRY_SIZE <= ROOM && AllFit(bs[i])
  }

  lemma {:induction false} BlocksSmall(bs: seq<seq<Rec>>)
    requires AllSmall(Concat(bs)) && forall i :: 0 <= i < |bs| ==> WellFilled(BLOCK_SIZE, bs[i])
    ensures SmallBlocks(bs)
  {
    if bs != [] {
      hide BlockLen, Fits, RecordLen, AllFit, FirstKey;
      SmallParts(bs[0], Concat(bs[1..]));
      BlockSmall(bs[0]);
      BlocksSmall(bs[1..]);
    }
  }

  /** Blocks and index together grow linearly with the number of records. */
  lemma {:induction false} FileBound(bs: seq<seq<Rec>>, off: nat)
    requires SmallBlocks(bs)
    ensures DataLen(bs) + |IndexBytes(bs, off)| <= 2 * ROOM * |Concat(bs)|
  {
    hide BlockLen, EncodeIndexEntry, AllFit, FirstKey, SmallBlocks, Concat;
    FirstSmall(bs);
    if bs != [] {
      var b, rest := bs[0], bs[1..];
      FileBound(rest, off + BlockLen(b));
      BoundStep(|b|, BlockLen(b), INDEX_ENTRY_SIZE + |FirstKey(b)|, |Concat(rest)|,
                DataLen(rest) + |IndexBytes(rest, off + BlockLen(b))|);
      assert |IndexBytes(bs, off)| == INDEX_ENTRY_SIZE + |FirstKey(b)| + |IndexBytes(rest, off + BlockLen(b))|;
    }
  }

  lemma FirstSmall(bs: seq<seq<Rec>>)
    requires SmallBlocks(bs)
    ensures bs != [] ==>
      && SmallBlocks(bs[1..]) && bs[0] != [] && BlockLen(bs[0]) <= ROOM && INDEX_ENTRY_SIZE + |FirstKey(bs[0])| <= ROOM
      && |Concat(bs)| == |bs[0]| + |Concat(bs[1..])|
  {
    hide BlockLen, AllFit, FirstKey;
  }

  lemma BoundStep(n: nat, len: nat, entry: nat, m: nat, rest: nat)
    requires n >= 1 && len <= ROOM && entry <= ROOM && rest <= 2 * ROOM * m
    ensures len + entry + rest <= 2 * ROOM * (n + m)
  {
  }

  lemma SmallParts(b: seq<Rec>, rest: seq<Rec>)
    requires AllSmall(b + rest)
    ensures AllSmall(b) && AllSmall(rest)
  {
    hide Fits, RecordLen;
    forall i | 0 <= i < |b| ensures RecordLen(b[i]) <= WalFormat.MAX_RECORD_BYTES && Fits(b[i]) {
      assert (b + rest)[i] == b[i];
    }
    forall i | 0 <= i < |rest| ensures RecordLen(rest[i]) <= WalFormat.MAX_RECORD_BYTES && Fits(rest[i]) {
      assert (b + rest)[|b| + i] == rest[i];
    }
  }

  lemma TableSmall(t: Table)
    requires Loggable(t)
    ensures AllSmall(Iter(t))
  {
    hide WalFormat.Accepted, Fits, RecordLen;
    forall i | 0 <= i < |Iter(t)|
      ensures RecordLen(Iter(t)[i]) <= WalFormat.MAX_RECORD_BYTES && Fits(Iter(t)[i])
    {
      var r := Iter(t)[i];
      assert r in Elems(Iter(t));
      AcceptedSmall(r);
    }
  }

  lemma FilterBlobSize(rs: seq<Rec>)
    requires Bloom.New(Max(|rs|, 1), BITS_PER_KEY).Ok?
    ensures |SstWriters.FilterBlob(rs, BITS_PER_KEY)| <= 12 + 8 * Bloom.MAX_WORDS
  {
    hide Bloom.Insert, Bloom.InsertAll, Bloom.WordBytes, Keys;
  }

  /** A filter for more than 2^26 keys at ten bits each would exceed the bitmap limit. */
  lemma BloomBoundsKeys(n: nat)
    requires Bloom.New(n, BITS_PER_KEY).Ok?
    ensures n < 0x400_0000
  {
  }

  /**
    For a table whose entries the log accepted, the flush can be written exactly
    when the Bloom filter's size limit admits the number of keys.
   */
  lemma BuildsIffBloomAccepts(t: Table)
    requires Loggable(t)
    ensures CanBuild(t) <==> Bloom.New(Max(|t|, 1), BITS_PER_KEY).Ok?
  {
    hide Bloom.New, Iter, WalFormat.Accepted, Buildable, SstWriters.TableFile, Blocks;
    if Bloom.New(Max(|t|, 1), BITS_PER_KEY).Ok? {
      TableSmall(t);
      SmallBuilds(Iter(t));
    }
  }

  /** In numbers: up to 53687091 keys, at ten bits each in 2^29 bits. */
  lemma BuildsIffFewKeys(t: Table)
    requires Loggable(t)
    ensures CanBuild(t) <==> |t| <= 53687091
  {
    hide CanBuild, WalFormat.Accepted;
    BuildsIffBloomAccepts(t);
  }

  lemma SmallBuilds(rs: seq<Rec>)
    requires AllSmall(rs) && Bloom.New(Max(|rs|, 1), BITS_PER_KEY).Ok?
    ensures Buildable(Blocks(BLOCK_SIZE, rs))
    ensures forall crc: Checksum :: |SstWriters.TableFile(crc, BLOCK_SIZE, BITS_PER_KEY, rs)| < U64_LIMIT
  {
    var bs := Blocks(BLOCK_SIZE, rs);
    PackLaws(BLOCK_SIZE, rs);
    BloomBoundsKeys(Max(|rs|, 1));
    FilterBlobSize(rs);
    BlocksSmall(bs);
    SmallBuildable(bs);
    hide Bloom.New, AllSmall, FileBytes, SstWriters.FilterBlob, Blocks, SmallBlocks, Buildable, Tight;
    forall crc: Checksum ensures |SstWriters.TableFile(crc, BLOCK_SIZE, BITS_PER_KEY, rs)| < U64_LIMIT {
      SizeBound(crc, bs, SstWriters.FilterBlob(rs, BITS_PER_KEY));
    }
  }

  lemma SmallBuildable(bs: seq<seq<Rec>>)
    requires SmallBlocks(bs)
    ensures Buildable(bs)
  {
    hide BlockLen, AllFit;
  }

  lemma SizeBound(crc: Checksum, bs: seq<seq<Rec>>, bl: Str)
    requires SmallBlocks(bs) && |Concat(bs)| < 0x400_0000 && |bl| <= 12 + 8 * Bloom.MAX_WORDS
    ensures |FileBytes(crc, bs, bl)| < U64_LIMIT
  {
    hide SmallBlocks, FileBytes, Concat, DataLen, IndexBytes;
    FileBound(bs, 0);
    FileSize(crc, bs, bl);
  }

  lemma FileSize(crc: Checksum, bs: seq<seq<Rec>>, bl: Str)
    ensures |FileBytes(crc, bs, bl)| == DataLen(bs) + |IndexBytes(bs, 0)| + |bl| + FOOTER_SIZE
  {
    hide EncodeFooter, DataBytes, IndexBytes;
    DataLength(crc, bs);
  }

  /** A table with one accepted operation can always be flushed. */
  lemma SingletonBuilds(r: Rec)
    requires WalFormat.Accepted(r)
    ensures CanBuild(map[r.key := Entry(r.sn, r.op)])
  {
    var t: Table := map[r.key := Entry(r.sn, r.op)];
    assert |t| == 1;
    hide WalFormat.Accepted;
    BuildsIffBloomAccepts(t);
    assert Bloom.New(1, BITS_PER_KEY).Ok?;
  }

  /** More keys never make a table easier to write. */
  lemma BuildsSmaller(t: Table, r: Rec)
    requires Loggable(t) && WalFormat.Accepted(r) && CanBuild(Apply(t, r))
    ensures CanBuild(t)
  {
    hide WalFormat.Accepted, CanBuild, Bloom.New;
    BuildsIffBloomAccepts(Apply(t, r));
    BuildsIffBloomAccepts(t);
    if r.key !in t { assert t.Keys <= Apply(t, r).Keys && Apply(t, r).Keys == t.Keys + {r.key}; }
    assert |t| == |t.Keys| && |Apply(t, r)| == |Apply(t, r).Keys|;
    BloomSmaller(Max(|t|, 1), Max(|Apply(t, r)|, 1));
  }

  lemma BloomSmaller(n: nat, m: nat)
    requires n <= m && Bloom.New(m, BITS_PER_KEY).Ok?
    ensures Bloom.New(n, BITS_PER_KEY).Ok?
  {
  }

  /** Tables a running engine reads hold only operations the log accepted. */
  lemma LayerLoggable(s: State, i: nat)
    requires History(s) && Reads(s) && i < |Layers(s)|
    ensures Loggable(Layers(s)[i])
  {
    hide Layers, WalFormat.Accepted;
    var t := Layers(s)[i];
    assert TableWithin(t, Elems(Applied(s)));
    forall k | k in t ensures WalFormat.Accepted(Rec(k, t[k].sn, t[k].op)) {
      var r := Rec(k, t[k].sn, t[k].op);
      assert r in Applied(s);
      var j :| 0 <= j < |Applied(s)| && Applied(s)[j] == r;
      assert s.log[j] == r;
    }
  }

  lemma EmptyBuilds()
    ensures CanBuild(map[])
  {
    var t: Table := map[];
    BuildsIffBloomAccepts(t);
    BloomSmaller(1, 1);
  }
}
