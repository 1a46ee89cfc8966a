/**
  The SSTable writer: an accumulator filled record by record, which cuts blocks
  as it goes and finishes with index, Bloom filter and footer.
 */
module SstWriters {
  import opened Bytes
  import opened Records
  import opened SstCodec
  import opened SstFormat
  import SstReader
  import Bloom

  function IndexBlob(index: seq<(Str, IndexEntry)>): Str {
    if index == [] then []
    else IndexBlob(index[..|index| - 1])
           + EncodeIndexEntry(index[|index| - 1].1) + index[|index| - 1].0
  }

  function MinOf(sn: Option<nat>, x: nat): nat {
    match sn
    case None => x
    case Some(m) => if m < x then m else x
  }

  function MaxOf(sn: Option<nat>, x: nat): nat {
    match sn
    case None => x
    case Some(m) => Max(m, x)
  }

  /** Adding `r` to a writer holding `p` is refused only for lengths past 32 bits. */
  predicate Addable(size: nat, p: Packing, r: Rec) {
    && |r.key| < U32_LIMIT && |ValueOf(r.op)| < U32_LIMIT
    && (Overflows(size, p.cur, r) ==> BlockLen(p.cur) < U32_LIMIT)
  }

  lemma KeysSnoc(rs: seq<Rec>, r: Rec)
    ensures Keys(rs + [r]) == Keys(rs) + [r.key]
  {
  }

  lemma IndexSnoc(bs: seq<seq<Rec>>, b: seq<Rec>, index: seq<(Str, IndexEntry)>)
    requires IndexBlob(index) == IndexBytes(bs, 0)
    ensures IndexBlob(index + [(FirstKey(b), EntryFor(b, DataLen(bs)))]) == IndexBytes(bs + [b], 0)
  {
    hide EncodeIndexEntry, EntryFor, DataLen, BlockLen, FirstKey;
    IndexConcat(bs, [b], 0);
    var e := EncodeIndexEntry(EntryFor(b, DataLen(bs)));
    assert IndexBytes([b], DataLen(bs)) == e + FirstKey(b) + IndexBytes([b][1..], DataLen(bs) + BlockLen(b));
    assert IndexBytes([b], DataLen(bs)) == e + FirstKey(b);
    assert IndexBytes(bs, 0) + (e + FirstKey(b)) == IndexBytes(bs, 0) + e + FirstKey(b);
  }

  lemma DataSnoc(crc: Checksum, bs: seq<seq<Rec>>, b: seq<Rec>)
    ensures DataBytes(crc, bs + [b]) == DataBytes(crc, bs) + BlockBytes(crc, b)
    ensures DataLen(bs + [b]) == DataLen(bs) + BlockLen(b)
    ensures |DataBytes(crc, bs)| == DataLen(bs)
  {
    hide BlockBytes, BlockLen, DataBytes, DataLen;
    DataConcat(crc, bs, [b]);
    DataLength(crc, bs);
    DataSingle(crc, b);
  }

  lemma MinMaxSnoc(rs: seq<Rec>, r: Rec)
    ensures MinSn(rs + [r]) == MinOf(if rs == [] then None else Some(MinSn(rs)), r.sn)
    ensures MaxSn(rs + [r]) == MaxOf(if rs == [] then None else Some(MaxSn(rs)), r.sn)
  {
    assert (rs + [r])[..|rs|] == rs;
  }

  lemma InsertSnoc(f: Bloom.Filter, keys: seq<Str>, key: Str)
    requires Bloom.Sound(f)
    ensures Bloom.InsertAll(f, keys + [key]) == Bloom.Insert(Bloom.InsertAll(f, keys), key)
  {
    hide Bloom.Insert;
    assert (keys + [key])[..|keys|] == keys;
  }

  /** What finishing a file reports: records, blocks, bytes. */
  datatype Meta = Meta(entryCount: nat, blockCount: nat, fileSize: nat)

  class SstWriter {
    const crc: Checksum
    const blockSize: nat
    const bloom: Bloom.BloomFilter
    ghost const empty: Bloom.Filter
    var file: Str
    var offset: nat
    var payload: Str
    var recordsInBlock: nat
    var firstKey: Option<Str>
    var index: seq<(Str, IndexEntry)>
    var entryCount: nat
    var minSn: Option<nat>
    var maxSn: Option<nat>
    ghost var packed: Packing
    ghost var added: seq<Rec>

    /** File, payload and index describe the packing. */
    ghost predicate Shape()
      reads this
    {
      && file == DataBytes(crc, packed.blocks) && offset == DataLen(packed.blocks)
      && payload == EncodeAll(packed.cur) && recordsInBlock == |packed.cur|
      && firstKey == (if packed.cur == [] then None else Some(packed.cur[0].key))
      && IndexBlob(index) == IndexBytes(packed.blocks, 0) && |index| == |packed.blocks|
    }

    /** Filter and counters describe the records added. */
    ghost predicate Counted()
      reads this, bloom.words
    {
      && Bloom.Sound(empty) && bloom.View() == Bloom.InsertAll(empty, Keys(added))
      && entryCount == |added|
      && minSn == (if added == [] then None else Some(MinSn(added)))
      && maxSn == (if added == [] then None else Some(MaxSn(added)))
    }

    ghost predicate Valid()
      reads this, bloom.words
    {
      Shape() && Counted() && packed == Pack(blockSize, added)
    }

    constructor (crc: Checksum, blockSize: nat, f: Bloom.Filter)
      requires Bloom.Sound(f)
      ensures Valid() && added == [] && empty == f && this.crc == crc && this.blockSize == blockSize
      ensures fresh(bloom) && fresh(bloom.words)
    {
      this.crc := crc;
      this.blockSize := blockSize;
      this.bloom := new Bloom.BloomFilter(f);
      this.empty := f;
      file, offset, payload, recordsInBlock := [], 0, [], 0;
      firstKey, index, entryCount, minSn, maxSn := None, [], 0, None, None;
      packed, added := Packing([], []), [];
    }

    /** Writes header and payload of the current block and notes it in the index. */
    method FlushBlock() returns (res: Result<()>)
      requires Shape() && packed.cur != []
      modifies this`file, this`offset, this`payload, this`recordsInBlock, this`firstKey, this`index, this`packed
      ensures res.Ok? <==> BlockLen(old(packed).cur) < U32_LIMIT
      ensures res.Err? ==> res.error.SstRecordTooLarge? && res.error.size >= U32_LIMIT
      ensures res.Ok? ==> Shape() && packed == Packing(old(packed).blocks + [old(packed).cur], [])
    {
      hide EncodeAll, EncodeBlockHeader, EncodeIndexEntry, DataBytes, DataLen, IndexBytes, IndexBlob;
      if |payload| >= U32_LIMIT { return Err(SstRecordTooLarge(|payload|)); }
      var header := BlockHeader(crc(payload), |payload|, recordsInBlock);
      var blockLen := BLOCK_HEADER_SIZE + |payload|;
      if blockLen >= U32_LIMIT { return Err(SstRecordTooLarge(blockLen)); }
      var first := firstKey.value;
      firstKey := None;
      SstReader.FirstKeyShort(packed.cur);
      assert |first| < U32_LIMIT;  // the third length check of the source cannot fail
      DataSnoc(crc, packed.blocks, packed.cur);
      IndexSnoc(packed.blocks, packed.cur, index);
      ghost var before := file;
      file := file + EncodeBlockHeader(header);
      file := file + payload;
      assert file == before + BlockBytes(crc, packed.cur);
      index := index + [(first, IndexEntry(offset, blockLen, |first|))];
      offset := offset + blockLen;
      payload := [];
      recordsInBlock := 0;
      packed := Packing(packed.blocks + [packed.cur], []);
      EmptyPayload();
      assert file == DataBytes(crc, packed.blocks);
      return Ok(());
    }

    /** Adds one record, cutting the block first when it would grow past the block size. */
    method Add(r: Rec) returns (res: Result<()>)
      requires Valid() && r.sn < U64_LIMIT
      modifies this, bloom.words
      ensures res.Ok? <==> Addable(blockSize, old(packed), r)
      ensures res.Ok? ==> Valid() && added == old(added) + [r]
      ensures var full := |old(packed).cur| > 0 && |EncodeAll(old(packed).cur)| + RecordLen(r) > blockSize;
        res.Ok? ==> packed == (if full then Packing(old(packed).blocks + [old(packed).cur], [r])
                               else Packing(old(packed).blocks, old(packed).cur + [r]))
      ensures res.Err? ==> res.error.SstRecordTooLarge? && res.error.size >= U32_LIMIT
    {
      hide EncodeAll, DataBytes, DataLen, IndexBytes, IndexBlob, EncodeRecord, BlockLen, Bloom.InsertAll,
        Bloom.Sound, MinSn, MaxSn, Keys;
      EmptyOnly(packed.cur);
      assert (added + [r])[..|added|] == added;
      if payload != [] && |payload| + RecordLen(r) > blockSize {
        var done := FlushBlock();
        if done.Err? { return Err(done.error); }
      }
      if |r.key| >= U32_LIMIT { return Err(SstRecordTooLarge(|r.key|)); }
      if |ValueOf(r.op)| >= U32_LIMIT { return Err(SstRecordTooLarge(|ValueOf(r.op)|)); }
      Buffer(r);
      Count(r);
      return Ok(());
    }

    /** Encodes the record at the end of the current block. */
    method Buffer(r: Rec)
      requires Shape()
      modifies this`payload, this`recordsInBlock, this`firstKey, this`packed
      ensures Shape() && packed == Packing(old(packed).blocks, old(packed).cur + [r])
    {
      hide EncodeAll, DataBytes, DataLen, IndexBytes, IndexBlob, EncodeRecord;
      EmptyOnly(packed.cur);
      EncodeSnoc(packed.cur, r);
      if payload == [] { firstKey := Some(r.key); }
      payload := payload + EncodeRecord(r);
      recordsInBlock := recordsInBlock + 1;
      packed := Packing(packed.blocks, packed.cur + [r]);
    }

    /** Puts the key into the filter and updates the counters. */
    method Count(r: Rec)
      requires Counted()
      modifies this`entryCount, this`minSn, this`maxSn, this`added, bloom.words
      ensures Counted() && added == old(added) + [r]
    {
      hide Bloom.Insert, Bloom.InsertAll, MinSn, MaxSn, Bloom.Sound, Keys;
      KeysSnoc(added, r);
      MinMaxSnoc(added, r);
      InsertSnoc(empty, Keys(added), r.key);
      bloom.Add(r.key);
      entryCount := entryCount + 1;
      minSn := Some(MinOf(minSn, r.sn));
      maxSn := Some(MaxOf(maxSn, r.sn));
      added := added + [r];
    }

    /** Writes the last block, index, filter and footer; reports what the file holds. */
    method Finish() returns (res: Result<Meta>)
      requires Valid()
      modifies this
      ensures res.Ok? <==> (old(packed).cur == [] || BlockLen(old(packed).cur) < U32_LIMIT)
      ensures res.Err? ==> res.error.SstRecordTooLarge? && res.error.size >= U32_LIMIT
      ensures added == old(added)
      ensures res.Ok? ==>
        var blob := Bloom.ToBytes(Bloom.InsertAll(empty, Keys(added)));
        && blob.Ok? && file == FileBytes(crc, Blocks(blockSize, added), blob.value)
        && res.value == Meta(|added|, |Blocks(blockSize, added)|, |file|)
    {
      hide EncodeAll, DataBytes, DataLen, IndexBytes, IndexBlob, Bloom.InsertAll, BlockLen, Bloom.ToBytes,
        Pack, MinSn, MaxSn, Concat, Keys, Bloom.Sound, FileBytes;
      EmptyOnly(packed.cur);
      PackLaws(blockSize, added);
      if payload != [] {
        var done := FlushBlock();
        if done.Err? { return Err(done.error); }
      }
      WriteTail();
      return Ok(Meta(entryCount, |index|, offset));
    }

    /** Index, filter and footer behind the last block. */
    method WriteTail()
      requires Shape() && Counted() && packed.cur == [] && Concat(packed.blocks) == added
      modifies this`file, this`offset
      ensures var blob := Bloom.ToBytes(Bloom.InsertAll(empty, Keys(added)));
        blob.Ok? && file == FileBytes(crc, packed.blocks, blob.value)
      ensures offset == |file|
    {
      hide EncodeAll, DataBytes, DataLen, IndexBytes, IndexBlob, Bloom.InsertAll, Bloom.ToBytes,
        EncodeFooter, MinSn, MaxSn, Concat, Keys, Bloom.Sound;
      DataLength(crc, packed.blocks);
      var indexOffset := offset;
      var blob := BuildIndex();
      file := file + blob;
      offset := offset + |blob|;
      var bloomOffset := offset;
      Bloom.BytesRoundTrip(bloom.View());
      var filter := bloom.Serialize();
      file := file + filter.value;
      offset := offset + |filter.value|;
      EmptyBounds();
      var footer := Footer(indexOffset, |blob|, bloomOffset, |filter.value|, entryCount, |index|,
                           if minSn.Some? then minSn.value else 0, if maxSn.Some? then maxSn.value else 0);
      assert footer == FooterFor(packed.blocks, |filter.value|);
      file := file + EncodeFooter(crc, footer);
      offset := offset + FOOTER_SIZE;
    }

    /** Concatenates the index entries with their keys. */
    method BuildIndex() returns (blob: Str)
      ensures blob == IndexBlob(index)
    {
      hide EncodeIndexEntry;
      blob := [];
      for i := 0 to |index|
        invariant blob == IndexBlob(index[..i])
      {
        assert index[..i + 1][..i] == index[..i];
        blob := blob + EncodeIndexEntry(index[i].1);
        blob := blob + index[i].0;
      }
      assert index[..|index|] == index;
    }
  }

  lemma EmptyPayload()
    ensures EncodeAll([]) == []
  {
  }

  lemma EmptyBounds()
    ensures MinSn([]) == 0 && MaxSn([]) == 0
  {
  }

  /** A payload is empty only without records. */
  lemma EmptyOnly(b: seq<Rec>)
    ensures EncodeAll(b) == [] <==> b == []
  {
    hide EncodeRecord;
  }

  /** A writer for `expectedKeys`, or the refusal of its options. */
  method Create(crc: Checksum, expectedKeys: nat, blockSize: nat, bitsPerKey: Byte) returns (res: Result<SstWriter>)
    ensures res.Ok? <==> blockSize > 0 && Bloom.New(Max(expectedKeys, 1), bitsPerKey).Ok?
    ensures res.Err? ==> res.error == if blockSize == 0 then SstCorrupt else BloomInvalid
    ensures res.Ok? ==> (
      && fresh(res.value) && fresh(res.value.bloom) && fresh(res.value.bloom.words)
      && res.value.Valid() && res.value.added == [] && res.value.crc == crc && res.value.blockSize == blockSize
      && res.value.empty == Bloom.New(Max(expectedKeys, 1), bitsPerKey).value)
  {
    if blockSize == 0 { return Err(SstCorrupt); }
    var f := Bloom.New(Max(expectedKeys, 1), bitsPerKey);
    if f.Err? { return Err(f.error); }
    var w := new SstWriter(crc, blockSize, f.value);
    return Ok(w);
  }

  // ---------------------------------------------------------------------
  // A whole flush
  // ---------------------------------------------------------------------

  /** The filter a flush of `rs` stores. */
  function FilterFor(rs: seq<Rec>, bitsPerKey: Byte): Bloom.Filter
    requires Bloom.New(Max(|rs|, 1), bitsPerKey).Ok?
  {
    Bloom.InsertAll(Bloom.New(Max(|rs|, 1), bitsPerKey).value, Keys(rs))
  }

  /** Its blocks are the fewest that give each of its keys the asked bits. */
  lemma FilterSized(rs: seq<Rec>, bitsPerKey: Byte)
    requires Bloom.New(Max(|rs|, 1), bitsPerKey).Ok?
    ensures var f := FilterFor(rs, bitsPerKey);
      var bits := if |rs| * bitsPerKey < 256 then 256 else |rs| * bitsPerKey;
      256 * (f.numBlocks - 1) < bits <= 256 * f.numBlocks && f.k == (if bitsPerKey <= 8 then bitsPerKey else 8)
  {
    hide Bloom.New, Bloom.InsertAll, Keys;
    Bloom.NewShape(Max(|rs|, 1), bitsPerKey);
    Bloom.InsertAllShape(Bloom.New(Max(|rs|, 1), bitsPerKey).value, Keys(rs));
  }

  function FilterBlob(rs: seq<Rec>, bitsPerKey: Byte): Str
    requires Bloom.New(Max(|rs|, 1), bitsPerKey).Ok?
  {
    var blob := Bloom.ToBytes(FilterFor(rs, bitsPerKey));
    if blob.Ok? then blob.value else []
  }

  /** What the engine may ask of a flush: options accepted, lengths representable. */
  ghost predicate Flushable(size: nat, bitsPerKey: Byte, rs: seq<Rec>) {
    size > 0 && Bloom.New(Max(|rs|, 1), bitsPerKey).Ok? && Buildable(Blocks(size, rs))
  }

  /** The bytes of the table file for `rs`. */
  function TableFile(crc: Checksum, size: nat, bitsPerKey: Byte, rs: seq<Rec>): Str
    requires Bloom.New(Max(|rs|, 1), bitsPerKey).Ok?
  {
    FileBytes(crc, Blocks(size, rs), FilterBlob(rs, bitsPerKey))
  }

  lemma StoredFilter(rs: seq<Rec>, bitsPerKey: Byte)
    requires Bloom.New(Max(|rs|, 1), bitsPerKey).Ok?
    ensures Bloom.FromBytes(FilterBlob(rs, bitsPerKey)) == Ok(FilterFor(rs, bitsPerKey))
    ensures forall r :: r in rs ==> Bloom.MayContain(FilterFor(rs, bitsPerKey), r.key)
  {
    hide Bloom.ToBytes, Bloom.FromBytes, Bloom.MayContain, Bloom.New, Bloom.InsertAll;
    Bloom.StoredFilterFinds(Max(|rs|, 1), bitsPerKey, Keys(rs));
    forall r | r in rs ensures r.key in Keys(rs) {
      var i :| 0 <= i < |rs| && rs[i] == r;
      assert Keys(rs)[i] == r.key;
    }
  }

  /**
    Flushing any table: its file opens, and a lookup of any non-empty key in the
    file answers what the table answers.
   */
  lemma FlushedTableAnswers(crc: Checksum, size: nat, bitsPerKey: Byte, t: Table, key: Str)
    requires Flushable(size, bitsPerKey, Iter(t)) && key != []
    requires |TableFile(crc, size, bitsPerKey, Iter(t))| < U64_LIMIT
    ensures var back := SstReader.OpenSst(crc, TableFile(crc, size, bitsPerKey, Iter(t)));
      back.Ok? && SstReader.Get(crc, back.value, key) == Ok(Answer(At(t, key)))
      && TellsLast(SstReader.Get(crc, back.value, key).value, RecsOf(t), key)
  {
    hide FilterFor, FilterBlob, Bloom.FromBytes, Bloom.MayContain, SstReader.OpenSst, SstReader.Get,
      FileBytes, Bloom.New, Buildable, Iter;
    var rs := Iter(t);
    IterAscending(t);
    FindIter(t, key);
    StoredFilter(rs, bitsPerKey);
    SstReader.SstRefinesMap(crc, size, rs, FilterBlob(rs, bitsPerKey), FilterFor(rs, bitsPerKey), key);
  }

  /** The footer a reader of the file's last bytes sees. */
  function ReadFooter(crc: Checksum, bytes: Str): Result<Footer> {
    if |bytes| < FOOTER_SIZE then Err(SstCorrupt) else DecodeFooter(crc, bytes[|bytes| - FOOTER_SIZE..])
  }

  /** The footer of a flushed table records how many entries it has and its highest number. */
  lemma FlushedFooter(crc: Checksum, size: nat, bitsPerKey: Byte, rs: seq<Rec>)
    requires Flushable(size, bitsPerKey, rs) && |TableFile(crc, size, bitsPerKey, rs)| < U64_LIMIT
    ensures var footer := ReadFooter(crc, TableFile(crc, size, bitsPerKey, rs));
      footer.Ok? && footer.value.maxSn == MaxSn(rs) && footer.value.minSn == MinSn(rs)
        && footer.value.entryCount == |rs| && footer.value.blockCount == |Blocks(size, rs)|
  {
    hide FilterBlob, FileBytes, Blocks, Buildable, EncodeFooter, DecodeFooter, Bloom.New, MaxSn, MinSn, FooterFits,
      SstReader.Placeable, DataBytes, IndexBytes;
    var bs, bl := Blocks(size, rs), FilterBlob(rs, bitsPerKey);
    PackLaws(size, rs);
    SstReader.Layout(crc, bs, bl);
    FooterRoundTrip(crc, FooterFor(bs, |bl|));
  }

  lemma BlockIsBuildable(bs: seq<seq<Rec>>, i: nat)
    requires Buildable(bs) && i < |bs|
    ensures BlockLen(bs[i]) < U32_LIMIT
  {
  }

  /** With representable lengths every add succeeds. */
  lemma AddsSucceed(size: nat, rs: seq<Rec>, n: nat)
    requires Buildable(Blocks(size, rs)) && n < |rs|
    ensures Addable(size, Pack(size, rs[..n]), rs[n]) && rs[n].sn < U64_LIMIT
  {
    hide BlockLen, Overflows;
    PackLaws(size, rs);
    BlocksGrow(size, rs, n);
    var bs, p := Blocks(size, rs), Pack(size, rs[..n]);
    SstReader.AllFitConcat(bs);
    assert Fits(rs[n]);
    if Overflows(size, p.cur, rs[n]) {
      var grown := p.blocks + [p.cur];
      assert grown[|p.blocks|] == p.cur;
      assert grown <= Pack(size, rs).blocks <= bs;
      assert bs[|p.blocks|] == p.cur;
      BlockIsBuildable(bs, |p.blocks|);
    }
  }

  lemma FinishSucceeds(size: nat, rs: seq<Rec>)
    requires Buildable(Blocks(size, rs))
    ensures var cur := Pack(size, rs).cur; cur == [] || BlockLen(cur) < U32_LIMIT
  {
    hide BlockLen;
    var p, bs := Pack(size, rs), Blocks(size, rs);
    if p.cur != [] { BlockIsBuildable(bs, |bs| - 1); }
  }

  /** Adds a whole stream. */
  method AddAll(w: SstWriter, rs: seq<Rec>) returns (res: Result<()>)
    requires w.Valid() && w.added == [] && forall i :: 0 <= i < |rs| ==> rs[i].sn < U64_LIMIT
    modifies w, w.bloom.words
    ensures Buildable(Blocks(w.blockSize, rs)) ==> res.Ok?
    ensures res.Ok? ==> w.Valid() && w.added == rs
  {
    hide Blocks, Pack, Addable, Buildable, DataBytes, EncodeAll, IndexBlob, IndexBytes, Bloom.InsertAll,
      Bloom.Sound, MinSn, MaxSn, Keys, DataLen;
    for i := 0 to |rs|
      invariant w.Valid() && w.added == rs[..i]
    {
      if Buildable(Blocks(w.blockSize, rs)) { AddsSucceed(w.blockSize, rs, i); }
      var ok := w.Add(rs[i]);
      if ok.Err? { return Err(ok.error); }
    }
    assert rs[..|rs|] == rs;
    return Ok(());
  }

  /** Writes a whole ordered table to a file. */
  method FlushTable(crc: Checksum, t: Table, size: nat, bitsPerKey: Byte) returns (res: Result<Str>)
    requires forall k :: k in t ==> t[k].sn < U64_LIMIT
    ensures Flushable(size, bitsPerKey, Iter(t)) ==> res.Ok?
    ensures res.Ok? ==>
      Bloom.New(Max(|Iter(t)|, 1), bitsPerKey).Ok? && res.value == TableFile(crc, size, bitsPerKey, Iter(t))
  {
    hide Bloom.New, Bloom.ToBytes, Bloom.InsertAll, Pack, FileBytes, Iter, Buildable, BlockLen, Blocks;
    var rs := Iter(t);
    forall i | 0 <= i < |rs| ensures rs[i].sn < U64_LIMIT { assert rs[i] in Elems(rs); }
    var made := Create(crc, |t|, size, bitsPerKey);
    if made.Err? { return Err(made.error); }
    var w := made.value;
    var ok := AddAll(w, rs);
    if ok.Err? { return Err(ok.error); }
    if Flushable(size, bitsPerKey, rs) { FinishSucceeds(size, rs); }
    var done := w.Finish();
    if done.Err? { return Err(done.error); }
    return Ok(w.file);
  }
}
