/**
  Opening an SSTable file and looking keys up in it: Bloom filter, binary search
  over first keys, scan of one block. The theorem is that on every file the
  format describes this equals plain lookup in the records.
 */
module SstReader {
  import opened Bytes
  import opened Records
  import opened SstCodec
  import opened SstFormat
  import Bloom

  /** Where a block's first key lies in the file, and the block itself. */
  datatype Slot = Slot(keyOff: nat, keyLen: nat, blockOffset: nat, blockLen: nat)

  datatype Reader = Reader(bytes: Str, bloom: Bloom.Filter, index: seq<Slot>)

  predicate Opened(rd: Reader) {
    && Bloom.Sound(rd.bloom)
    && forall i :: 0 <= i < |rd.index| ==> rd.index[i].keyOff + rd.index[i].keyLen <= |rd.bytes|
  }

  function SliceRange(bytes: Str, off: nat, len: nat): Result<Str> {
    if off + len > |bytes| then Err(SstCorrupt) else Ok(bytes[off..off + len])
  }

  /** Slots of the index blob from `off` on; `base` is where the blob starts in the file. */
  function ParseIndex(blob: Str, off: nat, base: nat): (res: Result<seq<Slot>>)
    requires off <= |blob|
    ensures res.Ok? ==> forall i :: 0 <= i < |res.value| ==>
      res.value[i].keyOff + res.value[i].keyLen <= base + |blob|
    decreases |blob| - off
  {
    if off == |blob| then Ok([])
    else
      match DecodeIndexEntry(blob, off)
      case Err(e) => Err(e)
      case Ok(entry) =>
        var keyOff := off + INDEX_ENTRY_SIZE;
        var keyEnd := keyOff + entry.firstKeyLen;
        if keyEnd > |blob| then Err(SstCorrupt)
        else
          match ParseIndex(blob, keyEnd, base)
          case Err(e) => Err(e)
          case Ok(rest) =>
            Ok([Slot(base + keyOff, entry.firstKeyLen, entry.blockOffset, entry.blockLen)] + rest)
  }

  method ComputeParseIndex(blob: Str, base: nat) returns (res: Result<seq<Slot>>)
    ensures res == ParseIndex(blob, 0, base)
  {
    hide DecodeIndexEntry;
    var slots, off := [], 0;
    PrefixedNone(ParseIndex(blob, 0, base));
    while off < |blob|
      invariant off <= |blob|
      invariant ParseIndex(blob, 0, base) == Prefixed(slots, ParseIndex(blob, off, base))
      decreases |blob| - off
    {
      var entry := DecodeIndexEntry(blob, off);
      if entry.Err? { return Err(entry.error); }
      var keyOff := off + INDEX_ENTRY_SIZE;
      var keyEnd := keyOff + entry.value.firstKeyLen;
      if keyEnd > |blob| { return Err(SstCorrupt); }
      var slot := Slot(base + keyOff, entry.value.firstKeyLen, entry.value.blockOffset, entry.value.blockLen);
      PrefixedStep(slots, slot, ParseIndex(blob, keyEnd, base));
      slots, off := slots + [slot], keyEnd;
    }
    assert slots + [] == slots;
    return Ok(slots);
  }

  function OpenSst(crc: Checksum, bytes: Str): (res: Result<Reader>)
    ensures res.Ok? ==> Opened(res.value) && res.value.bytes == bytes
  {
    if |bytes| < FOOTER_SIZE then Err(SstCorrupt)
    else
      match DecodeFooter(crc, bytes[|bytes| - FOOTER_SIZE..])
      case Err(e) => Err(e)
      case Ok(footer) =>
        match SliceRange(bytes, footer.indexOffset, footer.indexLen)
        case Err(e) => Err(e)
        case Ok(blob) =>
          match SliceRange(bytes, footer.bloomOffset, footer.bloomLen)
          case Err(e) => Err(e)
          case Ok(bloomBytes) =>
            match Bloom.FromBytes(bloomBytes)
            case Err(e) => Err(e)
            case Ok(bloom) =>
              match ParseIndex(blob, 0, footer.indexOffset)
              case Err(e) => Err(e)
              case Ok(index) =>
                if |index| != footer.blockCount then Err(SstCorrupt)
                else Ok(Reader(bytes, bloom, index))
  }

  function KeyOf(rd: Reader, i: nat): Str
    requires Opened(rd) && i < |rd.index|
  {
    rd.bytes[rd.index[i].keyOff..rd.index[i].keyOff + rd.index[i].keyLen]
  }

  predicate AtMost(a: Str, b: Str) { a == b || Less(a, b) }

  /** The bisection over first keys. */
  function Bisect(rd: Reader, key: Str, lo: nat, hi: nat): (i: nat)
    requires Opened(rd) && lo <= hi <= |rd.index|
    ensures lo <= i <= hi
    decreases hi - lo
  {
    if lo == hi then lo
    else
      var mid := lo + (hi - lo) / 2;
      if AtMost(KeyOf(rd, mid), key) then Bisect(rd, key, mid + 1, hi) else Bisect(rd, key, lo, mid)
  }

  function FindBlock(rd: Reader, key: Str): (b: Option<nat>)
    requires Opened(rd)
    ensures b.Some? ==> b.value < |rd.index|
  {
    var i := Bisect(rd, key, 0, |rd.index|);
    if i == 0 then None else Some(i - 1)
  }

  method ComputeFindBlock(rd: Reader, key: Str) returns (b: Option<nat>)
    requires Opened(rd)
    ensures b == FindBlock(rd, key)
  {
    hide KeyOf, AtMost, Opened;
    if |rd.index| == 0 { return None; }
    var lo, hi := 0, |rd.index|;
    while lo < hi
      invariant 0 <= lo <= hi <= |rd.index|
      invariant Bisect(rd, key, lo, hi) == Bisect(rd, key, 0, |rd.index|)
    {
      var mid := lo + (hi - lo) / 2;
      if AtMost(KeyOf(rd, mid), key) { lo := mid + 1; } else { hi := mid; }
    }
    if lo == 0 { return None; }
    return Some(lo - 1);
  }

  function LookupInBlock(crc: Checksum, rd: Reader, slot: Slot, key: Str): Result<Lookup> {
    match SliceRange(rd.bytes, slot.blockOffset, slot.blockLen)
    case Err(e) => Err(e)
    case Ok(block) =>
      match DecodeBlockHeader(block)
      case Err(e) => Err(e)
      case Ok(header) =>
        match SliceRange(block, BLOCK_HEADER_SIZE, header.payloadLen)
        case Err(e) => Err(e)
        case Ok(payload) =>
          if crc(payload) != header.crc then Err(SstCorrupt) else ScanSorted(payload, key, 0)
  }

  function Get(crc: Checksum, rd: Reader, key: Str): Result<Lookup>
    requires Opened(rd)
  {
    if key == [] then Err(EmptyKey)
    else if !Bloom.MayContain(rd.bloom, key) then Ok(Missing)
    else
      match FindBlock(rd, key)
      case None => Ok(Missing)
      case Some(i) => LookupInBlock(crc, rd, rd.index[i], key)
  }

  // ---------------------------------------------------------------------
  // What is checked before anything is answered
  // ---------------------------------------------------------------------

  /** In the file, where the slot says, lies a whole block: "BLK1", a payload length, and its payload's checksum. */
  ghost predicate BlockGood(crc: Checksum, bytes: Str, slot: Slot) {
    var at := slot.blockOffset;
    && at + slot.blockLen <= |bytes| && 16 <= slot.blockLen && bytes[at..at + 4] == [66, 76, 75, 49]
    && 16 + ReadLe(bytes, at + 8, 4) <= slot.blockLen
    && crc(PayloadOf(bytes, at)) == ReadLe(bytes, at + 4, 4)
  }

  /** The payload of the block at `at`, as long as its header says, or nothing. */
  function PayloadOf(bytes: Str, at: nat): Str {
    if at + 16 <= |bytes| && at + 16 + ReadLe(bytes, at + 8, 4) <= |bytes|
    then bytes[at + 16..at + 16 + ReadLe(bytes, at + 8, 4)] else []
  }

  /** A block is scanned exactly when it is whole and its checksum is right; any other is an error. */
  lemma LookupChecks(crc: Checksum, rd: Reader, slot: Slot, key: Str)
    ensures LookupInBlock(crc, rd, slot, key) ==
      if BlockGood(crc, rd.bytes, slot) then ScanSorted(PayloadOf(rd.bytes, slot.blockOffset), key, 0)
      else Err(SstCorrupt)
  {
    hide ScanSorted, Unle;
    var at := slot.blockOffset;
    if at + slot.blockLen <= |rd.bytes| && 16 <= slot.blockLen {
      var block := rd.bytes[at..at + slot.blockLen];
      BlockSlices(rd.bytes, at, slot.blockLen);
      var n := ReadLe(rd.bytes, at + 8, 4);
      if 16 + n <= slot.blockLen { SubSlice(rd.bytes, at, at + slot.blockLen, 16, 16 + n); }
    }
  }

  lemma BlockSlices(bytes: Str, at: nat, len: nat)
    requires at + len <= |bytes| && 16 <= len
    ensures var block := bytes[at..at + len];
      && block[0..4] == bytes[at..at + 4] && ReadLe(block, 4, 4) == ReadLe(bytes, at + 4, 4)
      && ReadLe(block, 8, 4) == ReadLe(bytes, at + 8, 4)
  {
    hide Unle;
    SubSlice(bytes, at, at + len, 0, 4);
    SubSlice(bytes, at, at + len, 4, 8);
    SubSlice(bytes, at, at + len, 8, 12);
  }

  /** The slots tile the index blob from `off` on: entry, first key, entry, first key, to its end. */
  ghost predicate Tiles(slots: seq<Slot>, blob: Str, off: nat, base: nat)
    decreases |slots|
  {
    if slots == [] then off == |blob|
    else
      && off + 16 + slots[0].keyLen <= |blob| && slots[0].keyOff == base + off + 16
      && DecodeIndexEntry(blob, off) == Ok(IndexEntry(slots[0].blockOffset, slots[0].blockLen, slots[0].keyLen))
      && Tiles(slots[1..], blob, off + 16 + slots[0].keyLen, base)
  }

  /** Exactly which index blobs are read, and as what. */
  lemma {:induction false} ParseIff(blob: Str, off: nat, base: nat, slots: seq<Slot>)
    requires off <= |blob|
    ensures ParseIndex(blob, off, base) == Ok(slots) <==> Tiles(slots, blob, off, base)
    decreases |blob| - off
  {
    hide DecodeIndexEntry;
    if off < |blob| && DecodeIndexEntry(blob, off).Ok? {
      var e := DecodeIndexEntry(blob, off).value;
      var next := off + 16 + e.firstKeyLen;
      if next <= |blob| {
        if slots != [] { ParseIff(blob, next, base, slots[1..]); }
        if ParseIndex(blob, off, base) == Ok(slots) { assert slots[1..] == ParseIndex(blob, next, base).value; }
        if Tiles(slots, blob, off, base) { assert slots == [slots[0]] + slots[1..]; }
      }
    }
  }

  /** What the last 128 bytes of a file say, if they are a footer. */
  ghost predicate FooterGood(crc: Checksum, foot: Str) {
    |foot| == 128 && foot[..6] == [83, 83, 84, 49, 1, 0] && foot[72..76] == Le(crc(foot[..72]), 4)
  }

  /** The reader is what footer, index area and filter area of the file say. */
  ghost predicate ReadsFile(crc: Checksum, bytes: Str, rd: Reader) {
    |bytes| >= 128 &&
    var foot := bytes[|bytes| - 128..];
    var io, il, bo, bl := ReadLe(foot, 8, 8), ReadLe(foot, 16, 8), ReadLe(foot, 24, 8), ReadLe(foot, 32, 8);
    && rd.bytes == bytes && FooterGood(crc, foot) && |rd.index| == ReadLe(foot, 48, 8)
    && io + il <= |bytes| && Tiles(rd.index, bytes[io..io + il], 0, io)
    && bo + bl <= |bytes| && Bloom.FromBytes(bytes[bo..bo + bl]) == Ok(rd.bloom)
  }

  /** Exactly which files open, and to which reader. */
  lemma OpenIff(crc: Checksum, bytes: Str, rd: Reader)
    ensures OpenSst(crc, bytes) == Ok(rd) <==> ReadsFile(crc, bytes, rd)
  {
    hide Bloom.FromBytes, ParseIndex, Tiles, Unle, Le;
    if |bytes| >= 128 {
      var foot := bytes[|bytes| - 128..];
      FooterIff(crc, foot);
      var io, il := ReadLe(foot, 8, 8), ReadLe(foot, 16, 8);
      if io + il <= |bytes| { ParseIff(bytes[io..io + il], 0, io, rd.index); }
    }
  }

  /** A file whose footer does not match its checksum is refused. */
  lemma CorruptFooterRefused(crc: Checksum, bytes: Str)
    requires |bytes| < 128 || !FooterGood(crc, bytes[|bytes| - 128..])
    ensures OpenSst(crc, bytes) == Err(SstCorrupt)
  {
    hide Bloom.FromBytes, ParseIndex, Le, Unle;
    if |bytes| >= 128 { FooterIff(crc, bytes[|bytes| - 128..]); }
  }

  /**
    No answer is made up, whatever the file: a value returned is that of a record on the
    key whose bytes lie in a block of the file with the right checksum.
   */
  lemma AnswersAreStored(crc: Checksum, rd: Reader, key: Str, n: nat, v: Str)
    requires Opened(rd) && Get(crc, rd, key) == Ok(Alive(n, v))
    ensures key != [] && exists i, at: nat ::
      0 <= i < |rd.index| && BlockGood(crc, rd.bytes, rd.index[i])
      && RecordAt(PayloadOf(rd.bytes, rd.index[i].blockOffset), at, Rec(key, n, Put(v)))
  {
    hide Bloom.MayContain, FindBlock, ScanSorted, LookupInBlock, BlockGood, PayloadOf, RecordAt;
    var i := FindBlock(rd, key).value;
    LookupChecks(crc, rd, rd.index[i], key);
    ScanFinds(PayloadOf(rd.bytes, rd.index[i].blockOffset), key, 0);
  }

  /** An empty key is refused; a key the filter excludes is missing, and no block is looked at. */
  lemma FilterFirst(crc: Checksum, rd: Reader, key: Str)
    requires Opened(rd)
    ensures Get(crc, rd, key) == Err(EmptyKey) <==> key == []
    ensures key != [] && !Bloom.MayContain(rd.bloom, key) ==> Get(crc, rd, key) == Ok(Missing)
  {
    hide Bloom.MayContain, FindBlock, ScanSorted, BlockGood, LookupInBlock;
    if key != [] && Bloom.MayContain(rd.bloom, key) && FindBlock(rd, key).Some? {
      var slot := rd.index[FindBlock(rd, key).value];
      LookupChecks(crc, rd, slot, key);
      ScanErrors(PayloadOf(rd.bytes, slot.blockOffset), key, 0);
    }
  }

  lemma {:induction false} ScanErrors(payload: Str, key: Str, off: nat)
    requires off <= |payload|
    ensures ScanSorted(payload, key, off).Err? ==> ScanSorted(payload, key, off).error == SstCorrupt
    decreases |payload| - off
  {
    hide ReadLe, Less;
    if off < |payload| && ParseRaw(payload, off).Ok? {
      RawAdvances(payload, off);
      ScanErrors(payload, key, ParseRaw(payload, off).value.next);
    }
  }

  // ---------------------------------------------------------------------
  // Binary search
  // ---------------------------------------------------------------------

  ghost predicate AscendingIndex(rd: Reader)
    requires Opened(rd)
  {
    forall i, j :: 0 <= i < j < |rd.index| ==> Less(KeyOf(rd, i), KeyOf(rd, j))
  }

  lemma BelowMid(rd: Reader, key: Str, mid: nat)
    requires Opened(rd) && AscendingIndex(rd) && mid < |rd.index| && AtMost(KeyOf(rd, mid), key)
    ensures forall i :: 0 <= i <= mid ==> AtMost(KeyOf(rd, i), key)
  {
    hide KeyOf, Less, Opened;
    var at := KeyOf(rd, mid);
    forall i | 0 <= i < mid ensures AtMost(KeyOf(rd, i), key) {
      if at != key { LessTransitive(KeyOf(rd, i), at, key); }
    }
  }

  lemma AboveMid(rd: Reader, key: Str, mid: nat)
    requires Opened(rd) && AscendingIndex(rd) && mid < |rd.index| && Less(key, KeyOf(rd, mid))
    ensures forall i :: mid <= i < |rd.index| ==> Less(key, KeyOf(rd, i))
  {
    hide KeyOf, Less, Opened;
    var at := KeyOf(rd, mid);
    forall i | mid < i < |rd.index| ensures Less(key, KeyOf(rd, i)) { LessTransitive(key, at, KeyOf(rd, i)); }
  }

  lemma {:induction false} BisectSplits(rd: Reader, key: Str, lo: nat, hi: nat)
    requires Opened(rd) && AscendingIndex(rd) && lo <= hi <= |rd.index|
    requires forall i :: 0 <= i < lo ==> AtMost(KeyOf(rd, i), key)
    requires forall i :: hi <= i < |rd.index| ==> Less(key, KeyOf(rd, i))
    ensures var m := Bisect(rd, key, lo, hi);
      && (forall i :: 0 <= i < m ==> AtMost(KeyOf(rd, i), key))
      && (forall i :: m <= i < |rd.index| ==> Less(key, KeyOf(rd, i)))
    decreases hi - lo
  {
    hide KeyOf, Less, Opened, AscendingIndex;
    if lo < hi {
      var mid := lo + (hi - lo) / 2;
      LessTotal(KeyOf(rd, mid), key);
      if AtMost(KeyOf(rd, mid), key) {
        BelowMid(rd, key, mid);
        BisectSplits(rd, key, mid + 1, hi);
      } else {
        AboveMid(rd, key, mid);
        BisectSplits(rd, key, lo, mid);
      }
    }
  }

  /** On ascending first keys: the last block whose first key is at most the key, if any. */
  lemma FindBlockIsLast(rd: Reader, key: Str)
    requires Opened(rd) && AscendingIndex(rd)
    ensures match FindBlock(rd, key)
      case None => forall i :: 0 <= i < |rd.index| ==> Less(key, KeyOf(rd, i))
      case Some(b) =>
        && AtMost(KeyOf(rd, b), key)
        && forall i :: b < i < |rd.index| ==> Less(key, KeyOf(rd, i))
  {
    hide KeyOf;
    BisectSplits(rd, key, 0, |rd.index|);
  }

  // ---------------------------------------------------------------------
  // The index of a written file
  // ---------------------------------------------------------------------

  /** The slots of blocks starting at `off`, whose index entries start at file offset `at`. */
  function SlotsOf(bs: seq<seq<Rec>>, off: nat, at: nat): (ss: seq<Slot>)
    ensures |ss| == |bs|
  {
    if bs == [] then []
    else
      var k := |FirstKey(bs[0])|;
      [Slot(at + INDEX_ENTRY_SIZE, k, off, BlockLen(bs[0]))]
        + SlotsOf(bs[1..], off + BlockLen(bs[0]), at + INDEX_ENTRY_SIZE + k)
  }

  /** Blocks placed from `off` on have representable offsets and lengths. */
  ghost predicate Placeable(bs: seq<seq<Rec>>, off: nat) {
    Buildable(bs) && off + DataLen(bs) < U64_LIMIT
      && forall i :: 0 <= i < |bs| ==> |FirstKey(bs[i])| < U32_LIMIT
  }

  lemma PlaceableRest(bs: seq<seq<Rec>>, off: nat)
    requires Placeable(bs, off) && bs != []
    ensures Placeable(bs[1..], off + BlockLen(bs[0]))
  {
    hide BlockLen;
  }

  lemma {:induction false} ParseWritten(blob: Str, off: nat, base: nat, bs: seq<seq<Rec>>, blockOff: nat)
    requires Placeable(bs, blockOff)
    requires off <= |blob| && blob[off..] == IndexBytes(bs, blockOff)
    ensures ParseIndex(blob, off, base) == Ok(SlotsOf(bs, blockOff, base + off))
    decreases |bs|
  {
    hide BlockLen, EncodeIndexEntry, DecodeIndexEntry, Placeable, FirstKey;
    if bs == [] {
      assert off == |blob|;
    } else {
      hide ParseIndex;
      var b, tail := bs[0], bs[1..];
      var e, k := EntryFor(b, blockOff), FirstKey(b);
      var next := blockOff + BlockLen(b);
      assert IndexBytes(bs, blockOff) == EncodeIndexEntry(e) + k + IndexBytes(tail, next);
      PlaceableFirst(bs, blockOff);
      PlaceableRest(bs, blockOff);
      hide IndexBytes;
      IndexParts(blob, off, EncodeIndexEntry(e), k, IndexBytes(tail, next));
      IndexEntryRoundTrip(blob, off, e);
      ParseWritten(blob, off + INDEX_ENTRY_SIZE + |k|, base, tail, next);
      ParseStep(blob, off, base, e, SlotsOf(tail, next, base + off + INDEX_ENTRY_SIZE + |k|));
    }
  }

  lemma ParseStep(blob: Str, off: nat, base: nat, e: IndexEntry, rest: seq<Slot>)
    requires off < |blob| && DecodeIndexEntry(blob, off) == Ok(e)
    requires off + INDEX_ENTRY_SIZE + e.firstKeyLen <= |blob|
    requires ParseIndex(blob, off + INDEX_ENTRY_SIZE + e.firstKeyLen, base) == Ok(rest)
    ensures ParseIndex(blob, off, base)
         == Ok([Slot(base + off + INDEX_ENTRY_SIZE, e.firstKeyLen, e.blockOffset, e.blockLen)] + rest)
  {
    hide DecodeIndexEntry;
  }

  lemma PlaceableFirst(bs: seq<seq<Rec>>, off: nat)
    requires Placeable(bs, off) && bs != []
    ensures off < U64_LIMIT && BlockLen(bs[0]) < U32_LIMIT && |FirstKey(bs[0])| < U32_LIMIT
  {
    hide BlockLen, AllFit;
  }

  lemma IndexParts(blob: Str, off: nat, e: Str, k: Str, rest: Str)
    requires |e| == INDEX_ENTRY_SIZE && off <= |blob| && blob[off..] == e + k + rest
    ensures off + INDEX_ENTRY_SIZE + |k| <= |blob|
    ensures blob[off..off + INDEX_ENTRY_SIZE] == e
    ensures blob[off + INDEX_ENTRY_SIZE..off + INDEX_ENTRY_SIZE + |k|] == k
    ensures blob[off + INDEX_ENTRY_SIZE + |k|..] == rest
  {
    SubSlice(blob, off, |blob|, 0, |e|);
    SubSlice(blob, off, |blob|, |e|, |e| + |k|);
    SubSlice(blob, off, |blob|, |e| + |k|, |blob| - off);
  }

  lemma SliceBehind(a: Str, b: Str, lo: nat, hi: nat)
    requires lo <= hi <= |b|
    ensures (a + b)[|a| + lo..|a| + hi] == b[lo..hi]
  {
    assert (a + b)[|a|..] == b;
    SubSlice(a + b, |a|, |a + b|, lo, hi);
  }

  /** Slot `i` points at block `i` and, in the index blob, at its first key. */
  lemma {:induction false} SlotPlace(bs: seq<seq<Rec>>, off: nat, at: nat, i: nat)
    requires i < |bs|
    ensures var s, blob := SlotsOf(bs, off, at)[i], IndexBytes(bs, off);
      && s.blockOffset == off + DataLen(bs[..i]) && s.blockLen == BlockLen(bs[i])
      && at <= s.keyOff && s.keyOff - at + s.keyLen <= |blob|
      && blob[s.keyOff - at..s.keyOff - at + s.keyLen] == FirstKey(bs[i])
  {
    hide BlockLen, EncodeIndexEntry, FirstKey;
    var k := FirstKey(bs[0]);
    var front := EncodeIndexEntry(EntryFor(bs[0], off)) + k;
    var rest := IndexBytes(bs[1..], off + BlockLen(bs[0]));
    assert IndexBytes(bs, off) == front + rest;
    if i == 0 {
      assert (front + rest)[INDEX_ENTRY_SIZE..INDEX_ENTRY_SIZE + |k|] == k;
    } else {
      SlotPlace(bs[1..], off + BlockLen(bs[0]), at + |front|, i - 1);
      assert bs[..i][0] == bs[0] && bs[..i][1..] == bs[1..][..i - 1];
      var s := SlotsOf(bs[1..], off + BlockLen(bs[0]), at + |front|)[i - 1];
      assert SlotsOf(bs, off, at)[i] == s;
      SliceBehind(front, rest, s.keyOff - at - |front|, s.keyOff - at - |front| + s.keyLen);
    }
  }

  // ---------------------------------------------------------------------
  // Opening a written file
  // ---------------------------------------------------------------------

  /** Blocks and a filter blob that make a representable file. */
  ghost predicate Writable(crc: Checksum, bs: seq<seq<Rec>>, bl: Str) {
    Buildable(bs) && |FileBytes(crc, bs, bl)| < U64_LIMIT
  }

  lemma FourParts(a: Str, b: Str, c: Str, d: Str)
    ensures var s := a + b + c + d;
      && s[..|a|] == a && s[|a|..|a| + |b|] == b && s[|a| + |b|..|a| + |b| + |c|] == c
      && s[|s| - |d|..] == d
  {
  }

  lemma {:induction false} ConcatLength(bs: seq<seq<Rec>>)
    ensures |Concat(bs)| <= DataLen(bs) && |bs| <= DataLen(bs)
    ensures (forall i :: 0 <= i < |bs| ==> |FirstKey(bs[i])| <= DataLen(bs))
  {
    if bs != [] {
      ConcatLength(bs[1..]);
      RecordsTakeSpace(bs[0]);
      forall i | 0 <= i < |bs| ensures |FirstKey(bs[i])| <= DataLen(bs) {
        if i > 0 { assert bs[i] == bs[1..][i - 1]; }
      }
    }
  }

  lemma {:induction false} RecordsTakeSpace(b: seq<Rec>)
    ensures |b| <= |EncodeAll(b)| && |FirstKey(b)| <= |EncodeAll(b)|
  {
    hide EncodeRecord;
    if b != [] { RecordsTakeSpace(b[1..]); }
  }

  lemma {:induction false} SnBounds(rs: seq<Rec>)
    requires AllFit(rs)
    ensures MinSn(rs) < U64_LIMIT && MaxSn(rs) < U64_LIMIT
  {
    if rs != [] {
      assert Fits(rs[|rs| - 1]);
      SnBounds(rs[..|rs| - 1]);
    }
  }

  lemma {:induction false} AllFitConcat(bs: seq<seq<Rec>>)
    requires Buildable(bs)
    ensures AllFit(Concat(bs))
  {
    hide BlockLen, Fits;
    if bs != [] {
      assert Buildable(bs[1..]);
      AllFitConcat(bs[1..]);
    }
  }

  /** The file's four areas have the lengths and offsets the footer says, and all fit. */
  lemma Layout(crc: Checksum, bs: seq<seq<Rec>>, bl: Str)
    requires Writable(crc, bs, bl)
    ensures var file := FileBytes(crc, bs, bl);
      var n, m := DataLen(bs), |IndexBytes(bs, 0)|;
      && |file| == n + m + |bl| + FOOTER_SIZE
      && file[..n] == DataBytes(crc, bs) && file[n..n + m] == IndexBytes(bs, 0)
      && file[n + m..n + m + |bl|] == bl
      && file[|file| - FOOTER_SIZE..] == EncodeFooter(crc, FooterFor(bs, |bl|))
      && FooterFits(FooterFor(bs, |bl|)) && Placeable(bs, 0)
  {
    hide EncodeFooter, BlockLen, IndexBytes, EncodeAll;
    DataLength(crc, bs);
    FourParts(DataBytes(crc, bs), IndexBytes(bs, 0), bl, EncodeFooter(crc, FooterFor(bs, |bl|)));
    ConcatLength(bs);
    AllFitConcat(bs);
    SnBounds(Concat(bs));
    forall i | 0 <= i < |bs| ensures |FirstKey(bs[i])| < U32_LIMIT {
      assert BlockLen(bs[i]) < U32_LIMIT;
      FirstKeyShort(bs[i]);
    }
  }

  lemma FirstKeyShort(b: seq<Rec>)
    ensures |FirstKey(b)| <= BlockLen(b)
  {
    RecordsTakeSpace(b);
  }

  /** The reader every written file opens to. */
  ghost function ReaderFor(crc: Checksum, bs: seq<seq<Rec>>, bl: Str, f: Bloom.Filter): Reader {
    Reader(FileBytes(crc, bs, bl), f, SlotsOf(bs, 0, DataLen(bs)))
  }

  lemma OpenParts(crc: Checksum, bytes: Str, n: nat, m: nat, bl: Str, footer: Footer, f: Bloom.Filter, index: seq<Slot>)
    requires |bytes| >= FOOTER_SIZE && DecodeFooter(crc, bytes[|bytes| - FOOTER_SIZE..]) == Ok(footer)
    requires footer.indexOffset == n && footer.indexLen == m && footer.bloomOffset == n + m
    requires footer.bloomLen == |bl| && footer.blockCount == |index|
    requires n + m + |bl| <= |bytes| && bytes[n + m..n + m + |bl|] == bl
    requires Bloom.FromBytes(bl) == Ok(f) && ParseIndex(bytes[n..n + m], 0, n) == Ok(index)
    ensures OpenSst(crc, bytes) == Ok(Reader(bytes, f, index))
  {
    hide Bloom.FromBytes, DecodeFooter, ParseIndex;
  }

  lemma OpenWritten(crc: Checksum, bs: seq<seq<Rec>>, bl: Str, f: Bloom.Filter)
    requires Writable(crc, bs, bl) && Bloom.FromBytes(bl) == Ok(f)
    ensures OpenSst(crc, FileBytes(crc, bs, bl)) == Ok(ReaderFor(crc, bs, bl, f))
    ensures Opened(ReaderFor(crc, bs, bl, f))
  {
    hide Bloom.FromBytes, EncodeFooter, DecodeFooter, BlockLen, IndexBytes, FileBytes, FooterFits,
      Placeable, OpenSst, ParseIndex, Writable, Opened, DataLen, SlotsOf, MinSn, MaxSn, Concat;
    Layout(crc, bs, bl);
    FooterRoundTrip(crc, FooterFor(bs, |bl|));
    var blob, n := IndexBytes(bs, 0), DataLen(bs);
    assert blob[0..] == blob;
    ParseWritten(blob, 0, n, bs, 0);
    OpenParts(crc, FileBytes(crc, bs, bl), n, |blob|, bl, FooterFor(bs, |bl|), f, SlotsOf(bs, 0, n));
  }

  // ---------------------------------------------------------------------
  // Lookup in a written file
  // ---------------------------------------------------------------------

  lemma KeyOfWritten(crc: Checksum, bs: seq<seq<Rec>>, bl: Str, f: Bloom.Filter, i: nat)
    requires Writable(crc, bs, bl) && Opened(ReaderFor(crc, bs, bl, f)) && i < |bs|
    ensures KeyOf(ReaderFor(crc, bs, bl, f), i) == FirstKey(bs[i])
  {
    hide FileBytes, SlotsOf, Writable, FirstKey;
    KeyInFile(crc, bs, bl, i);
  }

  lemma KeyInFile(crc: Checksum, bs: seq<seq<Rec>>, bl: Str, i: nat)
    requires Writable(crc, bs, bl) && i < |bs|
    ensures var s, bytes := SlotsOf(bs, 0, DataLen(bs))[i], FileBytes(crc, bs, bl);
      s.keyOff + s.keyLen <= |bytes| && bytes[s.keyOff..s.keyOff + s.keyLen] == FirstKey(bs[i])
  {
    hide FileBytes, IndexBytes, SlotsOf, FooterFits, Placeable, EncodeFooter, Writable, BlockLen, DataLen,
      FirstKey, DataBytes;
    Layout(crc, bs, bl);
    var n := DataLen(bs);
    var s := SlotsOf(bs, 0, n)[i];
    SlotPlace(bs, 0, n, i);
    SubSlice(FileBytes(crc, bs, bl), n, n + |IndexBytes(bs, 0)|, s.keyOff - n, s.keyOff - n + s.keyLen);
  }

  lemma BlockOfWritten(crc: Checksum, bs: seq<seq<Rec>>, bl: Str, f: Bloom.Filter, i: nat)
    requires Writable(crc, bs, bl) && i < |bs|
    ensures var rd := ReaderFor(crc, bs, bl, f);
      SliceRange(rd.bytes, rd.index[i].blockOffset, rd.index[i].blockLen) == Ok(BlockBytes(crc, bs[i]))
  {
    hide FileBytes, IndexBytes, SlotsOf, BlockBytes, BlockLen, Writable, DataBytes;
    var bytes, n := FileBytes(crc, bs, bl), DataLen(bs);
    BlockInFile(crc, bs, bl, i);
    SlotPlace(bs, 0, n, i);
  }

  lemma BlockInFile(crc: Checksum, bs: seq<seq<Rec>>, bl: Str, i: nat)
    requires Writable(crc, bs, bl) && i < |bs|
    ensures var at, bytes := DataLen(bs[..i]), FileBytes(crc, bs, bl);
      at + BlockLen(bs[i]) <= |bytes| && bytes[at..at + BlockLen(bs[i])] == BlockBytes(crc, bs[i])
  {
    hide FileBytes, IndexBytes, FooterFits, Placeable, EncodeFooter, BlockBytes, BlockLen, Writable, DataBytes;
    Layout(crc, bs, bl);
    BlockPlace(crc, bs, i);
    SubSlice(FileBytes(crc, bs, bl), 0, DataLen(bs), DataLen(bs[..i]), DataLen(bs[..i + 1]));
  }

  lemma WritableBlock(crc: Checksum, bs: seq<seq<Rec>>, bl: Str, i: nat)
    requires Writable(crc, bs, bl) && i < |bs|
    ensures BlockLen(bs[i]) < U32_LIMIT && AllFit(bs[i])
  {
    hide BlockLen, FileBytes, AllFit;
  }

  /** The slice of an intact block is looked up in as its records. */
  lemma IntactBlock(crc: Checksum, rd: Reader, slot: Slot, b: seq<Rec>, key: Str)
    requires SliceRange(rd.bytes, slot.blockOffset, slot.blockLen) == Ok(BlockBytes(crc, b))
    requires BlockLen(b) < U32_LIMIT && AllFit(b) && Ascending(b)
    ensures LookupInBlock(crc, rd, slot, key) == Ok(Answer(Find(b, key)))
  {
    hide EncodeAll, EncodeBlockHeader, DecodeBlockHeader, ScanSorted, DecodeRecords, AllFit, Answer, Find;
    RecordsTakeSpace(b);
    BlockHeaderRoundTrip(HeaderOf(crc, b), EncodeAll(b));
    assert BlockBytes(crc, b)[BLOCK_HEADER_SIZE..BLOCK_HEADER_SIZE + |EncodeAll(b)|] == EncodeAll(b);
    DecodeUndoesEncode(b);
    ScanRefinesLookup(EncodeAll(b), key);
  }

  lemma LookupWritten(crc: Checksum, bs: seq<seq<Rec>>, bl: Str, f: Bloom.Filter, i: nat, key: Str)
    requires Writable(crc, bs, bl) && i < |bs| && Ascending(bs[i])
    ensures var rd := ReaderFor(crc, bs, bl, f);
      LookupInBlock(crc, rd, rd.index[i], key) == Ok(Answer(Find(bs[i], key)))
  {
    hide Writable, LookupInBlock, BlockBytes, BlockLen, SliceRange, FileBytes, AllFit, Answer, Find;
    BlockOfWritten(crc, bs, bl, f, i);
    WritableBlock(crc, bs, bl, i);
    IntactBlock(crc, ReaderFor(crc, bs, bl, f), ReaderFor(crc, bs, bl, f).index[i], bs[i], key);
  }

  // ---------------------------------------------------------------------
  // Ordered blocks
  // ---------------------------------------------------------------------

  lemma {:induction false} ConcatAt(bs: seq<seq<Rec>>, i: nat, j: nat)
    requires i < |bs| && j < |bs[i]|
    ensures |Concat(bs[..i])| + j < |Concat(bs)| && Concat(bs)[|Concat(bs[..i])| + j] == bs[i][j]
  {
    assert bs == bs[..i] + bs[i..];
    ConcatAppend(bs[..i], bs[i..]);
    assert Concat(bs[i..]) == bs[i] + Concat(bs[i..][1..]);
  }

  /** Blocks of an ordered stream are ordered, and earlier blocks hold smaller keys. */
  lemma BlocksAscend(bs: seq<seq<Rec>>, i: nat, j: nat, p: nat, q: nat)
    requires Ascending(Concat(bs)) && i < |bs| && p < |bs[i]| && j < |bs| && q < |bs[j]|
    requires i < j || (i == j && p < q)
    ensures Less(bs[i][p].key, bs[j][q].key)
  {
    ConcatAt(bs, i, p);
    ConcatAt(bs, j, q);
    if i < j {
      assert bs[..j] == bs[..i] + [bs[i]] + bs[i + 1..j];
      ConcatAppend(bs[..i] + [bs[i]], bs[i + 1..j]);
      ConcatSnoc(bs[..i], bs[i]);
    }
  }

  /** The first keys of the index are strictly ascending for an ascending stream. */
  lemma IndexAscends(crc: Checksum, bs: seq<seq<Rec>>, bl: Str, f: Bloom.Filter)
    requires Writable(crc, bs, bl) && Opened(ReaderFor(crc, bs, bl, f))
    requires Ascending(Concat(bs)) && forall i :: 0 <= i < |bs| ==> bs[i] != []
    ensures AscendingIndex(ReaderFor(crc, bs, bl, f))
  {
    hide Writable, KeyOf, Opened;
    var rd := ReaderFor(crc, bs, bl, f);
    assert |rd.index| == |bs|;
    hide ReaderFor;
    forall i, j | 0 <= i < j < |rd.index| ensures Less(KeyOf(rd, i), KeyOf(rd, j)) {
      KeyOfWritten(crc, bs, bl, f, i);
      KeyOfWritten(crc, bs, bl, f, j);
      BlocksAscend(bs, i, j, 0, 0);
    }
  }

  /** No record of these blocks has the key. */
  ghost predicate Without(bs: seq<seq<Rec>>, key: Str) {
    forall i, j :: 0 <= i < |bs| && 0 <= j < |bs[i]| ==> bs[i][j].key != key
  }

  lemma {:induction false} FindWithout(bs: seq<seq<Rec>>, key: Str)
    requires Without(bs, key)
    ensures Find(Concat(bs), key) == None
  {
    if bs != [] {
      forall j | 0 <= j < |bs[0]| ensures bs[0][j].key != key {}
      FindNone(bs[0], key);
      FindConcat(bs[0], Concat(bs[1..]), key);
      assert Without(bs[1..], key) by {
        forall i, j | 0 <= i < |bs[1..]| && 0 <= j < |bs[1..][i]| ensures bs[1..][i][j].key != key {
          assert bs[1..][i] == bs[i + 1];
        }
      }
      FindWithout(bs[1..], key);
    }
  }

  /** All first keys of `bs` from `from` on are larger than the key. */
  lemma LaterWithout(bs: seq<seq<Rec>>, from: nat, key: Str)
    requires Ascending(Concat(bs)) && from <= |bs|
    requires forall i :: from <= i < |bs| ==> bs[i] != [] && Less(key, FirstKey(bs[i]))
    ensures Without(bs[from..], key)
  {
    forall i, j | 0 <= i < |bs[from..]| && 0 <= j < |bs[from..][i]| ensures bs[from..][i][j].key != key {
      var b := bs[from + i];
      assert bs[from..][i] == b;
      if j > 0 {
        BlocksAscend(bs, from + i, from + i, 0, j);
        LessTransitive(key, b[0].key, b[j].key);
      }
      LessAsymmetric(key, b[j].key);
    }
  }

  lemma EarlierWithout(bs: seq<seq<Rec>>, at: nat, key: Str)
    requires Ascending(Concat(bs)) && at < |bs| && bs[at] != [] && AtMost(FirstKey(bs[at]), key)
    ensures Without(bs[..at], key)
  {
    forall i, j | 0 <= i < at && 0 <= j < |bs[..at][i]| ensures bs[..at][i][j].key != key {
      BlocksAscend(bs, i, at, j, 0);
      var k := bs[i][j].key;
      if FirstKey(bs[at]) != key { LessTransitive(k, FirstKey(bs[at]), key); }
      LessAsymmetric(k, key);
    }
  }

  /** A key stored anywhere can only be in the last block whose first key is at most it. */
  lemma OnlyInThatBlock(bs: seq<seq<Rec>>, at: nat, key: Str)
    requires Ascending(Concat(bs)) && at < |bs| && forall i :: 0 <= i < |bs| ==> bs[i] != []
    requires AtMost(FirstKey(bs[at]), key)
    requires forall i :: at < i < |bs| ==> Less(key, FirstKey(bs[i]))
    ensures Find(Concat(bs), key) == Find(bs[at], key) && Ascending(bs[at])
  {
    EarlierWithout(bs, at, key);
    LaterWithout(bs, at + 1, key);
    FindWithout(bs[..at], key);
    FindWithout(bs[at + 1..], key);
    assert bs == (bs[..at] + [bs[at]]) + bs[at + 1..];
    ConcatAppend(bs[..at] + [bs[at]], bs[at + 1..]);
    ConcatSnoc(bs[..at], bs[at]);
    FindConcat(Concat(bs[..at]) + bs[at], Concat(bs[at + 1..]), key);
    FindConcat(Concat(bs[..at]), bs[at], key);
    forall p, q | 0 <= p < q < |bs[at]| ensures Less(bs[at][p].key, bs[at][q].key) {
      BlocksAscend(bs, at, at, p, q);
    }
  }

  // ---------------------------------------------------------------------
  // The theorem
  // ---------------------------------------------------------------------

  lemma FoundKeyListed(rs: seq<Rec>, key: Str)
    ensures Find(rs, key).Some? ==> exists i :: 0 <= i < |rs| && rs[i].key == key
  {
    if forall i :: 0 <= i < |rs| ==> rs[i].key != key { FindNone(rs, key); }
  }

  /** Path without the filter: search the index, scan the block. */
  lemma SearchWritten(crc: Checksum, bs: seq<seq<Rec>>, bl: Str, f: Bloom.Filter, key: Str)
    requires Writable(crc, bs, bl) && Opened(ReaderFor(crc, bs, bl, f))
    requires Ascending(Concat(bs)) && forall i :: 0 <= i < |bs| ==> bs[i] != []
    ensures var rd := ReaderFor(crc, bs, bl, f);
      match FindBlock(rd, key)
      case None => Find(Concat(bs), key) == None
      case Some(i) => LookupInBlock(crc, rd, rd.index[i], key) == Ok(Answer(Find(Concat(bs), key)))
  {
    hide Writable, KeyOf, Opened, LookupInBlock, FindBlock, Less;
    var rd := ReaderFor(crc, bs, bl, f);
    assert |rd.index| == |bs|;
    hide ReaderFor;
    IndexAscends(crc, bs, bl, f);
    FindBlockIsLast(rd, key);
    forall i | 0 <= i < |bs| ensures KeyOf(rd, i) == FirstKey(bs[i]) { KeyOfWritten(crc, bs, bl, f, i); }
    match FindBlock(rd, key)
    case None =>
      LaterWithout(bs, 0, key);
      assert bs[0..] == bs;
      FindWithout(bs, key);
    case Some(i) =>
      OnlyInThatBlock(bs, i, key);
      LookupWritten(crc, bs, bl, f, i, key);
  }

  /**
    An SSTable refines a map. For every ascending stream of records, cut into
    blocks of any size, with a filter that holds its keys: the file opens, and a
    lookup of any non-empty key, present or not, is lookup in the stream.
   */
  lemma SstRefinesMap(crc: Checksum, size: nat, rs: seq<Rec>, bl: Str, f: Bloom.Filter, key: Str)
    requires Ascending(rs) && Writable(crc, Blocks(size, rs), bl) && key != []
    requires Bloom.FromBytes(bl) == Ok(f) && forall r :: r in rs ==> Bloom.MayContain(f, r.key)
    ensures var back := OpenSst(crc, FileBytes(crc, Blocks(size, rs), bl));
      back.Ok? && Get(crc, back.value, key) == Ok(Answer(Find(rs, key)))
      && TellsLast(Get(crc, back.value, key).value, Elems(rs), key)
  {
    hide Writable, LookupInBlock, FindBlock, Bloom.MayContain, OpenSst, Blocks, WellFilled, Get,
      Bloom.Sound, Bloom.FromBytes, FileBytes, SlotsOf, Less, Opened, Tight, Ascending, Find, TellsLast, Answer;
    FindTells(rs, key);
    var bs := Blocks(size, rs);
    NoEmptyBlock(size, rs);
    OpenWritten(crc, bs, bl, f);
    SearchWritten(crc, bs, bl, f, key);
    FoundKeyListed(rs, key);
    GetBySearch(crc, ReaderFor(crc, bs, bl, f), rs, key);
  }

  lemma NoEmptyBlock(size: nat, rs: seq<Rec>)
    ensures Concat(Blocks(size, rs)) == rs
    ensures forall i :: 0 <= i < |Blocks(size, rs)| ==> Blocks(size, rs)[i] != []
  {
    PackLaws(size, rs);
    hide Blocks;
    forall i | 0 <= i < |Blocks(size, rs)| ensures Blocks(size, rs)[i] != [] {
      assert WellFilled(size, Blocks(size, rs)[i]);
    }
  }

  lemma GetBySearch(crc: Checksum, rd: Reader, rs: seq<Rec>, key: Str)
    requires Opened(rd) && key != [] && (Find(rs, key).Some? ==> Bloom.MayContain(rd.bloom, key))
    requires match FindBlock(rd, key)
      case None => Find(rs, key) == None
      case Some(i) => LookupInBlock(crc, rd, rd.index[i], key) == Ok(Answer(Find(rs, key)))
    ensures Get(crc, rd, key) == Ok(Answer(Find(rs, key)))
  {
    hide LookupInBlock, FindBlock, Bloom.MayContain, Find;
  }

  // ---------------------------------------------------------------------
  // A corrupt block
  // ---------------------------------------------------------------------

  /** `bytes` with `data` over the bytes at `at`. */
  function Overwrite(bytes: Str, at: nat, data: Str): (out: Str)
    requires at + |data| <= |bytes|
    ensures |out| == |bytes| && out[at..at + |data|] == data
    ensures out[..at] == bytes[..at] && out[at + |data|..] == bytes[at + |data|..]
  {
    bytes[..at] + data + bytes[at + |data|..]
  }

  lemma OverwriteKeeps(bytes: Str, at: nat, data: Str, lo: nat, hi: nat)
    requires at + |data| <= |bytes| && lo <= hi <= |bytes| && (hi <= at || at + |data| <= lo)
    ensures Overwrite(bytes, at, data)[lo..hi] == bytes[lo..hi]
  {
  }

  /** The bisection depends on the keys alone. */
  lemma {:induction false} BisectSame(rd: Reader, other: Reader, key: Str, lo: nat, hi: nat)
    requires Opened(rd) && Opened(other) && other.index == rd.index && lo <= hi <= |rd.index|
    requires forall i :: 0 <= i < |rd.index| ==> KeyOf(other, i) == KeyOf(rd, i)
    ensures Bisect(other, key, lo, hi) == Bisect(rd, key, lo, hi)
    decreases hi - lo
  {
    hide KeyOf, AtMost;
    if lo < hi {
      var mid := lo + (hi - lo) / 2;
      BisectSame(rd, other, key, mid + 1, hi);
      BisectSame(rd, other, key, lo, mid);
    }
  }

  /** A written file in which the payload of block `i` was replaced. */
  ghost function CorruptFile(crc: Checksum, bs: seq<seq<Rec>>, bl: Str, i: nat, bad: Str): Str
    requires Writable(crc, bs, bl) && i < |bs| && |bad| == |EncodeAll(bs[i])|
  {
    BlockInFile(crc, bs, bl, i);
    Overwrite(FileBytes(crc, bs, bl), DataLen(bs[..i]) + 16, bad)
  }

  /** It opens to the same filter and the same slots, over the changed bytes. */
  lemma CorruptOpens(crc: Checksum, bs: seq<seq<Rec>>, bl: Str, f: Bloom.Filter, i: nat, bad: Str)
    requires Writable(crc, bs, bl) && Bloom.FromBytes(bl) == Ok(f) && i < |bs| && |bad| == |EncodeAll(bs[i])|
    ensures var file := CorruptFile(crc, bs, bl, i, bad);
      OpenSst(crc, file) == Ok(ReaderFor(crc, bs, bl, f).(bytes := file))
  {
    hide Bloom.FromBytes, EncodeFooter, DecodeFooter, BlockLen, IndexBytes, FileBytes, FooterFits, EncodeAll,
      Placeable, OpenSst, ParseIndex, Writable, DataLen, SlotsOf, MinSn, MaxSn, Concat, Overwrite;
    var file, bytes := CorruptFile(crc, bs, bl, i, bad), FileBytes(crc, bs, bl);
    var blob, n := IndexBytes(bs, 0), DataLen(bs);
    Layout(crc, bs, bl);
    FooterRoundTrip(crc, FooterFor(bs, |bl|));
    BlockInFile(crc, bs, bl, i);
    BlockPlace(crc, bs, i);
    PayloadInBlock(bs[i]);
    var at := DataLen(bs[..i]) + 16;
    OverwriteKeeps(bytes, at, bad, n, n + |blob|);
    OverwriteKeeps(bytes, at, bad, n + |blob|, n + |blob| + |bl|);
    OverwriteKeeps(bytes, at, bad, |bytes| - FOOTER_SIZE, |bytes|);
    assert file[|file| - FOOTER_SIZE..] == file[|bytes| - FOOTER_SIZE..|bytes|];
    assert bytes[|bytes| - FOOTER_SIZE..] == bytes[|bytes| - FOOTER_SIZE..|bytes|];
    assert blob[0..] == blob;
    ParseWritten(blob, 0, n, bs, 0);
    OpenParts(crc, file, n, |blob|, bl, FooterFor(bs, |bl|), f, SlotsOf(bs, 0, n));
  }

  lemma PayloadInBlock(b: seq<Rec>)
    ensures BlockLen(b) == 16 + |EncodeAll(b)|
  {
  }

  /** Its first keys are the same. */
  lemma CorruptKeys(crc: Checksum, bs: seq<seq<Rec>>, bl: Str, f: Bloom.Filter, i: nat, bad: Str, j: nat)
    requires Writable(crc, bs, bl) && i < |bs| && |bad| == |EncodeAll(bs[i])| && j < |bs|
    requires Opened(ReaderFor(crc, bs, bl, f))
    requires Opened(ReaderFor(crc, bs, bl, f).(bytes := CorruptFile(crc, bs, bl, i, bad)))
    ensures var rd := ReaderFor(crc, bs, bl, f);
      KeyOf(rd.(bytes := CorruptFile(crc, bs, bl, i, bad)), j) == KeyOf(rd, j)
  {
    hide FileBytes, IndexBytes, BlockLen, EncodeAll, Writable, DataLen, SlotsOf, Overwrite;
    var n := DataLen(bs);
    SlotPlace(bs, 0, n, j);
    BlockInFile(crc, bs, bl, i);
    BlockPlace(crc, bs, i);
    PayloadInBlock(bs[i]);
    var s := SlotsOf(bs, 0, n)[j];
    OverwriteKeeps(FileBytes(crc, bs, bl), DataLen(bs[..i]) + 16, bad, s.keyOff, s.keyOff + s.keyLen);
  }

  /** A lookup in the changed block fails; one in another block is what it was. */
  lemma CorruptLookup(crc: Checksum, bs: seq<seq<Rec>>, bl: Str, f: Bloom.Filter, i: nat, bad: Str, j: nat, key: Str)
    requires Writable(crc, bs, bl) && i < |bs| && j < |bs|
    requires |bad| == |EncodeAll(bs[i])| && crc(bad) != crc(EncodeAll(bs[i]))
    ensures var rd := ReaderFor(crc, bs, bl, f);
      var other := rd.(bytes := CorruptFile(crc, bs, bl, i, bad));
      LookupInBlock(crc, other, rd.index[j], key)
        == if j == i then Err(SstCorrupt) else LookupInBlock(crc, rd, rd.index[j], key)
  {
    hide FileBytes, IndexBytes, SlotsOf, BlockBytes, BlockLen, Writable, DataBytes, EncodeAll, ScanSorted, Overwrite,
      LookupInBlock;
    var rd := ReaderFor(crc, bs, bl, f);
    var bytes, file := rd.bytes, CorruptFile(crc, bs, bl, i, bad);
    var slot := rd.index[j];
    var at, lo := DataLen(bs[..i]) + 16, slot.blockOffset;
    SlotPlace(bs, 0, DataLen(bs), j);
    BlockInFile(crc, bs, bl, i);
    BlockInFile(crc, bs, bl, j);
    PayloadInBlock(bs[i]);
    BlocksApart(bs, i, j);
    if j == i {
      WritableBlock(crc, bs, bl, i);
      CorruptBlockBad(crc, bytes, file, slot, bs[i], bad);
      LookupChecks(crc, rd.(bytes := file), slot, key);
    } else {
      OverwriteKeeps(bytes, at, bad, lo, lo + slot.blockLen);
      SameBlock(crc, rd, rd.(bytes := file), slot, key);
    }
  }

  /** Lookup in a block depends on the block's bytes alone. */
  lemma SameBlock(crc: Checksum, rd: Reader, other: Reader, slot: Slot, key: Str)
    requires |other.bytes| == |rd.bytes| && slot.blockOffset + slot.blockLen <= |rd.bytes|
    requires other.bytes[slot.blockOffset..slot.blockOffset + slot.blockLen]
          == rd.bytes[slot.blockOffset..slot.blockOffset + slot.blockLen]
    ensures LookupInBlock(crc, other, slot, key) == LookupInBlock(crc, rd, slot, key)
  {
    hide ScanSorted, DecodeBlockHeader;
  }

  lemma BlocksApart(bs: seq<seq<Rec>>, i: nat, j: nat)
    requires i < |bs| && j < |bs|
    ensures i < j ==> DataLen(bs[..i]) + BlockLen(bs[i]) <= DataLen(bs[..j])
    ensures j < i ==> DataLen(bs[..j]) + BlockLen(bs[j]) <= DataLen(bs[..i])
  {
    var lo, hi := if i < j then i else j, if i < j then j else i;
    if lo < hi {
      assert bs[..hi] == (bs[..lo] + [bs[lo]]) + bs[lo + 1..hi];
      hide BlockLen, BlockBytes, DataLen;
      DataConcat(_ => 0, bs[..lo] + [bs[lo]], bs[lo + 1..hi]);
      DataConcat(_ => 0, bs[..lo], [bs[lo]]);
      DataSingle(_ => 0, bs[lo]);
    }
  }

  lemma CorruptBlockBad(crc: Checksum, bytes: Str, file: Str, slot: Slot, b: seq<Rec>, bad: Str)
    requires |bad| == |EncodeAll(b)| && crc(bad) != crc(EncodeAll(b)) && BlockLen(b) < U32_LIMIT
    requires slot.blockLen == BlockLen(b) && slot.blockOffset + slot.blockLen <= |bytes|
    requires bytes[slot.blockOffset..slot.blockOffset + slot.blockLen] == BlockBytes(crc, b)
    requires file == Overwrite(bytes, slot.blockOffset + 16, bad)
    ensures !BlockGood(crc, file, slot)
  {
    hide EncodeAll, Overwrite, Le, Unle, BlockBytes;
    var at := slot.blockOffset;
    BlockFields(crc, b);
    Widths();
    OverwriteKeeps(bytes, at + 16, bad, at + 4, at + 8);
    OverwriteKeeps(bytes, at + 16, bad, at + 8, at + 12);
    SubSlice(bytes, at, at + slot.blockLen, 4, 8);
    SubSlice(bytes, at, at + slot.blockLen, 8, 12);
    UnleLe(crc(EncodeAll(b)), 4);
    UnleLe(|EncodeAll(b)|, 4);
    assert ReadLe(file, at + 8, 4) == |bad| && ReadLe(file, at + 4, 4) == crc(EncodeAll(b));
  }

  /**
    A written file in which the payload of one block was replaced by another of a
    different checksum: it opens; every key the filter lets through to that block is
    refused as corrupt, and every other key answers as in the intact file.
   */
  lemma CorruptBlockRefused(
    crc: Checksum, bs: seq<seq<Rec>>, bl: Str, f: Bloom.Filter, i: nat, bad: Str, key: Str)
    requires Writable(crc, bs, bl) && Bloom.FromBytes(bl) == Ok(f) && i < |bs|
    requires |bad| == |EncodeAll(bs[i])| && crc(bad) != crc(EncodeAll(bs[i]))
    ensures var intact, back := OpenSst(crc, FileBytes(crc, bs, bl)), OpenSst(crc, CorruptFile(crc, bs, bl, i, bad));
      && intact.Ok? && back.Ok?
      && Get(crc, back.value, key) ==
           if key != [] && Bloom.MayContain(f, key) && FindBlock(intact.value, key) == Some(i) then Err(SstCorrupt)
           else Get(crc, intact.value, key)
  {
    hide Bloom.FromBytes, Bloom.MayContain, FileBytes, SlotsOf, Writable, EncodeAll, OpenSst, LookupInBlock, KeyOf, Bisect,
      CorruptFile;
    OpenWritten(crc, bs, bl, f);
    CorruptOpens(crc, bs, bl, f, i, bad);
    var rd := ReaderFor(crc, bs, bl, f);
    var other := rd.(bytes := CorruptFile(crc, bs, bl, i, bad));
    forall j | 0 <= j < |rd.index| ensures KeyOf(other, j) == KeyOf(rd, j) { CorruptKeys(crc, bs, bl, f, i, bad, j); }
    BisectSame(rd, other, key, 0, |rd.index|);
    if FindBlock(rd, key).Some? { CorruptLookup(crc, bs, bl, f, i, bad, FindBlock(rd, key).value, key); }
  }
}
