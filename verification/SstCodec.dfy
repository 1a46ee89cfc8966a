/**
  The pieces of an SSTable file: records inside a block payload, block headers,
  index entries and the footer, with their codecs.
 */
module SstCodec {
  import opened Bytes
  import opened Records

  const SST_MAGIC: Str := [83, 83, 84, 49]    // "SST1"
  const BLOCK_MAGIC: Str := [66, 76, 75, 49]  // "BLK1"
  const SST_VERSION: nat := 1
  const BLOCK_HEADER_SIZE: nat := 16
  const INDEX_ENTRY_SIZE: nat := 16
  const FOOTER_SIZE: nat := 128
  const KIND_PUT: Byte := 1
  const KIND_TOMBSTONE: Byte := 2

  // ---------------------------------------------------------------------
  // Records
  // ---------------------------------------------------------------------

  function KindOf(op: Op): Byte {
    match op
    case Put(_) => KIND_PUT
    case Delete => KIND_TOMBSTONE
  }

  function RecordLen(r: Rec): nat { 17 + |r.key| + |ValueOf(r.op)| }

  /** Lengths and sequence number fit their on-disk widths. */
  predicate Fits(r: Rec) {
    |r.key| < U32_LIMIT && |ValueOf(r.op)| < U32_LIMIT && r.sn < U64_LIMIT
  }

  ghost predicate AllFit(rs: seq<Rec>) { forall i :: 0 <= i < |rs| ==> Fits(rs[i]) }

  function EncodeRecord(r: Rec): (s: Str)
    ensures |s| == RecordLen(r)
  {
    Le(|r.key|, 4) + Le(|ValueOf(r.op)|, 4) + Le(r.sn, 8) + [KindOf(r.op)] + r.key + ValueOf(r.op)
  }

  function EncodeAll(rs: seq<Rec>): Str {
    if rs == [] then [] else EncodeRecord(rs[0]) + EncodeAll(rs[1..])
  }

  /** A record's raw fields and where the next one starts. */
  datatype Raw = Raw(key: Str, value: Str, sn: nat, kind: Byte, next: nat)

  function ParseRaw(payload: Str, off: nat): Result<Raw>
    requires off <= |payload|
  {
    if |payload| - off < 17 then Err(SstCorrupt)
    else
      var keyLen, valueLen := ReadLe(payload, off, 4), ReadLe(payload, off + 4, 4);
      var keyEnd := off + 17 + keyLen;
      var valEnd := keyEnd + valueLen;
      if keyEnd > |payload| then Err(SstCorrupt)
      else if valEnd > |payload| then Err(SstCorrupt)
      else Ok(Raw(payload[off + 17..keyEnd], payload[keyEnd..valEnd],
                  ReadLe(payload, off + 8, 8), payload[off + 16], valEnd))
  }

  function DecodeRaw(raw: Raw): Result<Rec> {
    if raw.kind == KIND_PUT then Ok(Rec(raw.key, raw.sn, Put(raw.value)))
    else if raw.kind == KIND_TOMBSTONE then
      if raw.value != [] then Err(SstCorrupt) else Ok(Rec(raw.key, raw.sn, Delete))
    else Err(SstCorrupt)
  }

  /** All records of a payload from `off` on. */
  function DecodeRecords(payload: Str, off: nat): Result<seq<Rec>>
    requires off <= |payload|
    decreases |payload| - off
  {
    if off == |payload| then Ok([])
    else
      match ParseRaw(payload, off)
      case Err(e) => Err(e)
      case Ok(raw) =>
        match DecodeRaw(raw)
        case Err(e) => Err(e)
        case Ok(r) =>
          match DecodeRecords(payload, raw.next)
          case Err(e) => Err(e)
          case Ok(rs) => Ok([r] + rs)
  }

  /** Looks `key` up in a payload of ordered records, stopping at the first larger key. */
  function ScanSorted(payload: Str, key: Str, off: nat): Result<Lookup>
    requires off <= |payload|
    decreases |payload| - off
  {
    if off == |payload| then Ok(Missing)
    else
      match ParseRaw(payload, off)
      case Err(e) => Err(e)
      case Ok(raw) =>
        if raw.key == key then
          if raw.kind == KIND_PUT then Ok(Alive(raw.sn, raw.value))
          else if raw.kind == KIND_TOMBSTONE then Ok(Deleted(raw.sn))
          else Err(SstCorrupt)
        else if Less(key, raw.key) then Ok(Missing)
        else ScanSorted(payload, key, raw.next)
  }

  method ComputeDecodeRecords(payload: Str) returns (res: Result<seq<Rec>>)
    ensures res == DecodeRecords(payload, 0)
  {
    hide ParseRaw, DecodeRaw;
    var out, off := [], 0;
    PrefixedNone(DecodeRecords(payload, 0));
    while off < |payload|
      invariant off <= |payload|
      invariant DecodeRecords(payload, 0) == Prefixed(out, DecodeRecords(payload, off))
      decreases |payload| - off
    {
      var raw := ParseRaw(payload, off);
      if raw.Err? { return Err(raw.error); }
      RawAdvances(payload, off);
      var r := DecodeRaw(raw.value);
      if r.Err? { return Err(r.error); }
      PrefixedStep(out, r.value, DecodeRecords(payload, raw.value.next));
      out, off := out + [r.value], raw.value.next;
    }
    assert out + [] == out;
    return Ok(out);
  }

  method ComputeScanSorted(payload: Str, key: Str) returns (res: Result<Lookup>)
    ensures res == ScanSorted(payload, key, 0)
  {
    hide ParseRaw;
    var off := 0;
    while off < |payload|
      invariant off <= |payload|
      invariant ScanSorted(payload, key, 0) == ScanSorted(payload, key, off)
      decreases |payload| - off
    {
      var parsed := ParseRaw(payload, off);
      if parsed.Err? { return Err(parsed.error); }
      RawAdvances(payload, off);
      var raw := parsed.value;
      if raw.key == key {
        if raw.kind == KIND_PUT { return Ok(Alive(raw.sn, raw.value)); }
        if raw.kind == KIND_TOMBSTONE { return Ok(Deleted(raw.sn)); }
        return Err(SstCorrupt);
      }
      if Less(key, raw.key) { return Ok(Missing); }
      off := raw.next;
    }
    return Ok(Missing);
  }

  function Prefixed<T>(xs: seq<T>, res: Result<seq<T>>): Result<seq<T>> {
    match res
    case Err(e) => Err(e)
    case Ok(ys) => Ok(xs + ys)
  }

  lemma PrefixedStep<T>(xs: seq<T>, x: T, res: Result<seq<T>>)
    ensures Prefixed(xs, Prefixed([x], res)) == Prefixed(xs + [x], res)
  {
    if res.Ok? { assert xs + ([x] + res.value) == (xs + [x]) + res.value; }
  }

  lemma PrefixedNone<T>(res: Result<seq<T>>)
    ensures Prefixed([], res) == res
  {
    if res.Ok? { assert [] + res.value == res.value; }
  }

  lemma RawAdvances(payload: Str, off: nat)
    requires off <= |payload| && ParseRaw(payload, off).Ok?
    ensures off + 17 <= ParseRaw(payload, off).value.next <= |payload|
  {
  }

  // ---------------------------------------------------------------------
  // Record codec laws
  // ---------------------------------------------------------------------

  lemma EncodedFields(r: Rec)
    requires Fits(r)
    ensures var s := EncodeRecord(r);
      && ReadLe(s, 0, 4) == |r.key| && ReadLe(s, 4, 4) == |ValueOf(r.op)|
      && ReadLe(s, 8, 8) == r.sn && s[16] == KindOf(r.op)
      && s[17..17 + |r.key|] == r.key && s[17 + |r.key|..] == ValueOf(r.op)
  {
    Widths();
    var s, v := EncodeRecord(r), ValueOf(r.op);
    assert s[0..4] == Le(|r.key|, 4);
    assert s[4..8] == Le(|v|, 4);
    assert s[8..16] == Le(r.sn, 8);
    UnleLe(|r.key|, 4);
    UnleLe(|v|, 4);
    UnleLe(r.sn, 8);
  }

  /** A record byte by byte: both lengths and the number in little-endian order, kind, key, value. */
  lemma RecordBytes(r: Rec, i: nat)
    requires i < RecordLen(r)
    ensures var v := ValueOf(r.op);
      EncodeRecord(r)[i] ==
        if i < 4 then |r.key| / Pow256(i) % 256
        else if i < 8 then |v| / Pow256(i - 4) % 256
        else if i < 16 then r.sn / Pow256(i - 8) % 256
        else if i == 16 then (if r.op.Put? then 1 else 2)
        else if i < 17 + |r.key| then r.key[i - 17]
        else v[i - 17 - |r.key|]
  {
    if i < 4 { LeDigits(|r.key|, 4, i); }
    else if i < 8 { LeDigits(|ValueOf(r.op)|, 4, i - 4); }
    else if i < 16 { LeDigits(r.sn, 8, i - 8); }
    hide Le, Pow256;
  }

  /** `payload` has the encoding of `r` at `off`. */
  ghost predicate RecordAt(payload: Str, off: nat, r: Rec) {
    off + RecordLen(r) <= |payload| && payload[off..off + RecordLen(r)] == EncodeRecord(r)
  }

  lemma ParseEncoded(payload: Str, off: nat, r: Rec)
    requires Fits(r) && RecordAt(payload, off, r)
    ensures ParseRaw(payload, off)
         == Ok(Raw(r.key, ValueOf(r.op), r.sn, KindOf(r.op), off + RecordLen(r)))
  {
    EncodedFields(r);
    hide EncodeRecord, Unle;
    var n := RecordLen(r);
    SubSlice(payload, off, off + n, 0, 4);
    SubSlice(payload, off, off + n, 4, 8);
    SubSlice(payload, off, off + n, 8, 16);
    SubSlice(payload, off, off + n, 17, 17 + |r.key|);
    SubSlice(payload, off, off + n, 17 + |r.key|, n);
    assert payload[off..off + n][16] == payload[off + 16];
  }

  lemma DecodeEncoded(r: Rec, next: nat)
    ensures DecodeRaw(Raw(r.key, ValueOf(r.op), r.sn, KindOf(r.op), next)) == Ok(r)
  {
  }

  lemma {:induction false} DecodeEncodedFrom(payload: Str, off: nat, rs: seq<Rec>)
    requires AllFit(rs) && off <= |payload| && payload[off..] == EncodeAll(rs)
    ensures DecodeRecords(payload, off) == Ok(rs)
    decreases |rs|
  {
    hide EncodeRecord, ParseRaw, DecodeRaw, Fits;
    if rs != [] {
      var r, n := rs[0], RecordLen(rs[0]);
      FirstRecordAt(payload, off, rs);
      ParseEncoded(payload, off, r);
      DecodeEncoded(r, off + n);
      DecodeEncodedFrom(payload, off + n, rs[1..]);
      assert rs == [r] + rs[1..];
    }
  }

  lemma FirstRecordAt(payload: Str, off: nat, rs: seq<Rec>)
    requires rs != [] && off <= |payload| && payload[off..] == EncodeAll(rs)
    ensures RecordAt(payload, off, rs[0])
    ensures payload[off + RecordLen(rs[0])..] == EncodeAll(rs[1..])
  {
    hide EncodeRecord;
    var n, all := RecordLen(rs[0]), EncodeAll(rs);
    assert all[..n] == EncodeRecord(rs[0]) && all[n..] == EncodeAll(rs[1..]);
    SubSlice(payload, off, |payload|, 0, n);
    SubSlice(payload, off, |payload|, n, |payload| - off);
  }

  /** Decoding undoes repeated encoding. */
  lemma DecodeUndoesEncode(rs: seq<Rec>)
    requires AllFit(rs)
    ensures DecodeRecords(EncodeAll(rs), 0) == Ok(rs)
  {
    assert EncodeAll(rs)[0..] == EncodeAll(rs);
    DecodeEncodedFrom(EncodeAll(rs), 0, rs);
  }

  lemma RecordParts(payload: Str, off: nat, keyLen: nat, next: nat)
    requires off + 17 + keyLen <= next <= |payload|
    ensures payload[off..next] == payload[off..off + 4] + payload[off + 4..off + 8]
      + payload[off + 8..off + 16] + [payload[off + 16]] + payload[off + 17..off + 17 + keyLen]
      + payload[off + 17 + keyLen..next]
  {
  }

  lemma EncodeParsed(payload: Str, off: nat)
    requires off <= |payload| && ParseRaw(payload, off).Ok? && DecodeRaw(ParseRaw(payload, off).value).Ok?
    ensures var raw := ParseRaw(payload, off).value;
      var r := DecodeRaw(raw).value;
      off <= raw.next <= |payload| && Fits(r) && EncodeRecord(r) == payload[off..raw.next]
  {
    hide Unle, Le;
    var raw := ParseRaw(payload, off).value;
    var r := DecodeRaw(raw).value;
    Widths();
    ReadBound(payload, off, 4);
    ReadBound(payload, off + 4, 4);
    ReadBound(payload, off + 8, 8);
    LeUnle(payload[off..off + 4]);
    LeUnle(payload[off + 4..off + 8]);
    LeUnle(payload[off + 8..off + 16]);
    RecordParts(payload, off, |r.key|, raw.next);
    assert ValueOf(r.op) == raw.value;
    assert |r.key| == ReadLe(payload, off, 4) && |raw.value| == ReadLe(payload, off + 4, 4);
    assert Le(|r.key|, 4) == payload[off..off + 4];
    assert Le(|raw.value|, 4) == payload[off + 4..off + 8];
    assert Le(r.sn, 8) == payload[off + 8..off + 16];
  }

  lemma {:induction false} EncodeDecodedFrom(payload: Str, off: nat)
    requires off <= |payload| && DecodeRecords(payload, off).Ok?
    ensures AllFit(DecodeRecords(payload, off).value)
    ensures EncodeAll(DecodeRecords(payload, off).value) == payload[off..]
    decreases |payload| - off
  {
    hide EncodeRecord, ParseRaw, DecodeRaw, Fits;
    if off < |payload| {
      var raw := ParseRaw(payload, off).value;
      RawAdvances(payload, off);
      EncodeParsed(payload, off);
      EncodeDecodedFrom(payload, raw.next);
      assert payload[off..] == payload[off..raw.next] + payload[raw.next..];
      var rs := DecodeRecords(payload, off).value;
      assert rs[1..] == DecodeRecords(payload, raw.next).value;
    }
  }

  /** Every accepted payload is the encoding of what it decodes to: the codec is a bijection. */
  lemma EncodeUndoesDecode(payload: Str)
    requires DecodeRecords(payload, 0).Ok?
    ensures AllFit(DecodeRecords(payload, 0).value)
    ensures EncodeAll(DecodeRecords(payload, 0).value) == payload
  {
    EncodeDecodedFrom(payload, 0);
    assert payload[0..] == payload;
  }

  lemma {:induction false} NotInLater(rs: seq<Rec>, key: Str)
    requires Ascending(rs) && rs != [] && Less(key, rs[0].key)
    ensures Find(rs, key) == None
  {
    forall i | 0 <= i < |rs| ensures rs[i].key != key {
      if i > 0 { LessTransitive(key, rs[0].key, rs[i].key); }
      LessAsymmetric(key, rs[i].key);
    }
    FindNone(rs, key);
  }

  lemma {:induction false} ScanFrom(payload: Str, key: Str, off: nat)
    requires off <= |payload| && DecodeRecords(payload, off).Ok?
    requires Ascending(DecodeRecords(payload, off).value)
    ensures ScanSorted(payload, key, off) == Ok(Answer(Find(DecodeRecords(payload, off).value, key)))
    decreases |payload| - off
  {
    hide ParseRaw;
    if off < |payload| {
      var rs := DecodeRecords(payload, off).value;
      var raw := ParseRaw(payload, off).value;
      RawAdvances(payload, off);
      var rest := DecodeRecords(payload, raw.next).value;
      assert rs[1..] == rest && rs[0].key == raw.key;
      assert Ascending(rest) by {
        forall i, j | 0 <= i < j < |rest| ensures Less(rest[i].key, rest[j].key) {
          assert rest[i] == rs[i + 1] && rest[j] == rs[j + 1];
        }
      }
      if raw.key != key {
        if Less(key, raw.key) { NotInLater(rs, key); }
        else { ScanFrom(payload, key, raw.next); }
      }
    }
  }

  /** On an accepted, ordered payload the early-stopping scan is lookup in the decoded list. */
  lemma ScanRefinesLookup(payload: Str, key: Str)
    requires DecodeRecords(payload, 0).Ok? && Ascending(DecodeRecords(payload, 0).value)
    ensures ScanSorted(payload, key, 0) == Ok(Answer(Find(DecodeRecords(payload, 0).value, key)))
  {
    ScanFrom(payload, key, 0);
  }

  /** The scan tells the highest-numbered record of the key: its number, and its value or its removal. */
  lemma ScanTells(payload: Str, key: Str)
    requires DecodeRecords(payload, 0).Ok? && Ascending(DecodeRecords(payload, 0).value)
    ensures ScanSorted(payload, key, 0).Ok?
    ensures TellsLast(ScanSorted(payload, key, 0).value, Elems(DecodeRecords(payload, 0).value), key)
  {
    hide DecodeRecords, ScanSorted, Find, TellsLast, Answer;
    ScanRefinesLookup(payload, key);
    FindTells(DecodeRecords(payload, 0).value, key);
  }

  /** In any payload, ordered and intact or not, an answer is the bytes of a record that lies there. */
  lemma {:induction false} ScanFinds(payload: Str, key: Str, off: nat)
    requires off <= |payload| && ScanSorted(payload, key, off).Ok?
    ensures match ScanSorted(payload, key, off).value
      case Missing => true
      case Alive(n, v) => exists at: nat :: at >= off && RecordAt(payload, at, Rec(key, n, Put(v)))
      case Deleted(n) => exists at: nat :: at >= off && at + 17 <= |payload| && ReadLe(payload, at + 8, 8) == n
                           && payload[at + 16] == 2 && ReadLe(payload, at, 4) == |key|
                           && at + 17 + |key| <= |payload| && payload[at + 17..at + 17 + |key|] == key
    decreases |payload| - off
  {
    hide ReadLe, EncodeRecord;
    if off < |payload| {
      var raw := ParseRaw(payload, off).value;
      RawAdvances(payload, off);
      if raw.key == key {
        if raw.kind == KIND_PUT {
          EncodeParsed(payload, off);
          assert RecordAt(payload, off, Rec(key, raw.sn, Put(raw.value)));
        }
      } else if !Less(key, raw.key) {
        ScanFinds(payload, key, raw.next);
      }
    }
  }

  /** Behind smaller keys, a record of the key with an unknown kind is an error, not an absent key. */
  lemma {:induction false} UnknownKindFails(payload: Str, key: Str, off: nat, rs: seq<Rec>)
    requires AllFit(rs) && off <= |payload| && EncodeAll(rs) <= payload[off..]
    requires forall i :: 0 <= i < |rs| ==> rs[i].key != key && !Less(key, rs[i].key)
    requires var at := off + |EncodeAll(rs)|;
      at < |payload| && ParseRaw(payload, at).Ok? && ParseRaw(payload, at).value.key == key
      && ParseRaw(payload, at).value.kind != 1 && ParseRaw(payload, at).value.kind != 2
    ensures ScanSorted(payload, key, off) == Err(SstCorrupt)
    decreases |rs|
  {
    hide EncodeRecord, ParseRaw, Less, Fits;
    if rs != [] {
      var n := RecordLen(rs[0]);
      FrontRecordAt(payload, off, rs);
      ParseEncoded(payload, off, rs[0]);
      UnknownKindFails(payload, key, off + n, rs[1..]);
    }
  }

  lemma FrontRecordAt(payload: Str, off: nat, rs: seq<Rec>)
    requires rs != [] && off <= |payload| && EncodeAll(rs) <= payload[off..]
    ensures RecordAt(payload, off, rs[0])
    ensures EncodeAll(rs[1..]) <= payload[off + RecordLen(rs[0])..]
    ensures |EncodeAll(rs)| == RecordLen(rs[0]) + |EncodeAll(rs[1..])|
  {
    hide EncodeRecord;
    var n, all := RecordLen(rs[0]), EncodeAll(rs);
    assert all[..n] == EncodeRecord(rs[0]) && all[n..] == EncodeAll(rs[1..]);
    SubSlice(payload, off, |payload|, 0, n);
    assert payload[off..][..|all|] == all;
    SubSlice(payload, off, |payload|, n, |all|);
    assert payload[off + n..][..|all| - n] == payload[off + n..off + |all|];
    SubSlice(all, 0, |all|, n, |all|);
  }

  lemma {:induction false} EncodeAllConcat(rs: seq<Rec>, qs: seq<Rec>)
    ensures EncodeAll(rs + qs) == EncodeAll(rs) + EncodeAll(qs)
  {
    hide EncodeRecord;
    if rs == [] {
      assert rs + qs == qs;
    } else {
      assert (rs + qs)[1..] == rs[1..] + qs;
      EncodeAllConcat(rs[1..], qs);
    }
  }

  // ---------------------------------------------------------------------
  // Block header, index entry, footer
  // ---------------------------------------------------------------------

  datatype BlockHeader = BlockHeader(crc: nat, payloadLen: nat, recordCount: nat)

  function EncodeBlockHeader(h: BlockHeader): (s: Str)
    ensures |s| == BLOCK_HEADER_SIZE
  {
    BLOCK_MAGIC + Le(h.crc, 4) + Le(h.payloadLen, 4) + Le(h.recordCount, 4)
  }

  function DecodeBlockHeader(s: Str): Result<BlockHeader> {
    if |s| < BLOCK_HEADER_SIZE then Err(SstCorrupt)
    else if s[0..4] != BLOCK_MAGIC then Err(SstCorrupt)
    else Ok(BlockHeader(ReadLe(s, 4, 4), ReadLe(s, 8, 4), ReadLe(s, 12, 4)))
  }

  lemma BlockHeaderRoundTrip(h: BlockHeader, rest: Str)
    requires h.crc < U32_LIMIT && h.payloadLen < U32_LIMIT && h.recordCount < U32_LIMIT
    ensures DecodeBlockHeader(EncodeBlockHeader(h) + rest) == Ok(h)
  {
    Widths();
    var s := EncodeBlockHeader(h) + rest;
    assert s[0..4] == BLOCK_MAGIC;
    assert s[4..8] == Le(h.crc, 4);
    assert s[8..12] == Le(h.payloadLen, 4);
    assert s[12..16] == Le(h.recordCount, 4);
    UnleLe(h.crc, 4);
    UnleLe(h.payloadLen, 4);
    UnleLe(h.recordCount, 4);
  }

  /** Accepted headers: "BLK1", then checksum, payload length and record count. */
  lemma BlockHeaderIff(s: Str, h: BlockHeader)
    ensures DecodeBlockHeader(s) == Ok(h) <==>
      && |s| >= 16 && s[..4] == [66, 76, 75, 49]
      && s[4..16] == Le(h.crc, 4) + Le(h.payloadLen, 4) + Le(h.recordCount, 4)
      && h.crc < U32_LIMIT && h.payloadLen < U32_LIMIT && h.recordCount < U32_LIMIT
    ensures DecodeBlockHeader(s).Err? ==> DecodeBlockHeader(s).error == SstCorrupt
  {
    Widths();
    if |s| >= 16 {
      ReadBound(s, 4, 4);
      ReadBound(s, 8, 4);
      ReadBound(s, 12, 4);
      FieldIff(s, 4, 4, h.crc);
      FieldIff(s, 8, 4, h.payloadLen);
      FieldIff(s, 12, 4, h.recordCount);
      hide Le, Unle;
      var t := Le(h.crc, 4) + Le(h.payloadLen, 4) + Le(h.recordCount, 4);
      assert s[0..4] == s[..4];
      assert s[4..16] == s[4..8] + s[8..12] + s[12..16];
      assert t[..4] == Le(h.crc, 4) && t[4..8] == Le(h.payloadLen, 4) && t[8..] == Le(h.recordCount, 4);
    }
  }

  lemma FieldIff(s: Str, off: nat, w: nat, n: nat)
    requires off + w <= |s|
    ensures ReadLe(s, off, w) == n <==> n < Pow256(w) && s[off..off + w] == Le(n, w)
  {
    LeUnle(s[off..off + w]);
    ReadBound(s, off, w);
    if n < Pow256(w) { UnleLe(n, w); }
  }

  datatype IndexEntry = IndexEntry(blockOffset: nat, blockLen: nat, firstKeyLen: nat)

  function EncodeIndexEntry(e: IndexEntry): (s: Str)
    ensures |s| == INDEX_ENTRY_SIZE
  {
    Le(e.blockOffset, 8) + Le(e.blockLen, 4) + Le(e.firstKeyLen, 4)
  }

  function DecodeIndexEntry(s: Str, off: nat): Result<IndexEntry>
    requires off <= |s|
  {
    if |s| - off < INDEX_ENTRY_SIZE then Err(SstCorrupt)
    else Ok(IndexEntry(ReadLe(s, off, 8), ReadLe(s, off + 8, 4), ReadLe(s, off + 12, 4)))
  }

  lemma IndexEntryRoundTrip(s: Str, off: nat, e: IndexEntry)
    requires e.blockOffset < U64_LIMIT && e.blockLen < U32_LIMIT && e.firstKeyLen < U32_LIMIT
    requires off + INDEX_ENTRY_SIZE <= |s| && s[off..off + INDEX_ENTRY_SIZE] == EncodeIndexEntry(e)
    ensures DecodeIndexEntry(s, off) == Ok(e)
  {
    Widths();
    var b := EncodeIndexEntry(e);
    assert b[0..8] == Le(e.blockOffset, 8);
    assert b[8..12] == Le(e.blockLen, 4);
    assert b[12..16] == Le(e.firstKeyLen, 4);
    SubSlice(s, off, off + 16, 0, 8);
    SubSlice(s, off, off + 16, 8, 12);
    SubSlice(s, off, off + 16, 12, 16);
    UnleLe(e.blockOffset, 8);
    UnleLe(e.blockLen, 4);
    UnleLe(e.firstKeyLen, 4);
  }

  /** Accepted index entries: block offset, block length and key length, in eight, four and four bytes. */
  lemma IndexEntryIff(s: Str, off: nat, e: IndexEntry)
    requires off <= |s|
    ensures DecodeIndexEntry(s, off) == Ok(e) <==>
      && off + 16 <= |s| && e.blockOffset < U64_LIMIT && e.blockLen < U32_LIMIT && e.firstKeyLen < U32_LIMIT
      && s[off..off + 8] == Le(e.blockOffset, 8) && s[off + 8..off + 12] == Le(e.blockLen, 4)
      && s[off + 12..off + 16] == Le(e.firstKeyLen, 4)
    ensures DecodeIndexEntry(s, off).Err? ==> DecodeIndexEntry(s, off).error == SstCorrupt
  {
    Widths();
    if off + 16 <= |s| {
      FieldIff(s, off, 8, e.blockOffset);
      FieldIff(s, off + 8, 4, e.blockLen);
      FieldIff(s, off + 12, 4, e.firstKeyLen);
    }
  }

  datatype Footer = Footer(
    indexOffset: nat, indexLen: nat, bloomOffset: nat, bloomLen: nat,
    entryCount: nat, blockCount: nat, minSn: nat, maxSn: nat)

  predicate FooterFits(f: Footer) {
    && f.indexOffset < U64_LIMIT && f.indexLen < U64_LIMIT
    && f.bloomOffset < U64_LIMIT && f.bloomLen < U64_LIMIT
    && f.entryCount < U64_LIMIT && f.blockCount < U64_LIMIT
    && f.minSn < U64_LIMIT && f.maxSn < U64_LIMIT
  }

  /** The 72 checksummed bytes. */
  function FooterHead(f: Footer): (s: Str)
    ensures |s| == 72
  {
    SST_MAGIC + Le(SST_VERSION, 2) + Le(0, 2)
      + Le(f.indexOffset, 8) + Le(f.indexLen, 8) + Le(f.bloomOffset, 8) + Le(f.bloomLen, 8)
      + Le(f.entryCount, 8) + Le(f.blockCount, 8) + Le(f.minSn, 8) + Le(f.maxSn, 8)
  }

  function EncodeFooter(crc: Checksum, f: Footer): (s: Str)
    ensures |s| == FOOTER_SIZE
  {
    FooterHead(f) + Le(crc(FooterHead(f)), 4) + Zeros(52)
  }

  function DecodeFooter(crc: Checksum, s: Str): Result<Footer> {
    if |s| < FOOTER_SIZE then Err(SstCorrupt)
    else if s[0..4] != SST_MAGIC then Err(SstCorrupt)
    else if ReadLe(s, 4, 2) != SST_VERSION then Err(SstCorrupt)
    else if ReadLe(s, 72, 4) != crc(s[0..72]) then Err(SstCorrupt)
    else Ok(Footer(ReadLe(s, 8, 8), ReadLe(s, 16, 8), ReadLe(s, 24, 8), ReadLe(s, 32, 8),
                   ReadLe(s, 40, 8), ReadLe(s, 48, 8), ReadLe(s, 56, 8), ReadLe(s, 64, 8)))
  }

  lemma FooterHeadFields(f: Footer)
    ensures var h := FooterHead(f);
      && h[0..4] == SST_MAGIC && h[4..6] == Le(SST_VERSION, 2)
      && h[8..16] == Le(f.indexOffset, 8) && h[16..24] == Le(f.indexLen, 8)
      && h[24..32] == Le(f.bloomOffset, 8) && h[32..40] == Le(f.bloomLen, 8)
      && h[40..48] == Le(f.entryCount, 8) && h[48..56] == Le(f.blockCount, 8)
      && h[56..64] == Le(f.minSn, 8) && h[64..72] == Le(f.maxSn, 8)
  {
    hide Le;
  }

  lemma FieldThrough(s: Str, h: Str, at: nat, n: nat, w: nat)
    requires |h| <= |s| && s[..|h|] == h && at + w <= |h| && h[at..at + w] == Le(n, w) && n < Pow256(w)
    ensures ReadLe(s, at, w) == n
  {
    SubSlice(s, 0, |h|, at, at + w);
    UnleLe(n, w);
  }

  lemma FooterRoundTrip(crc: Checksum, f: Footer)
    requires FooterFits(f)
    ensures DecodeFooter(crc, EncodeFooter(crc, f)) == Ok(f)
  {
    Widths();
    FooterHeadFields(f);
    UnleLe(crc(FooterHead(f)), 4);
    hide Le, FooterHead, Unle, Pow256;
    var s, h := EncodeFooter(crc, f), FooterHead(f);
    assert s[..72] == h && s[0..72] == h && s[72..76] == Le(crc(h), 4);
    SubSlice(s, 0, 72, 0, 4);
    FieldThrough(s, h, 4, SST_VERSION, 2);
    FieldThrough(s, h, 8, f.indexOffset, 8);
    FieldThrough(s, h, 16, f.indexLen, 8);
    FieldThrough(s, h, 24, f.bloomOffset, 8);
    FieldThrough(s, h, 32, f.bloomLen, 8);
    FieldThrough(s, h, 40, f.entryCount, 8);
    FieldThrough(s, h, 48, f.blockCount, 8);
    FieldThrough(s, h, 56, f.minSn, 8);
    FieldThrough(s, h, 64, f.maxSn, 8);
  }

  /** Accepted footers: "SST1", version 1, and behind the 72 first bytes their checksum. */
  lemma FooterIff(crc: Checksum, s: Str)
    ensures DecodeFooter(crc, s).Ok?
      <==> |s| >= 128 && s[..6] == [83, 83, 84, 49, 1, 0] && s[72..76] == Le(crc(s[..72]), 4)
    ensures DecodeFooter(crc, s).Err? ==> DecodeFooter(crc, s).error == SstCorrupt
  {
    Widths();
    if |s| >= FOOTER_SIZE {
      FieldIff(s, 4, 2, 1);
      FieldIff(s, 72, 4, crc(s[..72]));
      hide Le, Unle;
      assert Le(1, 2) == [1, 0] by { OneInTwo(); }
      assert s[0..72] == s[..72];
      assert s[0..4] == s[..6][..4] && s[4..6] == s[..6][4..] && s[..6] == s[0..4] + s[4..6];
    }
  }

  lemma OneInTwo()
    ensures Le(1, 2) == [1, 0]
  {
  }

  /** A footer field by field: magic, version, eight numbers of eight bytes, checksum, zeros. */
  lemma FooterFields(crc: Checksum, f: Footer)
    ensures var s := EncodeFooter(crc, f);
      && s[..8] == [83, 83, 84, 49, 1, 0, 0, 0]
      && s[8..16] == Le(f.indexOffset, 8) && s[16..24] == Le(f.indexLen, 8)
      && s[24..32] == Le(f.bloomOffset, 8) && s[32..40] == Le(f.bloomLen, 8)
      && s[40..48] == Le(f.entryCount, 8) && s[48..56] == Le(f.blockCount, 8)
      && s[56..64] == Le(f.minSn, 8) && s[64..72] == Le(f.maxSn, 8)
      && s[72..76] == Le(crc(s[..72]), 4) && forall i :: 76 <= i < 128 ==> s[i] == 0
  {
    FooterHeadFields(f);
    FooterStart(f);
    hide Le, FooterHead;
    var s, h := EncodeFooter(crc, f), FooterHead(f);
    assert s[..72] == h && s[72..76] == Le(crc(h), 4);
    SubSlice(s, 0, 72, 0, 8);
    SubSlice(s, 0, 72, 8, 16);
    SubSlice(s, 0, 72, 16, 24);
    SubSlice(s, 0, 72, 24, 32);
    SubSlice(s, 0, 72, 32, 40);
    SubSlice(s, 0, 72, 40, 48);
    SubSlice(s, 0, 72, 48, 56);
    SubSlice(s, 0, 72, 56, 64);
    SubSlice(s, 0, 72, 64, 72);
  }

  lemma FooterStart(f: Footer)
    ensures FooterHead(f)[..8] == [83, 83, 84, 49, 1, 0, 0, 0]
  {
    OneInTwo();
    assert Le(0, 2) == [0, 0];
    hide Le;
  }
}
