/**
  The write-ahead log as bytes: one header page, then one frame per record,
  each frame zero-padded to whole 4096-byte pages. `Scan` is what recovery reads
  out of a file; the theorems say what it finds in whole, cut and reused files.
 */
module WalFormat {
  import opened Bytes
  import opened Records

  const PAGE: nat := 4096
  const MAX_RECORD_BYTES: nat := 16 * 1024 * 1024
  const FRAME_HEADER: nat := 8
  const KIND_PUT: Byte := 1
  const KIND_DELETE: Byte := 2
  const WAL_MAGIC: Str := [78, 83, 68, 66]  // "NSDB"
  const WAL_VERSION: nat := 1

  function AlignUp(n: nat): nat {
    if n == 0 then PAGE else (n + PAGE - 1) / PAGE * PAGE
  }

  /** The least multiple of the page size that is at least `max(n, 1)`. */
  lemma AlignUpLeast(n: nat)
    ensures AlignUp(n) % PAGE == 0 && n <= AlignUp(n) < n + PAGE + (if n == 0 then 1 else 0)
    ensures AlignUp(n) >= PAGE
  {
  }

  // ---------------------------------------------------------------------
  // Payload codec
  // ---------------------------------------------------------------------

  function KindOf(op: Op): Byte {
    match op
    case Put(_) => KIND_PUT
    case Delete => KIND_DELETE
  }

  function PayloadSize(r: Rec): nat { 17 + |r.key| + |ValueOf(r.op)| }

  function Payload(r: Rec): (p: Str)
    ensures |p| == PayloadSize(r)
  {
    Le(r.sn, 8) + [KindOf(r.op)] + Le(|r.key|, 4) + Le(|ValueOf(r.op)|, 4) + r.key + ValueOf(r.op)
  }

  function DecodePayload(src: Str): Result<Rec> {
    if |src| < 17 then Err(WalCorrupt)
    else
      var sn := ReadLe(src, 0, 8);
      var kind := src[8];
      var keyLen := ReadLe(src, 9, 4);
      var valueLen := ReadLe(src, 13, 4);
      if 17 + keyLen + valueLen != |src| then Err(WalCorrupt)
      else if keyLen == 0 then Err(EmptyKey)
      else
        var key := src[17..17 + keyLen];
        if kind == KIND_PUT then Ok(Rec(key, sn, Put(src[17 + keyLen..])))
        else if kind == KIND_DELETE then
          if valueLen != 0 then Err(WalCorrupt) else Ok(Rec(key, sn, Delete))
        else Err(WalCorrupt)
  }

  function FrameLen(r: Rec): nat { AlignUp(FRAME_HEADER + PayloadSize(r)) }

  /** A record the engine hands to the log and the log does not refuse. */
  predicate Accepted(r: Rec) {
    r.key != [] && r.sn < U64_LIMIT && FrameLen(r) <= MAX_RECORD_BYTES
  }

  /** A key, lengths within 32 bits and a number within 64. */
  predicate Representable(r: Rec) {
    r.key != [] && |r.key| < U32_LIMIT && |ValueOf(r.op)| < U32_LIMIT && r.sn < U64_LIMIT
  }

  lemma PayloadFields(r: Rec)
    requires Representable(r)
    ensures var p := Payload(r);
      && ReadLe(p, 0, 8) == r.sn && p[8] == KindOf(r.op)
      && ReadLe(p, 9, 4) == |r.key| && ReadLe(p, 13, 4) == |ValueOf(r.op)|
      && p[17..17 + |r.key|] == r.key && p[17 + |r.key|..] == ValueOf(r.op)
  {
    Widths();
    var p, v := Payload(r), ValueOf(r.op);
    var a, b, c, d := Le(r.sn, 8), [KindOf(r.op)], Le(|r.key|, 4), Le(|v|, 4);
    assert p[0..8] == a;
    assert p[9..13] == c;
    assert p[13..17] == d;
    UnleLe(r.sn, 8);
    UnleLe(|r.key|, 4);
    UnleLe(|v|, 4);
  }

  /** The largest record: header, lengths, number, key and value together 16 MiB at most. */
  lemma AcceptedIff(r: Rec)
    ensures Accepted(r) <==> |r.key| >= 1 && r.sn < 0x1_0000_0000_0000_0000 && 25 + |r.key| + |ValueOf(r.op)| <= 16777216
  {
    AlignUpLeast(FRAME_HEADER + PayloadSize(r));
    PageMultiple(AlignUp(FRAME_HEADER + PayloadSize(r)));
  }

  lemma PageMultiple(n: nat)
    requires n % PAGE == 0
    ensures n <= MAX_RECORD_BYTES || MAX_RECORD_BYTES + PAGE <= n
  {
    assert n == PAGE * (n / PAGE) && MAX_RECORD_BYTES == PAGE * 4096;
  }

  /** The payload byte by byte: number, kind, both lengths in little-endian order, then key and value. */
  lemma PayloadBytes(r: Rec, i: nat)
    requires i < PayloadSize(r)
    ensures var v := ValueOf(r.op);
      Payload(r)[i] ==
        if i < 8 then r.sn / Pow256(i) % 256
        else if i == 8 then (if r.op.Put? then 1 else 2)
        else if i < 13 then |r.key| / Pow256(i - 9) % 256
        else if i < 17 then |v| / Pow256(i - 13) % 256
        else if i < 17 + |r.key| then r.key[i - 17]
        else v[i - 17 - |r.key|]
  {
    if i < 8 { LeDigits(r.sn, 8, i); }
    else if 9 <= i < 13 { LeDigits(|r.key|, 4, i - 9); }
    else if 13 <= i < 17 { LeDigits(|ValueOf(r.op)|, 4, i - 13); }
    hide Le, Pow256;
  }

  lemma DecodeEncode(r: Rec)
    requires Accepted(r)
    ensures DecodePayload(Payload(r)) == Ok(r)
  {
    AcceptedIff(r);
    PayloadFields(r);
  }

  /** Every payload the decoder accepts is the encoding of what it returns. */
  lemma EncodeDecode(src: Str)
    requires DecodePayload(src).Ok?
    ensures Payload(DecodePayload(src).value) == src
  {
    var r := DecodePayload(src).value;
    LeUnle(src[0..8]);
    LeUnle(src[9..13]);
    LeUnle(src[13..17]);
    assert src == src[0..8] + [src[8]] + src[9..13] + src[13..17]
               + src[17..17 + |r.key|] + src[17 + |r.key|..];
  }

  /** Which payloads the decoder takes: exactly the encodings of representable records. */
  lemma DecodesIff(src: Str)
    ensures DecodePayload(src).Ok? <==> exists r: Rec :: Representable(r) && Payload(r) == src
  {
    hide Le, Unle;
    Widths();
    if DecodePayload(src).Ok? {
      EncodeDecode(src);
      ReadBound(src, 0, 8);
      ReadBound(src, 9, 4);
      ReadBound(src, 13, 4);
      assert Representable(DecodePayload(src).value);
    }
    if r: Rec :| Representable(r) && Payload(r) == src { PayloadFields(r); }
  }

  /** Refused payloads: an empty key where the lengths agree, anything else as corrupt. */
  lemma DecodeErrors(src: Str)
    requires DecodePayload(src).Err?
    ensures DecodePayload(src).error == EmptyKey || DecodePayload(src).error == WalCorrupt
    ensures DecodePayload(src).error == EmptyKey <==>
      |src| >= 17 && ReadLe(src, 9, 4) == 0 && |src| == 17 + ReadLe(src, 13, 4)
  {
    hide Unle;
  }

  // ---------------------------------------------------------------------
  // Frames
  // ---------------------------------------------------------------------

  function Frame(crc: Checksum, r: Rec): (f: Str)
    ensures |f| == FrameLen(r)
  {
    var p := Payload(r);
    AlignUpLeast(FRAME_HEADER + |p|);
    Le(crc(p), 4) + Le(|p|, 4) + p + Zeros(FrameLen(r) - FRAME_HEADER - |p|)
  }

  function Frames(crc: Checksum, rs: seq<Rec>): Str {
    if rs == [] then [] else Frame(crc, rs[0]) + Frames(crc, rs[1..])
  }

  function Header(crc: Checksum, direct: bool): (h: Str)
    ensures |h| == PAGE
  {
    var head := WAL_MAGIC + Le(WAL_VERSION, 2) + Le(if direct then 1 else 0, 2);
    head + Le(crc(head), 4) + Zeros(PAGE - 12)
  }

  /** A frame byte by byte: checksum, length, payload, zeros to the end of the page. */
  lemma FrameBytes(crc: Checksum, r: Rec, i: nat)
    requires i < FrameLen(r)
    ensures var p := Payload(r);
      Frame(crc, r)[i] ==
        if i < 4 then crc(p) / Pow256(i) % 256
        else if i < 8 then |p| / Pow256(i - 4) % 256
        else if i < 8 + |p| then p[i - 8] else 0
  {
    if i < 4 { LeDigits(crc(Payload(r)), 4, i); } else if i < 8 { LeDigits(PayloadSize(r), 4, i - 4); }
    hide Le, Pow256, Payload, AlignUp;
  }

  /** The header page byte by byte: "NSDB", version 1, the direct flag, their checksum, zeros. */
  lemma HeaderBytes(crc: Checksum, direct: bool, i: nat)
    requires i < PAGE
    ensures var head: Str := [78, 83, 68, 66, 1, 0, if direct then 1 else 0, 0];
      Header(crc, direct)[i] == if i < 8 then head[i] else if i < 12 then crc(head) / Pow256(i - 8) % 256 else 0
  {
    var head: Str := [78, 83, 68, 66, 1, 0, if direct then 1 else 0, 0];
    assert Le(1, 2) == [1, 0] && Le(0, 2) == [0, 0];
    assert WAL_MAGIC + Le(WAL_VERSION, 2) + Le(if direct then 1 else 0, 2) == head;
    if 8 <= i < 12 { LeDigits(crc(head), 4, i - 8); }
    hide Pow256;
  }

  /** The file after creating a log and appending `rs`. */
  function Image(crc: Checksum, direct: bool, rs: seq<Rec>): Str {
    Header(crc, direct) + Frames(crc, rs)
  }

  function CheckHeader(crc: Checksum, bytes: Str): Result<()> {
    if |bytes| < PAGE then Err(WalCorrupt)
    else if bytes[0..4] != WAL_MAGIC then Err(WalCorrupt)
    else if ReadLe(bytes, 4, 2) != WAL_VERSION then Err(UnsupportedWalVersion(ReadLe(bytes, 4, 2)))
    else if crc(bytes[0..8]) != ReadLe(bytes, 8, 4) then Err(WalCorrupt)
    else Ok(())
  }

  /** What opening asks of the first page: magic and version, and their checksum behind them. */
  lemma HeaderIff(crc: Checksum, bytes: Str)
    ensures CheckHeader(crc, bytes).Ok?
      <==> |bytes| >= 4096 && bytes[..6] == [78, 83, 68, 66, 1, 0] && bytes[8..12] == Le(crc(bytes[..8]), 4)
  {
    Widths();
    if |bytes| >= PAGE {
      NumberIff(bytes, 4, 2, 1);
      NumberIff(bytes, 8, 4, crc(bytes[..8]));
      hide Le, Unle;
      assert Le(1, 2) == [1, 0] by { VersionBytes(); }
      assert bytes[0..4] == bytes[..6][..4] && bytes[4..6] == bytes[..6][4..];
      assert bytes[..6] == bytes[0..4] + bytes[4..6];
      assert bytes[0..8] == bytes[..8];
    }
  }

  lemma VersionBytes()
    ensures Le(1, 2) == [1, 0]
  {
  }

  lemma NumberIff(bytes: Str, off: nat, w: nat, n: nat)
    requires off + w <= |bytes| && n < Pow256(w)
    ensures ReadLe(bytes, off, w) == n <==> bytes[off..off + w] == Le(n, w)
  {
    LeUnle(bytes[off..off + w]);
    UnleLe(n, w);
  }

  /** Another version behind the right magic is reported as such, everything else as corrupt. */
  lemma HeaderErrors(crc: Checksum, bytes: Str)
    requires CheckHeader(crc, bytes).Err?
    ensures CheckHeader(crc, bytes).error ==
      if |bytes| >= 4096 && bytes[..4] == [78, 83, 68, 66] && ReadLe(bytes, 4, 2) != 1
      then UnsupportedWalVersion(ReadLe(bytes, 4, 2)) else WalCorrupt
  {
    hide Unle;
    if |bytes| >= PAGE { assert bytes[0..4] == bytes[..4]; }
  }

  /** One frame at `off`, or the end of the log, reading nothing past `end`. */
  function ReadOne(crc: Checksum, bytes: Str, off: nat, end: nat): Result<Option<(Rec, nat)>> {
    if off + PAGE > end || off + PAGE > |bytes| then Ok(None)
    else
      var sum := ReadLe(bytes, off, 4);
      var payloadLen := ReadLe(bytes, off + 4, 4);
      var framed := AlignUp(FRAME_HEADER + payloadLen);
      if payloadLen == 0 then Ok(None)
      else if framed > MAX_RECORD_BYTES then Err(WalRecordTooLarge(framed))
      else if off + framed > end || off + framed > |bytes| then Ok(None)
      else
        AlignUpLeast(FRAME_HEADER + payloadLen);
        var payload := bytes[off + FRAME_HEADER..off + FRAME_HEADER + payloadLen];
        if crc(payload) != sum then Ok(None)
        else
          match DecodePayload(payload)
          case Err(e) => Err(e)
          case Ok(r) => Ok(Some((r, off + framed)))
  }

  lemma ReadOneAdvances(crc: Checksum, bytes: Str, off: nat, end: nat)
    requires ReadOne(crc, bytes, off, end).Ok? && ReadOne(crc, bytes, off, end).value.Some?
    ensures var next := ReadOne(crc, bytes, off, end).value.value.1;
      off + PAGE <= next <= end && next <= |bytes| && (next - off) % PAGE == 0
  {
    AlignUpLeast(FRAME_HEADER + ReadLe(bytes, off + 4, 4));
  }

  /** All records from `off` to `end`, and the offset where they stop. */
  function Scan(crc: Checksum, bytes: Str, off: nat, end: nat): (res: Result<(seq<Rec>, nat)>)
    decreases if off < end then end - off else 0
  {
    if off >= end then Ok(([], off))
    else
      match ReadOne(crc, bytes, off, end)
      case Err(e) => Err(e)
      case Ok(None) => Ok(([], off))
      case Ok(Some((r, next))) =>
        ReadOneAdvances(crc, bytes, off, end);
        match Scan(crc, bytes, next, end)
        case Err(e) => Err(e)
        case Ok((rs, stop)) => Ok(([r] + rs, stop))
  }

  /** Opening a file: the records replay will return, and the append offset. */
  function OpenLog(crc: Checksum, bytes: Str): Result<(seq<Rec>, nat)> {
    match CheckHeader(crc, bytes)
    case Err(e) => Err(e)
    case Ok(_) => Scan(crc, bytes, PAGE, |bytes|)
  }

  /** Positional write: overwrites in place, extends at the end, zero-fills a gap before it. */
  function WriteAt(bytes: Str, off: nat, data: Str): (out: Str)
    ensures |out| == if |bytes| < off + |data| then off + |data| else |bytes|
    ensures out[off..off + |data|] == data && (off <= |bytes| ==> out[..off] == bytes[..off])
    ensures forall i :: |bytes| <= i < off ==> out[i] == 0
  {
    var base := if off <= |bytes| then bytes else bytes + Zeros(off - |bytes|);
    base[..off] + data + (if off + |data| < |base| then base[off + |data|..] else [])
  }
}
