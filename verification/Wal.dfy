/**
  The log writer and reader: a reused, growing buffer, positional writes of
  whole pages, and recovery loops, proved against the format of WalFormat.
 */
module Wals {
  import opened Bytes
  import opened Records
  import opened WalFormat
  import opened WalRecovery

  /** The bytes of a file as the operating system keeps them. */
  class File {
    var bytes: Str

    constructor ()
      ensures bytes == []
    {
      bytes := [];
    }
  }

  function Min(a: nat, b: nat): nat { if a < b then a else b }

  /** `s` with `b` written over it from `off`. */
  function Patch(s: Str, off: nat, b: Str): (p: Str)
    requires off + |b| <= |s|
    ensures |p| == |s|
  {
    s[..off] + b + s[off + |b|..]
  }

  lemma PatchJoin(s: Str, off: nat, a: Str, b: Str)
    requires off + |a| + |b| <= |s|
    ensures Patch(Patch(s, off, a), off + |a|, b) == Patch(s, off, a + b)
  {
  }

  /** Copies `b` into the buffer at `off`. */
  method WriteBytes(dst: array<Byte>, off: nat, b: Str) returns (end: nat)
    requires off + |b| <= dst.Length
    modifies dst
    ensures dst[..] == Patch(old(dst[..]), off, b) && end == off + |b|
  {
    forall i | 0 <= i < |b| { dst[off + i] := b[i]; }
    end := off + |b|;
  }

  // ---------------------------------------------------------------------
  // The aligned buffer
  // ---------------------------------------------------------------------

  class AlignedBuf {
    var data: array<Byte>

    ghost predicate Valid()
      reads this
    {
      data.Length >= PAGE && data.Length % PAGE == 0
    }

    constructor (bytes: nat)
      ensures Valid() && fresh(data) && data.Length >= bytes
    {
      AlignUpLeast(if bytes < 1 then 1 else bytes);
      data := new Byte[AlignUp(if bytes < 1 then 1 else bytes)](_ => 0);
    }

    /** Grows to at least `need` bytes, keeping the first `preserve`. */
    method Ensure(need: nat, preserve: nat)
      requires Valid()
      modifies this`data
      ensures Valid() && data.Length >= need
      ensures data == old(data) || fresh(data)
      ensures var kept := Min(preserve, old(data.Length));
        kept <= data.Length && data[..kept] == old(data[..kept])
    {
      if data.Length >= need { return; }
      AlignUpLeast(need);
      var next := new Byte[AlignUp(need)](_ => 0);
      var copy := Min(preserve, Min(data.Length, next.Length));
      forall i | 0 <= i < copy { next[i] := data[i]; }
      assert next[..copy] == data[..copy];
      data := next;
    }
  }

  predicate Aligned(len: nat, off: nat) { len % PAGE == 0 && off % PAGE == 0 }

  /** Writes whole pages at a page offset. */
  method WriteAligned(file: File, data: Str, off: nat) returns (res: Result<()>)
    modifies file
    ensures res == if Aligned(|data|, off) then Ok(()) else Err(Unaligned)
    ensures file.bytes == if Aligned(|data|, off) then WriteAt(old(file.bytes), off, data)
                          else old(file.bytes)
  {
    if !Aligned(|data|, off) { return Err(Unaligned); }
    file.bytes := WriteAt(file.bytes, off, data);
    return Ok(());
  }

  /** Fills `buf[lo..hi]` from the file, or reports 0 bytes when the file ends first. */
  method ReadAligned(file: File, buf: array<Byte>, lo: nat, hi: nat, off: nat) returns (res: Result<nat>)
    requires lo <= hi <= buf.Length
    modifies buf
    ensures res == if !Aligned(hi - lo, off) then Err(Unaligned)
                   else if off + (hi - lo) <= |file.bytes| then Ok(hi - lo) else Ok(0)
    ensures Aligned(hi - lo, off) && off + (hi - lo) <= |file.bytes|
      ==> buf[lo..hi] == file.bytes[off..off + (hi - lo)]
    ensures buf[..lo] == old(buf[..lo]) && buf[hi..] == old(buf[hi..])
  {
    if !Aligned(hi - lo, off) { return Err(Unaligned); }
    if off + (hi - lo) > |file.bytes| { return Ok(0); }
    var _ := WriteBytes(buf, lo, file.bytes[off..off + (hi - lo)]);
    return Ok(hi - lo);
  }

  // ---------------------------------------------------------------------
  // Reading one frame through a reused buffer
  // ---------------------------------------------------------------------

  lemma ReadThroughSlice(s: Str, bytes: Str, off: nat, n: nat, at: nat, w: nat)
    requires n <= |s| && off + n <= |bytes| && s[..n] == bytes[off..off + n] && at + w <= n
    ensures s[at..at + w] == bytes[off + at..off + at + w]
    ensures ReadLe(s, at, w) == ReadLe(bytes, off + at, w)
  {
    SubSlice(s, 0, n, at, at + w);
    SubSlice(bytes, off, off + n, at, at + w);
  }

  lemma PagesJoin(s: Str, bytes: Str, off: nat, n: nat, m: nat)
    requires n <= m <= |s| && off + m <= |bytes|
    requires s[..n] == bytes[off..off + n] && s[n..m] == bytes[off + n..off + m]
    ensures s[..m] == bytes[off..off + m]
  {
    assert s[..m] == s[..n] + s[n..m];
    assert bytes[off..off + m] == bytes[off..off + n] + bytes[off + n..off + m];
  }

  /** With the first page loaded, loads the other pages of a frame behind it. */
  method ReadRest(file: File, buf: AlignedBuf, off: nat, framed: nat) returns (whole: bool)
    requires buf.Valid() && off % PAGE == 0 && framed % PAGE == 0 && framed >= PAGE
    requires off + PAGE <= |file.bytes| && buf.data[..PAGE] == file.bytes[off..off + PAGE]
    modifies buf, buf.data
    ensures buf.Valid() && (buf.data == old(buf.data) || fresh(buf.data))
    ensures whole <==> off + framed <= |file.bytes|
    ensures whole ==> framed <= buf.data.Length && buf.data[..framed] == file.bytes[off..off + framed]
  {
    if framed == PAGE { return true; }
    buf.Ensure(framed, PAGE);
    var m := ReadAligned(file, buf.data, PAGE, framed, off + PAGE);
    if m.Err? || m.value < framed - PAGE { return false; }
    assert buf.data[..PAGE] == file.bytes[off..off + PAGE];
    PagesJoin(buf.data[..], file.bytes, off, PAGE, framed);
    return true;
  }

  method ReadOneFrame(crc: Checksum, file: File, buf: AlignedBuf, off: nat, end: nat)
    returns (res: Result<Option<(Rec, nat)>>)
    requires buf.Valid() && off % PAGE == 0
    modifies buf, buf.data
    ensures buf.Valid() && (buf.data == old(buf.data) || fresh(buf.data))
    ensures res == ReadOne(crc, file.bytes, off, end)
  {
    hide DecodePayload, Unle, AlignUp;
    if off + PAGE > end { return Ok(None); }
    buf.Ensure(PAGE, 0);
    var n := ReadAligned(file, buf.data, 0, PAGE, off);
    if n.Err? || n.value < PAGE { return Ok(None); }
    ghost var bytes := file.bytes;
    assert buf.data[..PAGE] == bytes[off..off + PAGE];
    ReadThroughSlice(buf.data[..], bytes, off, PAGE, 0, 4);
    ReadThroughSlice(buf.data[..], bytes, off, PAGE, 4, 4);
    var sum := ReadLe(buf.data[..], 0, 4);
    var payloadLen := ReadLe(buf.data[..], 4, 4);
    if payloadLen == 0 { return Ok(None); }
    AlignUpLeast(FRAME_HEADER + payloadLen);
    var framed := AlignUp(FRAME_HEADER + payloadLen);
    if framed > MAX_RECORD_BYTES { return Err(WalRecordTooLarge(framed)); }
    if off + framed > end { return Ok(None); }
    var whole := ReadRest(file, buf, off, framed);
    if !whole { return Ok(None); }
    ReadThroughSlice(buf.data[..], bytes, off, framed, FRAME_HEADER, payloadLen);
    var payload := buf.data[FRAME_HEADER..FRAME_HEADER + payloadLen];
    if crc(payload) != sum { return Ok(None); }
    var r := DecodePayload(payload);
    if r.Err? { return Err(r.error); }
    return Ok(Some((r.value, off + framed)));
  }

  // ---------------------------------------------------------------------
  // Encoding in place
  // ---------------------------------------------------------------------

  method EncodePayload(dst: array<Byte>, base: nat, r: Rec)
    requires base + PayloadSize(r) <= dst.Length
    modifies dst
    ensures dst[..] == Patch(old(dst[..]), base, Payload(r))
  {
    hide Le;
    ghost var s := dst[..];
    var a, b := Le(r.sn, 8), [KindOf(r.op)];
    var c, d := Le(|r.key|, 4), Le(|ValueOf(r.op)|, 4);
    var off := WriteBytes(dst, base, a);
    off := WriteBytes(dst, off, b);
    PatchJoin(s, base, a, b);
    off := WriteBytes(dst, off, c);
    PatchJoin(s, base, a + b, c);
    off := WriteBytes(dst, off, d);
    PatchJoin(s, base, a + b + c, d);
    off := WriteBytes(dst, off, r.key);
    PatchJoin(s, base, a + b + c + d, r.key);
    off := WriteBytes(dst, off, ValueOf(r.op));
    PatchJoin(s, base, a + b + c + d + r.key, ValueOf(r.op));
  }

  lemma FrameByPatches(crc: Checksum, s: Str, r: Rec)
    requires |s| >= FrameLen(r) && s[..FrameLen(r)] == Zeros(FrameLen(r))
    ensures FRAME_HEADER + PayloadSize(r) <= FrameLen(r)
    ensures var p := Payload(r);
      var t := Patch(s, FRAME_HEADER, p);
      Patch(Patch(t, 0, Le(crc(p), 4)), 4, Le(|p|, 4))[..FrameLen(r)] == Frame(crc, r)
      && t[FRAME_HEADER..FRAME_HEADER + |p|] == p
  {
    var p := Payload(r);
    AlignUpLeast(FRAME_HEADER + |p|);
    hide Le, Payload, AlignUp;
    var t := Patch(s, FRAME_HEADER, p);
    PatchJoin(t, 0, Le(crc(p), 4), Le(|p|, 4));
    var out, f := Patch(t, 0, Le(crc(p), 4) + Le(|p|, 4))[..FrameLen(r)], Frame(crc, r);
    forall i | 0 <= i < FrameLen(r) ensures out[i] == f[i] {
      if i >= FRAME_HEADER + |p| { assert out[i] == t[i] == s[i] == s[..FrameLen(r)][i] == 0; }
    }
    assert out == f;
  }

  // ---------------------------------------------------------------------
  // The log
  // ---------------------------------------------------------------------

  class Wal {
    const crc: Checksum
    const file: File
    const direct: bool
    const buf: AlignedBuf
    var offset: nat
    /** The records held by the file up to `offset`. */
    ghost var log: seq<Rec>

    ghost predicate Valid()
      reads this, file, buf
    {
      && buf.Valid()
      && offset % PAGE == 0
      && PAGE <= |file.bytes|
      && CheckHeader(crc, file.bytes) == Ok(())
      && Holds(crc, file.bytes, PAGE, log, offset)
    }

    /** The file starts with header and frames of the log, up to the offset. */
    ghost predicate Clean()
      reads this, file
    {
      StartsLog(crc, direct, file.bytes, log) && offset == |Image(crc, direct, log)|
    }

    /** And less than a page lies behind them. */
    ghost predicate Tidy()
      reads this, file
    {
      Clean() && IsLog(crc, direct, file.bytes, log)
    }

    /** Truncates the file and writes the header page. */
    constructor Create(crc: Checksum, file: File, direct: bool)
      modifies file
      ensures Valid() && Tidy() && fresh(buf) && fresh(buf.data)
      ensures this.crc == crc && this.file == file && this.direct == direct && log == []
      ensures file.bytes == Image(crc, direct, [])
    {
      this.crc := crc;
      this.file := file;
      this.direct := direct;
      this.offset := PAGE;
      this.log := [];
      this.buf := new AlignedBuf(PAGE);
      new;
      hide Header, CheckHeader, ReadOne;
      file.bytes := Header(crc, direct);
      assert file.bytes[..PAGE] == file.bytes;
      HeaderAccepted(crc, direct, file.bytes);
      assert file.bytes == Image(crc, direct, []);
    }

    /** Wraps a file whose header is valid, before the end of the log is known. */
    constructor Attach(crc: Checksum, file: File, direct: bool)
      requires PAGE <= |file.bytes| && CheckHeader(crc, file.bytes) == Ok(())
      ensures Valid() && fresh(buf) && fresh(buf.data) && offset == PAGE && log == []
      ensures this.crc == crc && this.file == file && this.direct == direct
    {
      this.crc := crc;
      this.file := file;
      this.direct := direct;
      this.offset := PAGE;
      this.log := [];
      this.buf := new AlignedBuf(PAGE);
    }

    /** Serializes `r` into whole pages and writes them at the end of the log. */
    method Append(r: Rec) returns (res: Result<()>)
      requires Valid() && r.key != [] && r.sn < U64_LIMIT
      modifies this, file, buf, buf.data
      ensures Valid() && (buf.data == old(buf.data) || fresh(buf.data))
      ensures res.Ok? <==> Accepted(r)
      ensures res.Ok? ==> log == old(log) + [r] && offset == old(offset) + FrameLen(r)
      ensures res.Ok? ==> file.bytes == WriteAt(old(file.bytes), old(offset), Frame(crc, r))
      ensures res.Err? ==> res.error == WalRecordTooLarge(FrameLen(r))
      ensures res.Err? ==> log == old(log) && offset == old(offset) && file.bytes == old(file.bytes)
      ensures old(Clean()) ==> Clean()
      ensures old(Tidy()) ==> Tidy() && (res.Ok? ==> file.bytes == Image(crc, direct, log))
    {
      hide Payload, Frame, Header, ReadOne, Scan, CheckHeader, Le, Image, Frames, AlignUp, StartsLog, IsLog;
      var payload := PayloadSize(r);
      AlignUpLeast(FRAME_HEADER + payload);
      var framed := AlignUp(FRAME_HEADER + payload);
      if framed > MAX_RECORD_BYTES { return Err(WalRecordTooLarge(framed)); }
      buf.Ensure(framed, 0);
      EncodeFrame(framed, r);
      ghost var before := file.bytes;
      var w := WriteAligned(file, buf.data[..framed], offset);
      assert w.Ok?;
      AppendHolds(crc, before, log, offset, r);
      AppendKeepsHeader(crc, before, offset, Frame(crc, r));
      if old(Clean()) { LogAppended(crc, direct, before, log, r); }
      offset := offset + framed;
      log := log + [r];
      return Ok(());
    }

    /** Fills the first `framed` bytes of the buffer with the frame of `r`. */
    method EncodeFrame(framed: nat, r: Rec)
      requires framed == FrameLen(r) <= buf.data.Length && Accepted(r)
      modifies buf.data
      ensures buf.data[..framed] == Frame(crc, r)
    {
      hide Payload, Frame, Le;
      var data := buf.data;
      forall i | 0 <= i < framed { data[i] := 0; }
      assert data[..framed] == Zeros(framed);
      FrameByPatches(crc, data[..], r);
      EncodePayload(data, FRAME_HEADER, r);
      var sum := crc(data[FRAME_HEADER..FRAME_HEADER + PayloadSize(r)]);
      var _ := WriteBytes(data, 0, Le(sum, 4));
      var _ := WriteBytes(data, 4, Le(PayloadSize(r), 4));
    }

    /** Rereads every record up to the append offset, with a buffer of its own. */
    method Replay() returns (res: Result<seq<Rec>>)
      requires Valid()
      ensures res == Ok(log)
    {
      hide ReadOne, CheckHeader;
      var own := new AlignedBuf(PAGE);
      var off, out := PAGE, [];
      while off < offset
        invariant own.Valid() && fresh(own) && fresh(own.data)
        invariant PAGE <= off <= offset && off % PAGE == 0
        invariant Scan(crc, file.bytes, off, offset).Ok?
        invariant out + Scan(crc, file.bytes, off, offset).value.0 == log
        invariant Scan(crc, file.bytes, off, offset).value.1 == offset
        decreases offset - off
      {
        var one := ReadOneFrame(crc, file, own, off, offset);
        ReadOneSome(crc, file.bytes, off, offset);
        var (r, next) := one.value.value;
        ghost var rest := Scan(crc, file.bytes, next, offset).value.0;
        assert out + ([r] + rest) == (out + [r]) + rest;
        out := out + [r];
        off := next;
      }
      assert out + [] == out;
      return Ok(out);
    }

    /** Advances frame by frame to the first invalid one or the end of the file. */
    method ScanEnd() returns (res: Result<nat>)
      requires Valid() && offset == PAGE
      modifies this`log, buf, buf.data
      ensures buf.Valid() && (buf.data == old(buf.data) || fresh(buf.data))
      ensures match Scan(crc, file.bytes, PAGE, |file.bytes|)
        case Err(e) => res == Err(e)
        case Ok((rs, stop)) => res == Ok(stop) && log == rs
    {
      hide ReadOne, CheckHeader;
      var fileLen := |file.bytes|;
      var off := PAGE;
      log := [];
      ghost var all := Scan(crc, file.bytes, PAGE, fileLen);
      if all.Ok? { assert [] + all.value.0 == all.value.0; }
      while off < fileLen
        invariant buf.Valid() && (buf.data == old(buf.data) || fresh(buf.data))
        invariant off % PAGE == 0
        invariant match Scan(crc, file.bytes, off, fileLen)
          case Err(e) => all == Err(e)
          case Ok((rs, stop)) => all == Ok((log + rs, stop))
        decreases if off < fileLen then fileLen - off else 0
      {
        var one := ReadOneFrame(crc, file, buf, off, fileLen);
        if one.Err? { return Err(one.error); }
        if one.value.None? { break; }
        var (r, next) := one.value.value;
        ReadOneAdvances(crc, file.bytes, off, fileLen);
        ghost var rest := Scan(crc, file.bytes, next, fileLen);
        if rest.Ok? { assert log + ([r] + rest.value.0) == (log + [r]) + rest.value.0; }
        log := log + [r];
        off := next;
      }
      assert log + [] == log;
      return Ok(off);
    }
  }

  /** Inside the held part of a log there is always a next record. */
  lemma ReadOneSome(crc: Checksum, bytes: Str, off: nat, stop: nat)
    requires off < stop && Scan(crc, bytes, off, stop).Ok? && Scan(crc, bytes, off, stop).value.1 == stop
    ensures ReadOne(crc, bytes, off, stop).Ok? && ReadOne(crc, bytes, off, stop).value.Some?
    ensures var (r, next) := ReadOne(crc, bytes, off, stop).value.value;
      && off < next <= stop && (next - off) % PAGE == 0
      && Scan(crc, bytes, next, stop).Ok?
      && Scan(crc, bytes, off, stop).value.0 == [r] + Scan(crc, bytes, next, stop).value.0
      && Scan(crc, bytes, next, stop).value.1 == stop
  {
    hide ReadOne;
    ReadOneAdvances(crc, bytes, off, stop);
  }

  /** Opens an existing log, positioned for further appends. */
  method Open(crc: Checksum, file: File, direct: bool) returns (res: Result<Wal>)
    ensures match OpenLog(crc, file.bytes)
      case Err(e) => res == Err(e)
      case Ok((rs, stop)) =>
        && res.Ok? && fresh(res.value) && fresh(res.value.buf) && fresh(res.value.buf.data)
        && res.value.Valid() && res.value.file == file && res.value.crc == crc
        && res.value.log == rs && res.value.offset == stop && res.value.direct == direct
  {
    hide ReadOne, Scan;
    var h := CheckHeader(crc, file.bytes);
    if h.Err? { return Err(h.error); }
    var wal := new Wal.Attach(crc, file, direct);
    var end := wal.ScanEnd();
    if end.Err? { return Err(end.error); }
    ScanHolds(crc, file.bytes, PAGE, |file.bytes|);
    ScanAligned(crc, file.bytes, PAGE, |file.bytes|);
    wal.offset := end.value;
    return Ok(wal);
  }

  /** Appending to a created log, then opening its file: same records, same offset. */
  method RoundTrip(crc: Checksum, file: File, direct: bool, rs: seq<Rec>) returns (back: Result<seq<Rec>>, same: bool)
    requires AllAccepted(rs)
    modifies file
    ensures back == Ok(rs) && same
  {
    hide ReadOne, Scan, Image, CheckHeader, Accepted;
    var wal := new Wal.Create(crc, file, direct);
    for i := 0 to |rs|
      invariant wal.Valid() && wal.Tidy() && wal.log == rs[..i]
      invariant fresh(wal) && fresh(wal.buf) && fresh(wal.buf.data) && wal.file == file && wal.crc == crc
      invariant wal.direct == direct
    {
      AcceptedFields(rs[i]);
      var ok := wal.Append(rs[i]);
    }
    assert wal.log == rs;
    LogReopens(crc, direct, file.bytes, rs);
    var again := Open(crc, file, direct);
    back := again.value.Replay();
    same := again.value.offset == wal.offset;
  }

  lemma AcceptedFields(r: Rec)
    requires Accepted(r)
    ensures r.key != [] && r.sn < U64_LIMIT
  {
  }
}
