/**
  What recovery finds in a log file: all records of a whole file, the longest
  fitting prefix of a cut one, and, after appending over the remains of a torn
  frame, the replayed records plus whatever those remains still decode to.
 */
module WalRecovery {
  import opened Bytes
  import opened Records
  import opened WalFormat

  ghost predicate AllAccepted(rs: seq<Rec>) {
    forall i :: 0 <= i < |rs| ==> Accepted(rs[i])
  }

  // ---------------------------------------------------------------------
  // One frame
  // ---------------------------------------------------------------------

  lemma FrameFields(crc: Checksum, r: Rec)
    requires Accepted(r)
    ensures var f, p := Frame(crc, r), Payload(r);
      && |f| >= PAGE && FRAME_HEADER + |p| <= |f|
      && ReadLe(f, 0, 4) == crc(p) && ReadLe(f, 4, 4) == |p|
      && f[FRAME_HEADER..FRAME_HEADER + |p|] == p
  {
    Widths();
    var f, p := Frame(crc, r), Payload(r);
    AlignUpLeast(FRAME_HEADER + |p|);
    assert f[0..4] == Le(crc(p), 4);
    assert f[4..8] == Le(|p|, 4);
    UnleLe(crc(p), 4);
    UnleLe(|p|, 4);
  }

  /** `bytes` from `off` starts with the first bytes of the frame of `r`. */
  ghost predicate FramePrefixAt(crc: Checksum, bytes: Str, off: nat, r: Rec) {
    && off <= |bytes|
    && var n := if |bytes| - off < FrameLen(r) then |bytes| - off else FrameLen(r);
       bytes[off..off + n] == Frame(crc, r)[..n]
  }

  lemma FrameFieldsAt(crc: Checksum, bytes: Str, off: nat, r: Rec)
    requires Accepted(r) && FramePrefixAt(crc, bytes, off, r) && off + PAGE <= |bytes|
    ensures ReadLe(bytes, off, 4) == crc(Payload(r)) && ReadLe(bytes, off + 4, 4) == PayloadSize(r)
  {
    FrameFields(crc, r);
    hide Unle, Payload, Frame, Accepted;
    var f := Frame(crc, r);
    var n := if |bytes| - off < FrameLen(r) then |bytes| - off else FrameLen(r);
    PrefixSlice(bytes, off, f, n, 0, 4);
    PrefixSlice(bytes, off, f, n, 4, 8);
  }

  lemma PrefixSlice(bytes: Str, off: nat, f: Str, n: nat, lo: nat, hi: nat)
    requires lo <= hi <= n <= |f| && off + n <= |bytes| && bytes[off..off + n] == f[..n]
    ensures bytes[off + lo..off + hi] == f[lo..hi]
  {
    SubSlice(bytes, off, off + n, lo, hi);
    SubSlice(f, 0, n, lo, hi);
  }

  /** A whole frame is read back, wherever it lies. */
  lemma ReadWholeFrame(crc: Checksum, bytes: Str, off: nat, end: nat, r: Rec)
    requires Accepted(r) && FramePrefixAt(crc, bytes, off, r)
    requires off + FrameLen(r) <= |bytes| && off + FrameLen(r) <= end
    ensures ReadOne(crc, bytes, off, end) == Ok(Some((r, off + FrameLen(r))))
  {
    FrameFields(crc, r);
    FrameFieldsAt(crc, bytes, off, r);
    DecodeEncode(r);
    AlignUpLeast(FRAME_HEADER + PayloadSize(r));
    hide Unle, DecodePayload, Frame, AlignUp, Payload;
    var f, p := Frame(crc, r), Payload(r);
    PrefixSlice(bytes, off, f, |f|, FRAME_HEADER, FRAME_HEADER + |p|);
  }

  /** At `off` lies a frame of `r`: checksum and length of its payload, then the payload. */
  ghost predicate FrameAt(crc: Checksum, bytes: Str, off: nat, r: Rec) {
    && off + FrameLen(r) <= |bytes| && 8 + PayloadSize(r) <= FrameLen(r)
    && bytes[off..off + 4] == Le(crc(Payload(r)), 4) && bytes[off + 4..off + 8] == Le(PayloadSize(r), 4)
    && bytes[off + 8..off + 8 + PayloadSize(r)] == Payload(r)
  }

  /** Exactly what reading one frame returns: an acceptable record whose frame, checksum included, lies there. */
  lemma ReadOneIff(crc: Checksum, bytes: Str, off: nat, end: nat, r: Rec, next: nat)
    ensures ReadOne(crc, bytes, off, end) == Ok(Some((r, next)))
      <==> Accepted(r) && FrameAt(crc, bytes, off, r) && next == off + FrameLen(r) <= end
  {
    if ReadOne(crc, bytes, off, end) == Ok(Some((r, next))) {
      ReadIsFrame(crc, bytes, off, end);
    } else if Accepted(r) && FrameAt(crc, bytes, off, r) && next == off + FrameLen(r) <= end {
      FrameIsRead(crc, bytes, off, end, r);
    }
    hide ReadOne, Accepted, FrameAt, AlignUp, PayloadSize;
  }

  lemma ReadIsFrame(crc: Checksum, bytes: Str, off: nat, end: nat)
    requires ReadOne(crc, bytes, off, end).Ok? && ReadOne(crc, bytes, off, end).value.Some?
    ensures var (r, next) := ReadOne(crc, bytes, off, end).value.value;
      Accepted(r) && FrameAt(crc, bytes, off, r) && next == off + FrameLen(r) <= end
  {
    hide DecodePayload, Payload, Unle, Le, Accepted;
    ReadAccepted(crc, bytes, off, end);
    var r := ReadOne(crc, bytes, off, end).value.value.0;
    var n := ReadLe(bytes, off + 4, 4);
    AlignUpLeast(FRAME_HEADER + n);
    EncodeDecode(bytes[off + FRAME_HEADER..off + FRAME_HEADER + n]);
    assert |Payload(r)| == n;
    LeUnle(bytes[off..off + 4]);
    LeUnle(bytes[off + 4..off + 8]);
  }

  lemma FrameIsRead(crc: Checksum, bytes: Str, off: nat, end: nat, r: Rec)
    requires Accepted(r) && FrameAt(crc, bytes, off, r) && off + FrameLen(r) <= end
    ensures ReadOne(crc, bytes, off, end) == Ok(Some((r, off + FrameLen(r))))
  {
    hide DecodePayload, Payload, Unle, Le, Pow256;
    Widths();
    AlignUpLeast(FRAME_HEADER + PayloadSize(r));
    NumberIff(bytes, off, 4, crc(Payload(r)));
    NumberIff(bytes, off + 4, 4, PayloadSize(r));
    DecodeEncode(r);
  }

  /** When reading one frame fails: a length past the limit, or a payload of the right checksum that makes no record. */
  lemma ReadOneErrIff(crc: Checksum, bytes: Str, off: nat, end: nat, e: Error)
    ensures ReadOne(crc, bytes, off, end) == Err(e) <==>
      && off + 4096 <= end && off + 4096 <= |bytes|
      && var n := ReadLe(bytes, off + 4, 4);
         var len := AlignUp(8 + n);
         n > 0
         && (len > 16777216 ==> e == WalRecordTooLarge(len))
         && (len <= 16777216 ==>
               && off + len <= end && off + len <= |bytes| && 8 + n <= len
               && crc(bytes[off + 8..off + 8 + n]) == ReadLe(bytes, off, 4)
               && DecodePayload(bytes[off + 8..off + 8 + n]) == Err(e))
  {
    hide DecodePayload, Unle, AlignUp;
    if off + 4096 <= |bytes| { AlignUpLeast(FRAME_HEADER + ReadLe(bytes, off + 4, 4)); }
  }

  /** A frame cut short reads as the end of the log. */
  lemma ReadTornFrame(crc: Checksum, bytes: Str, off: nat, r: Rec)
    requires Accepted(r) && FramePrefixAt(crc, bytes, off, r)
    requires |bytes| < off + FrameLen(r)
    ensures ReadOne(crc, bytes, off, |bytes|) == Ok(None)
  {
    hide Unle, DecodePayload, Frame, Payload;
    if off + PAGE <= |bytes| {
      FrameFieldsAt(crc, bytes, off, r);
    }
  }

  /** Reading a frame depends on nothing past it. */
  lemma ReadOneLocal(crc: Checksum, a: Str, b: Str, off: nat, end: nat, end': nat)
    requires ReadOne(crc, a, off, end).Ok? && ReadOne(crc, a, off, end).value.Some?
    requires var next := ReadOne(crc, a, off, end).value.value.1;
      next <= end' && next <= |b| && a[..next] == b[..next]
    ensures ReadOne(crc, b, off, end') == ReadOne(crc, a, off, end)
  {
    hide DecodePayload, Unle;
    var next := ReadOne(crc, a, off, end).value.value.1;
    ReadOneAdvances(crc, a, off, end);
    var n := ReadLe(a, off + 4, 4);
    AlignUpLeast(FRAME_HEADER + n);
    SameSlice(a, b, next, off, off + 4);
    SameSlice(a, b, next, off + 4, off + 8);
    SameSlice(a, b, next, off + FRAME_HEADER, off + FRAME_HEADER + n);
  }

  lemma SameSlice(a: Str, b: Str, n: nat, lo: nat, hi: nat)
    requires lo <= hi <= n <= |a| && n <= |b| && a[..n] == b[..n]
    ensures a[lo..hi] == b[lo..hi]
  {
    assert a[lo..hi] == a[..n][lo..hi];
    assert b[lo..hi] == b[..n][lo..hi];
  }

  // ---------------------------------------------------------------------
  // Scanning
  // ---------------------------------------------------------------------

  /** The bytes from `off` up to `stop` are exactly the frames of `rs`. */
  ghost predicate Holds(crc: Checksum, bytes: Str, off: nat, rs: seq<Rec>, stop: nat) {
    off <= stop <= |bytes| && Scan(crc, bytes, off, stop) == Ok((rs, stop))
  }

  lemma {:induction false} ScanAligned(crc: Checksum, bytes: Str, off: nat, end: nat)
    requires Scan(crc, bytes, off, end).Ok? && off <= |bytes|
    ensures var stop := Scan(crc, bytes, off, end).value.1;
      off <= stop <= |bytes| && (stop - off) % PAGE == 0 && (off <= end ==> stop <= end)
    decreases if off < end then end - off else 0
  {
    hide ReadOne;
    if off < end && ReadOne(crc, bytes, off, end).value.Some? {
      ReadOneAdvances(crc, bytes, off, end);
      ScanAligned(crc, bytes, ReadOne(crc, bytes, off, end).value.value.1, end);
    }
  }

  /** What a scan found is held by the file up to where the scan stopped. */
  lemma {:induction false} ScanHolds(crc: Checksum, bytes: Str, off: nat, end: nat)
    requires Scan(crc, bytes, off, end).Ok? && off <= end <= |bytes|
    ensures var (rs, stop) := Scan(crc, bytes, off, end).value; Holds(crc, bytes, off, rs, stop)
    decreases end - off
  {
    hide ReadOne;
    ScanAligned(crc, bytes, off, end);
    if off < end && ReadOne(crc, bytes, off, end).value.Some? {
      var (r, next) := ReadOne(crc, bytes, off, end).value.value;
      ReadOneAdvances(crc, bytes, off, end);
      ScanHolds(crc, bytes, next, end);
      var stop := Scan(crc, bytes, off, end).value.1;
      ScanAligned(crc, bytes, next, end);
      ReadOneLocal(crc, bytes, bytes, off, end, stop);
    }
  }

  /** A scan first returns what the file holds, in any file with the same beginning, then goes on. */
  lemma {:induction false} ScanSplit(crc: Checksum, a: Str, b: Str, off: nat, rs: seq<Rec>, mid: nat, end: nat)
    requires Holds(crc, a, off, rs, mid) && mid <= end && mid <= |b| && a[..mid] == b[..mid]
    ensures Scan(crc, b, off, end) ==
      match Scan(crc, b, mid, end)
      case Err(e) => Err(e)
      case Ok((qs, stop)) => Ok((rs + qs, stop))
    decreases mid - off
  {
    hide ReadOne;
    if off < mid {
      var (r, next) := ReadOne(crc, a, off, mid).value.value;
      ReadOneAdvances(crc, a, off, mid);
      ReadOneLocal(crc, a, b, off, mid, end);
      ScanSplit(crc, a, b, next, rs[1..], mid, end);
      assert rs == [r] + rs[1..];
      if Scan(crc, b, mid, end).Ok? {
        var qs := Scan(crc, b, mid, end).value.0;
        assert [r] + (rs[1..] + qs) == rs + qs;
      }
    } else if Scan(crc, b, mid, end).Ok? {
      assert rs + Scan(crc, b, mid, end).value.0 == Scan(crc, b, mid, end).value.0;
    }
  }

  lemma AppendKeepsHeader(crc: Checksum, bytes: Str, off: nat, data: Str)
    requires PAGE <= off <= |bytes|
    ensures CheckHeader(crc, WriteAt(bytes, off, data)) == CheckHeader(crc, bytes)
  {
    var out := WriteAt(bytes, off, data);
    SameSlice(bytes, out, off, 0, 4);
    SameSlice(bytes, out, off, 4, 6);
    SameSlice(bytes, out, off, 0, 8);
    SameSlice(bytes, out, off, 8, 12);
  }

  /** Appending a frame extends what the file holds by one record, stale bytes or not. */
  lemma AppendHolds(crc: Checksum, bytes: Str, rs: seq<Rec>, off: nat, r: Rec)
    requires Holds(crc, bytes, PAGE, rs, off) && Accepted(r)
    ensures Holds(crc, WriteAt(bytes, off, Frame(crc, r)), PAGE, rs + [r], off + FrameLen(r))
  {
    hide Frame, ReadOne;
    var out, end := WriteAt(bytes, off, Frame(crc, r)), off + FrameLen(r);
    AlignUpLeast(FRAME_HEADER + PayloadSize(r));
    assert Frame(crc, r)[..FrameLen(r)] == Frame(crc, r);
    ReadWholeFrame(crc, out, off, end, r);
    ScanSplit(crc, bytes, out, PAGE, rs, off, end);
    assert Scan(crc, out, end, end) == Ok(([], end));
    assert [r] + [] == [r];
    assert Scan(crc, out, off, end) == Ok(([r], end));
  }

  /** Whatever a scan returns, the log would accept again. */
  lemma {:induction false} ScannedAccepted(crc: Checksum, bytes: Str, off: nat, end: nat)
    requires Scan(crc, bytes, off, end).Ok?
    ensures AllAccepted(Scan(crc, bytes, off, end).value.0)
    decreases if off < end then end - off else 0
  {
    hide ReadOne, Accepted;
    if off < end && ReadOne(crc, bytes, off, end).value.Some? {
      ReadOneAdvances(crc, bytes, off, end);
      ReadAccepted(crc, bytes, off, end);
      ScannedAccepted(crc, bytes, ReadOne(crc, bytes, off, end).value.value.1, end);
    }
  }

  lemma ReadAccepted(crc: Checksum, bytes: Str, off: nat, end: nat)
    requires ReadOne(crc, bytes, off, end).Ok? && ReadOne(crc, bytes, off, end).value.Some?
    ensures Accepted(ReadOne(crc, bytes, off, end).value.value.0)
  {
    hide DecodePayload, Payload, PayloadSize, Unle, AlignUp;
    var n := ReadLe(bytes, off + 4, 4);
    AlignUpLeast(FRAME_HEADER + n);
    var src := bytes[off + FRAME_HEADER..off + FRAME_HEADER + n];
    EncodeDecode(src);
    DecodedSn(src);
    assert PayloadSize(DecodePayload(src).value) == |src| == n;
  }

  lemma DecodedSn(src: Str)
    requires DecodePayload(src).Ok?
    ensures DecodePayload(src).value.sn < U64_LIMIT && DecodePayload(src).value.key != []
  {
    Widths();
    ReadBound(src, 0, 8);
  }

  // ---------------------------------------------------------------------
  // Cut files
  // ---------------------------------------------------------------------

  /** How many leading frames fit whole into `room` bytes. */
  function Fit(rs: seq<Rec>, room: nat): (n: nat)
    ensures n <= |rs|
  {
    if rs == [] || FrameLen(rs[0]) > room then 0 else 1 + Fit(rs[1..], room - FrameLen(rs[0]))
  }

  /** `Fit` counts the longest prefix whose frames fit. */
  lemma {:induction false} FitIsLongest(crc: Checksum, rs: seq<Rec>, room: nat, n: nat)
    requires n <= |rs|
    ensures n <= Fit(rs, room) <==> |Frames(crc, rs[..n])| <= room
  {
    if n > 0 {
      assert rs[..n][0] == rs[0] && rs[..n][1..] == rs[1..][..n - 1];
      if FrameLen(rs[0]) <= room {
        FitIsLongest(crc, rs[1..], room - FrameLen(rs[0]), n - 1);
      }
    }
  }

  lemma {:induction false} ScanCut(crc: Checksum, bytes: Str, off: nat, rs: seq<Rec>)
    requires AllAccepted(rs) && off <= |bytes| <= off + |Frames(crc, rs)|
    requires bytes[off..] == Frames(crc, rs)[..|bytes| - off]
    ensures var n := Fit(rs, |bytes| - off);
      Scan(crc, bytes, off, |bytes|) == Ok((rs[..n], off + |Frames(crc, rs[..n])|))
    decreases |rs|
  {
    hide ReadOne, Frame, AlignUp, PayloadSize;
    if off < |bytes| {
      var r, f := rs[0], Frame(crc, rs[0]);
      var room := |bytes| - off;
      assert FramePrefixAt(crc, bytes, off, r) by {
        var n := if room < |f| then room else |f|;
        assert bytes[off..off + n] == bytes[off..][..n] == Frames(crc, rs)[..n] == f[..n];
      }
      if room < |f| {
        ReadTornFrame(crc, bytes, off, r);
      } else {
        ReadWholeFrame(crc, bytes, off, |bytes|, r);
        var next := off + |f|;
        assert bytes[next..] == bytes[off..][|f|..] == Frames(crc, rs[1..])[..|bytes| - next];
        ScanCut(crc, bytes, next, rs[1..]);
        var n := Fit(rs, room);
        assert rs[..n] == [r] + rs[1..][..n - 1];
      }
    } else {
      var n := Fit(rs, 0);
      AlignUpPositive(rs);
      assert n == 0;
    }
  }

  lemma AlignUpPositive(rs: seq<Rec>)
    ensures rs != [] ==> FrameLen(rs[0]) >= PAGE
  {
    if rs != [] { AlignUpLeast(FRAME_HEADER + PayloadSize(rs[0])); }
  }

  lemma HeaderAccepted(crc: Checksum, direct: bool, bytes: Str)
    requires |bytes| >= PAGE && bytes[..PAGE] == Header(crc, direct)
    ensures CheckHeader(crc, bytes) == Ok(())
  {
    Widths();
    var h := Header(crc, direct);
    var head := WAL_MAGIC + Le(WAL_VERSION, 2) + Le(if direct then 1 else 0, 2);
    assert bytes[0..4] == h[0..4] == WAL_MAGIC;
    assert bytes[4..6] == h[4..6] == Le(WAL_VERSION, 2);
    assert bytes[0..8] == h[0..8] == head;
    assert bytes[8..12] == h[8..12] == Le(crc(head), 4);
    UnleLe(WAL_VERSION, 2);
    UnleLe(crc(head), 4);
  }

  /**
    Cutting a well-formed log at any length from one page up, recovery returns
    exactly the records whose frames are whole, and appends go right after them.
    Cut inside the header page, the log is refused.
   */
  lemma CutLogRecovers(crc: Checksum, direct: bool, rs: seq<Rec>, len: nat)
    requires AllAccepted(rs) && len <= |Image(crc, direct, rs)|
    ensures var file := Image(crc, direct, rs)[..len];
      if len < PAGE then OpenLog(crc, file) == Err(WalCorrupt)
      else
        var n := Fit(rs, len - PAGE);
        OpenLog(crc, file) == Ok((rs[..n], |Image(crc, direct, rs[..n])|))
  {
    hide ReadOne, Frame, AlignUp, PayloadSize, Header;
    var image := Image(crc, direct, rs);
    var file := image[..len];
    if len >= PAGE {
      assert file[..PAGE] == image[..PAGE] == Header(crc, direct);
      HeaderAccepted(crc, direct, file);
      assert file[PAGE..] == Frames(crc, rs)[..len - PAGE];
      ScanCut(crc, file, PAGE, rs);
    }
  }

  /** A whole log gives back every appended record, in order, and its end offset. */
  lemma WholeLogRecovers(crc: Checksum, direct: bool, rs: seq<Rec>)
    requires AllAccepted(rs)
    ensures OpenLog(crc, Image(crc, direct, rs)) == Ok((rs, |Image(crc, direct, rs)|))
    ensures |Image(crc, direct, rs)| % PAGE == 0
  {
    hide ReadOne, Frame, AlignUp, PayloadSize, Header, CheckHeader;
    var image := Image(crc, direct, rs);
    CutLogRecovers(crc, direct, rs, |image|);
    assert image[..|image|] == image;
    assert rs[..|rs|] == rs;
    FitIsLongest(crc, rs, |Frames(crc, rs)|, |rs|);
    ScanAligned(crc, image, PAGE, |image|);
  }

  lemma {:induction false} FramesConcat(crc: Checksum, rs: seq<Rec>, qs: seq<Rec>)
    ensures Frames(crc, rs + qs) == Frames(crc, rs) + Frames(crc, qs)
  {
    if rs == [] {
      assert rs + qs == qs;
    } else {
      assert (rs + qs)[1..] == rs[1..] + qs;
      FramesConcat(crc, rs[1..], qs);
    }
  }

  lemma ImageAppend(crc: Checksum, direct: bool, rs: seq<Rec>, r: Rec)
    ensures Image(crc, direct, rs + [r]) == Image(crc, direct, rs) + Frame(crc, r)
  {
    FramesConcat(crc, rs, [r]);
    assert Frames(crc, [r]) == Frame(crc, r) + Frames(crc, []);
  }

  lemma AcceptedSnoc(rs: seq<Rec>, r: Rec)
    requires AllAccepted(rs) && Accepted(r)
    ensures AllAccepted(rs + [r])
  {
    hide Accepted;
  }

  /** An append torn at any byte leaves the earlier records, or all of them with the new one. */
  lemma TornAppendRecovers(crc: Checksum, direct: bool, rs: seq<Rec>, r: Rec, len: nat)
    requires AllAccepted(rs) && Accepted(r)
    requires |Image(crc, direct, rs)| <= len <= |Image(crc, direct, rs + [r])|
    ensures var kept := if len == |Image(crc, direct, rs + [r])| then rs + [r] else rs;
      OpenLog(crc, Image(crc, direct, rs + [r])[..len]) == Ok((kept, |Image(crc, direct, kept)|))
  {
    hide ReadOne, Frame, FrameLen, PayloadSize, Header, CheckHeader, AllAccepted, Accepted, OpenLog;
    var all := rs + [r];
    ImageAppend(crc, direct, rs, r);
    AcceptedSnoc(rs, r);
    CutLogRecovers(crc, direct, all, len);
    assert all[..|rs|] == rs && all[..|all|] == all;
    FitIsLongest(crc, all, len - PAGE, |rs|);
    FitIsLongest(crc, all, len - PAGE, |all|);
  }

  // ---------------------------------------------------------------------
  // Remains behind the last frame
  // ---------------------------------------------------------------------

  /** A file that starts with the image of `rs`, whatever lies behind it. */
  ghost predicate StartsLog(crc: Checksum, direct: bool, bytes: Str, rs: seq<Rec>) {
    AllAccepted(rs) && Image(crc, direct, rs) <= bytes
  }

  /** The image of `rs`, with at most part of a page behind it: what a torn first page leaves. */
  ghost predicate IsLog(crc: Checksum, direct: bool, bytes: Str, rs: seq<Rec>) {
    StartsLog(crc, direct, bytes, rs) && |bytes| < |Image(crc, direct, rs)| + PAGE
  }

  /** No frame is read at `off`. */
  predicate EndsAt(crc: Checksum, bytes: Str, off: nat) {
    ReadOne(crc, bytes, off, |bytes|) == Ok(None)
  }

  lemma PastTheEnd(crc: Checksum, bytes: Str, off: nat)
    requires off + PAGE > |bytes|
    ensures EndsAt(crc, bytes, off)
  {
  }

  /**
    Reopening a file that holds `rs` up to `off` returns exactly `rs` if and
    only if the bytes at `off` read as the end of the log.
   */
  lemma ReopenExact(crc: Checksum, bytes: Str, rs: seq<Rec>, off: nat)
    requires |bytes| >= PAGE && CheckHeader(crc, bytes).Ok? && Holds(crc, bytes, PAGE, rs, off)
    ensures EndsAt(crc, bytes, off) ==> OpenLog(crc, bytes) == Ok((rs, off))
    ensures OpenLog(crc, bytes).Ok? && OpenLog(crc, bytes).value.0 == rs ==> EndsAt(crc, bytes, off)
  {
    hide ReadOne;
    ScanSplit(crc, bytes, bytes, PAGE, rs, off, |bytes|);
    if EndsAt(crc, bytes, off) { assert rs + [] == rs; }
    if off == |bytes| { PastTheEnd(crc, bytes, off); }
  }

  /** A file that starts with an image reopens to it if and only if its remains read as the end. */
  lemma StartedReopens(crc: Checksum, direct: bool, bytes: Str, rs: seq<Rec>)
    requires StartsLog(crc, direct, bytes, rs)
    ensures |Image(crc, direct, rs)| % PAGE == 0 && CheckHeader(crc, bytes) == Ok(())
    ensures Holds(crc, bytes, PAGE, rs, |Image(crc, direct, rs)|)
    ensures EndsAt(crc, bytes, |Image(crc, direct, rs)|) ==> OpenLog(crc, bytes) == Ok((rs, |Image(crc, direct, rs)|))
    ensures OpenLog(crc, bytes).Ok? && OpenLog(crc, bytes).value.0 == rs ==> EndsAt(crc, bytes, |Image(crc, direct, rs)|)
  {
    hide Frame, AlignUp, PayloadSize, Header, CheckHeader, AllAccepted, EndsAt;
    var image := Image(crc, direct, rs);
    WholeLogRecovers(crc, direct, rs);
    HeaderAccepted(crc, direct, bytes);
    ScanHolds(crc, image, PAGE, |image|);
    ScanSplit(crc, image, bytes, PAGE, rs, |image|, |image|);
    assert rs + [] == rs;
    ReopenExact(crc, bytes, rs, |image|);
  }

  /** What opening does with what lies behind: an unreadable frame is an error, a whole one another record. */
  lemma StartedGoesOn(crc: Checksum, direct: bool, bytes: Str, rs: seq<Rec>)
    requires StartsLog(crc, direct, bytes, rs)
    ensures match ReadOne(crc, bytes, |Image(crc, direct, rs)|, |bytes|)
      case Err(e) => OpenLog(crc, bytes) == Err(e)
      case Ok(None) => OpenLog(crc, bytes) == Ok((rs, |Image(crc, direct, rs)|))
      case Ok(Some((r, _))) => OpenLog(crc, bytes).Ok? ==> rs + [r] <= OpenLog(crc, bytes).value.0
  {
    StartedReopens(crc, direct, bytes, rs);
    hide ReadOne, Image, CheckHeader, AllAccepted;
    var off := |Image(crc, direct, rs)|;
    ScanSplit(crc, bytes, bytes, PAGE, rs, off, |bytes|);
    if off == |bytes| { PastTheEnd(crc, bytes, off); }
  }

  /** Remains of less than a page read as the end of the log. */
  lemma LogReopens(crc: Checksum, direct: bool, bytes: Str, rs: seq<Rec>)
    requires IsLog(crc, direct, bytes, rs)
    ensures OpenLog(crc, bytes) == Ok((rs, |Image(crc, direct, rs)|)) && |Image(crc, direct, rs)| % PAGE == 0
    ensures EndsAt(crc, bytes, |Image(crc, direct, rs)|)
  {
    hide OpenLog, Image, AllAccepted;
    StartedReopens(crc, direct, bytes, rs);
    PastTheEnd(crc, bytes, |Image(crc, direct, rs)|);
  }

  /**
    The next append goes over the remains: the file starts with the longer image, and
    is exactly that image if they were less than a page.
   */
  lemma LogAppended(crc: Checksum, direct: bool, bytes: Str, rs: seq<Rec>, r: Rec)
    requires StartsLog(crc, direct, bytes, rs) && Accepted(r)
    ensures var out := WriteAt(bytes, |Image(crc, direct, rs)|, Frame(crc, r));
      && StartsLog(crc, direct, out, rs + [r])
      && |Image(crc, direct, rs + [r])| == |Image(crc, direct, rs)| + FrameLen(r)
      && (IsLog(crc, direct, bytes, rs) ==> out == Image(crc, direct, rs + [r]) && IsLog(crc, direct, out, rs + [r]))
  {
    hide Frame, Image, PayloadSize, AllAccepted, AlignUp;
    AlignUpLeast(FRAME_HEADER + PayloadSize(r));
    ImageAppend(crc, direct, rs, r);
    AcceptedSnoc(rs, r);
  }

  /**
    An append cut after any number of bytes, over remains or not, leaves the earlier
    records. Over less than a page of remains, opening finds exactly them; cut within
    its first page, it leaves less than a page again.
   */
  lemma TornWriteReopens(crc: Checksum, direct: bool, bytes: Str, rs: seq<Rec>, r: Rec, len: nat)
    requires StartsLog(crc, direct, bytes, rs) && Accepted(r) && len < FrameLen(r)
    ensures var torn := WriteAt(bytes, |Image(crc, direct, rs)|, Frame(crc, r)[..len]);
      && StartsLog(crc, direct, torn, rs)
      && (IsLog(crc, direct, bytes, rs) ==> EndsAt(crc, torn, |Image(crc, direct, rs)|))
      && (IsLog(crc, direct, bytes, rs) && len < PAGE ==> IsLog(crc, direct, torn, rs))
  {
    hide Frame, Image, PayloadSize, AllAccepted, AlignUp, OpenLog, EndsAt;
    var image := Image(crc, direct, rs);
    var torn := WriteAt(bytes, |image|, Frame(crc, r)[..len]);
    if IsLog(crc, direct, bytes, rs) {
      if len < PAGE {
        LogReopens(crc, direct, torn, rs);
      } else {
        ImageAppend(crc, direct, rs, r);
        assert torn == Image(crc, direct, rs + [r])[..|image| + len];
        TornAppendRecovers(crc, direct, rs, r, |image| + len);
        StartedReopens(crc, direct, torn, rs);
      }
    }
  }

  // ---------------------------------------------------------------------
  // Corrupt frames and headers
  // ---------------------------------------------------------------------

  /** A payload whose checksum is not the stored one ends the log there. */
  lemma BadChecksumEnds(crc: Checksum, bytes: Str, off: nat, n: nat)
    requires 0 < n && off + PAGE <= |bytes| && ReadLe(bytes, off + 4, 4) == n && AlignUp(8 + n) <= MAX_RECORD_BYTES
    requires off + 8 + n <= |bytes| && crc(bytes[off + 8..off + 8 + n]) != ReadLe(bytes, off, 4)
    ensures EndsAt(crc, bytes, off)
  {
    hide DecodePayload, Unle, AlignUp;
    AlignUpLeast(8 + n);
  }

  /**
    A log in which one payload was replaced by another of a different checksum opens to
    exactly the records before it, whatever follows.
   */
  lemma CorruptFrameStops(crc: Checksum, direct: bool, rs: seq<Rec>, r: Rec, qs: seq<Rec>, bad: Str)
    requires AllAccepted(rs) && Accepted(r) && |bad| == PayloadSize(r) && crc(bad) != crc(Payload(r))
    ensures var at := |Image(crc, direct, rs)|;
      OpenLog(crc, WriteAt(Image(crc, direct, rs + [r] + qs), at + 8, bad)) == Ok((rs, at))
  {
    hide Frame, AlignUp, Header, CheckHeader, AllAccepted, Payload, DecodePayload, EndsAt, OpenLog, Frames, Unle;
    var at, image, f := |Image(crc, direct, rs)|, Image(crc, direct, rs + [r] + qs), Frame(crc, r);
    var file := WriteAt(image, at + 8, bad);
    LaterImage(crc, direct, rs, r, qs);
    FrameFields(crc, r);
    assert file[..at + 8] == image[..at + 8];
    SameSlice(file, image, at + 8, at, at + 4);
    SameSlice(file, image, at + 8, at + 4, at + 8);
    SubSlice(image, at, at + |f|, 0, 4);
    SubSlice(image, at, at + |f|, 4, 8);
    assert file[..at] == file[..at + 8][..at] == image[..at];
    BadChecksumEnds(crc, file, at, |bad|);
    StartedReopens(crc, direct, file, rs);
  }

  lemma LaterImage(crc: Checksum, direct: bool, rs: seq<Rec>, r: Rec, qs: seq<Rec>)
    ensures var at, image := |Image(crc, direct, rs)|, Image(crc, direct, rs + [r] + qs);
      at + FrameLen(r) <= |image| && image[..at] == Image(crc, direct, rs) && image[at..at + FrameLen(r)] == Frame(crc, r)
  {
    hide Frame, Frames, Header, FrameLen;
    ImageAppend(crc, direct, rs, r);
    FramesConcat(crc, rs + [r], qs);
    assert Image(crc, direct, rs + [r] + qs) == Image(crc, direct, rs) + Frame(crc, r) + Frames(crc, qs);
  }

  /** A log whose magic, version or flags were replaced by bytes of another checksum is not opened. */
  lemma CorruptHeaderRefused(crc: Checksum, direct: bool, rs: seq<Rec>, bad: Str)
    requires |bad| == 8 && crc(bad) != crc(Header(crc, direct)[..8])
    ensures OpenLog(crc, WriteAt(Image(crc, direct, rs), 0, bad)).Err?
  {
    hide Header, Frames, Le, Scan;
    var image, file := Image(crc, direct, rs), WriteAt(Image(crc, direct, rs), 0, bad);
    HeaderSum(crc, direct);
    assert file[..8] == bad && file[8..] == image[8..];
    SubSlice(file, 8, |file|, 0, 4);
    SubSlice(image, 8, |image|, 0, 4);
    assert image[8..12] == Header(crc, direct)[8..12];
    HeaderIff(crc, file);
    SumsDiffer(crc(bad), crc(Header(crc, direct)[..8]));
  }

  lemma HeaderSum(crc: Checksum, direct: bool)
    ensures Header(crc, direct)[8..12] == Le(crc(Header(crc, direct)[..8]), 4)
  {
    hide Le;
    var head := WAL_MAGIC + Le(WAL_VERSION, 2) + Le(if direct then 1 else 0, 2);
    assert Header(crc, direct)[..8] == head;
  }

  lemma SumsDiffer(a: Word32, b: Word32)
    requires a != b
    ensures Le(a, 4) != Le(b, 4)
  {
    Widths();
    UnleLe(a, 4);
    UnleLe(b, 4);
  }

  // ---------------------------------------------------------------------
  // Appending after a torn frame
  // ---------------------------------------------------------------------

  /** Reading a frame depends on nothing before it. */
  lemma ReadOneBehind(crc: Checksum, a: Str, b: Str, off: nat)
    requires off <= |a| == |b| && a[off..] == b[off..]
    ensures ReadOne(crc, a, off, |a|) == ReadOne(crc, b, off, |b|)
  {
    hide DecodePayload, Unle;
    if off + PAGE <= |a| {
      SameBehind(a, b, off, off, off + 4);
      SameBehind(a, b, off, off + 4, off + 8);
      var n := ReadLe(a, off + 4, 4);
      AlignUpLeast(FRAME_HEADER + n);
      if off + AlignUp(FRAME_HEADER + n) <= |a| {
        SameBehind(a, b, off, off + FRAME_HEADER, off + FRAME_HEADER + n);
      }
    }
  }

  lemma SameBehind(a: Str, b: Str, off: nat, lo: nat, hi: nat)
    requires off <= lo <= hi <= |a| == |b| && a[off..] == b[off..]
    ensures a[lo..hi] == b[lo..hi]
  {
    SubSlice(a, off, |a|, lo - off, hi - off);
    SubSlice(b, off, |b|, lo - off, hi - off);
  }

  lemma {:induction false} AppendsHold(crc: Checksum, bytes: Str, rs: seq<Rec>, off: nat, qs: seq<Rec>)
    requires Holds(crc, bytes, PAGE, rs, off) && AllAccepted(qs)
    ensures Holds(crc, WriteAt(bytes, off, Frames(crc, qs)), PAGE, rs + qs, off + |Frames(crc, qs)|)
    decreases |qs|
  {
    hide Frame, Scan, PayloadSize, AlignUp, Accepted;
    if qs == [] {
      assert rs + qs == rs && WriteAt(bytes, off, []) == bytes;
    } else {
      var r, rest := qs[0], qs[1..];
      var once := WriteAt(bytes, off, Frame(crc, r));
      AppendHolds(crc, bytes, rs, off, r);
      AppendsHold(crc, once, rs + [r], off + FrameLen(r), rest);
      assert (rs + [r]) + rest == rs + qs;
      WriteTwice(bytes, off, Frame(crc, r), Frames(crc, rest));
    }
  }

  lemma WriteTwice(bytes: Str, off: nat, a: Str, b: Str)
    requires off <= |bytes|
    ensures WriteAt(WriteAt(bytes, off, a), off + |a|, b) == WriteAt(bytes, off, a + b)
  {
  }

  /**
    A session over stale bytes: append any records at the end of the held ones and
    reopen. Exactly all of them come back if and only if the file as it was before the
    session reads as the end of the log just behind the last new frame.
   */
  lemma AppendsReopenIff(crc: Checksum, bytes: Str, rs: seq<Rec>, off: nat, qs: seq<Rec>)
    requires |bytes| >= PAGE && CheckHeader(crc, bytes).Ok? && Holds(crc, bytes, PAGE, rs, off) && AllAccepted(qs)
    ensures var out, end := WriteAt(bytes, off, Frames(crc, qs)), off + |Frames(crc, qs)|;
      && (EndsAt(crc, bytes, end) ==> OpenLog(crc, out) == Ok((rs + qs, end)))
      && (OpenLog(crc, out).Ok? && OpenLog(crc, out).value.0 == rs + qs ==> EndsAt(crc, bytes, end))
  {
    hide Frames, ReadOne, OpenLog, CheckHeader, Scan, AllAccepted;
    var out, end := WriteAt(bytes, off, Frames(crc, qs)), off + |Frames(crc, qs)|;
    AppendKeepsHeader(crc, bytes, off, Frames(crc, qs));
    AppendsHold(crc, bytes, rs, off, qs);
    ReopenExact(crc, out, rs + qs, end);
    EndUnmoved(crc, bytes, off, Frames(crc, qs));
  }

  /** What is written before an offset does not change what is read there. */
  lemma EndUnmoved(crc: Checksum, bytes: Str, off: nat, data: Str)
    requires off <= |bytes|
    ensures forall at :: at >= off + |data| ==> EndsAt(crc, WriteAt(bytes, off, data), at) == EndsAt(crc, bytes, at)
  {
    hide ReadOne;
    var out := WriteAt(bytes, off, data);
    forall at | at >= off + |data| ensures EndsAt(crc, out, at) == EndsAt(crc, bytes, at) {
      if at <= |bytes| {
        assert out[at..] == bytes[at..];
        ReadOneBehind(crc, out, bytes, at);
      } else {
        PastTheEnd(crc, out, at);
        PastTheEnd(crc, bytes, at);
      }
    }
  }

  /** A record whose second page is itself the frame of another record. */
  function Carrier(crc: Checksum, inner: Rec): Rec {
    Rec([1], 1, Put(Zeros(PAGE - 26) + Frame(crc, inner) + Zeros(1)))
  }

  /**
    Opening does not truncate. A three-page append torn after two pages, then
    one short append: the second reopen returns a record nobody appended, read
    from the stale page of the torn frame.
   */
  lemma StalePageResurfaces(crc: Checksum, direct: bool)
    ensures
      var inner, next := Rec([2], 2, Delete), Rec([3], 3, Delete);
      var torn := Image(crc, direct, [Carrier(crc, inner)])[..3 * PAGE];
      && OpenLog(crc, torn) == Ok(([], PAGE))
      && OpenLog(crc, WriteAt(torn, PAGE, Frame(crc, next))) == Ok(([next, inner], 3 * PAGE))
  {
    var inner, next := Rec([2], 2, Delete), Rec([3], 3, Delete);
    var big := Carrier(crc, inner);
    assert PayloadSize(inner) == 18 && PayloadSize(next) == 18;
    assert FrameLen(inner) == PAGE && FrameLen(next) == PAGE;
    assert PayloadSize(big) == 2 * PAGE - 7;
    assert FrameLen(big) == 3 * PAGE;
    var image := Image(crc, direct, [big]);
    assert Frames(crc, [big]) == Frame(crc, big) + Frames(crc, []);
    assert Frames(crc, [big]) == Frame(crc, big);
    var torn := image[..3 * PAGE];
    CutLogRecovers(crc, direct, [big], 3 * PAGE);
    assert Fit([big], 2 * PAGE) == 0;
    CarrierPage(crc, inner);
    var out := WriteAt(torn, PAGE, Frame(crc, next));
    assert |out| == 3 * PAGE;
    assert out[..PAGE] == torn[..PAGE] == Header(crc, direct);
    HeaderAccepted(crc, direct, out);
    assert out[PAGE..2 * PAGE] == Frame(crc, next);
    assert out[2 * PAGE..3 * PAGE] == torn[2 * PAGE..3 * PAGE]
        == Frame(crc, big)[PAGE..2 * PAGE] == Frame(crc, inner);
    var both := [next, inner];
    assert Frames(crc, both) == Frame(crc, next) + Frames(crc, [inner]) by { assert both[1..] == [inner]; }
    assert Frames(crc, [inner]) == Frame(crc, inner) + Frames(crc, []);
    assert out == Image(crc, direct, both);
    WholeLogRecovers(crc, direct, both);
  }

  lemma CarrierPage(crc: Checksum, inner: Rec)
    requires FrameLen(inner) == PAGE
    ensures FrameLen(Carrier(crc, inner)) >= 2 * PAGE
    ensures Frame(crc, Carrier(crc, inner))[PAGE..2 * PAGE] == Frame(crc, inner)
  {
    var big := Carrier(crc, inner);
    var p := Payload(big);
    var v := Zeros(PAGE - 26) + Frame(crc, inner) + Zeros(1);
    assert p[18..] == v;
    assert p[PAGE - 8..2 * PAGE - 8] == v[PAGE - 26..2 * PAGE - 26] == Frame(crc, inner);
    assert Frame(crc, big)[PAGE..2 * PAGE] == p[PAGE - 8..2 * PAGE - 8];
  }
}
