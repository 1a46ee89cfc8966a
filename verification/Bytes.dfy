/**
  Bytes, the little-endian integers every on-disk structure is built from, and
  the lexicographic key order shared by the MemTable and the SSTables.
 */
module Bytes {

  type Byte = x: int | 0 <= x < 256

  type Str = seq<Byte>

  const U16_LIMIT: nat := 0x1_0000
  const U32_LIMIT: nat := 0x1_0000_0000
  const U64_LIMIT: nat := 0x1_0000_0000_0000_0000
  const USIZE_MAX: nat := U64_LIMIT - 1

  // ---------------------------------------------------------------------
  // Little-endian integers
  // ---------------------------------------------------------------------

  function Pow256(w: nat): (p: nat)
    ensures p >= 1
  {
    if w == 0 then 1 else 256 * Pow256(w - 1)
  }

  lemma Widths()
    ensures Pow256(2) == U16_LIMIT && Pow256(4) == U32_LIMIT && Pow256(8) == U64_LIMIT
  {
    assert Pow256(2) == 65536;
    assert Pow256(3) == 256 * 65536;
    assert Pow256(4) == U32_LIMIT;
    assert Pow256(5) == 256 * U32_LIMIT;
    assert Pow256(6) == 65536 * U32_LIMIT;
    assert Pow256(7) == 256 * 65536 * U32_LIMIT;
  }

  /** The `w` low bytes of `n`, least significant first. */
  function Le(n: nat, w: nat): (s: Str)
    ensures |s| == w
  {
    if w == 0 then [] else [n % 256] + Le(n / 256, w - 1)
  }

  /** Byte `i` is digit `i` of the number to base 256. */
  lemma {:induction false} LeDigits(n: nat, w: nat, i: nat)
    requires i < w
    ensures Le(n, w)[i] == n / Pow256(i) % 256
  {
    if i > 0 {
      LeDigits(n / 256, w - 1, i - 1);
      DivTwice(n, Pow256(i - 1));
    }
  }

  lemma DivTwice(n: nat, p: nat)
    requires p >= 1
    ensures n / 256 / p == n / (256 * p)
  {
    var q, r := n / (256 * p), n % (256 * p);
    assert n == 256 * (p * q) + r;
    assert n / 256 == p * q + r / 256 && r / 256 < p;
    DivUnique(p * q + r / 256, p, q, r / 256);
  }

  lemma DivUnique(x: nat, p: nat, q: nat, r: nat)
    requires p >= 1 && x == p * q + r && r < p
    ensures x / p == q
  {
    var d := x / p;
    assert x == p * d + x % p;
    if d < q { MulAbove(p, d, q); } else if d > q { MulAbove(p, q, d); }
  }

  lemma MulAbove(p: nat, a: nat, b: nat)
    requires a < b
    ensures p * a + p <= p * b
  {
    if a + 1 < b { MulAbove(p, a, b - 1); }
  }

  /** The number whose little-endian bytes are `s`. */
  function Unle(s: Str): nat {
    if s == [] then 0 else s[0] + 256 * Unle(s[1..])
  }

  lemma {:induction false} UnleBound(s: Str)
    ensures Unle(s) < Pow256(|s|)
  {
    if s != [] { UnleBound(s[1..]); }
  }

  lemma {:induction false} UnleLe(n: nat, w: nat)
    requires n < Pow256(w)
    ensures Unle(Le(n, w)) == n
  {
    if w > 0 {
      var s := Le(n, w);
      assert s[1..] == Le(n / 256, w - 1);
      assert n / 256 < Pow256(w - 1);
      UnleLe(n / 256, w - 1);
    }
  }

  lemma {:induction false} LeUnle(s: Str)
    ensures Le(Unle(s), |s|) == s
  {
    if s != [] {
      LeUnle(s[1..]);
      assert Unle(s) % 256 == s[0] && Unle(s) / 256 == Unle(s[1..]);
      assert s == [s[0]] + s[1..];
    }
  }

  /** The integer of width `w` stored at `off`. */
  function ReadLe(src: Str, off: nat, w: nat): nat
    requires off + w <= |src|
  {
    Unle(src[off..off + w])
  }

  lemma ReadBound(src: Str, off: nat, w: nat)
    requires off + w <= |src|
    ensures ReadLe(src, off, w) < Pow256(w)
  {
    UnleBound(src[off..off + w]);
  }

  /** Reading back an integer that sits between `before` and `after`. */
  lemma ReadWritten(before: Str, n: nat, w: nat, after: Str)
    requires n < Pow256(w)
    ensures ReadLe(before + Le(n, w) + after, |before|, w) == n
  {
    var src := before + Le(n, w) + after;
    assert src[|before|..|before| + w] == Le(n, w);
    UnleLe(n, w);
  }

  function Zeros(n: nat): (s: Str)
    ensures |s| == n && forall i :: 0 <= i < n ==> s[i] == 0
  {
    seq(n, i => 0)
  }

  lemma SubSlice<T>(s: seq<T>, a: nat, b: nat, lo: nat, hi: nat)
    requires a <= b <= |s| && lo <= hi <= b - a
    ensures s[a..b][lo..hi] == s[a + lo..a + hi]
  {
    forall i | 0 <= i < hi - lo ensures s[a..b][lo..hi][i] == s[a + lo..a + hi][i] {
      assert s[a..b][lo..hi][i] == s[a..b][lo + i] == s[a + (lo + i)];
    }
  }

  // ---------------------------------------------------------------------
  // Lexicographic order
  // ---------------------------------------------------------------------

  /** `a` sorts strictly before `b`, byte by byte, a proper prefix first. */
  predicate Less(a: Str, b: Str)
  {
    b != [] && (a == [] || a[0] < b[0] || (a[0] == b[0] && Less(a[1..], b[1..])))
  }

  /** The bytes agree up to `n`, where `a` ends or has the smaller byte. */
  predicate LessFrom(a: Str, b: Str, n: nat) {
    n <= |a| && n < |b| && a[..n] == b[..n] && (n == |a| || a[n] < b[n])
  }

  /** Exactly the order of the first differing byte, a proper prefix first. */
  lemma {:induction false} LessIff(a: Str, b: Str)
    ensures Less(a, b) <==> exists n: nat :: LessFrom(a, b, n)
  {
    if a == [] || b == [] || a[0] != b[0] {
      if Less(a, b) { assert LessFrom(a, b, 0); }
      if n: nat :| LessFrom(a, b, n) { if n > 0 { assert a[..n][0] == b[..n][0]; } }
    } else {
      LessIff(a[1..], b[1..]);
      if n: nat :| LessFrom(a[1..], b[1..], n) {
        assert a[..n + 1] == [a[0]] + a[1..][..n] && b[..n + 1] == [b[0]] + b[1..][..n];
        assert LessFrom(a, b, n + 1);
      }
      if n: nat :| LessFrom(a, b, n) {
        assert n > 0;
        assert a[1..][..n - 1] == a[..n][1..] && b[1..][..n - 1] == b[..n][1..];
        assert LessFrom(a[1..], b[1..], n - 1);
      }
    }
  }

  lemma {:induction false} LessIrreflexive(a: Str)
    ensures !Less(a, a)
  {
    if a != [] { LessIrreflexive(a[1..]); }
  }

  lemma {:induction false} LessTotal(a: Str, b: Str)
    ensures Less(a, b) || a == b || Less(b, a)
  {
    if a != [] && b != [] && a[0] == b[0] {
      LessTotal(a[1..], b[1..]);
      assert a == [a[0]] + a[1..] && b == [b[0]] + b[1..];
    }
  }

  lemma {:induction false} LessTransitive(a: Str, b: Str, c: Str)
    requires Less(a, b) && Less(b, c)
    ensures Less(a, c)
  {
    if a != [] && a[0] == b[0] && b[0] == c[0] {
      LessTransitive(a[1..], b[1..], c[1..]);
    }
  }

  lemma LessAsymmetric(a: Str, b: Str)
    requires Less(a, b)
    ensures !Less(b, a) && a != b
  {
    LessIrreflexive(a);
    if Less(b, a) { LessTransitive(a, b, a); }
  }
}
