/**
  Double hashing of a key into 64-bit words, and the 256-bit probe masks built
  from it: which bits a mask has, and the two ways of testing it against a block.
 */
module Hashing {
  import opened Bits
  import opened Bytes

  const SEED_A: bv64 := 0x9E37_79B9_7F4A_7C15
  const SEED_B: bv64 := 0xC2B2_AE3D_27D4_EB4F
  const MUL_A: bv64 := 0xBF58_476D_1CE4_E5B9
  const MUL_B: bv64 := 0x94D0_49BB_1331_11EB

  /** Eight bytes as a little-endian word. */
  function Word(s: Str): bv64
    requires |s| == 8
  {
    UnleBound(s);
    Widths();
    Unle(s) as bv64
  }

  function Length64(key: Str): bv64 { (|key| % U64_LIMIT) as bv64 }

  function StepA(a: bv64, x: bv64): bv64 { (a + x).RotateLeft(13) * MUL_A }

  function StepB(b: bv64, x: bv64, a: bv64): bv64 { (b ^ (x + a)).RotateLeft(29) * MUL_B }

  /** The accumulators after mixing all whole 8-byte chunks from `off`. */
  function MixChunks(key: Str, off: nat, a: bv64, b: bv64): (bv64, bv64)
    decreases |key| - off
  {
    if off + 8 > |key| then (a, b)
    else
      var x := Word(key[off..off + 8]);
      var a' := StepA(a, x);
      MixChunks(key, off + 8, a', StepB(b, x, a'))
  }

  /** The last, partial chunk, padded with zeros; nothing if there is none. */
  function Tail(key: Str): Str { key[|key| - |key| % 8..] }

  function MixTail(key: Str, acc: (bv64, bv64)): (bv64, bv64) {
    if Tail(key) == [] then acc
    else
      var x := Word(Tail(key) + Zeros(8 - |Tail(key)|));
      (acc.0 ^ x, acc.1 + x)
  }

  function Finish(acc: (bv64, bv64)): (bv64, bv64) {
    ((acc.0 ^ (acc.0 >> 30)) * MUL_A, ((acc.1 ^ (acc.1 >> 27)) * MUL_B) | 1)
  }

  function SeedA(key: Str): bv64 { SEED_A ^ Length64(key) }

  function SeedB(key: Str): bv64 { SEED_B ^ Length64(key).RotateLeft(17) }

  function Hash2(key: Str): (bv64, bv64) {
    Finish(MixTail(key, MixChunks(key, 0, SeedA(key), SeedB(key))))
  }

  /** The chunk loop as written. */
  method MixLoop(key: Str) returns (a: bv64, b: bv64)
    ensures (a, b) == MixChunks(key, 0, SeedA(key), SeedB(key))
  {
    hide Word, StepA, StepB, SeedA, SeedB;
    a, b := SeedA(key), SeedB(key);
    var off := 0;
    while off + 8 <= |key|
      invariant off <= |key|
      invariant MixChunks(key, off, a, b) == MixChunks(key, 0, SeedA(key), SeedB(key))
    {
      var x := Word(key[off..off + 8]);
      a := StepA(a, x);
      b := StepB(b, x, a);
      off := off + 8;
    }
  }

  method ComputeHash2(key: Str) returns (h1: bv64, h2: bv64)
    ensures (h1, h2) == Hash2(key)
  {
    hide Word, Finish, SeedA, SeedB, MixChunks;
    var a, b := MixLoop(key);
    var acc := MixTail(key, (a, b));
    var r := Finish(acc);
    h1, h2 := r.0, r.1;
  }

  /** The second hash is forced odd. */
  lemma SecondHashOdd(key: Str)
    ensures Hash2(key).1 & 1 == 1
  {
    hide MixChunks, MixTail, SeedA, SeedB;
    FinishOdd(MixTail(key, MixChunks(key, 0, SeedA(key), SeedB(key))));
  }

  lemma FinishOdd(acc: (bv64, bv64))
    ensures Finish(acc).1 & 1 == 1
  {
    OrOneOdd((acc.1 ^ (acc.1 >> 27)) * MUL_B);
  }

  lemma OrOneOdd(x: bv64)
    ensures (x | 1) & 1 == 1
  {
  }

  // ---------------------------------------------------------------------
  // Reference values
  // ---------------------------------------------------------------------

  /** The empty key: only seeds and finish. */
  lemma HashOfNothing()
    ensures Hash2([]) == (0x6F68_261B_57E7_A770, 0xCE48_7BA0_CF8A_D6B9)
  {
    hide Finish, SeedA, SeedB, Word;
    SeedsZero();
    FinishZero();
    assert Tail([]) == [];
  }

  lemma SeedsZero()
    ensures SeedA([]) == 0x9E37_79B9_7F4A_7C15 && SeedB([]) == 0xC2B2_AE3D_27D4_EB4F
  {
  }

  lemma FinishZero()
    ensures Finish((0x9E37_79B9_7F4A_7C15, 0xC2B2_AE3D_27D4_EB4F)) == (0x6F68_261B_57E7_A770, 0xCE48_7BA0_CF8A_D6B9)
  {
  }

  /** "a": a partial chunk. */
  lemma HashOfByte()
    ensures Hash2([97]) == (0xAE4D_5D30_8211_8210, 0x66D0_B5E5_D52A_CA5D)
  {
    hide Word, Finish, SeedA, SeedB, MixTail;
    var key: Str := [97];
    SeedsOne(key);
    TailOfByte();
    FinishByte();
  }

  lemma TailOfByte()
    ensures MixTail([97], (0x9E37_79B9_7F4A_7C14, 0xC2B2_AE3D_27D6_EB4F))
         == (0x9E37_79B9_7F4A_7C75, 0xC2B2_AE3D_27D6_EBB0)
  {
    hide Word;
    SmallChunk(97);
    assert Tail([97]) == [97] && Tail([97]) + Zeros(7) == [97, 0, 0, 0, 0, 0, 0, 0];
  }

  lemma SeedsOne(key: Str)
    requires |key| == 1
    ensures SeedA(key) == 0x9E37_79B9_7F4A_7C14 && SeedB(key) == 0xC2B2_AE3D_27D6_EB4F
  {
  }

  lemma SmallChunk(b: Byte)
    ensures Unle([b, 0, 0, 0, 0, 0, 0, 0]) == b
    ensures b == 1 ==> Word([b, 0, 0, 0, 0, 0, 0, 0]) == 1
    ensures b == 97 ==> Word([b, 0, 0, 0, 0, 0, 0, 0]) == 97
    ensures b == 48 ==> Word([b, 0, 0, 0, 0, 0, 0, 0]) == 48
  {
    var s: Str := [b, 0, 0, 0, 0, 0, 0, 0];
    assert s[1..] == Zeros(7);
    ZerosAreZero(7);
  }

  lemma {:induction false} ZerosAreZero(n: nat)
    ensures Unle(Zeros(n)) == 0
  {
    if n > 0 {
      assert Zeros(n)[1..] == Zeros(n - 1);
      ZerosAreZero(n - 1);
    }
  }

  lemma FinishByte()
    ensures Finish((0x9E37_79B9_7F4A_7C75, 0xC2B2_AE3D_27D6_EBB0)) == (0xAE4D_5D30_8211_8210, 0x66D0_B5E5_D52A_CA5D)
  {
  }

  const NINE_BYTES: Str := [1, 0, 0, 0, 0, 0, 0, 0, 48]

  /** A whole chunk and a partial one. */
  lemma HashOfNine()
    ensures Hash2(NINE_BYTES) == (0xF272_3F81_8BF6_768A, 0x7605_7D9D_2AC3_0FE9)
  {
    hide Word, Finish, StepA, StepB, SeedA, SeedB;
    var key := NINE_BYTES;
    SeedsNine();
    SmallChunk(1);
    SmallChunk(48);
    FirstStep();
    FinishNine();
    assert key[0..8] == [1, 0, 0, 0, 0, 0, 0, 0];
    assert Tail(key) == [48] && Tail(key) + Zeros(7) == [48, 0, 0, 0, 0, 0, 0, 0];
    assert MixChunks(key, 8, 0x553A_01FF_0A55_0816, 0x66E0_9B7B_023C_A2A8)
        == (0x553A_01FF_0A55_0816, 0x66E0_9B7B_023C_A2A8);
    assert MixChunks(key, 0, SeedA(key), SeedB(key)) == (0x553A_01FF_0A55_0816, 0x66E0_9B7B_023C_A2A8);
    assert MixTail(key, (0x553A_01FF_0A55_0816, 0x66E0_9B7B_023C_A2A8)) == (0x553A_01FF_0A55_0826, 0x66E0_9B7B_023C_A2D8);
  }

  lemma SeedsNine()
    ensures SeedA(NINE_BYTES) == 0x9E37_79B9_7F4A_7C1C && SeedB(NINE_BYTES) == 0xC2B2_AE3D_27C6_EB4F
  {
  }

  lemma FirstStep()
    ensures StepA(0x9E37_79B9_7F4A_7C1C, 1) == 0x553A_01FF_0A55_0816
    ensures StepB(0xC2B2_AE3D_27C6_EB4F, 1, 0x553A_01FF_0A55_0816) == 0x66E0_9B7B_023C_A2A8
  {
  }

  lemma FinishNine()
    ensures Finish((0x553A_01FF_0A55_0826, 0x66E0_9B7B_023C_A2D8)) == (0xF272_3F81_8BF6_768A, 0x7605_7D9D_2AC3_0FE9)
  {
  }

  // ---------------------------------------------------------------------
  // Probe masks
  // ---------------------------------------------------------------------

  /** Four 64-bit words: one block of the filter, or one mask. */
  type Block = b: seq<bv64> | |b| == 4 witness [0, 0, 0, 0]

  /** A bit position inside a block. */
  type Bit = bv8

  /** The `i`-th probe of a key, by double hashing in wrapping arithmetic. */
  function Probe(h1: bv64, h2: bv64, i: nat): Bit
    requires i < 8
  {
    ProbeAt(h1, h2, i as bv64)
  }

  function ProbeAt(h1: bv64, h2: bv64, i: bv64): Bit {
    ((h1 + i * h2) & 255) as bv8
  }

  function WordIndex(p: Bit): (w: nat)
    ensures w < 4
  {
    if p < 64 then 0 else if p < 128 then 1 else if p < 192 then 2 else 3
  }

  function BitInWord(p: Bit): bv64 { 1 << ((p & 63) as bv64) }

  function SetBit(m: Block, p: Bit): Block {
    m[WordIndex(p) := m[WordIndex(p)] | BitInWord(p)]
  }

  predicate HasBit(m: Block, p: Bit) { Meets(m[WordIndex(p)], BitInWord(p)) }

  const NO_BITS: Block := [0, 0, 0, 0]

  /** The mask with the first `n` probes of a key. */
  function MaskOf(h1: bv64, h2: bv64, n: nat): Block
    requires n <= 8
  {
    if n == 0 then NO_BITS else SetBit(MaskOf(h1, h2, n - 1), Probe(h1, h2, n - 1))
  }

  /** The mask a filter with `k` hashes probes. */
  function ProbeMask(h1: bv64, h2: bv64, k: nat): Block {
    MaskOf(h1, h2, if k < 8 then k else 8)
  }

  method ComputeProbeMask(h1: bv64, h2: bv64, k: nat) returns (mask: array<bv64>)
    ensures fresh(mask) && mask.Length == 4 && mask[..] == ProbeMask(h1, h2, k)
  {
    hide SetBit, Probe;
    mask := new bv64[4](_ => 0);
    var probes := if k < 8 then k else 8;
    assert mask[..] == NO_BITS;
    for i := 0 to probes
      invariant mask[..] == MaskOf(h1, h2, i)
    {
      var p := Probe(h1, h2, i);
      SetInPlace(mask, p);
    }
  }

  method SetInPlace(mask: array<bv64>, p: Bit)
    requires mask.Length == 4
    modifies mask
    ensures mask[..] == SetBit(old(mask[..]), p)
  {
    mask[WordIndex(p)] := mask[WordIndex(p)] | BitInWord(p);
  }

  /** Bit `q` of word `at` of a block. */
  lemma BitOf(q: bv64, at: nat) returns (p: Bit)
    requires q < 64 && at < 4
    ensures WordIndex(p) == at && BitInWord(p) == One(q)
  {
    var base: Bit := if at == 0 then 0 else if at == 1 then 64 else if at == 2 then 128 else 192;
    p := PlaceBit(q, base);
  }

  lemma PlaceBit(q: bv64, base: Bit) returns (p: Bit)
    requires q < 64 && (base == 0 || base == 64 || base == 128 || base == 192)
    ensures (p & 63) as bv64 == q && base <= p && p - base < 64
  {
    p := base | (q as bv8);
  }

  /** The eight probes of that key. */
  lemma ProbesOfNine()
    ensures var (h1, h2) := Hash2(NINE_BYTES);
      && Probe(h1, h2, 0) == 138 && Probe(h1, h2, 1) == 115 && Probe(h1, h2, 2) == 92 && Probe(h1, h2, 3) == 69
      && Probe(h1, h2, 4) == 46 && Probe(h1, h2, 5) == 23 && Probe(h1, h2, 6) == 0 && Probe(h1, h2, 7) == 233
  {
    hide Hash2;
    HashOfNine();
  }

  /** Its mask with all eight: bit `p` is bit `p % 64` of word `p / 64`. */
  lemma MaskOfNine()
    ensures var (h1, h2) := Hash2(NINE_BYTES);
      ProbeMask(h1, h2, 8) == [0x0000_4000_0080_0001, 0x0008_0000_1000_0020, 0x0000_0000_0000_0400, 0x0000_0200_0000_0000]
  {
    hide Hash2, Probe, MaskOf;
    var (h1, h2) := Hash2(NINE_BYTES);
    ProbesOfNine();
    MaskSteps(h1, h2);
    SetNine();
  }

  lemma MaskSteps(h1: bv64, h2: bv64)
    ensures MaskOf(h1, h2, 4) ==
      SetBit(SetBit(SetBit(SetBit(NO_BITS, Probe(h1, h2, 0)), Probe(h1, h2, 1)), Probe(h1, h2, 2)), Probe(h1, h2, 3))
    ensures MaskOf(h1, h2, 8) ==
      SetBit(SetBit(SetBit(SetBit(MaskOf(h1, h2, 4), Probe(h1, h2, 4)), Probe(h1, h2, 5)),
        Probe(h1, h2, 6)), Probe(h1, h2, 7))
  {
    hide Probe, SetBit;
    MaskStep(h1, h2, 1);
    MaskStep(h1, h2, 2);
    MaskStep(h1, h2, 3);
    MaskStep(h1, h2, 4);
    MaskStep(h1, h2, 5);
    MaskStep(h1, h2, 6);
    MaskStep(h1, h2, 7);
    MaskStep(h1, h2, 8);
    assert MaskOf(h1, h2, 0) == NO_BITS;
  }

  lemma MaskStep(h1: bv64, h2: bv64, n: nat)
    requires 1 <= n <= 8
    ensures MaskOf(h1, h2, n) == SetBit(MaskOf(h1, h2, n - 1), Probe(h1, h2, n - 1))
  {
  }

  lemma SetNine()
    ensures var m := SetBit(SetBit(SetBit(SetBit(NO_BITS, 138), 115), 92), 69);
      SetBit(SetBit(SetBit(SetBit(m, 46), 23), 0), 233)
        == [0x0000_4000_0080_0001, 0x0008_0000_1000_0020, 0x0000_0000_0000_0400, 0x0000_0200_0000_0000]
  {
  }

  /** A mask has exactly the first `n` probes, bit `p` being bit `p % 64` of word `p / 64`. */
  lemma {:induction false} MaskIsProbes(h1: bv64, h2: bv64, n: nat, p: Bit)
    requires n <= 8
    ensures HasBit(MaskOf(h1, h2, n), p) <==> exists i: nat :: i < n && Probe(h1, h2, i) == p
  {
    hide Probe, SetBit, HasBit;
    if n == 0 {
      NoBit(p);
    } else {
      MaskIsProbes(h1, h2, n - 1, p);
      SetBitBits(MaskOf(h1, h2, n - 1), Probe(h1, h2, n - 1), p);
    }
  }

  lemma NoBit(p: Bit)
    ensures !HasBit(NO_BITS, p)
  {
    ZeroWord(BitInWord(p));
  }

  lemma OrBit(w: bv64, p: Bit, q: Bit)
    ensures (w | BitInWord(p)) & BitInWord(q) != 0
       <==> w & BitInWord(q) != 0 || p & 63 == q & 63
  {
  }

  lemma SetBitBits(m: Block, p: Bit, q: Bit)
    ensures HasBit(SetBit(m, p), q) <==> q == p || HasBit(m, q)
  {
    SamePosition(p, q);
    OrBit(m[WordIndex(q)], p, q);
    hide BitInWord, WordIndex;
  }

  lemma SamePosition(p: Bit, q: Bit)
    ensures WordIndex(p) == WordIndex(q) && p & 63 == q & 63 <==> p == q
  {
  }

  /** Since the second hash is odd, eight probes hit eight different bits. */
  lemma ProbesDistinct(h1: bv64, h2: bv64, i: nat, j: nat)
    requires h2 & 1 == 1 && i < j < 8
    ensures Probe(h1, h2, i) != Probe(h1, h2, j)
  {
    SmallWords(i, j);
    ProbesDiffer(h1, h2, i as bv64, j as bv64);
  }

  lemma ProbesDiffer(h1: bv64, h2: bv64, i: bv64, j: bv64)
    requires h2 & 1 == 1 && i < 8 && j < 8 && i != j
    ensures ProbeAt(h1, h2, i) != ProbeAt(h1, h2, j)
  {
  }

  /** All 256 positions. */
  ghost function AllBits(): set<Bit> { set i: int | 0 <= i < 256 :: BitAt(i) }

  ghost function BitAt(i: int): Bit
    requires 0 <= i < 256
  {
    i as bv8
  }

  lemma EveryBit(p: Bit)
    ensures p in AllBits()
  {
    assert BitAt(p as int) == p;
  }

  ghost function BitsOf(m: Block): set<Bit> { set p | p in AllBits() && HasBit(m, p) }

  ghost function ProbeSet(h1: bv64, h2: bv64, n: nat): set<Bit>
    requires n <= 8
  {
    if n == 0 then {} else ProbeSet(h1, h2, n - 1) + {Probe(h1, h2, n - 1)}
  }

  lemma NoBitsEmpty()
    ensures BitsOf(NO_BITS) == {}
  {
    hide AllBits;
    forall p: Bit ensures !HasBit(NO_BITS, p) { ZeroWord(BitInWord(p)); }
  }

  lemma ZeroWord(x: bv64)
    ensures 0 & x == 0
  {
  }

  lemma SetBitSet(m: Block, p: Bit)
    ensures BitsOf(SetBit(m, p)) == BitsOf(m) + {p}
  {
    EveryBit(p);
    hide HasBit, SetBit, AllBits;
    forall q: Bit ensures HasBit(SetBit(m, p), q) <==> q == p || HasBit(m, q) {
      SetBitBits(m, p, q);
    }
  }

  lemma {:induction false} MaskBits(h1: bv64, h2: bv64, n: nat)
    requires n <= 8
    ensures BitsOf(MaskOf(h1, h2, n)) == ProbeSet(h1, h2, n)
  {
    hide BitsOf, Probe, SetBit;
    if n == 0 {
      NoBitsEmpty();
    } else {
      MaskBits(h1, h2, n - 1);
      SetBitSet(MaskOf(h1, h2, n - 1), Probe(h1, h2, n - 1));
    }
  }

  lemma {:induction false} ProbeFresh(h1: bv64, h2: bv64, n: nat, i: nat)
    requires h2 & 1 == 1 && n <= i < 8
    ensures Probe(h1, h2, i) !in ProbeSet(h1, h2, n)
  {
    if n > 0 {
      ProbeFresh(h1, h2, n - 1, i);
      hide Probe;
      ProbesDistinct(h1, h2, n - 1, i);
    }
  }

  lemma SmallWords(i: nat, j: nat)
    requires i < j < 8
    ensures i as bv64 < 8 && j as bv64 < 8 && i as bv64 != j as bv64
  {
    SmallWord(i);
    SmallWord(j);
  }

  lemma SmallWord(i: nat)
    requires i < 8
    ensures i as bv64 < 8 && (i as bv64) as nat == i
  {
    if i == 0 {} else if i == 1 {} else if i == 2 {} else if i == 3 {}
    else if i == 4 {} else if i == 5 {} else if i == 6 {} else { assert i == 7; }
  }

  lemma {:induction false} ProbeSetSize(h1: bv64, h2: bv64, n: nat)
    requires h2 & 1 == 1 && n <= 8
    ensures |ProbeSet(h1, h2, n)| == n
  {
    hide Probe;
    if n > 0 {
      ProbeSetSize(h1, h2, n - 1);
      ProbeFresh(h1, h2, n - 1, n - 1);
    }
  }

  /** Every key's mask has exactly `k` bits, for every number of hashes in 1..=8. */
  lemma MaskHasKBits(key: Str, k: nat)
    requires 1 <= k <= 8
    ensures |BitsOf(ProbeMask(Hash2(key).0, Hash2(key).1, k))| == k
  {
    SecondHashOdd(key);
    hide Hash2, HasBit, SetBit, Probe;
    var (h1, h2) := Hash2(key);
    MaskBits(h1, h2, k);
    ProbeSetSize(h1, h2, k);
  }

  // ---------------------------------------------------------------------
  // Testing a mask against a block
  // ---------------------------------------------------------------------

  /** Word by word: all mask bits set in the block. */
  predicate SubsetScalar(block: Block, mask: Block) {
    && Covers(block[0], mask[0]) && Covers(block[1], mask[1])
    && Covers(block[2], mask[2]) && Covers(block[3], mask[3])
  }

  /** Byte `i` of a 256-bit register loaded from four words. */
  function Lane(r: Block, i: nat): bv8
    requires i < 32
  {
    ByteOf(r[i / 8], i % 8)
  }

  /** Byte `j` of a word, least significant first. */
  function ByteOf(w: bv64, j: nat): bv8 {
    if j == 0 then (w & 255) as bv8 else ByteOf(w >> 8, j - 1)
  }

  function And256(a: Block, b: Block): Block { [a[0] & b[0], a[1] & b[1], a[2] & b[2], a[3] & b[3]] }

  /** Byte-wise compare: all ones where the lanes agree. */
  function CmpEq(a: Block, b: Block, i: nat): bv8
    requires i < 32
  {
    if Lane(a, i) == Lane(b, i) then 255 else 0
  }

  function TopBit(x: bv8): nat { if x & 128 != 0 then 1 else 0 }

  function Pow2(n: nat): (p: nat)
    ensures p >= 1
  {
    if n == 0 then 1 else 2 * Pow2(n - 1)
  }

  /** The top bits of the first `n` lanes of the compare, lane `i` at bit `i`. */
  function MoveMask(a: Block, b: Block, n: nat): nat
    requires n <= 32
  {
    if n == 0 then 0
    else MoveMask(a, b, n - 1) + Pow2(n - 1) * TopBit(CmpEq(a, b, n - 1))
  }

  const ALL_ONES: nat := 0xFFFF_FFFF

  /** The vector test: and, compare bytes, move mask, all 32 bits set. */
  predicate SubsetVector(block: Block, mask: Block) {
    MoveMask(And256(block, mask), mask, 32) == ALL_ONES
  }

  lemma {:induction false} MoveMaskFull(a: Block, b: Block, n: nat)
    requires n <= 32
    ensures MoveMask(a, b, n) <= Pow2(n) - 1
    ensures MoveMask(a, b, n) == Pow2(n) - 1 <==> forall i :: 0 <= i < n ==> Lane(a, i) == Lane(b, i)
  {
    if n > 0 {
      MoveMaskFull(a, b, n - 1);
      hide Lane;
    }
  }

  function DropBytes(w: bv64, n: nat): bv64 { if n == 0 then w else DropBytes(w >> 8, n - 1) }

  lemma LowByteAndRest(x: bv64, y: bv64)
    requires ByteOf(x, 0) == ByteOf(y, 0) && x >> 8 == y >> 8
    ensures x == y
  {
    assert (x & 255) as bv8 == (y & 255) as bv8;
    LowByte(x, y);
  }

  lemma LowByte(x: bv64, y: bv64)
    requires (x & 255) as bv8 == (y & 255) as bv8 && x >> 8 == y >> 8
    ensures x == y
  {
  }

  lemma {:induction false} BytesEqual(x: bv64, y: bv64, n: nat)
    requires n <= 8 && DropBytes(x, n) == DropBytes(y, n)
    requires forall j :: 0 <= j < n ==> ByteOf(x, j) == ByteOf(y, j)
    ensures x == y
  {
    if n > 0 {
      var x', y' := x >> 8, y >> 8;
      forall j | 0 <= j < n - 1 ensures ByteOf(x', j) == ByteOf(y', j) {
        assert ByteOf(x, j + 1) == ByteOf(y, j + 1);
      }
      BytesEqual(x', y', n - 1);
      LowByteAndRest(x, y);
    }
  }

  function DropTwo(x: bv64): bv64 { (x >> 8) >> 8 }

  lemma DropPair(x: bv64, n: nat)
    requires n >= 2
    ensures DropBytes(x, n) == DropBytes(DropTwo(x), n - 2)
  {
    assert DropBytes(x, n) == DropBytes(x >> 8, n - 1);
  }

  lemma NothingLeft(x: bv64)
    ensures DropBytes(x, 8) == 0
  {
    hide DropTwo;
    var x2 := DropTwo(x);
    var x4 := DropTwo(x2);
    var x6 := DropTwo(x4);
    DropPair(x, 8);
    DropPair(x2, 6);
    DropPair(x4, 4);
    DropPair(x6, 2);
    ShiftedOut(x);
  }

  lemma ShiftedOut(x: bv64)
    ensures DropTwo(DropTwo(DropTwo(DropTwo(x)))) == 0
  {
  }

  lemma LanesOfWord(a: Block, b: Block, w: nat)
    requires w < 4 && forall i :: 0 <= i < 32 ==> Lane(a, i) == Lane(b, i)
    ensures a[w] == b[w]
  {
    hide ByteOf;
    forall j | 0 <= j < 8 ensures ByteOf(a[w], j) == ByteOf(b[w], j) {
      assert Lane(a, 8 * w + j) == Lane(b, 8 * w + j);
      assert (8 * w + j) / 8 == w && (8 * w + j) % 8 == j;
    }
    NothingLeft(a[w]);
    NothingLeft(b[w]);
    BytesEqual(a[w], b[w], 8);
  }

  lemma Pow2Word()
    ensures Pow2(32) - 1 == ALL_ONES
  {
    assert Pow2(8) == 256;
    assert Pow2(16) == 256 * 256;
    assert Pow2(24) == 256 * 256 * 256;
  }

  /** The vector test and the scalar test agree on every block and mask. */
  lemma VectorEqualsScalar(block: Block, mask: Block)
    ensures SubsetVector(block, mask) <==> SubsetScalar(block, mask)
  {
    hide Pow2, MoveMask, Lane, And256;
    var anded := And256(block, mask);
    MoveMaskFull(anded, mask, 32);
    Pow2Word();
    AndedWords(block, mask);
    if SubsetVector(block, mask) {
      LanesOfWord(anded, mask, 0);
      LanesOfWord(anded, mask, 1);
      LanesOfWord(anded, mask, 2);
      LanesOfWord(anded, mask, 3);
    }
    if SubsetScalar(block, mask) { assert anded == mask; }
  }

  lemma AndedWords(block: Block, mask: Block)
    ensures var r := And256(block, mask);
      && r[0] == block[0] & mask[0] && r[1] == block[1] & mask[1]
      && r[2] == block[2] & mask[2] && r[3] == block[3] & mask[3]
  {
  }
}
