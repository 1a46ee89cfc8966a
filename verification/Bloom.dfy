/**
  The blocked Bloom filter: every key probes `k` bits of one 256-bit block. The
  filter on values carries the laws; the class is the in-place filter.
 */
module Bloom {
  import opened Bits
  import opened Bytes
  import opened Records
  import opened Hashing

  const BLOCK_BITS: nat := 256
  const WORDS_PER_BLOCK: nat := 4
  const MAX_WORDS: nat := 8 * 1024 * 1024
  const BLOOM_MAGIC: Str := [66, 76, 77, 49]  // "BLM1"
  const HEADER_LEN: nat := 12

  /** Bitmap words, number of blocks, hashes per key, density. */
  datatype Filter = Filter(words: seq<bv64>, numBlocks: nat, k: Byte, bitsPerKey: Byte)

  predicate Sound(f: Filter) {
    && 1 <= f.numBlocks <= MAX_WORDS / WORDS_PER_BLOCK
    && |f.words| == WORDS_PER_BLOCK * f.numBlocks
    && 1 <= f.k <= 8 && 1 <= f.bitsPerKey <= 16
  }

  function SatMul(a: nat, b: nat): nat { if a * b > USIZE_MAX then USIZE_MAX else a * b }

  function BlocksFor(expectedKeys: nat, bitsPerKey: Byte): nat {
    (Max(SatMul(expectedKeys, bitsPerKey), BLOCK_BITS) + BLOCK_BITS - 1) / BLOCK_BITS
  }

  /** An empty filter for `expectedKeys`, or a refusal. */
  function New(expectedKeys: nat, bitsPerKey: Byte): (res: Result<Filter>)
    ensures res.Ok? <==> 1 <= bitsPerKey <= 16
                         && WORDS_PER_BLOCK * BlocksFor(expectedKeys, bitsPerKey) <= MAX_WORDS
    ensures res.Ok? ==> Sound(res.value)
    ensures res.Err? ==> res.error == BloomInvalid
  {
    if !(1 <= bitsPerKey <= 16) then Err(BloomInvalid)
    else
      var k := if bitsPerKey < 8 then bitsPerKey else 8;
      var numBlocks := BlocksFor(expectedKeys, bitsPerKey);
      var numWords := WORDS_PER_BLOCK * numBlocks;
      if numWords > MAX_WORDS then Err(BloomInvalid)
      else Ok(Filter(seq(numWords, i => 0), numBlocks, k, bitsPerKey))
  }

  /** Block a key falls into. */
  function BlockIndex(key: Str, numBlocks: nat): (i: nat)
    requires numBlocks >= 1
    ensures i < numBlocks
  {
    HashNumber(key) % numBlocks
  }

  /** The block is the remainder of the first hash: they differ by whole rounds of all blocks. */
  lemma BlockIsRemainder(key: Str, numBlocks: nat) returns (rounds: nat)
    requires numBlocks >= 1
    ensures rounds * numBlocks + BlockIndex(key, numBlocks) == HashNumber(key)
  {
    hide HashNumber;
    rounds := HashNumber(key) / numBlocks;
    WholeRounds(HashNumber(key), numBlocks);
  }

  function HashNumber(key: Str): nat { Hash2(key).0 as nat }

  lemma WholeRounds(h: nat, n: nat)
    requires n >= 1
    ensures h / n * n + h % n == h
  {
  }

  function KeyMask(key: Str, k: nat): Block { ProbeMask(Hash2(key).0, Hash2(key).1, k) }

  function BlockAt(words: seq<bv64>, i: nat): Block
    requires WORDS_PER_BLOCK * i + 4 <= |words|
  {
    words[4 * i..4 * i + 4]
  }

  /** `words` with `mask` or-ed into block `i`. */
  function OrBlock(words: seq<bv64>, i: nat, mask: Block): (out: seq<bv64>)
    requires WORDS_PER_BLOCK * i + 4 <= |words|
    ensures |out| == |words|
  {
    seq(|words|, n requires 0 <= n < |words| =>
      if 4 * i <= n < 4 * i + 4 then Or(words[n], mask[n - 4 * i]) else words[n])
  }

  function Insert(f: Filter, key: Str): (g: Filter)
    requires Sound(f)
    ensures Sound(g)
  {
    f.(words := OrBlock(f.words, BlockIndex(key, f.numBlocks), KeyMask(key, f.k)))
  }

  function InsertAll(f: Filter, keys: seq<Str>): (g: Filter)
    requires Sound(f)
    ensures Sound(g)
  {
    if keys == [] then f else Insert(InsertAll(f, keys[..|keys| - 1]), keys[|keys| - 1])
  }

  predicate MayContain(f: Filter, key: Str)
    requires Sound(f)
  {
    SubsetVector(BlockAt(f.words, BlockIndex(key, f.numBlocks)), KeyMask(key, f.k))
  }

  // ---------------------------------------------------------------------
  // No false negatives
  // ---------------------------------------------------------------------

  lemma OrBlockOther(words: seq<bv64>, i: nat, mask: Block, j: nat)
    requires 4 * i + 4 <= |words| && 4 * j + 4 <= |words| && i != j
    ensures BlockAt(OrBlock(words, i, mask), j) == BlockAt(words, j)
  {
    assert 4 * i + 4 <= 4 * j || 4 * j + 4 <= 4 * i;
  }

  lemma OrBlockSame(words: seq<bv64>, i: nat, mask: Block)
    requires 4 * i + 4 <= |words|
    ensures var b, c := BlockAt(words, i), BlockAt(OrBlock(words, i, mask), i);
      && c[0] == Or(b[0], mask[0]) && c[1] == Or(b[1], mask[1])
      && c[2] == Or(b[2], mask[2]) && c[3] == Or(b[3], mask[3])
  {
  }

  lemma OrKeepsSubset(b: Block, c: Block, mask: Block, m: Block)
    requires SubsetScalar(b, m)
    requires c[0] == Or(b[0], mask[0]) && c[1] == Or(b[1], mask[1])
          && c[2] == Or(b[2], mask[2]) && c[3] == Or(b[3], mask[3])
    ensures SubsetScalar(c, m)
  {
    hide Covers, Or;
    OrKeeps(b[0], mask[0], m[0]);
    OrKeeps(b[1], mask[1], m[1]);
    OrKeeps(b[2], mask[2], m[2]);
    OrKeeps(b[3], mask[3], m[3]);
  }

  /** Inserting a key never hides another one. */
  lemma InsertKeeps(f: Filter, key: Str, other: Str)
    requires Sound(f) && MayContain(f, other)
    ensures MayContain(Insert(f, key), other)
  {
    hide SubsetVector, SubsetScalar, OrBlock, BlockIndex, KeyMask, BlockAt, Or;
    var i, j := BlockIndex(key, f.numBlocks), BlockIndex(other, f.numBlocks);
    var mask, m := KeyMask(key, f.k), KeyMask(other, f.k);
    var b, c := BlockAt(f.words, j), BlockAt(OrBlock(f.words, i, mask), j);
    if i == j {
      OrBlockSame(f.words, i, mask);
      VectorEqualsScalar(b, m);
      OrKeepsSubset(b, c, mask, m);
      VectorEqualsScalar(c, m);
    } else {
      OrBlockOther(f.words, i, mask, j);
    }
  }

  lemma InsertFinds(f: Filter, key: Str)
    requires Sound(f)
    ensures MayContain(Insert(f, key), key)
  {
    hide SubsetVector, OrBlock, BlockIndex, KeyMask, BlockAt, Covers, Or;
    var i, m := BlockIndex(key, f.numBlocks), KeyMask(key, f.k);
    var b, c := BlockAt(f.words, i), BlockAt(OrBlock(f.words, i, m), i);
    OrBlockSame(f.words, i, m);
    OrSets(b[0], m[0]);
    OrSets(b[1], m[1]);
    OrSets(b[2], m[2]);
    OrSets(b[3], m[3]);
    VectorEqualsScalar(c, m);
  }

  /** After any sequence of inserts, every inserted key may be contained. */
  lemma {:induction false} NoFalseNegatives(f: Filter, keys: seq<Str>)
    requires Sound(f)
    ensures forall key :: key in keys ==> MayContain(InsertAll(f, keys), key)
  {
    hide MayContain, Insert;
    if keys != [] {
      var init, last := keys[..|keys| - 1], keys[|keys| - 1];
      NoFalseNegatives(f, init);
      var g := InsertAll(f, init);
      forall key | key in keys ensures MayContain(InsertAll(f, keys), key) {
        if key == last { InsertFinds(g, key); }
        else {
          assert key in init;
          InsertKeeps(g, last, key);
        }
      }
    }
  }

  // ---------------------------------------------------------------------
  // Exactness
  // ---------------------------------------------------------------------

  /**
    A new filter: the bits per key up to eight as hashes, the least number of 256-bit
    blocks that gives every key its bits, all clear.
   */
  lemma NewShape(expectedKeys: nat, bitsPerKey: Byte)
    requires New(expectedKeys, bitsPerKey).Ok?
    ensures var f := New(expectedKeys, bitsPerKey).value;
      var bits := if expectedKeys * bitsPerKey < 256 then 256 else expectedKeys * bitsPerKey;
      && f.k == (if bitsPerKey <= 8 then bitsPerKey else 8) && f.bitsPerKey == bitsPerKey
      && 256 * (f.numBlocks - 1) < bits <= 256 * f.numBlocks
      && |f.words| == 4 * f.numBlocks && forall i :: 0 <= i < |f.words| ==> f.words[i] == 0
  {
  }

  /** Bit `p` of block `i` of the filter. */
  ghost predicate BitSet(f: Filter, i: nat, p: Bit)
    requires Sound(f) && i < f.numBlocks
  {
    HasBit(BlockAt(f.words, i), p)
  }

  /** The key probes bit `p` of block `i`. */
  ghost predicate Probes(f: Filter, key: Str, i: nat, p: Bit)
    requires Sound(f)
  {
    BlockIndex(key, f.numBlocks) == i && p in BitsOf(KeyMask(key, f.k))
  }

  lemma OrHas(b: Block, c: Block, m: Block, p: Bit)
    requires c[0] == Or(b[0], m[0]) && c[1] == Or(b[1], m[1]) && c[2] == Or(b[2], m[2]) && c[3] == Or(b[3], m[3])
    ensures HasBit(c, p) <==> HasBit(b, p) || HasBit(m, p)
  {
    hide BitInWord, Or, Meets;
    OrMeets(b[WordIndex(p)], m[WordIndex(p)], BitInWord(p));
  }

  /** Inserting sets the bits the key probes and no others. */
  lemma InsertSets(f: Filter, key: Str, i: nat, p: Bit)
    requires Sound(f) && i < f.numBlocks
    ensures BitSet(Insert(f, key), i, p) <==> BitSet(f, i, p) || Probes(f, key, i, p)
  {
    hide BlockIndex, KeyMask, BlockAt, HasBit, Or, OrBlock, AllBits;
    EveryBit(p);
    var at, m := BlockIndex(key, f.numBlocks), KeyMask(key, f.k);
    if at == i {
      OrBlockSame(f.words, i, m);
      OrHas(BlockAt(f.words, i), BlockAt(OrBlock(f.words, i, m), i), m, p);
    } else {
      OrBlockOther(f.words, at, m, i);
    }
  }

  /** A block covers a mask exactly when it has all the mask's bits. */
  lemma CoversIff(b: Block, m: Block)
    ensures SubsetScalar(b, m) <==> forall p: Bit :: HasBit(m, p) ==> HasBit(b, p)
  {
    hide Covers, BitInWord, Meets;
    if SubsetScalar(b, m) {
      forall p: Bit | HasBit(m, p) ensures HasBit(b, p) { CoveredBit(b[WordIndex(p)], m[WordIndex(p)], BitInWord(p)); }
    } else {
      var w := if !Covers(b[0], m[0]) then 0 else if !Covers(b[1], m[1]) then 1 else if !Covers(b[2], m[2]) then 2 else 3;
      var p := MissingBit(b[w], m[w], w);
      assert HasBit(m, p) && !HasBit(b, p);
    }
  }

  /** A word that does not cover another lacks one of its bits. */
  lemma MissingBit(w: bv64, m: bv64, at: nat) returns (p: Bit)
    requires !Covers(w, m) && at < 4
    ensures WordIndex(p) == at && Meets(m, BitInWord(p)) && !Meets(w, BitInWord(p))
  {
    hide BitInWord, WordIndex, Meets, One, Covers, Without;
    Uncovered(w, m);
    var q := BitIn64(Without(m, w));
    p := BitOf(q, at);
    BitSplits(w, m, q);
  }

  /** Exactly the keys a filter lets through: those whose bits in their block were all set by inserted keys. */
  lemma FilterExact(f: Filter, key: Str)
    requires Sound(f)
    ensures MayContain(f, key) <==> forall p: Bit :: Probes(f, key, BlockIndex(key, f.numBlocks), p)
                                      ==> BitSet(f, BlockIndex(key, f.numBlocks), p)
  {
    hide SubsetVector, SubsetScalar, BlockIndex, KeyMask, BlockAt, HasBit, AllBits;
    var b, m := BlockAt(f.words, BlockIndex(key, f.numBlocks)), KeyMask(key, f.k);
    VectorEqualsScalar(b, m);
    CoversIff(b, m);
    var at := BlockIndex(key, f.numBlocks);
    forall p: Bit ensures (HasBit(m, p) <==> Probes(f, key, at, p)) && (HasBit(b, p) <==> BitSet(f, at, p)) { EveryBit(p); }
  }

  lemma {:induction false} InsertAllShape(f: Filter, keys: seq<Str>)
    requires Sound(f)
    ensures var g := InsertAll(f, keys); g.numBlocks == f.numBlocks && g.k == f.k && g.bitsPerKey == f.bitsPerKey
  {
    if keys != [] { InsertAllShape(f, keys[..|keys| - 1]); }
  }

  /** A bit is set exactly if it was before or some inserted key probes it. */
  lemma {:induction false} FilledBits(f: Filter, keys: seq<Str>, i: nat, p: Bit)
    requires Sound(f) && i < f.numBlocks
    ensures InsertAll(f, keys).numBlocks == f.numBlocks
    ensures BitSet(InsertAll(f, keys), i, p) <==> BitSet(f, i, p) || exists n :: 0 <= n < |keys| && Probes(f, keys[n], i, p)
  {
    hide BitSet, Probes, Insert;
    if keys != [] {
      var init, last := keys[..|keys| - 1], |keys| - 1;
      var g := InsertAll(f, init);
      FilledBits(f, init, i, p);
      InsertAllShape(f, init);
      InsertAllShape(f, keys);
      InsertSets(g, keys[last], i, p);
      SameProbes(f, g, keys[last], i, p);
      if n :| 0 <= n < |init| && Probes(f, init[n], i, p) { assert Probes(f, keys[n], i, p); }
      if n :| 0 <= n < |keys| && Probes(f, keys[n], i, p) { if n < last { assert Probes(f, init[n], i, p); } }
    }
  }

  lemma SameProbes(f: Filter, g: Filter, key: Str, i: nat, p: Bit)
    requires Sound(f) && Sound(g) && g.numBlocks == f.numBlocks && g.k == f.k
    ensures Probes(g, key, i, p) == Probes(f, key, i, p)
  {
  }

  /** No bit of a new filter is set. */
  lemma NewIsClear(expectedKeys: nat, bitsPerKey: Byte, i: nat, p: Bit)
    requires New(expectedKeys, bitsPerKey).Ok? && i < New(expectedKeys, bitsPerKey).value.numBlocks
    ensures !BitSet(New(expectedKeys, bitsPerKey).value, i, p)
  {
    hide BitInWord, Meets, BlocksFor;
    NothingMeets(BitInWord(p));
  }

  lemma NothingMeets(x: bv64)
    ensures !Meets(0, x)
  {
  }

  /**
    Exactly the keys a new filter lets through once `keys` are inserted: those each of
    whose bits some inserted key of the same block has set.
   */
  lemma NewFilterExact(expectedKeys: nat, bitsPerKey: Byte, keys: seq<Str>, key: Str)
    requires New(expectedKeys, bitsPerKey).Ok?
    ensures var f := New(expectedKeys, bitsPerKey).value;
      var i := BlockIndex(key, f.numBlocks);
      MayContain(InsertAll(f, keys), key) <==>
        forall p: Bit :: Probes(f, key, i, p) ==> exists n :: 0 <= n < |keys| && Probes(f, keys[n], i, p)
  {
    hide BitSet, Probes, Insert, MayContain, BlockIndex;
    var f := New(expectedKeys, bitsPerKey).value;
    var g, i := InsertAll(f, keys), BlockIndex(key, f.numBlocks);
    InsertAllShape(f, keys);
    FilterExact(g, key);
    forall p: Bit ensures BitSet(g, i, p) <==> exists n :: 0 <= n < |keys| && Probes(f, keys[n], i, p) {
      FilledBits(f, keys, i, p);
      NewIsClear(expectedKeys, bitsPerKey, i, p);
    }
    forall p: Bit ensures Probes(g, key, i, p) == Probes(f, key, i, p) { SameProbes(f, g, key, i, p); }
  }

  /** A filter nothing was inserted into contains no key. */
  lemma EmptyContainsNothing(expectedKeys: nat, bitsPerKey: Byte, key: Str)
    requires New(expectedKeys, bitsPerKey).Ok?
    ensures !MayContain(New(expectedKeys, bitsPerKey).value, key)
  {
    hide MayContain, BlockIndex, KeyMask, BitsOf;
    var f := New(expectedKeys, bitsPerKey).value;
    NewFilterExact(expectedKeys, bitsPerKey, [], key);
    var p := SomeProbe(key, f.k);
    assert Probes(f, key, BlockIndex(key, f.numBlocks), p);
  }

  lemma SomeProbe(key: Str, k: nat) returns (p: Bit)
    requires 1 <= k <= 8
    ensures p in BitsOf(KeyMask(key, k))
  {
    hide Hash2, Probe, BitsOf, MaskOf;
    var (h1, h2) := Hash2(key);
    MaskBits(h1, h2, k);
    FirstProbe(h1, h2, k);
    p := Probe(h1, h2, 0);
  }

  lemma {:induction false} FirstProbe(h1: bv64, h2: bv64, n: nat)
    requires 1 <= n <= 8
    ensures Probe(h1, h2, 0) in ProbeSet(h1, h2, n)
  {
    hide Probe;
    if n > 1 { FirstProbe(h1, h2, n - 1); }
  }

  // ---------------------------------------------------------------------
  // On-disk form
  // ---------------------------------------------------------------------

  function WordBytes(words: seq<bv64>): (s: Str)
    ensures |s| == 8 * |words|
  {
    if words == [] then []
    else WordBytes(words[..|words| - 1]) + Le(words[|words| - 1] as nat, 8)
  }

  function ToBytes(f: Filter): (res: Result<Str>) {
    if f.numBlocks >= U32_LIMIT then Err(BloomInvalid)
    else Ok(BLOOM_MAGIC + [f.k, f.bitsPerKey, 0, 0] + Le(f.numBlocks, 4) + WordBytes(f.words))
  }

  function WordAt(bytes: Str, i: nat): bv64
    requires HEADER_LEN + 8 * i + 8 <= |bytes|
  {
    Word(bytes[HEADER_LEN + 8 * i..HEADER_LEN + 8 * i + 8])
  }

  function FromBytes(bytes: Str): (res: Result<Filter>)
    ensures res.Ok? ==> Sound(res.value)
  {
    if |bytes| < HEADER_LEN then Err(BloomCorrupt)
    else if bytes[0..4] != BLOOM_MAGIC then Err(BloomCorrupt)
    else
      var k, bitsPerKey := bytes[4], bytes[5];
      if !(1 <= k <= 8) then Err(BloomCorrupt)
      else if !(1 <= bitsPerKey <= 16) then Err(BloomCorrupt)
      else
        var numBlocks := ReadLe(bytes, 8, 4);
        if numBlocks == 0 || numBlocks > MAX_WORDS / WORDS_PER_BLOCK then Err(BloomCorrupt)
        else
          var numWords := numBlocks * WORDS_PER_BLOCK;
          if |bytes| != HEADER_LEN + numWords * 8 then Err(BloomCorrupt)
          else Ok(Filter(seq(numWords, i requires 0 <= i < numWords => WordAt(bytes, i)),
                         numBlocks, k, bitsPerKey))
  }

  lemma WordRoundTrip(w: bv64)
    ensures Word(Le(w as nat, 8)) == w
  {
    Widths();
    var n := w as nat;
    UnleLe(n, 8);
    assert n as bv64 == w;
  }

  lemma {:induction false} WordBytesAt(words: seq<bv64>, i: nat)
    requires i < |words|
    ensures WordBytes(words)[8 * i..8 * i + 8] == Le(words[i] as nat, 8)
  {
    var init := words[..|words| - 1];
    if i < |init| {
      WordBytesAt(init, i);
      assert WordBytes(words)[..8 * |init|] == WordBytes(init);
      SubSlice(WordBytes(words), 0, 8 * |init|, 8 * i, 8 * i + 8);
    }
  }

  /** Every sound filter survives the disk field for field. */
  lemma BytesRoundTrip(f: Filter)
    requires Sound(f)
    ensures ToBytes(f).Ok? && FromBytes(ToBytes(f).value) == Ok(f)
  {
    hide Word, WordBytes, Unle, Le;
    var bytes := ToBytes(f).value;
    var head := BLOOM_MAGIC + [f.k, f.bitsPerKey, 0, 0];
    assert bytes == (head + Le(f.numBlocks, 4)) + WordBytes(f.words);
    Widths();
    ReadWritten(head, f.numBlocks, 4, WordBytes(f.words));
    assert bytes[0..4] == BLOOM_MAGIC && bytes[4] == f.k && bytes[5] == f.bitsPerKey;
    var g := FromBytes(bytes).value;
    forall i | 0 <= i < |f.words| ensures g.words[i] == f.words[i] {
      WordBytesAt(f.words, i);
      assert bytes[HEADER_LEN..] == WordBytes(f.words);
      SubSlice(bytes, HEADER_LEN, |bytes|, 8 * i, 8 * i + 8);
      assert bytes[HEADER_LEN + 8 * i..HEADER_LEN + 8 * i + 8] == Le(f.words[i] as nat, 8);
      assert g.words[i] == WordAt(bytes, i);
      WordRoundTrip(f.words[i]);
    }
    assert g.words == f.words;
  }

  /** Exactly which bytes are read as a filter: magic, at most eight hashes and sixteen bits per key, whole blocks. */
  lemma FromBytesIff(bytes: Str)
    ensures FromBytes(bytes).Ok? <==>
      && |bytes| >= 12 && bytes[..4] == [66, 76, 77, 49] && 1 <= bytes[4] <= 8 && 1 <= bytes[5] <= 16
      && 1 <= ReadLe(bytes, 8, 4) <= 2097152 && |bytes| == 12 + 32 * ReadLe(bytes, 8, 4)
    ensures FromBytes(bytes).Err? ==> FromBytes(bytes).error == BloomCorrupt
    ensures FromBytes(bytes).Ok? ==>
      var f := FromBytes(bytes).value;
      && f.k == bytes[4] && f.bitsPerKey == bytes[5] && f.numBlocks == ReadLe(bytes, 8, 4)
      && forall i :: 0 <= i < |f.words| ==> f.words[i] == Word(bytes[12 + 8 * i..20 + 8 * i])
  {
    hide Word, Unle;
    if |bytes| >= 12 { assert bytes[0..4] == bytes[..4]; }
  }

  /**
    A filter made by `New`, filled with any keys and taken through the disk is
    accepted and still answers "maybe" for every key inserted.
   */
  lemma StoredFilterFinds(expectedKeys: nat, bitsPerKey: Byte, keys: seq<Str>)
    requires New(expectedKeys, bitsPerKey).Ok?
    ensures var f := InsertAll(New(expectedKeys, bitsPerKey).value, keys);
      && ToBytes(f).Ok?
      && FromBytes(ToBytes(f).value) == Ok(f)
      && forall key :: key in keys ==> MayContain(FromBytes(ToBytes(f).value).value, key)
  {
    hide ToBytes, FromBytes, MayContain, Insert;
    var f := InsertAll(New(expectedKeys, bitsPerKey).value, keys);
    BytesRoundTrip(f);
    NoFalseNegatives(New(expectedKeys, bitsPerKey).value, keys);
  }

  // ---------------------------------------------------------------------
  // The filter object
  // ---------------------------------------------------------------------

  method OrInPlace(words: array<bv64>, i: nat, mask: Block)
    requires 4 * i + 4 <= words.Length
    modifies words
    ensures words[..] == OrBlock(old(words[..]), i, mask)
  {
    for n := 0 to 4
      invariant forall j :: 0 <= j < words.Length ==>
        words[j] == if 4 * i <= j < 4 * i + n then Or(old(words[j]), mask[j - 4 * i]) else old(words[j])
    {
      words[4 * i + n] := Or(words[4 * i + n], mask[n]);
    }
  }

  class BloomFilter {
    const words: array<bv64>
    const numBlocks: nat
    const k: Byte
    const bitsPerKey: Byte

    function View(): Filter
      reads words
    {
      Filter(words[..], numBlocks, k, bitsPerKey)
    }

    constructor (f: Filter)
      ensures View() == f && fresh(words)
    {
      words := new bv64[|f.words|](i requires 0 <= i < |f.words| => f.words[i]);
      numBlocks := f.numBlocks;
      k := f.k;
      bitsPerKey := f.bitsPerKey;
    }

    method Add(key: Str)
      requires Sound(View())
      modifies words
      ensures View() == Insert(old(View()), key)
    {
      hide Hash2, ProbeMask, SubsetVector;
      var h1, h2 := ComputeHash2(key);
      var block := (h1 as nat) % numBlocks;
      var mask := ComputeProbeMask(h1, h2, k);
      OrInPlace(words, block, mask[..]);
    }

    /** Header, then the words one by one. */
    method Serialize() returns (res: Result<Str>)
      requires Sound(View())
      ensures res == ToBytes(View())
    {
      hide Le;
      if numBlocks >= U32_LIMIT { return Err(BloomInvalid); }
      var out := BLOOM_MAGIC + [k, bitsPerKey, 0, 0] + Le(numBlocks, 4);
      ghost var head := out;
      for i := 0 to words.Length
        invariant out == head + WordBytes(words[..i])
      {
        assert words[..i + 1][..i] == words[..i];
        ghost var before := out;
        out := out + Le(words[i] as nat, 8);
        assert head + (WordBytes(words[..i]) + Le(words[i] as nat, 8)) == out;
      }
      assert words[..words.Length] == words[..];
      return Ok(out);
    }

    method Query(key: Str) returns (maybe: bool)
      requires Sound(View())
      ensures maybe == MayContain(View(), key)
    {
      hide SubsetVector, Hash2, ProbeMask;
      var h1, h2 := ComputeHash2(key);
      var block := (h1 as nat) % numBlocks;
      var mask := ComputeProbeMask(h1, h2, k);
      maybe := SubsetVector(words[4 * block..4 * block + 4], mask[..]);
      assert words[..][4 * block..4 * block + 4] == words[4 * block..4 * block + 4];
    }
  }
}
