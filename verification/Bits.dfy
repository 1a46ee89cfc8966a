/**
  64-bit words as sets of bits: union, meeting, covering, and finding a bit.
 */
module Bits {
  function Or(w: bv64, x: bv64): bv64 { w | x }

  function Both(w: bv64, x: bv64): bv64 { w & x }

  /** Some bit is set in both words. */
  predicate Meets(w: bv64, x: bv64) { Both(w, x) != 0 }

  /** All bits of `m` are set in `w`. */
  predicate Covers(w: bv64, m: bv64) { w & m == m }

  /** The bits of `m` that `w` lacks. */
  function Without(m: bv64, w: bv64): bv64 { m & !w }

  lemma Uncovered(w: bv64, m: bv64)
    requires !Covers(w, m)
    ensures Meets(Without(m, w), 0xFFFF_FFFF_FFFF_FFFF)
  {
  }

  lemma BitSplits(w: bv64, m: bv64, q: bv64)
    requires q < 64 && Meets(Without(m, w), One(q))
    ensures Meets(m, One(q)) && !Meets(w, One(q))
  {
  }

  lemma CoveredBit(w: bv64, m: bv64, x: bv64)
    requires Covers(w, m) && Meets(m, x)
    ensures Meets(w, x)
  {
  }

  lemma OrKeeps(w: bv64, x: bv64, m: bv64)
    requires Covers(w, m)
    ensures Covers(Or(w, x), m)
  {
  }

  lemma OrSets(w: bv64, m: bv64)
    ensures Covers(Or(w, m), m)
  {
  }

  lemma OrMeets(w: bv64, m: bv64, x: bv64)
    ensures Meets(Or(w, m), x) <==> Meets(w, x) || Meets(m, x)
  {
    hide Or, Both;
    OrBoth(w, m, x);
    OrZero(Both(w, x), Both(m, x));
  }

  lemma OrAnd(w: bv64, m: bv64, x: bv64)
    ensures (w | m) & x == (w & x) | (m & x)
  {
  }

  lemma OrBoth(w: bv64, m: bv64, x: bv64)
    ensures Both(Or(w, m), x) == Or(Both(w, x), Both(m, x))
  {
    var a, b := w & x, m & x;
    calc {
      Both(Or(w, m), x);
      (w | m) & x;
      { OrAnd(w, m, x); }
      a | b;
      Or(a, b);
    }
  }

  lemma OrZero(a: bv64, b: bv64)
    ensures Or(a, b) == 0 <==> a == 0 && b == 0
  {
  }

  function One(q: bv64): bv64
    requires q < 64
  {
    1 << q
  }

  function Down(x: bv64, n: bv64): bv64
    requires n < 64
  {
    x >> n
  }

  function Up(x: bv64, n: bv64): bv64
    requires n < 64
  {
    x << n
  }

  lemma OneShifted(q: bv64, n: bv64)
    requires q < 64 && n < 64 && q + n < 64
    ensures Up(One(q), n) == One(q + n)
  {
  }

  lemma Back32(x: bv64, y: bv64)
    requires Meets(Down(x, 32), y)
    ensures Meets(x, Up(y, 32))
  {
  }

  lemma Back16(x: bv64, y: bv64)
    requires Meets(Down(x, 16), y)
    ensures Meets(x, Up(y, 16))
  {
  }

  lemma Back8(x: bv64, y: bv64)
    requires Meets(Down(x, 8), y)
    ensures Meets(x, Up(y, 8))
  {
  }

  lemma Back4(x: bv64, y: bv64)
    requires Meets(Down(x, 4), y)
    ensures Meets(x, Up(y, 4))
  {
  }

  lemma High32(x: bv64)
    requires Meets(x, 0xFFFF_FFFF_FFFF_FFFF) && !Meets(x, 0xFFFF_FFFF)
    ensures Meets(Down(x, 32), 0xFFFF_FFFF)
  {
  }

  lemma High16(x: bv64)
    requires Meets(x, 0xFFFF_FFFF) && !Meets(x, 0xFFFF)
    ensures Meets(Down(x, 16), 0xFFFF)
  {
  }

  lemma High8(x: bv64)
    requires Meets(x, 0xFFFF) && !Meets(x, 0xFF)
    ensures Meets(Down(x, 8), 0xFF)
  {
  }

  lemma High4(x: bv64)
    requires Meets(x, 0xFF) && !Meets(x, 0xF)
    ensures Meets(Down(x, 4), 0xF)
  {
  }

  /** A word with a bit among its low 4, 8, 16, 32 or all 64: halving finds one. */
  lemma BitIn4(x: bv64) returns (q: bv64)
    requires Meets(x, 0xF)
    ensures q < 4 && Meets(x, One(q))
  {
    q := if x & 1 != 0 then 0 else if x & 2 != 0 then 1 else if x & 4 != 0 then 2 else 3;
  }

  lemma BitIn8(x: bv64) returns (q: bv64)
    requires Meets(x, 0xFF)
    ensures q < 8 && Meets(x, One(q))
  {
    hide Meets, One, Down, Up;
    if Meets(x, 0xF) {
      q := BitIn4(x);
    } else {
      High4(x);
      var r := BitIn4(Down(x, 4));
      Back4(x, One(r));
      OneShifted(r, 4);
      q := r + 4;
    }
  }

  lemma BitIn16(x: bv64) returns (q: bv64)
    requires Meets(x, 0xFFFF)
    ensures q < 16 && Meets(x, One(q))
  {
    hide Meets, One, Down, Up;
    if Meets(x, 0xFF) {
      q := BitIn8(x);
    } else {
      High8(x);
      var r := BitIn8(Down(x, 8));
      Back8(x, One(r));
      OneShifted(r, 8);
      q := r + 8;
    }
  }

  lemma BitIn32(x: bv64) returns (q: bv64)
    requires Meets(x, 0xFFFF_FFFF)
    ensures q < 32 && Meets(x, One(q))
  {
    hide Meets, One, Down, Up;
    if Meets(x, 0xFFFF) {
      q := BitIn16(x);
    } else {
      High16(x);
      var r := BitIn16(Down(x, 16));
      Back16(x, One(r));
      OneShifted(r, 16);
      q := r + 16;
    }
  }

  lemma BitIn64(x: bv64) returns (q: bv64)
    requires Meets(x, 0xFFFF_FFFF_FFFF_FFFF)
    ensures q < 64 && Meets(x, One(q))
  {
    hide Meets, One, Down, Up;
    if Meets(x, 0xFFFF_FFFF) {
      q := BitIn32(x);
    } else {
      High32(x);
      var r := BitIn32(Down(x, 32));
      Back32(x, One(r));
      OneShifted(r, 32);
      q := r + 32;
    }
  }
}
