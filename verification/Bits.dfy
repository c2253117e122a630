/** Machine words as numbers, with the bit operations of the program. */
module Bits {

  const UNIT_BITS := 32

  function Pow2(n: nat): (p: nat)
    ensures p > 0
  {
    if n == 0 then 1 else 2 * Pow2(n - 1)
  }

  /** Bit `i` of a word. */
  predicate Bit(w: nat, i: nat)
  {
    if i == 0 then w % 2 == 1 else Bit(w / 2, i - 1)
  }

  /** `w | v`. */
  function Or(w: nat, v: nat): nat
    decreases w + v
  {
    if w == 0 && v == 0 then 0
    else 2 * Or(w / 2, v / 2) + if w % 2 == 1 || v % 2 == 1 then 1 else 0
  }

  /** `w & v`. */
  function And(w: nat, v: nat): nat
    decreases w
  {
    if w == 0 || v == 0 then 0
    else 2 * And(w / 2, v / 2) + if w % 2 == 1 && v % 2 == 1 then 1 else 0
  }

  /** `1 << i`. */
  function Mask(i: nat): nat
  {
    Pow2(i)
  }

  lemma {:induction false} ZeroHasNoBits(i: nat)
    ensures !Bit(0, i)
  {
    if i > 0 { ZeroHasNoBits(i - 1); }
  }

  /** The bit of weight 2^i. */
  lemma BitWeight(w: nat, i: nat)
    ensures Bit(w, i) <==> w / Pow2(i) % 2 == 1
  {
    var q, r := Split(w, i);
    Quotient(w, Pow2(i), q, r);
  }

  lemma {:induction false} Split(w: nat, i: nat) returns (q: nat, r: nat)
    ensures w == Pow2(i) * q + r && r < Pow2(i)
    ensures Bit(w, i) <==> q % 2 == 1
  {
    if i == 0 {
      q, r := w, 0;
    } else {
      var k;
      q, k := Split(w / 2, i - 1);
      r := 2 * k + w % 2;
      assert Pow2(i) * q == 2 * (Pow2(i - 1) * q);
    }
  }

  lemma Quotient(w: nat, m: nat, q: nat, r: nat)
    requires w == m * q + r && r < m
    ensures w / m == q
  {
    var k := w / m;
    assert w == m * k + w % m;
    assert m * (k - q) == r - w % m;
    if k != q { Apart(m, k - q); }
  }

  lemma Apart(m: nat, d: int)
    requires d != 0
    ensures m * d >= m || m * d + m <= 0
  {
    assert d >= 1 ==> m * d == m + m * (d - 1);
    assert d <= -1 ==> m * d == m * (d + 1) - m;
  }

  lemma OrHalves(w: nat, v: nat)
    ensures Or(w, v) / 2 == Or(w / 2, v / 2) && (Or(w, v) % 2 == 1 <==> w % 2 == 1 || v % 2 == 1)
  {
  }

  lemma {:induction false} OrBit(w: nat, v: nat, i: nat)
    ensures Bit(Or(w, v), i) <==> Bit(w, i) || Bit(v, i)
    decreases i
  {
    hide Or;
    OrHalves(w, v);
    if i > 0 { OrBit(w / 2, v / 2, i - 1); }
  }

  lemma AndHalves(w: nat, v: nat)
    ensures And(w, v) / 2 == And(w / 2, v / 2) && (And(w, v) % 2 == 1 <==> w % 2 == 1 && v % 2 == 1)
  {
  }

  lemma {:induction false} AndBit(w: nat, v: nat, i: nat)
    ensures Bit(And(w, v), i) <==> Bit(w, i) && Bit(v, i)
    decreases i
  {
    hide And;
    AndHalves(w, v);
    if i > 0 { AndBit(w / 2, v / 2, i - 1); }
  }

  lemma {:induction false} MaskBit(i: nat, j: nat)
    ensures Bit(Mask(i), j) <==> i == j
  {
    if i == 0 {
      if j > 0 { ZeroHasNoBits(j - 1); }
    } else if j > 0 {
      MaskBit(i - 1, j - 1);
      assert Mask(i) / 2 == Mask(i - 1);
    }
  }

  /** Setting one bit. */
  lemma OrMask(w: nat, i: nat, j: nat)
    ensures Bit(Or(w, Mask(i)), j) <==> Bit(w, j) || i == j
  {
    OrBit(w, Mask(i), j);
    MaskBit(i, j);
  }

  /** Testing one bit. */
  lemma AndMask(w: nat, i: nat)
    ensures And(w, Mask(i)) != 0 <==> Bit(w, i)
  {
    AndBit(w, Mask(i), i);
    MaskBit(i, i);
    if And(w, Mask(i)) != 0 && !Bit(w, i) {
      var j := SomeBit(And(w, Mask(i)));
      AndBit(w, Mask(i), j);
      MaskBit(i, j);
    } else {
      ZeroHasNoBits(i);
    }
  }

  lemma {:induction false} SomeBit(w: nat) returns (i: nat)
    requires w != 0
    ensures Bit(w, i)
  {
    if w % 2 == 1 {
      i := 0;
    } else {
      var k := SomeBit(w / 2);
      i := k + 1;
    }
  }

  /** The bits of a word of `n` bits are below `n`. */
  lemma {:induction false} BitBelow(w: nat, n: nat, i: nat)
    requires w < Pow2(n) && Bit(w, i)
    ensures i < n
    decreases n
  {
    if n == 0 {
      ZeroHasNoBits(i);
    } else if i > 0 {
      BitBelow(w / 2, n - 1, i - 1);
    }
  }

  /** The results are words of the same width. */
  lemma {:induction false} OrWidth(w: nat, v: nat, n: nat)
    requires w < Pow2(n) && v < Pow2(n)
    ensures Or(w, v) < Pow2(n)
    decreases n
  {
    if n > 0 { OrWidth(w / 2, v / 2, n - 1); }
  }

  lemma {:induction false} Pow2Increases(i: nat, n: nat)
    requires i < n
    ensures Pow2(i) < Pow2(n)
  {
    if i + 1 < n { Pow2Increases(i, n - 1); }
  }

  /** Words with the same bits are equal. */
  lemma {:induction false} SameBits(w: nat, v: nat)
    requires forall i: nat :: Bit(w, i) <==> Bit(v, i)
    ensures w == v
    decreases w + v
  {
    assert Bit(w, 0) <==> Bit(v, 0);
    if w != 0 || v != 0 {
      forall i: nat ensures Bit(w / 2, i) <==> Bit(v / 2, i) {
        assert Bit(w, i + 1) <==> Bit(v, i + 1);
      }
      SameBits(w / 2, v / 2);
    }
  }

  /** A word with all `n` bits set. */
  lemma {:induction false} FullWord(n: nat, i: nat)
    ensures Bit(Pow2(n) - 1, i) <==> i < n
    decreases n
  {
    if n == 0 {
      ZeroHasNoBits(i);
    } else if i > 0 {
      FullWord(n - 1, i - 1);
      assert (Pow2(n) - 1) / 2 == Pow2(n - 1) - 1;
    }
  }

  // ----- 32-bit units -----

  type word = w: int | 0 <= w < 0x1_0000_0000

  const ALL_BITS: word := 0xffff_ffff

  lemma WordLimit()
    ensures Pow2(8) == 0x100 && Pow2(UNIT_BITS) == 0x1_0000_0000
  {
    assert Pow2(8) == 256;
    assert Pow2(16) == 256 * 256;
    assert Pow2(24) == 65536 * 256;
    assert Pow2(32) == 16777216 * 256;
  }

  function OrWord(w: word, v: word): (r: word)
    ensures r == Or(w, v)
  {
    WordLimit();
    OrWidth(w, v, UNIT_BITS);
    Or(w, v)
  }

  function MaskWord(i: nat): (m: word)
    requires i < UNIT_BITS
    ensures m == Mask(i)
  {
    WordLimit();
    Pow2Increases(i, UNIT_BITS);
    Mask(i)
  }
}
