/** Unsigned machine words as naturals, with the C++ shift and bitwise operators
    written out. A word of width n is a natural below Pow2(n); a left shift names
    its width and truncates to it. */
module Bits {

  type Byte = b: nat | b < 256
  type Word32 = w: nat | w < 0x1_0000_0000
  type Word64 = w: nat | w < U64

  const U64: nat := 0x1_0000_0000_0000_0000

  function Pow2(n: nat): (r: nat)
    ensures r > 0
  {
    if n == 0 then 1 else 2 * Pow2(n - 1)
  }

  /** Bit j of w, counting from the least significant. */
  predicate Bit(w: nat, j: nat) {
    if j == 0 then w % 2 == 1 else Bit(w / 2, j - 1)
  }

  /** w >> n */
  function Shr(w: nat, n: nat): nat {
    if n == 0 then w else Shr(w / 2, n - 1)
  }

  /** (w << n), truncated to `width` bits. */
  function Shl(width: nat, w: nat, n: nat): nat
    decreases n
  {
    if n == 0 then w % Pow2(width) else Shl(width, 2 * w, n - 1)
  }

  /** w | v */
  function Or(w: nat, v: nat): nat {
    if w == 0 then v
    else 2 * Or(w / 2, v / 2) + (if w % 2 == 1 || v % 2 == 1 then 1 else 0)
  }

  /** w & v */
  function And(w: nat, v: nat): nat {
    if w == 0 then 0
    else 2 * And(w / 2, v / 2) + (if w % 2 == 1 && v % 2 == 1 then 1 else 0)
  }

  /** w & ~v */
  function AndNot(w: nat, v: nat): nat {
    if w == 0 then 0
    else 2 * AndNot(w / 2, v / 2) + (if w % 2 == 1 && v % 2 == 0 then 1 else 0)
  }

  /** w ^ v */
  function Xor(w: nat, v: nat): nat {
    if w == 0 then v
    else 2 * Xor(w / 2, v / 2) + (if w % 2 != v % 2 then 1 else 0)
  }

  lemma {:induction false} BitOfZero(j: nat)
    ensures !Bit(0, j)
  {
    if j > 0 { BitOfZero(j - 1); }
  }

  lemma {:induction false} BitOr(w: nat, v: nat, j: nat)
    ensures Bit(Or(w, v), j) == (Bit(w, j) || Bit(v, j))
  {
    if w == 0 {
      BitOfZero(j);
    } else if j > 0 {
      BitOr(w / 2, v / 2, j - 1);
    }
  }

  lemma {:induction false} BitAnd(w: nat, v: nat, j: nat)
    ensures Bit(And(w, v), j) == (Bit(w, j) && Bit(v, j))
  {
    if w == 0 {
      BitOfZero(j);
    } else if j > 0 {
      BitAnd(w / 2, v / 2, j - 1);
    }
  }

  lemma {:induction false} BitAndNot(w: nat, v: nat, j: nat)
    ensures Bit(AndNot(w, v), j) == (Bit(w, j) && !Bit(v, j))
  {
    if w == 0 {
      BitOfZero(j);
    } else if j > 0 {
      BitAndNot(w / 2, v / 2, j - 1);
    }
  }

  lemma {:induction false} BitXor(w: nat, v: nat, j: nat)
    ensures Bit(Xor(w, v), j) == (Bit(w, j) != Bit(v, j))
  {
    if w == 0 {
      BitOfZero(j);
    } else if j > 0 {
      BitXor(w / 2, v / 2, j - 1);
    }
  }

  lemma {:induction false} BitShr(w: nat, n: nat, j: nat)
    ensures Bit(Shr(w, n), j) == Bit(w, n + j)
  {
    if n > 0 { BitShr(w / 2, n - 1, j); }
  }

  /** Truncation keeps exactly the bits below the width. */
  lemma {:induction false} BitTruncate(w: nat, n: nat, j: nat)
    ensures Bit(w % Pow2(n), j) == (j < n && Bit(w, j))
  {
    if n == 0 {
      BitOfZero(j);
    } else {
      HalfOfMod(w, Pow2(n - 1));
      if j > 0 { BitTruncate(w / 2, n - 1, j - 1); }
    }
  }

  lemma MoveTwo(w: nat, p: int)
    ensures (2 * w) * p == w * (2 * p)
  {
  }

  /** Halving a number given by its quotient and remainder by 2p. */
  lemma HalfOfParts(w: nat, p: int, q: nat, r: nat)
    requires p > 0 && r < 2 * p && w == (2 * p) * q + r
    ensures (w / 2) / p == q && (w / 2) % p == r / 2 && w % 2 == r % 2
  {
    var a := p * q;
    assert (2 * p) * q == 2 * a;
    ModUnique(w / 2, p, q, r / 2);
  }

  lemma HalfOfMod(w: nat, p: int)
    requires p > 0
    ensures (w % (2 * p)) / 2 == (w / 2) % p
    ensures (w % (2 * p)) % 2 == w % 2
    ensures (w / 2) / p == w / (2 * p)
  {
    HalfOfParts(w, p, w / (2 * p), w % (2 * p));
  }

  lemma MulBetween(p: int, d: int)
    requires p > 0 && -p < p * d < p
    ensures d == 0
  {
  }

  lemma ModUnique(w: nat, p: int, q: nat, r: nat)
    requires p > 0 && r < p && w == p * q + r
    ensures w / p == q && w % p == r
  {
    var d := w / p - q;
    assert p * d == r - w % p;
    assert 0 - p < p * d && p * d < p;
    assert d == 0 by { MulBetween(p, d); }
  }

  lemma {:induction false} BitShl(width: nat, w: nat, n: nat, j: nat)
    ensures Bit(Shl(width, w, n), j) == (n <= j < width && Bit(w, j - n))
    decreases n
  {
    if n == 0 {
      BitTruncate(w, width, j);
    } else {
      BitShl(width, 2 * w, n - 1, j);
      if n - 1 <= j { assert Bit(2 * w, j - (n - 1)) == (n <= j && Bit(w, j - n)); }
    }
  }

  lemma {:induction false} BitLowMask(n: nat, j: nat)
    ensures Bit(Pow2(n) - 1, j) == (j < n)
  {
    if n == 0 {
      BitOfZero(j);
    } else if j > 0 {
      BitLowMask(n - 1, j - 1);
    }
  }

  lemma {:induction false} BitAboveWidth(w: nat, n: nat, j: nat)
    requires w < Pow2(n) && n <= j
    ensures !Bit(w, j)
  {
    if n == 0 { BitOfZero(j); } else { BitAboveWidth(w / 2, n - 1, j - 1); }
  }

  /** Words with the same bits are the same word; only the bits below both widths matter. */
  lemma {:induction false} SameBits(w: nat, v: nat, n: nat)
    requires w < Pow2(n) && v < Pow2(n)
    requires forall j: nat :: j < n ==> Bit(w, j) == Bit(v, j)
    ensures w == v
  {
    if n > 0 {
      forall j: nat | j < n - 1 ensures Bit(w / 2, j) == Bit(v / 2, j) {
        assert Bit(w, j + 1) == Bit(v, j + 1);
      }
      SameBits(w / 2, v / 2, n - 1);
      assert Bit(w, 0) == Bit(v, 0);
    }
  }

  lemma {:induction false} OrBound(w: nat, v: nat, n: nat)
    requires w < Pow2(n) && v < Pow2(n)
    ensures Or(w, v) < Pow2(n)
  {
    if n > 0 && w > 0 { OrBound(w / 2, v / 2, n - 1); }
  }

  lemma {:induction false} XorBound(w: nat, v: nat, n: nat)
    requires w < Pow2(n) && v < Pow2(n)
    ensures Xor(w, v) < Pow2(n)
  {
    if n > 0 && w > 0 { XorBound(w / 2, v / 2, n - 1); }
  }

  lemma {:induction false} AndBound(w: nat, v: nat)
    ensures And(w, v) <= v
    ensures And(w, v) <= w
  {
    if w > 0 { AndBound(w / 2, v / 2); }
  }

  lemma {:induction false} AndNotBound(w: nat, v: nat)
    ensures AndNot(w, v) <= w
  {
    if w > 0 { AndNotBound(w / 2, v / 2); }
  }

  lemma {:induction false} ShlBound(width: nat, w: nat, n: nat)
    ensures Shl(width, w, n) < Pow2(width)
    decreases n
  {
    if n > 0 { ShlBound(width, 2 * w, n - 1); }
  }

  lemma {:induction false} ShrBound(w: nat, n: nat)
    ensures Shr(w, n) <= w
  {
    if n > 0 { ShrBound(w / 2, n - 1); }
  }

  lemma {:induction false} Pow2Monotone(m: nat, n: nat)
    requires m <= n
    ensures Pow2(m) <= Pow2(n)
  {
    if m < n { Pow2Monotone(m, n - 1); }
  }

  lemma {:induction false} Pow2Sum(m: nat, n: nat)
    ensures Pow2(m + n) == Pow2(m) * Pow2(n)
  {
    if m > 0 {
      Pow2Sum(m - 1, n);
      assert Pow2(m + n) == 2 * Pow2(m - 1 + n);
    }
  }

  lemma WordSizes()
    ensures Pow2(8) == 256 && Pow2(16) == 0x1_0000
    ensures Pow2(32) == 0x1_0000_0000 && Pow2(64) == U64
  {
    assert Pow2(8) == 256;
    Pow2Sum(8, 8);
    Pow2Sum(16, 16);
    Pow2Sum(32, 32);
  }

  lemma {:induction false} ShrIsDiv(w: nat, n: nat)
    ensures Shr(w, n) == w / Pow2(n)
  {
    if n > 0 {
      ShrIsDiv(w / 2, n - 1);
      HalfOfMod(w, Pow2(n - 1));
    }
  }

  /** A left shift that loses no bits multiplies; m is the product. */
  lemma PowerMoved(w: nat, n: nat)
    requires n > 0
    ensures (2 * w) * Pow2(n - 1) == w * Pow2(n)
  {
    MoveTwo(w, Pow2(n - 1));
  }

  lemma {:induction false} ShlIsMul(width: nat, w: nat, n: nat, m: nat)
    requires m == w * Pow2(n) && m < Pow2(width)
    ensures Shl(width, w, n) == m
    decreases n
  {
    if n == 0 {
      assert m == w;
    } else {
      PowerMoved(w, n);
      hide Pow2;
      ShlIsMul(width, 2 * w, n - 1, m);
    }
  }

  /** Or-ing in a word above the bits already used is addition. */
  lemma {:induction false} OrDisjoint(w: nat, v: nat, n: nat)
    requires w < Pow2(n)
    ensures Or(w, v * Pow2(n)) == w + v * Pow2(n)
  {
    if w > 0 && n > 0 {
      var half := v * Pow2(n - 1);
      assert v * Pow2(n) == 2 * half;
      OrDisjoint(w / 2, v, n - 1);
    }
  }

  /** Xor-ing in a word above the bits already used is addition. */
  lemma {:induction false} XorDisjoint(w: nat, v: nat, n: nat)
    requires w < Pow2(n)
    ensures Xor(v * Pow2(n), w) == v * Pow2(n) + w
  {
    if v > 0 && n > 0 {
      var half := v * Pow2(n - 1);
      assert v * Pow2(n) == 2 * half;
      XorDisjoint(w / 2, v, n - 1);
    } else if n == 0 {
      XorZero(v);
    }
  }

  lemma {:induction false} XorZero(w: nat)
    ensures Xor(w, 0) == w
  {
    if w > 0 { XorZero(w / 2); }
  }

  lemma {:induction false} ShrXor(w: nat, v: nat, n: nat)
    ensures Shr(Xor(w, v), n) == Xor(Shr(w, n), Shr(v, n))
  {
    if n > 0 {
      if w == 0 { ShrZero(n); } else { ShrXor(w / 2, v / 2, n - 1); }
    }
  }

  lemma {:induction false} ShrZero(n: nat)
    ensures Shr(0, n) == 0
  {
    if n > 0 { ShrZero(n - 1); }
  }
}
