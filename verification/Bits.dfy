/** Unsigned machine integers as natural numbers, with the bitwise operators the codec uses. */
module Bits {

  type Byte = x: int | 0 <= x < 256 witness 0

  function Pow2(n: nat): (r: nat)
    ensures r >= 1
  {
    if n == 0 then 1 else 2 * Pow2(n - 1)
  }

  /** `x << k`, without a bound on the width. */
  function Shl(x: nat, k: nat): nat {
    if k == 0 then x else 2 * Shl(x, k - 1)
  }

  /** Bitwise or. */
  function BitOr(a: nat, b: nat): nat
    decreases a + b
  {
    if a == 0 && b == 0 then 0
    else 2 * BitOr(a / 2, b / 2) + (if a % 2 == 1 || b % 2 == 1 then 1 else 0)
  }

  /** Bitwise exclusive or. */
  function BitXor(a: nat, b: nat): nat
    decreases a + b
  {
    if a == 0 && b == 0 then 0
    else 2 * BitXor(a / 2, b / 2) + (if a % 2 != b % 2 then 1 else 0)
  }

  /** Bit number `k` of `x`. */
  predicate Bit(x: nat, k: nat) {
    if k == 0 then x % 2 == 1 else Bit(x / 2, k - 1)
  }

  lemma {:induction false} DivUnique(x: nat, d: nat, q: nat, r: nat)
    requires r < d && x == q * d + r
    ensures x / d == q && x % d == r
  {
    if x / d < q {
      MulStep(x / d, q, d);
    } else if q < x / d {
      MulStep(q, x / d, d);
    }
  }

  lemma {:induction false} MulStep(a: nat, b: nat, d: nat)
    requires a < b
    ensures a * d + d <= b * d
  {
    assert (a + 1) * d <= b * d;
  }

  lemma {:induction false} DivDiv(v: nat, w: nat)
    requires w > 0
    ensures v / w / 256 == v / (256 * w)
  {
    var q, r := v / w, v % w;
    var p, s := q / 256, q % 256;
    assert v == p * (256 * w) + (s * w + r) by {
      assert v == q * w + r;
      assert q == 256 * p + s;
      assert (256 * p + s) * w == p * (256 * w) + s * w;
    }
    assert s * w + r < 256 * w by {
      MulStep(s, 256, w);
    }
    DivUnique(v, 256 * w, p, s * w + r);
  }

  lemma {:induction false} ShlSmall(x: nat)
    ensures Shl(x, 3) == 8 * x && Shl(x, 5) == 32 * x
  {
    assert Shl(x, 1) == 2 * x && Shl(x, 2) == 2 * Shl(x, 1) && Shl(x, 3) == 2 * Shl(x, 2);
    assert Shl(x, 4) == 2 * Shl(x, 3) && Shl(x, 5) == 2 * Shl(x, 4);
  }

  lemma {:induction false} ShlAdd(x: nat, j: nat, k: nat)
    ensures Shl(x, j + k) == Shl(Shl(x, j), k)
  {
    if k > 0 {
      ShlAdd(x, j, k - 1);
    }
  }

  lemma {:induction false} ShlTwentyFive(x: nat)
    ensures Shl(x, 25) == 0x200_0000 * x
  {
    ShlSmall(x);
    ShlAdd(x, 5, 5);
    ShlSmall(Shl(x, 5));
    ShlAdd(x, 10, 5);
    ShlSmall(Shl(x, 10));
    ShlAdd(x, 15, 5);
    ShlSmall(Shl(x, 15));
    ShlAdd(x, 20, 5);
    ShlSmall(Shl(x, 20));
  }

  lemma ShlOne(k: nat)
    ensures Shl(1, k) == Pow2(k)
  {}

  lemma {:induction false} Pow2Small()
    ensures Pow2(0) == 1 && Pow2(1) == 2 && Pow2(3) == 8 && Pow2(4) == 16 && Pow2(7) == 128 && Pow2(25) == 0x200_0000
  {
    assert Pow2(2) == 2 * Pow2(1) && Pow2(3) == 2 * Pow2(2) && Pow2(4) == 2 * Pow2(3);
    assert Pow2(5) == 2 * Pow2(4) && Pow2(6) == 2 * Pow2(5) && Pow2(7) == 2 * Pow2(6);
    ShlTwentyFive(1);
    ShlOne(25);
  }

  lemma OrZero(b: nat)
    ensures BitOr(0, b) == b && BitOr(b, 0) == b
  {}

  lemma XorZero(b: nat)
    ensures BitXor(0, b) == b && BitXor(b, 0) == b
  {}

  /** Bits that do not overlap: or is addition. */
  lemma {:induction false} OrDisjoint(a: nat, b: nat, k: nat)
    requires a < Pow2(k)
    ensures BitOr(a, Shl(b, k)) == a + Shl(b, k)
  {
    if k == 0 {
      OrZero(b);
    } else {
      OrDisjoint(a / 2, b, k - 1);
    }
  }

  /** Bits that do not overlap: exclusive or is addition. */
  lemma {:induction false} XorDisjoint(a: nat, b: nat, k: nat)
    requires a < Pow2(k)
    ensures BitXor(a, Shl(b, k)) == a + Shl(b, k)
  {
    if k == 0 {
      XorZero(b);
    } else {
      XorDisjoint(a / 2, b, k - 1);
    }
  }

  /** Or works bit by bit. */
  lemma OrBit(a: nat, b: nat, k: nat)
    ensures Bit(BitOr(a, b), k) == (Bit(a, k) || Bit(b, k))
  {
    if a == 0 && b == 0 {
      ZeroBit(k);
    } else if k > 0 {
      OrBit(a / 2, b / 2, k - 1);
    }
  }

  lemma ZeroBit(k: nat)
    ensures !Bit(0, k)
  {}

  lemma PowerBit(n: nat, k: nat)
    ensures Bit(Pow2(n), k) == (n == k)
  {
    if n == 0 && k > 0 {
      ZeroBit(k - 1);
    } else if n > 0 && k > 0 {
      PowerBit(n - 1, k - 1);
    }
  }

  lemma OrBound(a: nat, b: nat, n: nat)
    requires a < Pow2(n) && b < Pow2(n)
    ensures BitOr(a, b) < Pow2(n)
  {
    if n > 0 {
      OrBound(a / 2, b / 2, n - 1);
    }
  }

  lemma OnesBit(n: nat, k: nat)
    requires k < n
    ensures Bit(Pow2(n) - 1, k)
  {
    if k > 0 {
      assert (Pow2(n) - 1) / 2 == Pow2(n - 1) - 1;
      OnesBit(n - 1, k - 1);
    }
  }

  predicate AllSet(x: nat, n: nat) {
    forall k: nat | k < n :: Bit(x, k)
  }

  /** A word below `2^n` is all ones exactly when each of its `n` bits is set. */
  lemma {:induction false} AllOnes(x: nat, n: nat)
    requires x < Pow2(n)
    ensures x == Pow2(n) - 1 <==> AllSet(x, n)
  {
    if x == Pow2(n) - 1 {
      forall k: nat | k < n ensures Bit(x, k) { OnesBit(n, k); }
    } else if n > 0 && AllSet(x, n) {
      assert Bit(x, 0);
      forall k: nat | k < n - 1 ensures Bit(x / 2, k) { assert Bit(x, k + 1); }
      AllOnes(x / 2, n - 1);
    }
  }

  predicate NoneSet(x: nat, from: nat, to: nat) {
    forall k: nat | from <= k < to :: !Bit(x, k)
  }

  /** A word without bits from `n` on is below `2^n`. */
  lemma {:induction false} HighBitsClear(x: nat, n: nat, width: nat)
    requires x < Pow2(width) && n <= width && NoneSet(x, n, width)
    ensures x < Pow2(n)
  {
    if width > 0 {
      forall k: nat | (if n > 0 then n - 1 else 0) <= k < width - 1 ensures !Bit(x / 2, k) { assert !Bit(x, k + 1); }
      HighBitsClear(x / 2, if n > 0 then n - 1 else 0, width - 1);
      if n == 0 {
        assert !Bit(x, 0);
      }
    }
  }
}
