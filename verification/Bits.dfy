/** Bitwise OR and AND of non-negative integers, bit by bit, and what they are in arithmetic. */
module Bits {

  function Pow2(k: nat): nat {
    if k == 0 then 1 else 2 * Pow2(k - 1)
  }

  function BitOr(a: nat, b: nat): nat {
    if a == 0 && b == 0 then 0
    else 2 * BitOr(a / 2, b / 2) + (if a % 2 == 1 || b % 2 == 1 then 1 else 0)
  }

  function BitAnd(a: nat, b: nat): nat {
    if a == 0 || b == 0 then 0
    else 2 * BitAnd(a / 2, b / 2) + (if a % 2 == 1 && b % 2 == 1 then 1 else 0)
  }

  /** Masking with k ones keeps the remainder modulo 2^k. */
  lemma {:induction false} BitAndOnes(a: nat, k: nat)
    ensures 0 < Pow2(k)
    ensures BitAnd(a, Pow2(k) - 1) == a % Pow2(k)
  {
    if k > 0 {
      BitAndOnes(a / 2, k - 1);
      var ones := Pow2(k) - 1;
      assert ones / 2 == Pow2(k - 1) - 1 && ones % 2 == 1;
      HalvedRemainder(a, Pow2(k - 1));
    }
  }

  lemma HalvedRemainder(a: nat, m: nat)
    requires m > 0
    ensures a % (2 * m) == 2 * (a / 2 % m) + a % 2
  {
    var q, r := a / 2 / m, a / 2 % m;
    assert a == 2 * m * q + (2 * r + a % 2) by {
      Twice(m, q, r, a);
    }
    RemainderUnique(a, 2 * m, q, 2 * r + a % 2);
  }

  lemma Twice(m: nat, q: nat, r: nat, a: nat)
    requires a / 2 == m * q + r
    ensures a == 2 * m * q + (2 * r + a % 2)
  {
  }

  lemma RemainderUnique(a: nat, m: nat, q: nat, r: nat)
    requires a == m * q + r && r < m
    ensures a % m == r
  {
    var d := a / m - q;
    assert m * d + a % m == r by {
      assert m * (a / m) - m * q == m * d;
    }
    assert d != 0 ==> m * d >= m || m * d + m <= 0;
  }

  lemma {:induction false} BitOrBounds(a: nat, b: nat, k: nat)
    requires a < Pow2(k) && b < Pow2(k)
    ensures a <= BitOr(a, b) && b <= BitOr(a, b) && BitOr(a, b) < Pow2(k)
  {
    if a != 0 || b != 0 {
      BitOrBounds(a / 2, b / 2, k - 1);
    }
  }

  /** OR works on the high and the low part of a word separately. */
  lemma {:induction false} BitOrOfParts(x: nat, y: nat, b: nat, k: nat)
    requires b < Pow2(k)
    ensures BitOr(x * Pow2(k), y * Pow2(k) + b) == BitOr(x, y) * Pow2(k) + b
  {
    if k > 0 {
      hide Pow2;
      LowBitOfOr(x, y, b, k);
      assert Pow2(k) == 2 * Pow2(k - 1) by {
        PowerStep(k);
      }
      BitOrOfParts(x, y, b / 2, k - 1);
    }
  }

  lemma PowerStep(k: nat)
    requires k > 0
    ensures Pow2(k) == 2 * Pow2(k - 1)
  {
  }

  /** One bit of the low part. */
  lemma LowBitOfOr(x: nat, y: nat, b: nat, k: nat)
    requires k > 0
    ensures BitOr(x * Pow2(k), y * Pow2(k) + b)
            == 2 * BitOr(x * Pow2(k - 1), y * Pow2(k - 1) + b / 2) + b % 2
    ensures BitOr(x, y) * Pow2(k) == 2 * (BitOr(x, y) * Pow2(k - 1))
  {
    Doubling(x, k);
    Doubling(y, k);
    Doubling(BitOr(x, y), k);
    HalfOfOr(x * Pow2(k - 1), y * Pow2(k - 1), b);
  }

  lemma HalfOfOr(x: nat, y: nat, b: nat)
    ensures BitOr(2 * x, 2 * y + b) == 2 * BitOr(x, y + b / 2) + b % 2
  {
    assert (2 * y + b) / 2 == y + b / 2 && (2 * y + b) % 2 == b % 2;
  }

  lemma Doubling(x: nat, k: nat)
    requires k > 0
    ensures x * Pow2(k) == 2 * (x * Pow2(k - 1))
  {
  }

  lemma {:induction false} BitOrZero(a: nat)
    ensures BitOr(a, 0) == a
  {
    if a != 0 {
      BitOrZero(a / 2);
    }
  }

  lemma {:induction false} BitOrAllOnes(a: nat, k: nat)
    requires a < Pow2(k)
    ensures BitOr(a, Pow2(k) - 1) == Pow2(k) - 1
  {
    if k > 0 {
      var ones := Pow2(k) - 1;
      BitOrAllOnes(a / 2, k - 1);
      assert ones / 2 == Pow2(k - 1) - 1 && ones % 2 == 1;
    }
  }
}
