/**
 * Powers and the bitwise OR on non-negative integers, the operations the
 * polyline encoders and decoders use (`|`, `<<`, `>>` and `& 0x1F`).
 * Shifts and masks are written with their arithmetic meaning: `x << k` is
 * `x * Pow2(k)`, `x >> k` is `x / Pow2(k)` and `x & (Pow2(k) - 1)` is
 * `x % Pow2(k)`; Dafny's `/` and `%` round toward minus infinity for a
 * positive divisor, which is what Python's shifts and masks do on negative
 * integers as well.
 */
module Bits {

  function Pow2(k: nat): (r: nat)
    ensures r >= 1
  {
    if k == 0 then 1 else 2 * Pow2(k - 1)
  }

  function Pow10(k: nat): (r: nat)
    ensures r >= 1
  {
    if k == 0 then 1 else 10 * Pow10(k - 1)
  }

  lemma {:induction false} Pow2Add(a: nat, b: nat)
    ensures Pow2(a + b) == Pow2(a) * Pow2(b)
  {
    if b > 0 {
      Pow2Add(a, b - 1);
      assert Pow2(a + b) == 2 * Pow2(a + b - 1);
    }
  }

  lemma {:induction false} Pow2Monotone(a: nat, b: nat)
    requires a <= b
    ensures Pow2(a) <= Pow2(b)
  {
    if a < b {
      Pow2Monotone(a, b - 1);
    }
  }

  /** Bitwise OR of two non-negative integers, one bit at a time. */
  function BitOr(a: nat, b: nat): nat
    decreases a + b
  {
    if a == 0 then b
    else if b == 0 then a
    else 2 * BitOr(a / 2, b / 2) + (if a % 2 == 1 || b % 2 == 1 then 1 else 0)
  }

  /**
   * When `a` fits below bit `k`, OR-ing it with a multiple of `2^k` adds
   * the two: the bits do not overlap.
   */
  lemma {:induction false} BitOrDisjoint(a: nat, b: nat, k: nat)
    requires a < Pow2(k)
    ensures BitOr(a, b * Pow2(k)) == a + b * Pow2(k)
  {
    if a != 0 && b != 0 {
      assert k > 0;
      var p := Pow2(k - 1);
      assert b * Pow2(k) == 2 * (b * p);
      assert (b * Pow2(k)) / 2 == b * p;
      assert (b * Pow2(k)) % 2 == 0;
      BitOrDisjoint(a / 2, b, k - 1);
    }
  }

  /** OR-ing two values below `2^k` stays below `2^k`. */
  lemma {:induction false} BitOrBound(a: nat, b: nat, k: nat)
    requires a < Pow2(k) && b < Pow2(k)
    ensures BitOr(a, b) < Pow2(k)
    decreases a + b
  {
    if a != 0 && b != 0 {
      assert k > 0;
      BitOrBound(a / 2, b / 2, k - 1);
    }
  }

  /** The powers of two the codecs use, spelled out. */
  lemma {:induction false} Pow2Values()
    ensures Pow2(5) == 32
    ensures Pow2(31) == 0x8000_0000
    ensures Pow2(32) == 0x1_0000_0000
  {
    assert Pow2(4) == 16;
    assert Pow2(8) == 256 by {
      Pow2Add(4, 4);
    }
    assert Pow2(16) == 65536 by {
      Pow2Add(8, 8);
    }
    assert Pow2(32) == 0x1_0000_0000 by {
      Pow2Add(16, 16);
    }
  }
}
