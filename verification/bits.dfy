/** Powers of two, right shifts and binary digits of natural numbers, and the
    arithmetic that splits an input assignment into a round index and a bit
    position inside one simulation vector. */
module Bits {

  /** 2^k. */
  function Pow2(k: nat): (r: nat)
    ensures r >= 1
  {
    if k == 0 then 1 else 2 * Pow2(k - 1)
  }

  lemma {:induction false} Pow2Add(a: nat, b: nat)
    ensures Pow2(a + b) == Pow2(a) * Pow2(b)
  {
    if a > 0 {
      Pow2Add(a - 1, b);
    }
  }

  /** 1 << 29. */
  lemma Pow2Of29()
    ensures Pow2(29) == 0x2000_0000
  {
    assert Pow2(5) == 32;
    assert Pow2(10) == 1024 by { Pow2Add(5, 5); }
    Pow2Add(10, 10);
    Pow2Add(20, 9);
    assert Pow2(9) == 512 by { Pow2Add(5, 4); }
  }

  /** x >> p. */
  function Shift(x: nat, p: nat): nat
  {
    if p == 0 then x else Shift(x, p - 1) / 2
  }

  /** Bit p of x, counting from the least significant bit. */
  predicate Bit(x: nat, p: nat)
  {
    Shift(x, p) % 2 == 1
  }

  lemma {:induction false} ShiftHalf(x: nat, p: nat)
    ensures Shift(x, p + 1) == Shift(x / 2, p)
  {
    if p > 0 {
      ShiftHalf(x, p - 1);
    }
  }

  /** Zero has no set bit. */
  lemma {:induction false} BitOfZero(p: nat)
    ensures Shift(0, p) == 0
    ensures !Bit(0, p)
  {
    if p > 0 {
      BitOfZero(p - 1);
    }
  }

  /** The assignment number simulated at bit j of round k when s inputs
      are simulated in parallel: the round index supplies the high digits. */
  function RoundPoint(s: nat, k: nat, j: nat): nat
  {
    j + k * Pow2(s)
  }

  /** The low s binary digits of a round point are those of the bit
      position, the remaining digits are those of the round index. */
  lemma {:induction false} BitOfRoundPoint(s: nat, k: nat, j: nat, p: nat)
    requires j < Pow2(s)
    ensures Bit(RoundPoint(s, k, j), p) == if p < s then Bit(j, p) else Bit(k, p - s)
  {
    if s > 0 {
      var x := RoundPoint(s, k, j);
      var m := k * Pow2(s - 1);
      assert x == j + 2 * m;
      assert x / 2 == j / 2 + m;
      assert RoundPoint(s - 1, k, j / 2) == x / 2;
      if p > 0 {
        ShiftHalf(x, p - 1);
        ShiftHalf(j, p - 1);
        BitOfRoundPoint(s - 1, k, j / 2, p - 1);
      }
    }
  }

  lemma {:induction false} MulMonotone(a: nat, b: nat, c: nat)
    requires a <= b
    ensures a * c <= b * c
  {
    if c > 0 {
      MulMonotone(a, b, c - 1);
      assert a * c == a * (c - 1) + a;
      assert b * c == b * (c - 1) + b;
    }
  }

  /** With j < d and k < r, the number j + k * d lies below r * d. */
  lemma DigitPairBelow(d: nat, r: nat, k: nat, j: nat)
    requires k < r && j < d
    ensures j + k * d < r * d
  {
    MulMonotone(k, r - 1, d);
    assert (r - 1) * d == r * d - d;
  }

  /** Two pairs of digits with the same value are the same pair. */
  lemma DigitPairUnique(d: nat, k1: nat, j1: nat, k2: nat, j2: nat)
    requires j1 < d && j2 < d
    requires j1 + k1 * d == j2 + k2 * d
    ensures k1 == k2 && j1 == j2
  {
    if k1 < k2 {
      MulMonotone(k1 + 1, k2, d);
    } else if k2 < k1 {
      MulMonotone(k2 + 1, k1, d);
    }
  }

  /** Every point of r rounds of 2^s bits lies below r * 2^s. */
  lemma RoundPointInRange(s: nat, r: nat, k: nat, j: nat)
    requires k < r && j < Pow2(s)
    ensures RoundPoint(s, k, j) < r * Pow2(s)
  {
    DigitPairBelow(Pow2(s), r, k, j);
  }

  /** The round that simulates assignment x: the one k whose block
      [k * 2^s, (k + 1) * 2^s) contains x, found by removing one block of
      2^s assignments at a time. */
  function RoundOf(s: nat, x: nat): (k: nat)
    ensures k * Pow2(s) <= x < k * Pow2(s) + Pow2(s)
    decreases x
  {
    if x < Pow2(s) then 0
    else
      var k := RoundOf(s, x - Pow2(s));
      assert (k + 1) * Pow2(s) == k * Pow2(s) + Pow2(s);
      k + 1
  }

  /** The bit position at which assignment x is simulated: its offset inside
      the block of its round. */
  function PositionOf(s: nat, x: nat): (j: nat)
    ensures j < Pow2(s)
  {
    x - RoundOf(s, x) * Pow2(s)
  }

  /** Every assignment below r * 2^s is a point of one of r rounds: of
      round RoundOf(s, x), at bit PositionOf(s, x). */
  lemma RoundPointCover(s: nat, r: nat, x: nat)
    requires x < r * Pow2(s)
    ensures RoundOf(s, x) < r && PositionOf(s, x) < Pow2(s)
    ensures RoundPoint(s, RoundOf(s, x), PositionOf(s, x)) == x
  {
    var k := RoundOf(s, x);
    if k >= r {
      MulMonotone(r, k, Pow2(s));
    }
  }

  /** Distinct round/bit pairs give distinct round points. */
  lemma RoundPointInjective(s: nat, k1: nat, j1: nat, k2: nat, j2: nat)
    requires j1 < Pow2(s) && j2 < Pow2(s)
    requires RoundPoint(s, k1, j1) == RoundPoint(s, k2, j2)
    ensures k1 == k2 && j1 == j2
  {
    DigitPairUnique(Pow2(s), k1, j1, k2, j2);
  }
}
