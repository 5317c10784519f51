/** Powers of two, integer division facts, and the bits of an (unbounded,
    possibly negative) integer as Python sees them: bit i of x is the parity of
    floor(x / 2^i), which is what `(x >> i) & 1` computes in Python, and
    flipping bit i is what `x ^ (1 << i)` computes. */
module Bits {

  function Pow2(n: nat): (r: nat)
    ensures r >= 1
  {
    if n == 0 then 1 else 2 * Pow2(n - 1)
  }

  lemma {:induction false} Pow2Add(a: nat, b: nat)
    ensures Pow2(a + b) == Pow2(a) * Pow2(b)
  {
    if b > 0 {
      Pow2Add(a, b - 1);
      calc {
        Pow2(a + b);
        2 * Pow2(a + b - 1);
        2 * (Pow2(a) * Pow2(b - 1));
        Pow2(a) * (2 * Pow2(b - 1));
      }
    }
  }

  lemma Pow2Monotone(a: nat, b: nat)
    requires a <= b
    ensures Pow2(a) <= Pow2(b)
  {
    Pow2Add(a, b - a);
    MulLe(1, Pow2(b - a), Pow2(a));
  }

  /** Quotient and remainder are determined by the defining equation. */
  lemma DivModUnique(x: int, d: int, q: int, r: int)
    requires 0 < d && 0 <= r < d && x == q * d + r
    ensures x / d == q && x % d == r
  {
    var q0, r0 := x / d, x % d;
    assert x == q0 * d + r0;
    assert (q0 - q) * d == r - r0;
    if q0 - q >= 1 {
      assert false;
    } else if q0 - q <= -1 {
      assert false;
    }
  }

  /** Adding a multiple of the divisor shifts the quotient and keeps the remainder. */
  lemma ModAddMul(y: int, k: int, d: int)
    requires 0 < d
    ensures (y + k * d) % d == y % d
    ensures (y + k * d) / d == y / d + k
  {
    assert y == (y / d) * d + y % d;
    assert y + k * d == (y / d + k) * d + y % d;
    DivModUnique(y + k * d, d, y / d + k, y % d);
  }

  lemma MulLe(m: int, n: int, a: int)
    requires m <= n && 0 < a
    ensures m * a <= n * a
  {
    assert n * a - m * a == (n - m) * a;
  }

  lemma DivDiv(x: int, a: int, b: int)
    requires 0 < a && 0 < b
    ensures x / a / b == x / (a * b)
  {
    var q1, r1 := x / a, x % a;
    var q2, r2 := q1 / b, q1 % b;
    assert x == q1 * a + r1;
    assert q1 == q2 * b + r2;
    assert x == (q2 * b + r2) * a + r1;
    assert (q2 * b + r2) * a == q2 * (a * b) + r2 * a;
    assert x == q2 * (a * b) + (r2 * a + r1);
    assert r2 * a <= (b - 1) * a by { MulLe(r2, b - 1, a); }
    assert (b - 1) * a == a * b - a;
    assert 0 <= r2 * a by { MulLe(0, r2, a); }
    DivModUnique(x, a * b, q2, r2 * a + r1);
  }

  lemma DivPow2Add(x: int, a: nat, b: nat)
    ensures x / Pow2(a) / Pow2(b) == x / Pow2(a + b)
  {
    DivDiv(x, Pow2(a), Pow2(b));
    Pow2Add(a, b);
  }

  /** Bit i of x, with two's-complement meaning for negative x. */
  predicate Bit(x: int, i: nat)
  {
    (x / Pow2(i)) % 2 == 1
  }

  lemma BitShift(x: int, a: nat, j: nat)
    ensures Bit(x, a + j) == Bit(x / Pow2(a), j)
  {
    DivPow2Add(x, a, j);
  }

  /** Unsigned values below 2^i have no bit at i or above. */
  lemma BitAboveRange(x: int, i: nat)
    requires 0 <= x < Pow2(i)
    ensures !Bit(x, i)
  {
    DivModUnique(x, Pow2(i), 0, x);
  }

  /** A value below 2^b has no bit at or above b. */
  lemma BitsAbove(x: int, b: nat, i: nat)
    requires 0 <= x < Pow2(b) && b <= i
    ensures !Bit(x, i)
  {
    Pow2Monotone(b, i);
    BitAboveRange(x, i);
  }

  /** Flipping bit i, as `x ^ (1 << i)` does. */
  function Flip(x: int, i: nat): int
  {
    if Bit(x, i) then x - Pow2(i) else x + Pow2(i)
  }

  lemma FlipQuotient(x: int, i: nat)
    ensures Flip(x, i) / Pow2(i) == x / Pow2(i) + (if Bit(x, i) then -1 else 1)
  {
    ModAddMul(x, if Bit(x, i) then -1 else 1, Pow2(i));
  }

  lemma FlipAbove(x: int, i: nat)
    ensures Flip(x, i) / Pow2(i + 1) == x / Pow2(i + 1)
  {
    var y := x / Pow2(i);
    FlipQuotient(x, i);
    DivPow2Add(x, i, 1);
    DivPow2Add(Flip(x, i), i, 1);
    assert y == (y / 2) * 2 + y % 2;
    if Bit(x, i) {
      DivModUnique(y - 1, 2, y / 2, 0);
    } else {
      DivModUnique(y + 1, 2, y / 2, 1);
    }
  }

  /** A flip at i leaves the part of x above any n > i alone. */
  lemma FlipHigh(x: int, i: nat, n: nat)
    requires i < n
    ensures Flip(x, i) / Pow2(n) == x / Pow2(n)
  {
    FlipAbove(x, i);
    DivPow2Add(x, i + 1, n - i - 1);
    DivPow2Add(Flip(x, i), i + 1, n - i - 1);
  }

  lemma FlipBit(x: int, i: nat, j: nat)
    ensures Bit(Flip(x, i), j) == if i == j then !Bit(x, j) else Bit(x, j)
  {
    if j == i {
      var y := x / Pow2(i);
      FlipQuotient(x, i);
      assert y == (y / 2) * 2 + y % 2;
      if Bit(x, i) {
        DivModUnique(y - 1, 2, y / 2, 0);
      } else {
        DivModUnique(y + 1, 2, y / 2, 1);
      }
    } else if j < i {
      var k: int := if Bit(x, i) then -(Pow2(i - j) as int) else Pow2(i - j);
      Pow2Add(i - j, j);
      assert Flip(x, i) == x + k * Pow2(j);
      ModAddMul(x, k, Pow2(j));
      var half: int := if Bit(x, i) then -(Pow2(i - j - 1) as int) else Pow2(i - j - 1);
      assert k == half * 2;
      ModAddMul(x / Pow2(j), half, 2);
    } else {
      FlipAbove(x, i);
      BitShift(x, i + 1, j - i - 1);
      BitShift(Flip(x, i), i + 1, j - i - 1);
    }
  }

  lemma {:induction false} BitZero(x: int)
    ensures Bit(x, 0) == (x % 2 == 1)
  {
  }

  lemma BitHalf(x: int, i: nat)
    ensures Bit(x / 2, i) == Bit(x, i + 1)
  {
    DivPow2Add(x, 1, i);
    assert Pow2(1) == 2;
  }

  lemma HighHalf(x: int, n: nat)
    requires n > 0
    ensures x / 2 / Pow2(n - 1) == x / Pow2(n)
  {
    DivPow2Add(x, 1, n - 1);
    assert Pow2(1) == 2;
  }

  lemma HalfAndParity(x: int, y: int)
    requires x / 2 == y / 2 && x % 2 == y % 2
    ensures x == y
  {
  }

  /** An integer is determined by its bits below n and its part above them. */
  lemma {:induction false} BitsDetermine(x: int, y: int, n: nat)
    requires x / Pow2(n) == y / Pow2(n)
    requires forall i :: 0 <= i < n ==> Bit(x, i) == Bit(y, i)
    ensures x == y
    decreases n
  {
    if n > 0 {
      forall i | 0 <= i < n - 1
        ensures Bit(x / 2, i) == Bit(y / 2, i)
      {
        BitHalf(x, i);
        BitHalf(y, i);
      }
      HighHalf(x, n);
      HighHalf(y, n);
      BitsDetermine(x / 2, y / 2, n - 1);
      assert Bit(x, 0) == Bit(y, 0);
      BitZero(x);
      BitZero(y);
      HalfAndParity(x, y);
    }
  }
}
