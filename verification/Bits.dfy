/** Bitwise operations of C on unsigned values, as operations on naturals. */
module Bits {

  function Pow2(n: nat): (r: int)
    ensures r > 0
  {
    if n == 0 then 1 else 2 * Pow2(n - 1)
  }

  lemma {:induction false} Pow2Add(m: nat, n: nat)
    ensures Pow2(m + n) == Pow2(m) * Pow2(n)
  {
    hide Pow2;
    if m == 0 {
      PowZero();
    } else {
      Pow2Add(m - 1, n);
      PowStep(m - 1);
      PowStep(m - 1 + n);
      TwiceProduct(Pow2(m - 1), Pow2(n));
    }
  }

  lemma PowZero()
    ensures Pow2(0) == 1
  {
  }

  lemma PowStep(n: nat)
    ensures Pow2(n + 1) == 2 * Pow2(n)
  {
  }

  lemma TwiceProduct(a: int, b: int)
    ensures (2 * a) * b == 2 * (a * b)
  {
  }

  /** Shifts of an unsigned value. */
  function Shr(x: nat, k: nat): nat
  {
    DivNonNegative(x, Pow2(k));
    x / Pow2(k)
  }

  lemma DivNonNegative(a: nat, b: nat)
    requires b > 0
    ensures a / b >= 0
  {
  }

  function Shl(x: nat, k: nat): nat
  {
    MulNonNegative(x, Pow2(k));
    x * Pow2(k)
  }

  lemma MulNonNegative(a: nat, b: nat)
    ensures a * b >= 0
  {
  }

  /** Concrete powers: the value at a sum of exponents is the product of the values. */
  lemma {:induction false} Pow2At(m: nat, n: nat, x: int, y: int)
    requires Pow2(m) == x && Pow2(n) == y
    ensures Pow2(m + n) == x * y
  {
    Pow2Add(m, n);
  }

  lemma {:induction false} Pow2Of64()
    ensures Pow2(8) == 0x100 && Pow2(16) == 0x1_0000 && Pow2(32) == 0x1_0000_0000
    ensures Pow2(64) == 0x1_0000_0000_0000_0000
  {
    assert Pow2(4) == 16;
    Pow2At(4, 4, 16, 16);
    Pow2At(8, 8, 0x100, 0x100);
    Pow2At(16, 16, 0x1_0000, 0x1_0000);
    Pow2At(32, 32, 0x1_0000_0000, 0x1_0000_0000);
  }

  lemma SmallPowers()
    ensures Pow2(1) == 2 && Pow2(2) == 4 && Pow2(3) == 8 && Pow2(4) == 16 && Pow2(5) == 32 && Pow2(6) == 64
    ensures Pow2(7) == 128
  {
    assert Pow2(3) == 8;
    assert Pow2(5) == 32;
  }

  function Or(a: nat, b: nat): nat
    decreases a + b
  {
    if a == 0 then b else if b == 0 then a else
    (if a % 2 == 1 || b % 2 == 1 then 1 else 0) + 2 * Or(a / 2, b / 2)
  }

  function And(a: nat, b: nat): nat
  {
    if a == 0 then 0 else (if a % 2 == 1 && b % 2 == 1 then 1 else 0) + 2 * And(a / 2, b / 2)
  }

  function Xor(a: nat, b: nat): nat
    decreases a + b
  {
    if a == 0 then b else if b == 0 then a else
    (a + b) % 2 + 2 * Xor(a / 2, b / 2)
  }

  /** Joining fields that do not overlap is addition. */
  lemma {:induction false} OrDisjoint(a: nat, b: nat, k: nat)
    requires a < Pow2(k)
    ensures Or(a, b * Pow2(k)) == a + b * Pow2(k)
  {
    if k > 0 && a != 0 && b != 0 {
      var bb := b * Pow2(k - 1);
      assert b * Pow2(k) == 2 * bb;
      OrDisjoint(a / 2, b, k - 1);
    }
  }

  /** Masking with k ones is the remainder modulo 2^k. */
  lemma {:induction false} AndMask(a: nat, k: nat)
    ensures And(a, Pow2(k) - 1) == a % Pow2(k)
  {
    if k == 0 {
      AndZero(a);
    } else if a != 0 {
      AndMask(a / 2, k - 1);
      assert (Pow2(k) - 1) / 2 == Pow2(k - 1) - 1;
      HalfMod(a, Pow2(k - 1));
    }
  }

  lemma AndDouble(a: nat, b: nat)
    ensures And(a, 2 * b) == 2 * And(a / 2, b)
  {
  }

  lemma {:induction false} AndZero(a: nat)
    ensures And(a, 0) == 0
  {
    if a == 0 {
    } else {
      AndZero(a / 2);
    }
  }

  lemma HalfMod(a: nat, m: nat)
    requires m > 0
    ensures a % (2 * m) == a % 2 + 2 * ((a / 2) % m)
  {
    var q, r := (a / 2) / m, (a / 2) % m;
    assert a == (2 * m) * q + (a % 2 + 2 * r);
    DivModUnique(a, 2 * m, q, a % 2 + 2 * r);
  }

  lemma DivModUnique(a: int, m: int, q: int, r: int)
    requires m > 0 && a == m * q + r && 0 <= r < m
    ensures a / m == q && a % m == r
  {
    var d := a / m - q;
    assert m * d == r - a % m;
    assert d == 0;
  }

  lemma {:induction false} XorParts(a: nat, b: nat)
    ensures Xor(a, b) % 2 == (a + b) % 2 && Xor(a, b) / 2 == Xor(a / 2, b / 2)
  {
    if a == 0 || b == 0 {
    } else {
      LastDigit((a + b) % 2, Xor(a / 2, b / 2));
    }
  }

  lemma LastDigit(d: nat, x: nat)
    requires d < 2
    ensures (d + 2 * x) % 2 == d && (d + 2 * x) / 2 == x
  {
  }

  lemma XorZero(a: nat)
    ensures Xor(a, 0) == a
  {
  }

  lemma {:induction false} XorSelf(a: nat)
    ensures Xor(a, a) == 0
  {
    if a == 0 {
    } else {
      XorSelf(a / 2);
    }
  }

  /** Exclusive or with the same value twice cancels. */
  lemma {:induction false} XorCancels(a: nat, b: nat)
    ensures Xor(a, Xor(a, b)) == b
    decreases a + b
  {
    if a != 0 && b != 0 {
      XorCancels(a / 2, b / 2);
      XorParts(a, b);
      XorParts(a, Xor(a, b));
      Recombine(Xor(a, Xor(a, b)), b);
    } else {
      XorSelf(a);
    }
  }

  lemma Recombine(a: nat, b: nat)
    requires a / 2 == b / 2 && a % 2 == b % 2
    ensures a == b
  {
  }

  lemma {:induction false} XorCommutes(a: nat, b: nat)
    ensures Xor(a, b) == Xor(b, a)
    decreases a + b
  {
    if a != 0 && b != 0 {
      XorCommutes(a / 2, b / 2);
    }
  }

  lemma {:induction false} XorBelow(a: nat, b: nat, k: nat)
    requires a < Pow2(k) && b < Pow2(k)
    ensures Xor(a, b) < Pow2(k)
  {
    if a != 0 && b != 0 {
      XorBelow(a / 2, b / 2, k - 1);
    }
  }
}
