/** Arithmetic modulo the prime of Curve25519, 2^255 - 19.
    Field values are canonical residues; every limb-level routine of the library is
    stated against these functions. */
module Field25519 {
  import opened Bits

  /** The modulus 2^255 - 19. */
  const P: int := 57896044618658097711785492504343953926634992332820282019728792003956564819949

  /** 2^255. */
  const T255: int := 57896044618658097711785492504343953926634992332820282019728792003956564819968

  /** The residue of an integer modulo P: x % P (FIsRemainder). */
  function F(x: int): (r: int)
    ensures 0 <= r < P
  {
    Remainder(x, STEPS)
  }

  /** x % P. The n steps before it do nothing but keep the verifier from reasoning about % where the lemmas below do. */
  function Remainder(x: int, n: nat): (r: int)
    ensures 0 <= r < P
  {
    if n == 0 then x % P else Remainder(x, n - 1)
  }

  const STEPS: nat := 10

  lemma {:induction false} RemainderIs(x: int, n: nat)
    ensures Remainder(x, n) == x % P
  {
    if n == 0 {
    } else {
      RemainderIs(x, n - 1);
    }
  }

  lemma FIsRemainder(x: int)
    ensures F(x) == x % P
  {
    RemainderIs(x, STEPS);
  }

  function FAdd(a: int, b: int): int { F(a + b) }

  function FSub(a: int, b: int): int { F(a - b) }

  function FNeg(a: int): int { F(-a) }

  function FMul(a: int, b: int): (r: int)
    ensures 0 <= r < P
  {
    F(a * b)
  }

  function FSq(a: int): int { FMul(a, a) }

  /** z to the power e, reduced after every multiplication. */
  ghost function FPow(z: int, e: nat): int
  {
    if e == 0 then 1 else FMul(z, FPow(z, e - 1))
  }

  lemma Shift(a: int, k: int)
    ensures F(a + k * P) == F(a)
  {
    hide F;
    FIsRemainder(a);
    FIsRemainder(a + k * P);
  }

  lemma {:induction false} Congruent(a: int, b: int, k: int)
    requires a == b + k * P
    ensures F(a) == F(b)
  {
    Shift(b, k);
  }

  lemma Quotient(a: int) returns (k: int)
    ensures a == F(a) + k * P
  {
    hide F;
    FIsRemainder(a);
    k := a / P;
  }

  lemma FIdempotent(a: int)
    ensures F(F(a)) == F(a)
  {
    hide F;
    FOfSmall(F(a));
  }

  lemma FOfSmall(x: int)
    requires 0 <= x < P
    ensures F(x) == x
  {
    FIs(x, 0, x);
  }

  lemma AddResidues(a: int, b: int)
    ensures FAdd(F(a), F(b)) == F(a + b)
  {
    var k := Quotient(a);
    var l := Quotient(b);
    Congruent(a + b, F(a) + F(b), k + l);
  }

  lemma SubResidues(a: int, b: int)
    ensures FSub(F(a), F(b)) == F(a - b)
  {
    var k := Quotient(a);
    var l := Quotient(b);
    Congruent(a - b, F(a) - F(b), k - l);
  }

  lemma MulIs(a: int, b: int)
    ensures FMul(a, b) == F(a * b)
  {
  }

  lemma AddResidue(x: int, y: int)
    ensures F(F(x) + y) == F(x + y)
  {
    hide F;
    var k := Quotient(x);
    Congruent(x + y, F(x) + y, k);
  }

  lemma FIs(x: int, q: int, r: int)
    requires x == P * q + r && 0 <= r < P
    ensures F(x) == r
  {
    hide F;
    FIsRemainder(x);
    DivModUnique(x, P, q, r);
  }

  lemma MulResidues(a: int, b: int)
    ensures FMul(F(a), F(b)) == FMul(a, b)
  {
    hide F, FMul;
    var k := Quotient(a);
    var l := Quotient(b);
    var r, t := F(a), F(b);
    MulIs(r, t);
    MulIs(a, b);
    ExpandProduct(r, t, k, l);
    Congruent(a * b, r * t, k * l * P + k * t + l * r);
  }

  lemma ExpandProduct(r: int, t: int, k: int, l: int)
    ensures (r + k * P) * (t + l * P) == r * t + (k * l * P + k * t + l * r) * P
  {
  }

  lemma MulCommutes(a: int, b: int)
    ensures FMul(a, b) == FMul(b, a)
  {
    hide F, FMul;
    MulIs(a, b);
    MulIs(b, a);
  }

  lemma MulLeft(a: int, b: int)
    ensures FMul(F(a), b) == FMul(a, b)
  {
    hide F, FMul;
    MulResidues(a, b);
    MulResidues(F(a), b);
    FIdempotent(a);
  }

  lemma MulAssociates(a: int, b: int, c: int)
    ensures FMul(FMul(a, b), c) == FMul(a, FMul(b, c))
  {
    hide F, FMul;
    MulIs(a, b);
    MulIs(b, c);
    MulLeft(a * b, c);
    MulLeft(b * c, a);
    MulCommutes(FMul(b, c), a);
    MulIs(a * b, c);
    MulIs(b * c, a);
    Rotated(a, b, c);
  }

  lemma Rotated(a: int, b: int, c: int)
    ensures (a * b) * c == (b * c) * a
  {
  }

  lemma MulDistributes(a: int, b: int, c: int)
    ensures FMul(a, FAdd(b, c)) == FAdd(FMul(a, b), FMul(a, c))
  {
    hide F, FMul;
    MulLeft(b + c, a);
    MulCommutes(F(b + c), a);
    MulIs(b + c, a);
    MulIs(a, b);
    MulIs(a, c);
    AddResidues(a * b, a * c);
    Expanded(a, b, c);
  }

  lemma Expanded(a: int, b: int, c: int)
    ensures (b + c) * a == a * b + a * c
  {
  }

  lemma MulOne(a: int)
    ensures FMul(1, a) == F(a) && FMul(0, a) == 0
  {
  }

  lemma {:induction false} PowAdd(z: int, d: nat, e: nat)
    ensures FPow(z, d + e) == FMul(FPow(z, d), FPow(z, e))
  {
    hide FMul;
    if d == 0 {
      PowReduced(z, e);
    } else {
      PowAdd(z, d - 1, e);
      MulAssociates(z, FPow(z, d - 1), FPow(z, e));
      assert d + e - 1 == (d - 1) + e;
    }
  }

  lemma PowReduced(z: int, e: nat)
    ensures 0 <= FPow(z, e) < P
    ensures FMul(1, FPow(z, e)) == FPow(z, e)
  {
    hide FMul;
    MulOne(FPow(z, e));
    FOfSmall(FPow(z, e));
  }

  lemma {:induction false} PowMul(z: int, d: nat, e: nat)
    ensures FPow(FPow(z, d), e) == FPow(z, d * e)
  {
    hide FMul;
    if e == 0 {
      assert d * e == 0;
    } else {
      PowMul(z, d, e - 1);
      PowAdd(z, d, d * (e - 1));
      assert d * e == d + d * (e - 1);
    }
  }

  lemma {:induction false} PowDouble(z: int, n: nat)
    ensures FSq(FPow(z, Pow2(n))) == FPow(z, Pow2(n + 1))
  {
    hide FMul;
    PowAdd(z, Pow2(n), Pow2(n));
  }

  // ---- Exponents made of k ones, the building block of the exponentiation chains ----

  ghost function Ones(z: int, k: nat): int
  {
    FPow(z, Pow2(k) - 1)
  }

  /** b squarings of a-many ones, times b ones, is a + b ones. */
  lemma {:induction false} OnesConcat(z: int, a: nat, b: nat)
    ensures FMul(FPow(Ones(z, a), Pow2(b)), Ones(z, b)) == Ones(z, a + b)
  {
    hide FMul, FPow, Pow2;
    var pa, pb := Pow2(a), Pow2(b);
    PowMul(z, pa - 1, pb);
    assert (pa - 1) * pb == pa * pb - pb;
    Pow2Add(a, b);
    PowAdd(z, pa * pb - pb, pb - 1);
  }

  /** n squarings of k ones, times z to the e. */
  lemma {:induction false} OnesFinish(z: int, k: nat, n: nat, e: nat)
    ensures Pow2(k + n) >= Pow2(n)
    ensures FMul(FPow(Ones(z, k), Pow2(n)), FPow(z, e)) == FPow(z, Pow2(k + n) - Pow2(n) + e)
  {
    hide FMul, FPow, Pow2;
    var pk, pn := Pow2(k), Pow2(n);
    PowMul(z, pk - 1, pn);
    assert (pk - 1) * pn == pk * pn - pn;
    Pow2Add(k, n);
    PowAdd(z, pk * pn - pn, e);
  }

  lemma PowTwo(x: int)
    ensures FSq(x) == FPow(x, Pow2(1))
  {
    assert Pow2(1) == 2;
    hide FMul;
    MulOne(x);
    MulCommutes(x, 1);
    assert FPow(x, 1) == F(x);
    MulCommutes(x, F(x));
    MulLeft(x, x);
  }

  lemma PowOne(x: int)
    requires 0 <= x < P
    ensures FPow(x, 1) == x
  {
    hide FMul;
    FOfSmall(x);
    MulOne(x);
    MulCommutes(x, 1);
  }

  /** The short start of both chains: z^11 and five ones. */
  lemma ChainStart(z: int, z8: int, z9: int, z11: int, z22: int, z31: int)
    requires 0 <= z < P
    requires z8 == FPow(FSq(z), Pow2(2)) && z9 == FMul(z, z8) && z11 == FMul(FSq(z), z9)
    requires z22 == FSq(z11) && z31 == FMul(z9, z22)
    ensures z11 == FPow(z, 11) && z31 == Ones(z, 5)
  {
    hide FMul, FPow;
    PowTwo(z);
    SmallPowers();
    PowMul(z, 2, 4);
    PowOne(z);
    PowAdd(z, 1, 8);
    PowAdd(z, 2, 9);
    PowAdd(z, 11, 11);
    PowAdd(z, 9, 22);
  }

  lemma {:induction false} Pow2Of255()
    ensures Pow2(255) == P + 19
    ensures Pow2(240) == 0x1_0000_0000_0000_0000_0000_0000_0000_0000_0000_0000_0000_0000_0000_0000_0000
    ensures Pow2(252) == 7237005577332262213973186563042994240829374041602535252466099000494570602496
  {
    hide Pow2;
    Pow2Of64();
    SmallPowers();
    Pow2At(64, 64, 0x1_0000_0000_0000_0000, 0x1_0000_0000_0000_0000);
    Pow2At(128, 64, 0x1_0000_0000_0000_0000_0000_0000_0000_0000, 0x1_0000_0000_0000_0000);
    Pow2At(192, 32, 0x1_0000_0000_0000_0000_0000_0000_0000_0000_0000_0000_0000_0000, 0x1_0000_0000);
    Pow2At(224, 16, 0x1_0000_0000_0000_0000_0000_0000_0000_0000_0000_0000_0000_0000_0000_0000, 0x1_0000);
    Pow2At(240, 5, 0x1_0000_0000_0000_0000_0000_0000_0000_0000_0000_0000_0000_0000_0000_0000_0000, 32);
    Pow2At(245, 5, 0x20_0000_0000_0000_0000_0000_0000_0000_0000_0000_0000_0000_0000_0000_0000_0000, 32);
    Pow2At(250, 2, 0x400_0000_0000_0000_0000_0000_0000_0000_0000_0000_0000_0000_0000_0000_0000_0000, 4);
    Pow2At(250, 5, 0x400_0000_0000_0000_0000_0000_0000_0000_0000_0000_0000_0000_0000_0000_0000_0000, 32);
  }
}
