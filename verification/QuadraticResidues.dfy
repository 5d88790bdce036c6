/** Squares in the field: 2 is none, nor is the curve constant d; of f and 2 f one has a root. */
module QuadraticResidues {
  import opened Field25519
  import opened FieldLaws
  import opened Edwards
  import PrimeField
  import Decompress

  const HALF: int := (P - 1) / 2

  /** The square root of -1 of the library. */
  const I: int := Decompress.SQRTM1

  lemma MinusOneRoot()
    ensures Square(I) == F(-1)
  {
    hide F, FMul;
    Decompress.Constants();
    MulIs(I, I);
  }

  /** A power of a product. */
  lemma {:induction false} PowProduct(a: int, b: int, e: nat)
    ensures FPow(F(a * b), e) == FMul(FPow(a, e), FPow(b, e))
  {
    hide F, FMul;
    if e == 0 {
      FIs(1, 0, 1);
      MulOne(1);
    } else {
      PowProduct(a, b, e - 1);
      var u, v := FPow(a, e - 1), FPow(b, e - 1);
      MulIs(a, b);
      MulAssociates(a, b, FMul(u, v));
      MulAssociates(b, u, v);
      MulCommutes(b, u);
      MulAssociates(u, b, v);
      MulAssociates(a, u, FMul(b, v));
    }
  }

  /** The power (p - 1) / 2 of a square is 1, unless it is zero. */
  lemma PowOfSquare(t: int)
    requires F(t) != 0
    ensures FPow(Square(t), HALF) == 1
  {
    hide F, FMul, FPow;
    PowProduct(t, t, HALF);
    PowAdd(t, HALF, HALF);
    PrimeField.Inverts(t);
    PowStep(t, P - 1);
  }

  lemma PowStep(z: int, e: nat)
    requires e > 0
    ensures FPow(z, e) == FMul(z, FPow(z, e - 1))
  {
    hide FMul;
  }

  lemma {:induction false} OddPowOfMinusOne(k: nat)
    ensures FPow(F(-1), 2 * k + 1) == F(-1) && FPow(F(-1), 2 * k) == 1
  {
    hide F, FMul;
    var m := F(-1);
    FIs(-1, -1, P - 1);
    FIs(1, 0, 1);
    if k == 0 {
      PowOne(m);
    } else {
      OddPowOfMinusOne(k - 1);
      MulIs(m, m);
      FIdempotent(-1);
      Products(m, -1, m, -1);
      assert 2 * k - 1 == 2 * (k - 1) + 1;
      MulCommutes(m, 1);
      MulOne(m);
    }
  }

  lemma INotSquare(t: int)
    ensures Square(t) != F(I)
  {
    hide F, FMul, FPow;
    MinusOneRoot();
    ZeroIs();
    FIs(-1, -1, P - 1);
    if Square(t) == F(I) {
      if F(t) == 0 {
        ZeroTimes(t, t);
        ZeroTimes(I, I);
      } else {
        var q := (P - 1) / 4;
        PowOfSquare(t);
        FOfSmall(I);
        PowTwo(I);
        MulIs(I, I);
        PowMul(I, 2, q);
        OddPowOfMinusOne((q - 1) / 2);
      }
    }
  }

  /** 2 is no square: (1 + i)^2 = 2 i, and i is none. */
  lemma TwoNotSquare(z: int)
    ensures Square(z) != F(2)
  {
    hide F, Div;
    MinusOneRoot();
    TwoNotZero();
    if Square(z) == F(2) {
      if F(z) == 0 {
        ZeroTimes(z, z);
      } else {
        assert (1 + I) * (1 + I) == 1 + 2 * I + I * I;
        Reduce2((1 + I) * (1 + I), I * (z * z), 1, I * I, -1, -I, z * z, 2);
        SquareQuotient(I, 1 + I, z);
        INotSquare(Div(1 + I, z));
      }
    }
  }

  /** Roots of 121666 and of 2 * 121665. */
  const R2: int := 53349024335595116287218880480235248380932224208407348260407321313250266849793
  const R1: int := 51433253462520500264212897900760618405213415304451317506555883227270826074491

  lemma Roots()
    ensures Square(R2) == F(121666) && Square(R1) == F(243330)
  {
    hide F;
    Congruent(R2 * R2, 121666, 49159116418165539779347428473129305236280782673337122415835694181846914645467);
    Congruent(R1 * R1, 243330, 45691887574774897946496388320259234517905434534984026934710736429420478049299);
  }

  /** What has 2 z^2 = t^2 for some t is zero. */
  lemma TwiceSquare(z: int, t: int)
    requires F(2 * (z * z)) == F(t * t)
    ensures F(z) == 0
  {
    hide F, Div;
    if F(z) != 0 {
      SquareQuotient(2, t, z);
      TwoNotSquare(Div(t, z));
    }
  }

  /** The curve constant of edwards25519, -121665 / 121666, and its inverse. */
  const D: int := Decompress.D

  lemma DIs()
    ensures F(121666 * D) == F(-121665)
  {
    hide F, FMul;
    Decompress.Constants();
    MulIs(D, 121666);
  }

  lemma SmallNumbers()
    ensures F(121665) != 0 && F(121666) != 0 && F(243330) != 0
  {
  }

  /** d is no square: 2 * 121665 is one, and 2 is none. */
  lemma DNotSquare(z: int)
    ensures Square(z) != F(D)
  {
    hide F;
    DIs();
    Roots();
    MinusOneRoot();
    SmallNumbers();
    if Square(z) == F(D) {
      var h := I * R2 * z;
      Products(R2 * R2, 121666, z * z, D);
      Products(I * I, -1, R2 * R2 * (z * z), 121666 * D);
      RootProduct(I, R2, z);
      Products(-1, -1, 121666 * D, -121665);
      Reduce(2 * (h * h), 243330, 2, h * h, 121665);
      assert h * (2 * h) == 2 * (h * h);
      TwiceSquare(h, R1);
      ZeroTimes(h, 2 * h);
    }
  }

  lemma RootProduct(i: int, r: int, z: int)
    ensures i * i * (r * r * (z * z)) == i * r * z * (i * r * z)
  {
  }

  const DINV: int := 29203323570479832313932222820853031755424015489030106335172286495629888845891

  lemma DInverse()
    ensures F(D * DINV) == 1
  {
    hide F, Decompress.D;
    Decompress.DValue();
    FIs(D * DINV, 18711432026504983545383150839179377069140755243431541592214386876915719962696, 1);
  }

  lemma DInverseNotSquare(z: int)
    ensures Square(z) != F(DINV)
  {
    hide F, Div;
    DInverse();
    ZeroIs();
    if Square(z) == F(DINV) {
      Products(D, D, z * z, DINV);
      if F(z) == 0 {
        ZeroTimes(z, z);
        ZeroTimes(z * z, D);
      } else {
        Products(1, D * (z * z), 1, 1);
        SquareQuotient(D, 1, z);
        DNotSquare(Div(1, z));
      }
    }
  }

  /** The two curves of the ladder: edwards25519 and its twist. */
  lemma BothTwisted()
    ensures Twisted(D, I) && Twisted(DINV, I)
  {
    hide F;
    MinusOneRoot();
    forall z
      ensures Square(z) != F(D) && Square(z) != F(DINV)
    {
      DNotSquare(z);
      DInverseNotSquare(z);
    }
  }

  // ---- Roots ----

  /** What has 1 as its power (p - 1) / 2 has a root. */
  lemma HasRoot(w: int) returns (r: int)
    requires 0 < w < P && FPow(w, HALF) == 1
    ensures Square(r) == w
  {
    hide F, FMul, FPow;
    var q := (P - 1) / 4;
    var r0, e := FPow(w, (P + 3) / 8), FPow(w, q);
    FOfSmall(w);
    ZeroIs();
    PowAdd(w, (P + 3) / 8, (P + 3) / 8);
    PowStep(w, q + 1);
    MulIs(r0, r0);
    MulIs(w, e);
    PowAdd(w, q, q);
    MulIs(1, 1);
    PrimeField.RootsAgree(e, 1);
    PowReduced(w, q);
    FOfSmall(e);
    if e == 1 {
      r := r0;
    } else {
      MinusOneRoot();
      r := r0 * I;
      Products(w, w, e, -1);
      Products(r0 * r0, w * -1, I * I, -1);
      assert r * r == r0 * r0 * (I * I) && w * -1 * -1 == w;
    }
  }

  lemma TwoPower()
    ensures FPow(2, HALF) == F(-1)
  {
    hide F, FMul, FPow;
    FOfSmall(2);
    FIs(-1, -1, P - 1);
    PrimeField.Euler(2);
    if FPow(2, HALF) == 1 {
      var r := HasRoot(2);
      TwoNotSquare(r);
    }
  }

  /** Of f and 2 f one has a root. */
  lemma RootOfOne(f: int) returns (r: int)
    requires F(f) != 0
    ensures Square(r) == F(f) || Square(r) == F(2 * f)
  {
    hide F, FMul, FPow;
    var w := F(f);
    FIdempotent(f);
    FOfSmall(w);
    PrimeField.Euler(w);
    if FPow(w, HALF) == 1 {
      r := HasRoot(w);
    } else {
      TwoPower();
      FIs(-1, -1, P - 1);
      PowProduct(2, w, HALF);
      MulIs(F(-1), F(-1));
      MinusOneSquared();
      Products(2, 2, w, f);
      TwoNotZero();
      NonzeroProduct(2, f);
      r := HasRoot(F(2 * w));
    }
  }

  lemma MinusOneSquared()
    ensures F(F(-1) * F(-1)) == 1
  {
    hide F;
    FIdempotent(-1);
    Products(F(-1), -1, F(-1), -1);
    ZeroIs();
  }
}
