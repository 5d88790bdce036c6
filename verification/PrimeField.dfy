/** What the primality of 2^255 - 19 means for residues: products, square roots and Euler's criterion. */
module PrimeField {
  import opened Field25519
  import Primes
  import PrimeCertificate

  /** Residues are equal exactly for congruent numbers. */
  lemma SameResidue(a: int, b: int)
    ensures F(a) == F(b) <==> Primes.Cong(P, a, b)
  {
    hide F, Primes.Cong;
    var k := Quotient(a);
    var l := Quotient(b);
    if F(a) == F(b) {
      Primes.CongBy(P, a, b, k - l);
    }
    if Primes.Cong(P, a, b) {
      var m := Primes.Multiple(P, a, b);
      Congruent(a, b, m);
    }
  }

  lemma Zero(a: int)
    ensures F(a) == 0 <==> Primes.Cong(P, a, 0)
  {
    hide F, Primes.Cong;
    FIs(0, 0, 0);
    SameResidue(a, 0);
  }

  lemma {:induction false} PowIs(z: int, e: nat)
    ensures F(Primes.Pow(z, e)) == FPow(z, e)
  {
    hide F, FMul, Primes.Times;
    if e == 0 {
      FIs(1, 0, 1);
    } else {
      PowIs(z, e - 1);
      Primes.PowStep(z, e);
      MulIs(z, Primes.Pow(z, e - 1));
      MulCommutes(z, Primes.Pow(z, e - 1));
      MulLeft(Primes.Pow(z, e - 1), z);
      MulCommutes(z, FPow(z, e - 1));
    }
  }

  /** A product is zero only if one of its factors is. */
  lemma NoZeroDivisors(a: int, b: int)
    requires FMul(a, b) == 0
    ensures F(a) == 0 || F(b) == 0
  {
    hide F, FMul, Primes.Cong, Primes.Prime;
    MulIs(a, b);
    Zero(a * b);
    PrimeCertificate.PrimeP();
    Primes.Euclid(P, a, b);
    Zero(a);
    Zero(b);
  }

  /** Euler's criterion: the power (p - 1) / 2 is 1 or -1. */
  lemma Euler(w: int)
    requires F(w) != 0
    ensures FPow(w, (P - 1) / 2) == 1 || FPow(w, (P - 1) / 2) == P - 1
  {
    hide F, FMul, FPow, Primes.Cong, Primes.Prime, Primes.Pow;
    var h := (P - 1) / 2;
    Zero(w);
    PrimeCertificate.PrimeP();
    Primes.Euler(P, w, h);
    PowIs(w, h);
    FIs(1, 0, 1);
    FIs(-1, -1, P - 1);
    SameResidue(Primes.Pow(w, h), 1);
    SameResidue(Primes.Pow(w, h), -1);
  }

  /** The power p - 2 is the inverse of everything but zero. */
  lemma Inverts(z: int)
    requires F(z) != 0
    ensures FMul(z, FPow(z, P - 2)) == 1
  {
    hide F, FMul, Primes.Cong, Primes.Prime, Primes.Pow;
    Zero(z);
    PrimeCertificate.PrimeP();
    Primes.Fermat(P, z);
    PowIs(z, P - 1);
    FIs(1, 0, 1);
    SameResidue(Primes.Pow(z, P - 1), 1);
  }

  /** A factor that is not zero may be cancelled. */
  lemma Cancel(v: int, a: int, b: int)
    requires FMul(v, a) == FMul(v, b) && F(v) != 0
    ensures F(a) == F(b)
  {
    hide F, FMul, Primes.Cong, Primes.Prime;
    MulIs(v, a);
    MulIs(v, b);
    SameResidue(v * a, v * b);
    Zero(v);
    PrimeCertificate.PrimeP();
    Primes.Cancel(P, v, a, b);
    SameResidue(a, b);
  }

  /** There are at most two square roots, x and -x. */
  lemma RootsAgree(x: int, y: int)
    requires FSq(x) == FSq(y)
    ensures F(x) == F(y) || F(x) == FNeg(y)
  {
    hide F, FMul;
    MulIs(x, x);
    MulIs(y, y);
    var k := Quotient(x * x);
    var l := Quotient(y * y);
    assert (x - y) * (x + y) == x * x - y * y;
    MulIs(x - y, x + y);
    Congruent((x - y) * (x + y), 0, k - l);
    FIs(0, 0, 0);
    NoZeroDivisors(x - y, x + y);
    if F(x - y) == 0 {
      var m := Quotient(x - y);
      Congruent(x, y, m);
    } else {
      var m := Quotient(x + y);
      Congruent(x, -y, m);
    }
  }
}
