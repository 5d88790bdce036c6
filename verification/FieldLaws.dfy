/** Equations between residues of integer expressions: replacing equals in a multiple, cancelling, and dividing. */
module FieldLaws {
  import opened Field25519
  import PrimeField

  /** Two expressions have the same residue if they differ by multiples of such differences. */
  lemma Reduce(a: int, b: int, c: int, l: int, r: int)
    requires F(l) == F(r) && a == b + c * (l - r)
    ensures F(a) == F(b)
  {
    hide F;
    var k := Quotient(l);
    var m := Quotient(r);
    assert l - r == (k - m) * P;
    assert c * ((k - m) * P) == (c * (k - m)) * P;
    Congruent(a, b, c * (k - m));
  }

  lemma Reduce2(a: int, b: int, c1: int, l1: int, r1: int, c2: int, l2: int, r2: int)
    requires F(l1) == F(r1) && F(l2) == F(r2) && a == b + c1 * (l1 - r1) + c2 * (l2 - r2)
    ensures F(a) == F(b)
  {
    hide F;
    Reduce(b + c1 * (l1 - r1), b, c1, l1, r1);
    Reduce(a, b + c1 * (l1 - r1), c2, l2, r2);
  }

  lemma Reduce4(a: int, b: int, c1: int, l1: int, r1: int, c2: int, l2: int, r2: int,
                c3: int, l3: int, r3: int, c4: int, l4: int, r4: int)
    requires F(l1) == F(r1) && F(l2) == F(r2) && F(l3) == F(r3) && F(l4) == F(r4)
    requires a == b + c1 * (l1 - r1) + c2 * (l2 - r2) + c3 * (l3 - r3) + c4 * (l4 - r4)
    ensures F(a) == F(b)
  {
    hide F;
    var h := b + c1 * (l1 - r1) + c2 * (l2 - r2);
    Reduce2(h, b, c1, l1, r1, c2, l2, r2);
    Reduce2(a, h, c3, l3, r3, c4, l4, r4);
  }

  lemma Products(a: int, b: int, c: int, d: int)
    requires F(a) == F(b) && F(c) == F(d)
    ensures F(a * c) == F(b * d)
  {
    hide F, FMul;
    MulResidues(a, c);
    MulResidues(b, d);
    MulIs(a, c);
    MulIs(b, d);
  }

  /** The field operations, on what the operands are congruent to. */
  lemma SumIs(a: int, a': int, b: int, b': int)
    requires F(a) == F(a') && F(b) == F(b')
    ensures F(FAdd(a, b)) == F(a' + b') && F(FSub(a, b)) == F(a' - b')
  {
    hide F;
    FIdempotent(a + b);
    FIdempotent(a - b);
    Reduce2(a + b, a' + b', 1, a, a', 1, b, b');
    Reduce2(a - b, a' - b', 1, a, a', -1, b, b');
  }

  lemma ProductIs(a: int, a': int, b: int, b': int)
    requires F(a) == F(a') && F(b) == F(b')
    ensures FMul(a, b) == F(a' * b') && F(FMul(a, b)) == F(a' * b')
  {
    hide F, FMul;
    MulIs(a, b);
    Products(a, a', b, b');
    FIdempotent(a' * b');
  }

  lemma ZeroIs()
    ensures F(0) == 0 && F(1) == 1
  {
  }

  /** A product is zero only if one of its factors is. */
  lemma ZeroProduct(a: int, b: int)
    requires F(a * b) == 0
    ensures F(a) == 0 || F(b) == 0
  {
    hide F, FMul;
    MulIs(a, b);
    PrimeField.NoZeroDivisors(a, b);
  }

  lemma Cancel(v: int, a: int, b: int)
    requires F(v * a) == F(v * b) && F(v) != 0
    ensures F(a) == F(b)
  {
    hide F, FMul;
    MulIs(v, a);
    MulIs(v, b);
    PrimeField.Cancel(v, a, b);
  }

  /** The quotient, as the library computes it: by the power p - 2. */
  ghost function Div(a: int, b: int): (r: int)
    ensures 0 <= r < P
  {
    FMul(a, FPow(b, P - 2))
  }

  lemma DivIs(a: int, b: int)
    requires F(b) != 0
    ensures F(b * Div(a, b)) == F(a)
  {
    hide F, FMul, FPow;
    var e := FPow(b, P - 2);
    PrimeField.Inverts(b);
    MulIs(b, Div(a, b));
    MulIs(a, e);
    MulIs(b, e);
    MulAssociates(b, a, e);
    MulCommutes(b, a);
    MulAssociates(a, b, e);
    MulCommutes(a, 1);
    MulOne(a);
  }
}
