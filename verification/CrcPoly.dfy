/** Polynomials over GF(2) modulo the CRC-32 polynomial, reflected: bit 31 - k of a register is the coefficient of x^k.
    Addition of polynomials is exclusive or. */
module CrcPoly {
  import opened BitVectors

  /** The CRC polynomial, reflected, with x^32 implied. */
  const POLY: bv32 := 0xedb8_8320

  /** The polynomial 1. */
  const ONE: bv32 := 0x8000_0000

  /** Multiplication by x: the shift-register step of the bit-at-a-time CRC. */
  function Step(c: bv32): bv32
  {
    if c & 1 == 1 then (c >> 1) ^ POLY else c >> 1
  }

  /** Multiplication by x^n. */
  function Steps(c: bv32, n: nat): bv32
    decreases n
  {
    if n == 0 then c else Steps(Step(c), n - 1)
  }

  /** x^n modulo the CRC polynomial. */
  function XPow(n: nat): bv32
  {
    Steps(ONE, n)
  }

  /** Whether a has the term that the mask m selects. */
  predicate Has(a: bv32, m: bv32)
  {
    a & m != 0
  }

  /** The term of a that the mask m selects, times b: b or zero. */
  function Term(a: bv32, m: bv32, b: bv32): bv32
  {
    if Has(a, m) then b else 0
  }

  /** The mask of the next higher power of x; zero after the last. */
  function Next(m: bv32): (r: bv32)
    ensures m != 0 ==> r < m
  {
    m >> 1
  }

  /** The terms of a from the mask m on, times b, 2b and so on being x b, x^2 b: b belongs to the term at m. */
  function MulFrom(a: bv32, m: bv32, b: bv32): bv32
    decreases m
  {
    if m == 0 then 0 else Add(Term(a, m, b), MulFrom(a, Next(m), Step(b)))
  }

  /** The product of two polynomials modulo the CRC polynomial: the sum of x^k b over the terms x^k of a. */
  function Mul(a: bv32, b: bv32): bv32
  {
    MulFrom(a, ONE, b)
  }

  // ---- Linearity ----

  lemma ShiftXor(c: bv32, d: bv32)
    ensures (c ^ d) >> 1 == (c >> 1) ^ (d >> 1)
  {
  }

  lemma LowXor(c: bv32, d: bv32)
    ensures (c ^ d) & 1 == (c & 1) ^ (d & 1)
    ensures c & 1 == 0 || c & 1 == 1
    ensures d & 1 == 0 || d & 1 == 1
  {
  }

  lemma XorPoly(s: bv32, t: bv32)
    ensures (s ^ POLY) ^ (t ^ POLY) == s ^ t
    ensures (s ^ t) ^ POLY == (s ^ POLY) ^ t == s ^ (t ^ POLY)
  {
  }

  lemma StepXor(c: bv32, d: bv32)
    ensures Step(c ^ d) == Step(c) ^ Step(d)
  {
    ShiftXor(c, d);
    LowXor(c, d);
    XorPoly(c >> 1, d >> 1);
  }

  lemma StepAdd(c: bv32, d: bv32)
    ensures Step(Add(c, d)) == Add(Step(c), Step(d))
  {
    hide Step;
    StepXor(c, d);
  }

  lemma StepZero()
    ensures Step(0) == 0
  {
  }

  lemma {:induction false} StepsAdd(c: bv32, d: bv32, n: nat)
    ensures Steps(Add(c, d), n) == Add(Steps(c, n), Steps(d, n))
    decreases n
  {
    hide Step, Add;
    if n == 0 {
    } else {
      StepAdd(c, d);
      StepsAdd(Step(c), Step(d), n - 1);
    }
  }

  lemma {:induction false} StepsZero(n: nat)
    ensures Steps(0, n) == 0
  {
    hide Step;
    if n == 0 {
    } else {
      StepZero();
      StepsZero(n - 1);
    }
  }

  lemma {:induction false} StepsPlus(c: bv32, m: nat, n: nat)
    ensures Steps(c, m + n) == Steps(Steps(c, m), n)
    decreases m
  {
    hide Step;
    if m == 0 {
    } else {
      StepsPlus(Step(c), m - 1, n);
    }
  }

  /** A step can be undone, so powers of x are never zero. */
  lemma StepInjective(c: bv32)
    requires Step(c) == 0
    ensures c == 0
  {
  }

  lemma {:induction false} StepsNonzero(c: bv32, n: nat)
    requires c != 0
    ensures Steps(c, n) != 0
    decreases n
  {
    hide Step;
    if n == 0 {
    } else {
      if Step(c) == 0 {
        StepInjective(c);
      }
      StepsNonzero(Step(c), n - 1);
    }
  }

  lemma SingleNext(m: bv32)
    requires Single(m)
    ensures Next(m) == 0 || Single(Next(m))
  {
  }

  lemma TermLaws(a: bv32, m: bv32, b: bv32, b': bv32)
    ensures Term(a, m, Add(b, b')) == Add(Term(a, m, b), Term(a, m, b'))
    ensures Term(a, m, Step(b)) == Step(Term(a, m, b))
  {
    hide Step, Add;
    AddLaws(0, 0, 0);
    StepZero();
  }

  lemma {:induction false} MulFromRight(a: bv32, m: bv32, b: bv32, b': bv32)
    ensures MulFrom(a, m, Add(b, b')) == Add(MulFrom(a, m, b), MulFrom(a, m, b'))
    decreases m
  {
    hide Step, Add, Term, Next, Single;
    AddLaws(0, 0, 0);
    if m == 0 {
    } else {
      StepAdd(b, b');
      MulFromRight(a, Next(m), Step(b), Step(b'));
      TermLaws(a, m, b, b');
      AddMiddle(Term(a, m, b), MulFrom(a, Next(m), Step(b)), Term(a, m, b'), MulFrom(a, Next(m), Step(b')));
    }
  }

  lemma {:induction false} MulFromStep(a: bv32, m: bv32, b: bv32)
    ensures MulFrom(a, m, Step(b)) == Step(MulFrom(a, m, b))
    decreases m
  {
    hide Step, Add, Term, Next, Single;
    StepZero();
    if m == 0 {
    } else {
      MulFromStep(a, Next(m), Step(b));
      TermLaws(a, m, b, b);
      StepAdd(Term(a, m, b), MulFrom(a, Next(m), Step(b)));
    }
  }

  /** Multiplication commutes with multiplication by x^n in the second factor. */
  lemma {:induction false} MulSteps(a: bv32, b: bv32, n: nat)
    ensures Mul(a, Steps(b, n)) == Steps(Mul(a, b), n)
    decreases n
  {
    hide Step, MulFrom;
    if n == 0 {
    } else {
      MulFromStep(a, ONE, b);
      MulSteps(a, Step(b), n - 1);
    }
  }

  // ---- One, powers of x, and the commutative laws ----

  lemma LastMask(a: bv32)
    ensures a & (1 | (1 - 1)) == if a & 1 != 0 then 1 else 0
  {
  }

  lemma HigherMask(m: bv32)
    requires m != 0 && m & (m - 1) == 0 && m != 1
    ensures m & 1 == 0 && m >> 1 != 0 && (m >> 1) | ((m >> 1) - 1) == m - 1
  {
  }

  lemma SplitMask(a: bv32, m: bv32)
    requires m & (m - 1) == 0
    ensures a & (m | (m - 1)) == (a & m) ^ (a & (m - 1))
  {
  }

  lemma OneBit(a: bv32, m: bv32)
    requires m != 0 && m & (m - 1) == 0
    ensures a & m == 0 || a & m == m
  {
  }

  /** The bits of a that the mask m and the masks after it select. */
  function Below(a: bv32, m: bv32): bv32
  {
    a & (m | (m - 1))
  }

  lemma LastBits(a: bv32)
    ensures Next(1) == 0 && Below(a, 1) == Term(a, 1, 1)
  {
    LastMask(a);
  }

  lemma TermSelf(a: bv32, m: bv32)
    requires Single(m)
    ensures Term(a, m, m) == a & m
  {
    OneBit(a, m);
  }

  lemma BelowSplit(a: bv32, m: bv32)
    requires Single(m)
    ensures Below(a, m) == Add(a & m, a & (m - 1))
  {
    SplitMask(a, m);
  }

  lemma BelowNext(a: bv32, m: bv32)
    requires Single(m) && m != 1
    ensures m != 0 && Step(m) == Next(m) != 0 && Below(a, Next(m)) == a & (m - 1)
  {
    HigherMask(m);
  }

  lemma HigherBits(a: bv32, m: bv32)
    requires Single(m) && m != 1
    ensures m != 0 && Step(m) == Next(m) != 0 && Below(a, m) == Add(Term(a, m, m), Below(a, Next(m)))
  {
    hide Single, Add, Step, Next, Term, Below;
    TermSelf(a, m);
    BelowSplit(a, m);
    BelowNext(a, m);
  }

  /** Powers of x below x^32 pick out the bits of a. */
  lemma {:induction false} MulFromMask(a: bv32, m: bv32)
    requires Single(m)
    ensures MulFrom(a, m, m) == Below(a, m)
    decreases m
  {
    hide Step, Add, Term, Single, Next, Below;
    SingleNext(m);
    if m == 1 {
      LastBits(a);
      AddLaws(Term(a, 1, 1), 0, 0);
    } else {
      HigherBits(a, m);
      MulFromMask(a, Next(m));
    }
  }

  lemma MulOne(a: bv32)
    ensures Mul(a, ONE) == a
  {
    MulFromMask(a, ONE);
    AllBits(a);
  }

  lemma AllBits(a: bv32)
    ensures a & (0x8000_0000 | (0x8000_0000 - 1)) == a
  {
  }

  /** Multiplying by x^n is n steps. */
  lemma MulXPow(a: bv32, n: nat)
    ensures Mul(a, XPow(n)) == Steps(a, n)
  {
    MulSteps(a, ONE, n);
    MulOne(a);
  }

  lemma MulTerm(a: bv32, m: bv32, b: bv32, n: nat)
    ensures Mul(b, Term(a, m, XPow(n))) == Term(a, m, Steps(b, n))
  {
    hide Mul, Step, Has;
    MulXPow(b, n);
    MulZero(b);
  }

  /** A product computed term by term from the other side. */
  lemma {:induction false} MulFromCommutes(a: bv32, m: bv32, b: bv32, n: nat)
    requires m == 0 || Single(m)
    ensures MulFrom(a, m, Steps(b, n)) == Mul(b, MulFrom(a, m, XPow(n)))
    decreases m
  {
    hide Step, Add, Term, Next, Single, Mul;
    MulZero(b);
    if m == 0 {
    } else {
      SingleNext(m);
      StepsPlus(b, n, 1);
      StepsPlus(ONE, n, 1);
      MulFromCommutes(a, Next(m), b, n + 1);
      MulTerm(a, m, b, n);
      MulRight(b, Term(a, m, XPow(n)), MulFrom(a, Next(m), XPow(n + 1)));
    }
  }

  lemma MulRight(a: bv32, b: bv32, b': bv32)
    ensures Mul(a, Add(b, b')) == Add(Mul(a, b), Mul(a, b'))
  {
    MulFromRight(a, ONE, b, b');
  }

  lemma MulZero(a: bv32)
    ensures Mul(a, 0) == 0
  {
    hide Add, MulFrom;
    MulRight(a, 0, 0);
    AddLaws(0, 0, 0);
    AddLaws(Mul(a, 0), 0, 0);
  }

  lemma MulCommutes(a: bv32, b: bv32)
    ensures Mul(a, b) == Mul(b, a)
  {
    hide MulFrom, Step;
    MulFromCommutes(a, ONE, b, 0);
    MulOne(a);
  }

  /** Powers of x add their exponents. */
  lemma XPowAdd(m: nat, n: nat)
    ensures Mul(XPow(m), XPow(n)) == XPow(m + n)
  {
    hide MulFrom, Step;
    MulXPow(XPow(m), n);
    StepsPlus(ONE, m, n);
  }

  // ---- When a product is finished ----

  predicate NoneBelow(a: bv32, m: bv32)
  {
    a & (m - 1) == 0
  }

  lemma LowerBits(a: bv32, m: bv32)
    requires m != 0 && m & (m - 1) == 0
    ensures a & (m - 1) != 0 ==> m != 1
    ensures a & (m | (m - 1)) != 0 && a & m == 0 ==> a & (m - 1) != 0
    ensures a & (m | (m - 1)) == 0 ==> a & m == 0 && a & (m - 1) == 0
  {
  }

  /** What is left of a after the term at m has been dealt with. */
  lemma LeftOver(a: bv32, m: bv32)
    requires Single(m)
    ensures !NoneBelow(a, m) ==> m != 1 && Single(Next(m)) && Below(a, Next(m)) != 0
    ensures Below(a, m) != 0 && !Has(a, m) ==> !NoneBelow(a, m)
    ensures NoneBelow(a, m) ==> Next(m) == 0 || (Single(Next(m)) && Below(a, Next(m)) == 0)
    ensures Below(a, m) == 0 ==> !Has(a, m) && NoneBelow(a, m)
  {
    LowerBits(a, m);
    SingleNext(m);
    if m != 1 {
      BelowNext(a, m);
    }
  }

  lemma {:induction false} MulFromNone(a: bv32, m: bv32, b: bv32)
    requires m == 0 || (Single(m) && Below(a, m) == 0)
    ensures MulFrom(a, m, b) == 0
    decreases m
  {
    hide Add, Step, Next, Has, Single, Below, NoneBelow;
    if m == 0 {
    } else {
      LeftOver(a, m);
      MulFromNone(a, Next(m), Step(b));
      AddLaws(0, 0, 0);
    }
  }

  /** One turn of the product loop. */
  lemma MulTurn(a: bv32, m: bv32, x: bv32, p: bv32)
    requires Single(m) && m != 0
    ensures Has(a, m) ==> Add(p, MulFrom(a, m, x)) == Add(Add(p, x), MulFrom(a, Next(m), Step(x)))
    ensures !Has(a, m) ==> Add(p, MulFrom(a, m, x)) == Add(p, MulFrom(a, Next(m), Step(x)))
    ensures Has(a, m) && NoneBelow(a, m) ==> Add(p, MulFrom(a, m, x)) == Add(p, x)
  {
    hide Add, Step, Next, Has, Single, NoneBelow, Below;
    var rest := MulFrom(a, Next(m), Step(x));
    AddLaws(p, x, rest);
    AddLaws(rest, 0, 0);
    if NoneBelow(a, m) {
      LeftOver(a, m);
      MulFromNone(a, Next(m), Step(x));
      AddLaws(Add(p, x), 0, 0);
    }
  }

  /** The mask m is on or above the last term of a. */
  predicate Open(a: bv32, m: bv32)
  {
    Single(m) && m != 0 && Below(a, m) != 0
  }

  lemma OpenStart(a: bv32)
    requires a != 0
    ensures Open(a, ONE)
  {
    AllBits(a);
  }

  lemma MulStart(a: bv32, b: bv32)
    ensures Add(0, MulFrom(a, ONE, b)) == Mul(a, b)
  {
    hide MulFrom, Add;
    AddLaws(Mul(a, b), 0, 0);
  }

  lemma OpenTurn(a: bv32, m: bv32, x: bv32, p: bv32)
    requires Open(a, m)
    ensures m != 0
    ensures !(Has(a, m) && NoneBelow(a, m)) ==> Open(a, Next(m))
    ensures Has(a, m) ==> Add(p, MulFrom(a, m, x)) == Add(Add(p, x), MulFrom(a, Next(m), Step(x)))
    ensures !Has(a, m) ==> Add(p, MulFrom(a, m, x)) == Add(p, MulFrom(a, Next(m), Step(x)))
    ensures Has(a, m) && NoneBelow(a, m) ==> Add(p, MulFrom(a, m, x)) == Add(p, x)
  {
    hide Add, Step, Next, Has, Single, NoneBelow, Below, MulFrom;
    LeftOver(a, m);
    MulTurn(a, m, x, p);
    SingleNonzero(Next(m));
  }

  lemma SingleNonzero(m: bv32)
    ensures Single(m) ==> m != 0
  {
  }

  /** How many turns the mask m has left. */
  ghost function Turns(m: bv32): nat
    decreases m
  {
    if m == 0 then 0 else 1 + Turns(Next(m))
  }

  lemma TurnsNext(m: bv32)
    requires m != 0
    ensures Turns(m) > Turns(Next(m))
  {
    hide Next;
  }

  /** multmodp: the product of a and b, for any a but zero (the loop stops at the last term of a). */
  method Multmodp(a: bv32, b: bv32) returns (p: bv32)
    requires a != 0
    ensures p == Mul(a, b)
  {
    hide *;
    var m, x := ONE, b;
    p := 0;
    OpenStart(a);
    MulStart(a, b);
    while true
      invariant Open(a, m)
      invariant Add(p, MulFrom(a, m, x)) == Mul(a, b)
      decreases Turns(m)
    {
      OpenTurn(a, m, x, p);
      TurnsNext(m);
      if Has(a, m) {
        p := Add(p, x);
        if NoneBelow(a, m) {
          return;
        }
      }
      m := Next(m);
      x := Step(x);
    }
  }
}
