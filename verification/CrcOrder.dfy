/** The order of x: x^(2^32) = x modulo the CRC polynomial, by 32 squarings. */
module CrcOrder {
  import opened Bits
  import opened BitVectors
  import opened CrcPoly

  /** x^(2^n) for n below 32, and x again for n = 32. */
  const SQUARES: seq<bv32> :=
    [ 0x4000_0000, 0x2000_0000, 0x0800_0000, 0x0080_0000, 0x0000_8000, 0xedb8_8320, 0xb1e6_b092, 0xa06a_2517,
      0xed62_7dae, 0x88d1_4467, 0xd7bb_fe6a, 0xec44_7f11, 0x8e7e_a170, 0x6427_800e, 0x4d47_bae0, 0x09fe_548f,
      0x8385_2d0f, 0x3036_2f1a, 0x7b5a_9cc3, 0x31fe_c169, 0x9fec_022a, 0x6c8d_edc4, 0x15d6_874d, 0x5fde_7a4e,
      0xbad9_0e37, 0x2e4e_5eef, 0x4eab_a214, 0xa8a4_72c0, 0x429a_969e, 0x148d_302a, 0xc40b_a6d0, 0xc4e2_2c3c,
      0x4000_0000 ]

  // ---- A product unrolled so that it can be evaluated ----

  function Step4(b: bv32): bv32
  {
    Step(Step(Step(Step(b))))
  }

  /** Four terms of a product. */
  function Part(a: bv32, m: bv32, b: bv32): bv32
  {
    Term(a, m, b) ^ Term(a, m >> 1, Step(b)) ^ Term(a, m >> 2, Step(Step(b))) ^ Term(a, m >> 3, Step(Step(Step(b))))
  }

  function Unrolled(a: bv32, b: bv32): bv32
  {
    var b1 := Step4(b);
    var b2 := Step4(b1);
    var b3 := Step4(b2);
    var b4 := Step4(b3);
    var b5 := Step4(b4);
    var b6 := Step4(b5);
    var b7 := Step4(b6);
    Add(Quad(Part(a, 0x8000_0000, b), Part(a, 0x0800_0000, b1), Part(a, 0x0080_0000, b2), Part(a, 0x0008_0000, b3)),
        Quad(Part(a, 0x0000_8000, b4), Part(a, 0x0000_0800, b5), Part(a, 0x0000_0080, b6), Part(a, 0x0000_0008, b7)))
  }

  /** A sum of four. */
  function Quad(p: bv32, q: bv32, r: bv32, s: bv32): bv32
  {
    p ^ q ^ r ^ s
  }

  lemma NestedIs(p: bv32, q: bv32, r: bv32, s: bv32, t: bv32)
    ensures Add(p, Add(q, Add(r, Add(s, t)))) == p ^ (q ^ (r ^ (s ^ t)))
  {
  }

  lemma QuadIs(p: bv32, q: bv32, r: bv32, s: bv32, t: bv32)
    ensures Add(Quad(p, q, r, s), t) == (p ^ q ^ r ^ s) ^ t
  {
  }

  lemma XorFour(p: bv32, q: bv32, r: bv32, s: bv32, t: bv32)
    ensures p ^ (q ^ (r ^ (s ^ t))) == (p ^ q ^ r ^ s) ^ t
  {
  }

  lemma AddFour(p: bv32, q: bv32, r: bv32, s: bv32, t: bv32)
    ensures Add(p, Add(q, Add(r, Add(s, t)))) == Add(Quad(p, q, r, s), t)
  {
    hide *;
    NestedIs(p, q, r, s, t);
    QuadIs(p, q, r, s, t);
    XorFour(p, q, r, s, t);
  }

  lemma MaskShifts(m: bv32)
    ensures (m >> 1) >> 1 == m >> 2 && (m >> 2) >> 1 == m >> 3 && (m >> 3) >> 1 == m >> 4
    ensures m >= 8 ==> m != 0 && m >> 1 != 0 && m >> 2 != 0 && m >> 3 != 0
  {
  }

  lemma NextMasks(m: bv32)
    ensures Next(m) == m >> 1 && Next(m >> 1) == m >> 2 && Next(m >> 2) == m >> 3 && Next(m >> 3) == m >> 4
  {
    MaskShifts(m);
  }

  function Next4(m: bv32): bv32
  {
    Next(Next(Next(Next(m))))
  }

  /** Four turns of the product, as a nested sum. */
  lemma FourTurns(a: bv32, m: bv32, b: bv32)
    requires m != 0 && Next(m) != 0 && Next(Next(m)) != 0 && Next(Next(Next(m))) != 0
    ensures MulFrom(a, m, b) ==
            Add(Term(a, m, b), Add(Term(a, Next(m), Step(b)), Add(Term(a, Next(Next(m)), Step(Step(b))),
            Add(Term(a, Next(Next(Next(m))), Step(Step(Step(b)))), MulFrom(a, Next4(m), Step4(b))))))
  {
    hide Step, Term, Add, Next;
    var m1, m2, m3 := Next(m), Next(Next(m)), Next(Next(Next(m)));
    var c1, c2, c3 := Step(b), Step(Step(b)), Step(Step(Step(b)));
    assert MulFrom(a, m, b) == Add(Term(a, m, b), MulFrom(a, m1, c1));
    assert MulFrom(a, m1, c1) == Add(Term(a, m1, c1), MulFrom(a, m2, c2));
    assert MulFrom(a, m2, c2) == Add(Term(a, m2, c2), MulFrom(a, m3, c3));
    assert MulFrom(a, m3, c3) == Add(Term(a, m3, c3), MulFrom(a, Next4(m), Step4(b)));
  }

  lemma FourTerms(a: bv32, m: bv32, b: bv32)
    requires m >= 8
    ensures MulFrom(a, m, b) == Add(Part(a, m, b), MulFrom(a, Next4(m), Step4(b)))
  {
    hide Step, Term, Add, Next, MulFrom, Next4, Step4, Part, Quad;
    PartIs(a, m, b);
    MaskShifts(m);
    NextMasks(m);
    FourTurns(a, m, b);
    AddFour(Term(a, m, b), Term(a, m >> 1, Step(b)), Term(a, m >> 2, Step(Step(b))),
            Term(a, m >> 3, Step(Step(Step(b)))),
            MulFrom(a, Next4(m), Step4(b)));
  }

  lemma Masks()
    ensures Next4(0x8000_0000) == 0x0800_0000 && Next4(0x0800_0000) == 0x0080_0000
    ensures Next4(0x0080_0000) == 0x0008_0000 && Next4(0x0008_0000) == 0x0000_8000
    ensures Next4(0x0000_8000) == 0x0000_0800 && Next4(0x0000_0800) == 0x0000_0080
    ensures Next4(0x0000_0080) == 0x0000_0008 && Next4(0x0000_0008) == 0
  {
  }

  lemma PartIs(a: bv32, m: bv32, b: bv32)
    ensures Part(a, m, b) ==
            Quad(Term(a, m, b), Term(a, m >> 1, Step(b)), Term(a, m >> 2, Step(Step(b))),
                 Term(a, m >> 3, Step(Step(Step(b)))))
  {
    hide Term, Step;
  }

  /** Sixteen turns of the product. */
  lemma SixteenTerms(a: bv32, m: bv32, b: bv32)
    requires m >= 0x8_0000 || m == 0x8000
    ensures var m1, b1 := Next4(m), Step4(b);
            var m2, b2 := Next4(m1), Step4(b1);
            var m3, b3 := Next4(m2), Step4(b2);
            MulFrom(a, m, b) == Add(Quad(Part(a, m, b), Part(a, m1, b1), Part(a, m2, b2), Part(a, m3, b3)),
                                    MulFrom(a, Next4(m3), Step4(b3)))
  {
    hide Step4, Part, Add, Quad, MulFrom, Next4, Next;
    var m1, b1 := Next4(m), Step4(b);
    var m2, b2 := Next4(m1), Step4(b1);
    var m3, b3 := Next4(m2), Step4(b2);
    HighMasks(m);
    FourTerms(a, m, b);
    FourTerms(a, m1, b1);
    FourTerms(a, m2, b2);
    FourTerms(a, m3, b3);
    AddFour(Part(a, m, b), Part(a, m1, b1), Part(a, m2, b2), Part(a, m3, b3), MulFrom(a, Next4(m3), Step4(b3)));
  }

  lemma HighMasks(m: bv32)
    requires m >= 0x8000
    ensures m >= 8 && Next4(m) >= 8 && Next4(Next4(m)) >= 8 && Next4(Next4(Next4(m))) >= 8
  {
  }

  /** The unrolled product is the product. */
  lemma MulUnrolled(a: bv32, b: bv32)
    ensures Mul(a, b) == Unrolled(a, b)
  {
    hide Step4, Part, Next4, Add, Quad, Term, Step, Next;
    Masks();
    var b4 := Step4(Step4(Step4(Step4(b))));
    SixteenTerms(a, 0x8000_0000, b);
    SixteenTerms(a, 0x0000_8000, b4);
    AddLaws(MulFrom(a, 0x8000, b4), 0, 0);
    AddLaws(Quad(Part(a, 0x0000_8000, b4), Part(a, 0x0000_0800, Step4(b4)), Part(a, 0x0000_0080, Step4(Step4(b4))),
            Part(a, 0x0000_0008, Step4(Step4(Step4(b4))))), 0, 0);
  }

  // ---- The squarings ----

  lemma SquaresA(c: bv32, d: bv32)
    requires (c == 0x4000_0000 && d == 0x2000_0000) ||
             (c == 0x2000_0000 && d == 0x0800_0000) ||
             (c == 0x0800_0000 && d == 0x0080_0000) ||
             (c == 0x0080_0000 && d == 0x0000_8000)
    ensures Unrolled(c, c) == d
  {
  }

  lemma SquaresB(c: bv32, d: bv32)
    requires (c == 0x0000_8000 && d == 0xedb8_8320) ||
             (c == 0xedb8_8320 && d == 0xb1e6_b092) ||
             (c == 0xb1e6_b092 && d == 0xa06a_2517) ||
             (c == 0xa06a_2517 && d == 0xed62_7dae)
    ensures Unrolled(c, c) == d
  {
  }

  lemma SquaresC(c: bv32, d: bv32)
    requires (c == 0xed62_7dae && d == 0x88d1_4467) ||
             (c == 0x88d1_4467 && d == 0xd7bb_fe6a) ||
             (c == 0xd7bb_fe6a && d == 0xec44_7f11) ||
             (c == 0xec44_7f11 && d == 0x8e7e_a170)
    ensures Unrolled(c, c) == d
  {
  }

  lemma SquaresD(c: bv32, d: bv32)
    requires (c == 0x8e7e_a170 && d == 0x6427_800e) ||
             (c == 0x6427_800e && d == 0x4d47_bae0) ||
             (c == 0x4d47_bae0 && d == 0x09fe_548f) ||
             (c == 0x09fe_548f && d == 0x8385_2d0f)
    ensures Unrolled(c, c) == d
  {
  }

  lemma SquaresE(c: bv32, d: bv32)
    requires (c == 0x8385_2d0f && d == 0x3036_2f1a) ||
             (c == 0x3036_2f1a && d == 0x7b5a_9cc3) ||
             (c == 0x7b5a_9cc3 && d == 0x31fe_c169) ||
             (c == 0x31fe_c169 && d == 0x9fec_022a)
    ensures Unrolled(c, c) == d
  {
  }

  lemma SquaresF(c: bv32, d: bv32)
    requires (c == 0x9fec_022a && d == 0x6c8d_edc4) ||
             (c == 0x6c8d_edc4 && d == 0x15d6_874d) ||
             (c == 0x15d6_874d && d == 0x5fde_7a4e) ||
             (c == 0x5fde_7a4e && d == 0xbad9_0e37)
    ensures Unrolled(c, c) == d
  {
  }

  lemma SquaresG(c: bv32, d: bv32)
    requires (c == 0xbad9_0e37 && d == 0x2e4e_5eef) ||
             (c == 0x2e4e_5eef && d == 0x4eab_a214) ||
             (c == 0x4eab_a214 && d == 0xa8a4_72c0) ||
             (c == 0xa8a4_72c0 && d == 0x429a_969e)
    ensures Unrolled(c, c) == d
  {
  }

  lemma SquaresH(c: bv32, d: bv32)
    requires (c == 0x429a_969e && d == 0x148d_302a) ||
             (c == 0x148d_302a && d == 0xc40b_a6d0) ||
             (c == 0xc40b_a6d0 && d == 0xc4e2_2c3c) ||
             (c == 0xc4e2_2c3c && d == 0x4000_0000)
    ensures Unrolled(c, c) == d
  {
  }

  lemma FirstSquarings(c: bv32, d: bv32, n: nat)
    requires 0 <= n < 8 && c == SQUARES[n] && d == SQUARES[n + 1]
    ensures Unrolled(c, c) == d
  {
    hide Unrolled;
    if n < 4 { SquaresA(c, d); } else { SquaresB(c, d); }
  }

  lemma SecondSquarings(c: bv32, d: bv32, n: nat)
    requires 8 <= n < 16 && c == SQUARES[n] && d == SQUARES[n + 1]
    ensures Unrolled(c, c) == d
  {
    hide Unrolled;
    if n < 12 { SquaresC(c, d); } else { SquaresD(c, d); }
  }

  lemma ThirdSquarings(c: bv32, d: bv32, n: nat)
    requires 16 <= n < 24 && c == SQUARES[n] && d == SQUARES[n + 1]
    ensures Unrolled(c, c) == d
  {
    hide Unrolled;
    if n < 20 { SquaresE(c, d); } else { SquaresF(c, d); }
  }

  lemma FourthSquarings(c: bv32, d: bv32, n: nat)
    requires 24 <= n < 32 && c == SQUARES[n] && d == SQUARES[n + 1]
    ensures Unrolled(c, c) == d
  {
    hide Unrolled;
    if n < 28 { SquaresG(c, d); } else { SquaresH(c, d); }
  }

  lemma Squaring(n: nat)
    requires n < 32
    ensures Mul(SQUARES[n], SQUARES[n]) == SQUARES[n + 1]
  {
    hide Unrolled, Mul;
    MulUnrolled(SQUARES[n], SQUARES[n]);
    var c, d := SQUARES[n], SQUARES[n + 1];
    if n < 8 {
      FirstSquarings(c, d, n);
    } else if n < 16 {
      SecondSquarings(c, d, n);
    } else if n < 24 {
      ThirdSquarings(c, d, n);
    } else {
      FourthSquarings(c, d, n);
    }
  }

  lemma {:induction false} SquaresArePowers(n: nat)
    requires n <= 32
    ensures XPow(Pow2(n)) == SQUARES[n]
  {
    hide Mul, Step, XPow, Pow2, SQUARES;
    if n == 0 {
      FirstPower();
    } else {
      SquaresArePowers(n - 1);
      Squaring(n - 1);
      XPowAdd(Pow2(n - 1), Pow2(n - 1));
      PowStep(n - 1);
    }
  }

  lemma FirstPower()
    ensures XPow(Pow2(0)) == SQUARES[0]
  {
    assert Pow2(0) == 1;
    assert Steps(ONE, 1) == Steps(Step(ONE), 0);
  }

  /** Raising to the power 2^32 changes nothing. */
  lemma {:induction false} Periodic(a: nat)
    ensures XPow(a * Pow2(32)) == XPow(a)
  {
    hide Mul, Step, Pow2;
    if a == 0 {
      assert a * Pow2(32) == 0;
    } else {
      Periodic(a - 1);
      SquaresArePowers(32);
      SquaresArePowers(0);
      assert Pow2(0) == 1 by { PowZero(); }
      XPowAdd((a - 1) * Pow2(32), Pow2(32));
      XPowAdd(a - 1, 1);
      assert a * Pow2(32) == (a - 1) * Pow2(32) + Pow2(32);
    }
  }

  /** The exponent 2^k only matters modulo 32 in k. */
  lemma {:induction false} Wraps(k: nat)
    ensures XPow(Pow2(k)) == XPow(Pow2(k % 32))
  {
    hide Mul, Step, Pow2, XPow;
    if k >= 32 {
      Wraps(k - 32);
      Pow2Add(k - 32, 32);
      Periodic(Pow2(k - 32));
    }
  }
}
