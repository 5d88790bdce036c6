/** The radix-2^51 routines as the library runs them: limb arrays written in place, with the
    destination allowed to alias the operands. */
module Fe51Ops {
  import opened MachineInts
  import opened Field25519
  import opened Fe51
  import Bits

  /** A 64x64 to 128-bit product; the bound is what the accumulations below rely on. */
  function Wide(a: int, b: int): (r: int)
    ensures 0 <= a < T55 && 0 <= b < T59 ==> 0 <= r < T114
  {
    if 0 <= a < T55 && 0 <= b < T59 then MulBelow(a, b, T55 - 1, T59 - 1); a * b else a * b
  }

  lemma WideIs(a: int, b: int)
    ensures Wide(a, b) == a * b
  {
  }

  /** Scaling one factor beforehand scales the product. */
  lemma WideScaled(a: int, b: int, k: int)
    ensures Wide(a, b * k) == k * (a * b) && Wide(a * k, b) == k * (a * b)
  {
  }

  lemma WideDoubled(a: int, b: int)
    ensures Wide(a * 2, b * 19) == 38 * (a * b)
  {
    WideScaled(a, b * 19, 2);
    WideScaled(a, b, 19);
    WideIs(a, b * 19);
  }

  /** The accumulation order of Mul yields the column sums. */
  lemma MulAccumulates(f: seq<int>, g: seq<int>)
    requires |f| == 5 && |g| == 5
    ensures Columns(f, g) ==
            [ Wide(f[0], g[0]) + Wide(f[1], g[4] * 19) + Wide(f[2], g[3] * 19)
                + Wide(f[3], g[2] * 19) + Wide(f[4], g[1] * 19),
              Wide(f[0], g[1]) + Wide(f[1], g[0]) + Wide(f[2], g[4] * 19)
                + Wide(f[3], g[3] * 19) + Wide(f[4], g[2] * 19),
              Wide(f[0], g[2]) + Wide(f[1], g[1]) + Wide(f[2], g[0]) + Wide(f[3], g[4] * 19) + Wide(f[4], g[3] * 19),
              Wide(f[0], g[3]) + Wide(f[1], g[2]) + Wide(f[2], g[1]) + Wide(f[3], g[0]) + Wide(f[4], g[4] * 19),
              Wide(f[0], g[4]) + Wide(f[1], g[3]) + Wide(f[2], g[2]) + Wide(f[3], g[1]) + Wide(f[4], g[0]) ]
  {
    hide Wide;
    forall i, j | 0 <= i < 5 && 0 <= j < 5
      ensures Wide(f[i], g[j]) == f[i] * g[j] && Wide(f[i], g[j] * 19) == 19 * (f[i] * g[j])
    {
      WideIs(f[i], g[j]);
      WideScaled(f[i], g[j], 19);
    }
  }

  lemma ColumnsOfSquare(f: seq<int>)
    requires |f| == 5
    ensures Columns(f, f) ==
            [ Wide(f[0], f[0]) + 38 * (f[1] * f[4]) + 38 * (f[2] * f[3]),
              2 * (f[0] * f[1]) + 19 * (f[3] * f[3]) + 38 * (f[2] * f[4]),
              2 * (f[0] * f[2]) + Wide(f[1], f[1]) + 38 * (f[3] * f[4]),
              2 * (f[0] * f[3]) + 19 * (f[4] * f[4]) + 2 * (f[1] * f[2]),
              2 * (f[0] * f[4]) + 2 * (f[1] * f[3]) + Wide(f[2], f[2]) ]
  {
    hide Wide;
    WideIs(f[0], f[0]); WideIs(f[1], f[1]); WideIs(f[2], f[2]);
  }

  /** The accumulation order of Sq yields the column sums of the square. */
  lemma SqAccumulates(f: seq<int>)
    requires |f| == 5
    ensures Columns(f, f) ==
            [ Wide(f[0], f[0]) + Wide(f[1] * 2, f[4] * 19) + Wide(f[2] * 2, f[3] * 19),
              Wide(f[0] * 2, f[1]) + Wide(f[3], f[3] * 19) + Wide(f[2] * 2, f[4] * 19),
              Wide(f[0] * 2, f[2]) + Wide(f[1], f[1]) + Wide(f[3] * 2, f[4] * 19),
              Wide(f[0] * 2, f[3]) + Wide(f[4], f[4] * 19) + Wide(f[1] * 2, f[2]),
              Wide(f[0] * 2, f[4]) + Wide(f[1] * 2, f[3]) + Wide(f[2], f[2]) ]
  {
    hide Wide, Columns;
    ColumnsOfSquare(f);
    WideScaled(f[0], f[1], 2); WideScaled(f[0], f[2], 2); WideScaled(f[0], f[3], 2); WideScaled(f[0], f[4], 2);
    WideScaled(f[1], f[2], 2); WideScaled(f[1], f[3], 2);
    WideScaled(f[3], f[3], 19); WideScaled(f[4], f[4], 19);
    WideDoubled(f[1], f[4]); WideDoubled(f[2], f[3]); WideDoubled(f[2], f[4]); WideDoubled(f[3], f[4]);
  }

  /** Limb-wise sums, differences and multiples have the corresponding field values. */
  lemma LimbwiseAdd(h: seq<int>, f: seq<int>, g: seq<int>)
    requires |h| == 5 && |f| == 5 && |g| == 5
    requires forall i :: 0 <= i < 5 ==> h[i] == f[i] + g[i]
    ensures Fval(h) == FAdd(Fval(f), Fval(g))
  {
    assert Val(h) == Val(f) + Val(g);
    AddResidues(Val(f), Val(g));
  }

  lemma LimbwiseSub(h: seq<int>, f: seq<int>, g: seq<int>)
    requires |h| == 5 && |f| == 5 && |g| == 5
    requires h[0] == f[0] + 0xfffffffffffda - g[0]
    requires forall i :: 1 <= i < 5 ==> h[i] == f[i] + 0xffffffffffffe - g[i]
    ensures Fval(h) == FSub(Fval(f), Fval(g))
  {
    Congruent(Val(h), Val(f) - Val(g), 2);
    SubResidues(Val(f), Val(g));
  }

  lemma LimbwiseScale(h: seq<int>, f: seq<int>)
    requires |h| == 5 && |f| == 5
    requires forall i :: 0 <= i < 5 ==> h[i] == f[i] * 121666
    ensures F(Val(h)) == FMul(121666, Fval(f))
  {
    hide FMul;
    RowValue(121666, f);
    MulLeft(Val(f), 121666);
    MulIs(Val(f), 121666);
    MulCommutes(Fval(f), 121666);
  }

  /** The lazy carry chain that ends every product. */
  method CarryChain(c0: u128, c1: u128, c2: u128, c3: u128, c4: u128)
      returns (g0: u64, g1: u64, g2: u64, g3: u64, g4: u64)
    requires CarriableLimbs(c0, c1, c2, c3, c4)
    ensures [g0, g1, g2, g3, g4] == CarriedLimbs(c0, c1, c2, c3, c4)
  {
    hide Hi, Lo;
    var h1: u128, h3: u128, h4: u128 := c1, c3, c4;
    var carry: u64;

    carry := Hi(c2); h3 := h3 + carry; g2 := Lo(c2);
    carry := Hi(c0); h1 := h1 + carry; g0 := Lo(c0);

    carry := Hi(h3); h4 := h4 + carry; g3 := Lo(h3);
    carry := Hi(h1); g2 := g2 + carry; g1 := Lo(h1);

    carry := Hi(h4); carry := carry * 19; g0 := g0 + carry; g4 := Lo(h4);
    g3 := g3 + Hi(g2); g2 := Lo(g2);
    g1 := g1 + Hi(g0); g0 := Lo(g0);
  }

  method StoreCarried(h: array<u64>, c0: u128, c1: u128, c2: u128, c3: u128, c4: u128)
    requires h.Length == 5
    requires CarriableLimbs(c0, c1, c2, c3, c4)
    modifies h
    ensures h[..] == CarriedLimbs(c0, c1, c2, c3, c4)
  {
    hide CarriedLimbs;
    h[0], h[1], h[2], h[3], h[4] := CarryChain(c0, c1, c2, c3, c4);
    assert h[..] == [h[0], h[1], h[2], h[3], h[4]];
  }

  method Mul(h: array<u64>, f: array<u64>, g: array<u64>)
    requires h.Length == 5 && f.Length == 5 && g.Length == 5
    requires Below(f[..], T54) && Below(g[..], T54)
    modifies h
    ensures h[..] == Product(old(f[..]), old(g[..]))
    ensures Below(h[..], TIGHT) && Below(h[..], T54)
    ensures Fval(h[..]) == FMul(old(Fval(f[..])), old(Fval(g[..])))
  {
    hide Wide, Columns, CarriedLimbs, Val, F, FMul;
    ghost var fs, gs := f[..], g[..];
    MulAccumulates(fs, gs);
    var g0: u64, g1: u64, g2: u64, g3: u64, g4: u64 := g[0], g[1], g[2], g[3], g[4];

    var fi: u64 := f[0];
    var h0: u128 := Wide(fi, g0);
    var h1: u128 := Wide(fi, g1);
    var h2: u128 := Wide(fi, g2);
    var h3: u128 := Wide(fi, g3);
    var h4: u128 := Wide(fi, g4);

    fi := f[1];
    g4 := g4 * 19;
    h0 := h0 + Wide(fi, g4);
    h1 := h1 + Wide(fi, g0);
    h2 := h2 + Wide(fi, g1);
    h3 := h3 + Wide(fi, g2);
    h4 := h4 + Wide(fi, g3);

    fi := f[2];
    g3 := g3 * 19;
    h0 := h0 + Wide(fi, g3);
    h1 := h1 + Wide(fi, g4);
    h2 := h2 + Wide(fi, g0);
    h3 := h3 + Wide(fi, g1);
    h4 := h4 + Wide(fi, g2);

    fi := f[3];
    g2 := g2 * 19;
    h0 := h0 + Wide(fi, g2);
    h1 := h1 + Wide(fi, g3);
    h2 := h2 + Wide(fi, g4);
    h3 := h3 + Wide(fi, g0);
    h4 := h4 + Wide(fi, g1);

    fi := f[4];
    g1 := g1 * 19;
    h0 := h0 + Wide(fi, g1);
    h1 := h1 + Wide(fi, g2);
    h2 := h2 + Wide(fi, g3);
    h3 := h3 + Wide(fi, g4);
    h4 := h4 + Wide(fi, g0);

    assert [h0, h1, h2, h3, h4] == Columns(fs, gs);
    ColumnsBounds(fs, gs);
    StoreCarried(h, h0, h1, h2, h3, h4);
    ProductBounds(fs, gs);
    ProductValue(fs, gs);
  }

  /** The dedicated squaring writes, limb for limb, what Mul(h, f, f) writes. */
  method Sq(h: array<u64>, f: array<u64>)
    requires h.Length == 5 && f.Length == 5
    requires Below(f[..], T54)
    modifies h
    ensures h[..] == Product(old(f[..]), old(f[..]))
    ensures Below(h[..], TIGHT) && Below(h[..], T54)
    ensures Fval(h[..]) == FSq(old(Fval(f[..])))
  {
    hide Wide, Columns, CarriedLimbs, Val, F, FMul;
    ghost var fs := f[..];
    SqAccumulates(fs);
    var g0: u64, g1: u64, g2: u64, g3: u64, g4: u64 := f[0], f[1], f[2], f[3], f[4];

    var h0: u128 := Wide(g0, g0);
    g0 := g0 * 2;
    var h1: u128 := Wide(g0, g1);
    var h2: u128 := Wide(g0, g2);
    var h3: u128 := Wide(g0, g3);
    var h4: u128 := Wide(g0, g4);

    g0 := g4;
    g4 := g4 * 19;
    h3 := h3 + Wide(g0, g4);

    h2 := h2 + Wide(g1, g1);
    g1 := g1 * 2;
    h3 := h3 + Wide(g1, g2);
    h4 := h4 + Wide(g1, g3);
    h0 := h0 + Wide(g1, g4);

    g0 := g3;
    g3 := g3 * 19;
    h1 := h1 + Wide(g0, g3);
    h2 := h2 + Wide(g0 * 2, g4);

    h4 := h4 + Wide(g2, g2);
    g2 := g2 * 2;
    h0 := h0 + Wide(g2, g3);
    h1 := h1 + Wide(g2, g4);

    assert [h0, h1, h2, h3, h4] == Columns(fs, fs);
    ColumnsBounds(fs, fs);
    StoreCarried(h, h0, h1, h2, h3, h4);
    ProductBounds(fs, fs);
    ProductValue(fs, fs);
  }

  method Mul121666(h: array<u64>, f: array<u64>)
    requires h.Length == 5 && f.Length == 5
    requires Below(f[..], T54)
    modifies h
    ensures Below(h[..], TIGHT) && Below(h[..], T54)
    ensures Fval(h[..]) == FMul(121666, old(Fval(f[..])))
  {
    ghost var fs := f[..];
    hide Wide, CarriedLimbs, Val, F, FMul;
    var h0: u128 := Wide(f[0], 121666);
    var h1: u128 := Wide(f[1], 121666);
    var h2: u128 := Wide(f[2], 121666);
    var h3: u128 := Wide(f[3], 121666);
    var h4: u128 := Wide(f[4], 121666);
    StoreCarried(h, h0, h1, h2, h3, h4);
    CarriedBounds([h0, h1, h2, h3, h4]);
    CarriedValue([h0, h1, h2, h3, h4]);
    WideIs(fs[0], 121666); WideIs(fs[1], 121666); WideIs(fs[2], 121666); WideIs(fs[3], 121666); WideIs(fs[4], 121666);
    LimbwiseScale([h0, h1, h2, h3, h4], fs);
  }

  method Add(h: array<u64>, f: array<u64>, g: array<u64>)
    requires h.Length == 5 && f.Length == 5 && g.Length == 5
    requires Below(f[..], TIGHT) && Below(g[..], TIGHT)
    modifies h
    ensures Below(h[..], T54)
    ensures Fval(h[..]) == FAdd(old(Fval(f[..])), old(Fval(g[..])))
  {
    ghost var fs, gs := f[..], g[..];
    hide Val, F;
    h[0] := f[0] + g[0];
    h[1] := f[1] + g[1];
    h[2] := f[2] + g[2];
    h[3] := f[3] + g[3];
    h[4] := f[4] + g[4];
    LimbwiseAdd(h[..], fs, gs);
  }

  /** Adds twice the modulus first, so that no limb goes below zero. */
  method Sub(h: array<u64>, f: array<u64>, g: array<u64>)
    requires h.Length == 5 && f.Length == 5 && g.Length == 5
    requires Below(f[..], TIGHT) && Below(g[..], TIGHT)
    modifies h
    ensures Below(h[..], T54)
    ensures Fval(h[..]) == FSub(old(Fval(f[..])), old(Fval(g[..])))
  {
    ghost var fs, gs := f[..], g[..];
    hide Val, F;
    var t: u64;
    t := f[0] + 0xfffffffffffda; h[0] := t - g[0];
    t := f[1] + 0xffffffffffffe; h[1] := t - g[1];
    t := f[2] + 0xffffffffffffe; h[2] := t - g[2];
    t := f[3] + 0xffffffffffffe; h[3] := t - g[3];
    t := f[4] + 0xffffffffffffe; h[4] := t - g[4];
    LimbwiseSub(h[..], fs, gs);
  }

  method Set(h: array<u64>, small: u64)
    requires h.Length == 5 && small < 2
    modifies h
    ensures Below(h[..], TIGHT) && Fval(h[..]) == small
  {
    h[0], h[1], h[2], h[3], h[4] := small, 0, 0, 0, 0;
  }

  method Copy(h: array<u64>, f: array<u64>)
    requires h.Length == 5 && f.Length == 5
    modifies h
    ensures h[..] == old(f[..])
  {
    h[0] := f[0];
    h[1] := f[1];
    h[2] := f[2];
    h[3] := f[3];
    h[4] := f[4];
  }

  const MASK_ALL: u64 := TWO_64 - 1

  /** One limb of the constant-time conditional swap. */
  method SwapLimb(f: u64, g: u64, mask: u64) returns (f': u64, g': u64)
    requires mask == 0 || mask == MASK_ALL
    ensures (f', g') == if mask == 0 then (f, g) else (g, f)
  {
    hide Bits.Xor, Bits.And, Bits.Pow2;
    Bits.Pow2Of64();
    Bits.XorBelow(f, g, 64);
    var x: u64 := Bits.Xor(f, g);
    if mask == 0 { Bits.AndZero(x); } else { Bits.AndMask(x, 64); }
    x := Bits.And(x, mask);
    Bits.XorCancels(f, g);
    Bits.XorCancels(g, f);
    Bits.XorCommutes(f, g);
    Bits.XorZero(f);
    Bits.XorZero(g);
    f' := Bits.Xor(f, x);
    g' := Bits.Xor(g, x);
  }

  /** Exchanges two elements when b is 1 and leaves both alone when b is 0. */
  method CSwap(f: array<u64>, g: array<u64>, b: u64)
    requires f.Length == 5 && g.Length == 5 && f != g
    requires b < 2
    modifies f, g
    ensures f[..] == if b == 1 then old(g[..]) else old(f[..])
    ensures g[..] == if b == 1 then old(f[..]) else old(g[..])
  {
    var mask: u64 := (0 - b) % TWO_64;
    var i := 0;
    while i < 5
      invariant 0 <= i <= 5
      invariant forall j :: 0 <= j < i ==>
                  (f[j], g[j]) == if b == 1 then (old(g[j]), old(f[j])) else (old(f[j]), old(g[j]))
      invariant forall j :: i <= j < 5 ==> f[j] == old(f[j]) && g[j] == old(g[j])
    {
      var fi, gi := SwapLimb(f[i], g[i], mask);
      f[i] := fi;
      g[i] := gi;
      i := i + 1;
    }
  }
}
