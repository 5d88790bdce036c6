/** Field elements in radix 2^51: five unsigned 64-bit limbs with lazy reduction. */
module Fe51 {
  import opened Field25519

  const T51: int := 0x8_0000_0000_0000
  const T102: int := 0x40_0000_0000_0000_0000_0000_0000
  const T153: int := 0x200_0000_0000_0000_0000_0000_0000_0000_0000_0000
  const T204: int := 0x1000_0000_0000_0000_0000_0000_0000_0000_0000_0000_0000_0000_0000
  const T54: int := 0x40_0000_0000_0000
  const T55: int := 0x80_0000_0000_0000
  const T59: int := 0x800_0000_0000_0000
  const T114: int := 0x4_0000_0000_0000_0000_0000_0000_0000

  /** Column sums of operands below 2^54: 77 products, and 5 in the top column. */
  const WIDE: int := 0x4_d000_0000_0000_0000_0000_0000_0000
  const TOP: int := 0x5000_0000_0000_0000_0000_0000_0000

  /** Bound on every limb leaving a multiplication, squaring or small-constant product. */
  const TIGHT: int := T51 + 0x2000

  /** The integer that five limbs stand for. */
  function Val(h: seq<int>): int
    requires |h| == 5
  {
    h[0] + h[1] * T51 + h[2] * T102 + h[3] * T153 + h[4] * T204
  }

  /** The field value that five limbs stand for. */
  function Fval(h: seq<int>): (r: int)
    requires |h| == 5
    ensures 0 <= r < P
  {
    F(Val(h))
  }

  predicate Below(h: seq<int>, bound: int)
  {
    |h| == 5 && forall i :: 0 <= i < 5 ==> 0 <= h[i] < bound
  }

  // ---- Specification of the lazy carry chain and of the product ----

  /** A limb's overflow and what is left of it. */
  function Hi(x: int): (q: int)
    ensures T51 * q <= x < T51 * (q + 1)
  {
    x / T51
  }

  function Lo(x: int): (r: int)
    ensures 0 <= r < T51
  {
    x % T51
  }

  /** The partial reduction shared by multiplication, squaring and multiplication by 121666. */
  function CarriedLimbs(c0: int, c1: int, c2: int, c3: int, c4: int): (g: seq<int>)
    ensures |g| == 5
  {
    var h3 := c3 + Hi(c2);
    var h1 := c1 + Hi(c0);
    var h4 := c4 + Hi(h3);
    var g2 := Lo(c2) + Hi(h1);
    var g0 := Lo(c0) + Hi(h4) * 19;
    var g3 := Lo(h3) + Hi(g2);
    var g1 := Lo(h1) + Hi(g0);
    [Lo(g0), g1, Lo(g2), g3, Lo(h4)]
  }

  function Carried(h: seq<int>): (g: seq<int>)
    requires |h| == 5
    ensures |g| == 5
  {
    CarriedLimbs(h[0], h[1], h[2], h[3], h[4])
  }

  /** Column sums of the schoolbook product, the columns of weight 2^255 and above folded back times 19. */
  function Columns(f: seq<int>, g: seq<int>): (h: seq<int>)
    requires |f| == 5 && |g| == 5
    ensures |h| == 5
  {
    [ f[0] * g[0] + 19 * (f[1] * g[4] + f[2] * g[3] + f[3] * g[2] + f[4] * g[1]),
      f[0] * g[1] + f[1] * g[0] + 19 * (f[2] * g[4] + f[3] * g[3] + f[4] * g[2]),
      f[0] * g[2] + f[1] * g[1] + f[2] * g[0] + 19 * (f[3] * g[4] + f[4] * g[3]),
      f[0] * g[3] + f[1] * g[2] + f[2] * g[1] + f[3] * g[0] + 19 * (f[4] * g[4]),
      f[0] * g[4] + f[1] * g[3] + f[2] * g[2] + f[3] * g[1] + f[4] * g[0] ]
  }

  function Product(f: seq<int>, g: seq<int>): (h: seq<int>)
    requires |f| == 5 && |g| == 5
    ensures |h| == 5
  {
    Carried(Columns(f, g))
  }

  /** Wide columns small enough for the carry chain to stay within 64 bits. */
  predicate CarriableLimbs(c0: int, c1: int, c2: int, c3: int, c4: int)
  {
    && 0 <= c0 < WIDE && 0 <= c1 < WIDE && 0 <= c2 < WIDE && 0 <= c3 < WIDE
    && 0 <= c4 <= TOP
  }

  predicate Carriable(h: seq<int>)
  {
    |h| == 5 && CarriableLimbs(h[0], h[1], h[2], h[3], h[4])
  }

  lemma CarriedValue(h: seq<int>)
    requires |h| == 5
    ensures F(Val(Carried(h))) == F(Val(h))
  {
    var h3 := h[3] + h[2] / T51;
    var h4 := h[4] + h3 / T51;
    Congruent(Val(h), Val(Carried(h)), h4 / T51);
  }

  lemma CarriedBounds(h: seq<int>)
    requires Carriable(h)
    ensures Below(Carried(h), TIGHT)
  {
  }

  /** Expanding the product of two five-limb values, one row at a time. */
  lemma RowValue(a: int, g: seq<int>)
    requires |g| == 5
    ensures a * Val(g) == a * g[0] + (a * g[1]) * T51 + (a * g[2]) * T102 + (a * g[3]) * T153 + (a * g[4]) * T204
  {
  }

  lemma ProductExpands(f: seq<int>, g: seq<int>)
    requires |f| == 5 && |g| == 5
    ensures Val(f) * Val(g) ==
            f[0] * Val(g) + (f[1] * Val(g)) * T51 + (f[2] * Val(g)) * T102
            + (f[3] * Val(g)) * T153 + (f[4] * Val(g)) * T204
  {
    RowValue(Val(g), f);
  }

  lemma ColumnsValue(f: seq<int>, g: seq<int>)
    requires |f| == 5 && |g| == 5
    ensures F(Val(Columns(f, g))) == F(Val(f) * Val(g))
  {
    ProductExpands(f, g);
    RowValue(f[0], g); RowValue(f[1], g); RowValue(f[2], g); RowValue(f[3], g); RowValue(f[4], g);
    var k := (f[1] * g[4] + f[2] * g[3] + f[3] * g[2] + f[4] * g[1])
             + (f[2] * g[4] + f[3] * g[3] + f[4] * g[2]) * T51
             + (f[3] * g[4] + f[4] * g[3]) * T102
             + (f[4] * g[4]) * T153;
    Congruent(Val(f) * Val(g), Val(Columns(f, g)), k);
  }

  /** The limb product is multiplication in the field, for arbitrary limbs. */
  lemma ProductValue(f: seq<int>, g: seq<int>)
    requires |f| == 5 && |g| == 5
    ensures Fval(Product(f, g)) == FMul(Fval(f), Fval(g))
  {
    hide FMul;
    CarriedValue(Columns(f, g));
    ColumnsValue(f, g);
    MulResidues(Val(f), Val(g));
    MulIs(Val(f), Val(g));
  }

  lemma MulBelow(a: int, b: int, A: int, B: int)
    requires 0 <= a <= A && 0 <= b <= B
    ensures 0 <= a * b <= A * B
  {
  }

  lemma ColumnsBounds(f: seq<int>, g: seq<int>)
    requires Below(f, T54) && Below(g, T54)
    ensures Carriable(Columns(f, g))
  {
    forall i, j | 0 <= i < 5 && 0 <= j < 5
      ensures 0 <= f[i] * g[j] <= (T54 - 1) * (T54 - 1)
    {
      MulBelow(f[i], g[j], T54 - 1, T54 - 1);
    }
  }

  lemma ProductBounds(f: seq<int>, g: seq<int>)
    requires Below(f, T54) && Below(g, T54)
    ensures Below(Product(f, g), TIGHT) && Below(Product(f, g), T54)
  {
    ColumnsBounds(f, g);
    CarriedBounds(Columns(f, g));
  }
}
