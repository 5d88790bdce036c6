/**
 * What the ladder of X25519 computes: its registers are the u-coordinates of the multiples of a point, on edwards25519
 * or on its twist, one of which has a point for every u. The curve v^2 = u^3 + 486662 u^2 + u corresponds to
 * edwards25519 by u = (1 + y) / (1 - y), as in section 4.1 of RFC 7748.
 */
module MontgomeryLadder {
  import opened Bits
  import opened Field25519
  import opened FieldLaws
  import opened Edwards
  import opened QuadraticResidues
  import opened X25519Spec
  import X25519
  import Radix

  /** The coefficient of the curve v^2 = u^3 + A u^2 + u. */
  const A: int := 486662

  // ---- One turn, as formulas ----

  /** What a turn makes of x2 : z2. */
  function DoubleX(x: int, z: int): int
  {
    (x * x - z * z) * (x * x - z * z)
  }

  function DoubleZ(x: int, z: int): int
  {
    4 * (x * z) * (x * x + A * (x * z) + z * z)
  }

  /** The products whose squares, times 4 and times 4 x1, a turn makes of both pairs. */
  function CrossX(s: Ladder): int
  {
    s.x2 * s.x3 - s.z2 * s.z3
  }

  function CrossZ(s: Ladder): int
  {
    s.x2 * s.z3 - s.z2 * s.x3
  }

  lemma DoubleExact(x: int, z: int)
    ensures (x + z) * (x + z) * ((x - z) * (x - z)) == DoubleX(x, z)
    ensures (x + z) * (x + z) - (x - z) * (x - z) == 4 * (x * z)
    ensures (x + z) * (x + z) + 121665 * (4 * (x * z)) == x * x + A * (x * z) + z * z
  {
    assert (x + z) * (x - z) == x * x - z * z;
    assert (x + z) * (x + z) * ((x - z) * (x - z)) == (x + z) * (x - z) * ((x + z) * (x - z));
  }

  lemma CrossExact(x2: int, z2: int, x3: int, z3: int)
    ensures (x3 - z3) * (x2 + z2) + (x3 + z3) * (x2 - z2) == 2 * (x2 * x3 - z2 * z3)
    ensures (x3 - z3) * (x2 + z2) - (x3 + z3) * (x2 - z2) == 2 * (z2 * x3 - x2 * z3)
  {
  }

  lemma TwiceSquared(c: int)
    ensures 2 * c * (2 * c) == 4 * (c * c) && 2 * -c * (2 * -c) == 4 * (c * c)
  {
  }

  lemma DoubleFormulas(x: int, z: int)
    ensures var aa, bb := FSq(FAdd(x, z)), FSq(FSub(x, z)); var e := FSub(aa, bb);
            FMul(aa, bb) == F(DoubleX(x, z)) && FMul(e, FAdd(aa, FMul(121665, e))) == F(DoubleZ(x, z))
  {
    hide F, FMul, FAdd, FSub, DoubleX;
    var a, b := FAdd(x, z), FSub(x, z);
    var f, g := (x + z) * (x + z), (x - z) * (x - z);
    SumIs(x, x, z, z);
    ProductIs(a, x + z, a, x + z);
    ProductIs(b, x - z, b, x - z);
    DoubleExact(x, z);
    var aa, bb := FSq(a), FSq(b);
    ProductIs(aa, f, bb, g);
    SumIs(aa, f, bb, g);
    var e, h := FSub(aa, bb), 4 * (x * z);
    ProductIs(121665, 121665, e, h);
    SumIs(aa, f, FMul(121665, e), 121665 * h);
    ProductIs(e, h, FAdd(aa, FMul(121665, e)), x * x + A * (x * z) + z * z);
  }

  lemma CrossFormulas(x1: int, s: Ladder)
    ensures var da, cb := FMul(FSub(s.x3, s.z3), FAdd(s.x2, s.z2)), FMul(FAdd(s.x3, s.z3), FSub(s.x2, s.z2));
            && FSq(FAdd(da, cb)) == F(4 * (CrossX(s) * CrossX(s)))
            && FMul(x1, FSq(FSub(da, cb))) == F(x1 * (4 * (CrossZ(s) * CrossZ(s))))
  {
    hide F, FMul, FAdd, FSub;
    var x2, z2, x3, z3 := s.x2, s.z2, s.x3, s.z3;
    SumIs(x2, x2, z2, z2);
    SumIs(x3, x3, z3, z3);
    ProductIs(FSub(x3, z3), x3 - z3, FAdd(x2, z2), x2 + z2);
    ProductIs(FAdd(x3, z3), x3 + z3, FSub(x2, z2), x2 - z2);
    CrossExact(x2, z2, x3, z3);
    var da, cb := FMul(FSub(x3, z3), FAdd(x2, z2)), FMul(FAdd(x3, z3), FSub(x2, z2));
    SumIs(da, (x3 - z3) * (x2 + z2), cb, (x3 + z3) * (x2 - z2));
    CrossSquares(x1, FAdd(da, cb), FSub(da, cb), CrossX(s), CrossZ(s));
  }

  lemma CrossSquares(x1: int, f: int, g: int, c: int, d: int)
    requires F(f) == F(2 * c) && F(g) == F(2 * -d)
    ensures FSq(f) == F(4 * (c * c)) && FMul(x1, FSq(g)) == F(x1 * (4 * (d * d)))
  {
    hide F, FMul;
    TwiceSquared(c);
    TwiceSquared(d);
    ProductIs(f, 2 * c, f, 2 * c);
    ProductIs(g, 2 * -d, g, 2 * -d);
    ProductIs(x1, x1, FSq(g), 4 * (d * d));
  }

  /** A turn doubles the first pair and crosses both. */
  lemma TurnFormulas(x1: int, s: Ladder)
    ensures var t := Turn(x1, s);
            && t.x2 == F(DoubleX(s.x2, s.z2)) && t.z2 == F(DoubleZ(s.x2, s.z2))
            && t.x3 == F(4 * (CrossX(s) * CrossX(s))) && t.z3 == F(x1 * (4 * (CrossZ(s) * CrossZ(s))))
  {
    hide F, FMul, FAdd, FSub, DoubleX, DoubleZ, CrossX, CrossZ;
    DoubleFormulas(s.x2, s.z2);
    CrossFormulas(x1, s);
  }

  // ---- The two curves ----

  /** edwards25519 with u = (1 + y) / (1 - y), or its twist with u = -(1 + y) / (1 - y). */
  predicate Model(d: int, s: int)
  {
    (d == D && s == 1) || (d == DINV && s == -1)
  }

  lemma ModelFacts(d: int, s: int)
    requires Model(d, s)
    ensures Twisted(d, I) && s * s == 1 && F(1 + d) != 0 && F(A * s * (1 + d)) == F(2 * (1 - d))
  {
    hide F, Decompress.D;
    BothTwisted();
    Decompress.DValue();
    NotMinusOne();
    if d == D {
      Congruent(A * s * (1 + d), 2 * (1 - d), 311820);
    } else {
      Congruent(A * s * (1 + d), 2 * (1 - d), -245476);
    }
  }

  lemma NotMinusOne()
    ensures F(1 + D) != 0 && F(1 + DINV) != 0
  {
    hide F, Decompress.D;
    Decompress.DValue();
    FOfSmall(1 + D);
    FOfSmall(1 + DINV);
  }

  /** x : z is the u-coordinate of t, with l as the common factor. */
  ghost predicate Stands(s: int, t: Point, l: int, x: int, z: int)
  {
    F(l) != 0 && F(x) == F(l * (s * (1 + t.y))) && F(z) == F(l * (1 - t.y))
  }

  // ---- Doubling ----

  lemma Powers(s: int, l: int, y: int, x: int, z: int)
    requires s * s == 1 && F(x) == F(l * (s * (1 + y))) && F(z) == F(l * (1 - y))
    ensures var m := l * l;
            && F(x * x) == F(m * ((1 + y) * (1 + y))) && F(z * z) == F(m * ((1 - y) * (1 - y)))
            && F(x * z) == F(m * (s * (1 - y * y)))
  {
    hide F;
    var f, g := l * (s * (1 + y)), l * (1 - y);
    Products(x, f, x, f);
    Products(z, g, z, g);
    Products(x, f, z, g);
    PowersExact(s, l, y);
  }

  lemma PowersExact(s: int, l: int, y: int)
    requires s * s == 1
    ensures var m, f, g := l * l, l * (s * (1 + y)), l * (1 - y);
            && f * f == m * ((1 + y) * (1 + y)) && g * g == m * ((1 - y) * (1 - y)) && f * g == m * (s * (1 - y * y))
  {
    var u := 1 + y;
    assert l * (s * u) * (l * (s * u)) == l * l * (s * s * (u * u));
    assert u * (1 - y) == 1 - y * y;
    assert l * (s * u) * (l * (1 - y)) == l * l * (s * (u * (1 - y)));
  }

  /** DoubleX is 16 m^2 y^2. */
  lemma DoubleXIs(s: int, l: int, y: int, x: int, z: int)
    requires s * s == 1 && F(x) == F(l * (s * (1 + y))) && F(z) == F(l * (1 - y))
    ensures var m := l * l; F(DoubleX(x, z)) == F(16 * (m * m) * (y * y))
  {
    hide F;
    var m := l * l;
    Powers(s, l, y, x, z);
    assert m * ((1 + y) * (1 + y)) - m * ((1 - y) * (1 - y)) == 4 * (m * y) by {
      assert (1 + y) * (1 + y) == 1 + 2 * y + y * y && (1 - y) * (1 - y) == 1 - 2 * y + y * y;
      Differences(m, 1 + 2 * y + y * y, 1 - 2 * y + y * y);
    }
    var f := x * x - z * z;
    Reduce2(f, 4 * (m * y), 1, x * x, m * ((1 + y) * (1 + y)), -1, z * z, m * ((1 - y) * (1 - y)));
    Products(f, 4 * (m * y), f, 4 * (m * y));
    assert 4 * (m * y) * (4 * (m * y)) == 16 * (m * m) * (y * y);
  }

  lemma Differences(m: int, u: int, v: int)
    ensures m * u - m * v == m * (u - v) && m * u + m * v == m * (u + v)
  {
  }

  /** (1 + d) DoubleZ is 16 m^2 s (1 - y^2) (1 + d y^2). */
  lemma DoubleZIs(d: int, s: int, l: int, y: int, x: int, z: int)
    requires s * s == 1 && F(x) == F(l * (s * (1 + y))) && F(z) == F(l * (1 - y))
    requires F(A * s * (1 + d)) == F(2 * (1 - d))
    ensures var m, v, h := l * l, 1 - y * y, 1 + d * (y * y);
            F((1 + d) * DoubleZ(x, z)) == F(16 * (m * m) * (s * v * h))
  {
    hide F;
    var m, v, h, e := l * l, 1 - y * y, 1 + d * (y * y), 1 + d;
    Powers(s, l, y, x, z);
    var q := x * x + A * (x * z) + z * z;
    var r := 2 + 2 * (y * y) + A * s * v;
    MiddleSum(m, s, y);
    Reduce4(q, m * r, 1, x * x, m * ((1 + y) * (1 + y)), A, x * z, m * (s * v), 1, z * z, m * ((1 - y) * (1 - y)),
            0, 0, 0);
    MiddleFactor(d, s, y);
    Products(e * r, 4 * h, m, m);
    Products(e, e, q, m * r);
    assert e * (m * r) == e * r * m;
    Reduce(4 * (x * z), 4 * (m * (s * v)), 4, x * z, m * (s * v));
    Products(4 * (x * z), 4 * (m * (s * v)), e * q, 4 * h * m);
    assert e * (4 * (x * z) * q) == 4 * (x * z) * (e * q);
    assert 4 * (m * (s * v)) * (4 * h * m) == 16 * (m * m) * (s * v * h);
  }

  lemma MiddleSum(m: int, s: int, y: int)
    ensures m * (2 + 2 * (y * y) + A * s * (1 - y * y)) ==
            m * ((1 + y) * (1 + y)) + A * (m * (s * (1 - y * y))) + m * ((1 - y) * (1 - y))
  {
    var v := s * (1 - y * y);
    assert (1 + y) * (1 + y) == 1 + 2 * y + y * y && (1 - y) * (1 - y) == 1 - 2 * y + y * y;
    assert A * s * (1 - y * y) == A * v;
    assert m * (2 + 2 * (y * y) + A * v) == m * (1 + 2 * y + y * y) + m * (A * v) + m * (1 - 2 * y + y * y);
  }

  lemma MiddleFactor(d: int, s: int, y: int)
    requires F(A * s * (1 + d)) == F(2 * (1 - d))
    ensures F((1 + d) * (2 + 2 * (y * y) + A * s * (1 - y * y))) == F(4 * (1 + d * (y * y)))
  {
    hide F;
    var e, v, k := 1 + d, 1 - y * y, A * s;
    var l := e * (2 + 2 * (y * y) + k * v);
    MiddleExact(d, y, k);
    Reduce(l, 4 * (1 + d * (y * y)), v, k * e, 2 * (1 - d));
  }

  lemma MiddleExact(d: int, y: int, k: int)
    ensures var e, v := 1 + d, 1 - y * y;
            e * (2 + 2 * (y * y) + k * v) == 4 * (1 + d * (y * y)) + v * (k * e - 2 * (1 - d))
  {
    var e, v := 1 + d, 1 - y * y;
    assert 4 * (1 + d * (y * y)) == e * (2 + 2 * (y * y)) + v * (2 * (1 - d));
    Differences(v, k * e, 2 * (1 - d));
    assert e * (2 + 2 * (y * y) + k * v) == e * (2 + 2 * (y * y)) + v * (k * e);
  }

  /** On the curve, (1 + x^2) (1 + d y^2) is y^2 (1 + d), and neither 1 + d y^2 nor what it divides by is zero. */
  lemma CurveFactor(d: int, t: Point)
    requires On(d, t) && F(1 + d) != 0
    ensures F((1 + d * (t.y * t.y)) * (1 + t.x * t.x)) == F((1 + d) * (t.y * t.y))
    ensures F(1 + d * (t.y * t.y)) != 0
  {
    hide F, On;
    Equation(d, t);
    var x, y := t.x, t.y;
    var h, w := 1 + d * (y * y), x * y * (x * y);
    assert h * (1 + x * x) == 1 + x * x + d * (y * y) + d * w by { assert y * y * (x * x) == w; }
    assert (1 + d) * (y * y) == y * y + d * (y * y);
    Reduce(h * (1 + x * x), (1 + d) * (y * y), -1, y * y - x * x, 1 + d * w);
    ZeroIs();
    if F(h) == 0 {
      ZeroTimes(h, 1 + x * x);
      ZeroProduct(1 + d, y * y);
      ZeroProduct(y, y);
      ZeroTimes(y, y);
      ZeroTimes(y * y, d);
      Reduce(h, 1, 1, d * (y * y), 0);
    }
  }

  /** The double of a point, by its y: 1 - s with s = d x^2 y^2 is the denominator. */
  lemma DoubledY(d: int, t: Point)
    requires Twisted(d, I) && On(d, t)
    ensures var b, r := 1 - Joint(d, t, t), Add(d, t, t);
            && F(b * (1 + r.y)) == F(2 * (1 + t.x * t.x)) && F(b * (1 - r.y)) == F(2 * (1 - t.y * t.y)) && F(b) != 0
  {
    hide F, Twisted, Add, On;
    Equation(d, t);
    AddIs(d, I, t, t);
    Complete(d, I, t, t);
    DoubledScalars(1 - Joint(d, t, t), Add(d, t, t).y, t.y * t.y, t.x * t.x, 1 + d * (t.x * t.y * (t.x * t.y)));
  }

  lemma DoubledScalars(b: int, y: int, v: int, c: int, g: int)
    requires F(v - c) == F(g) && F(b * y) == F(v + c) && b == 2 - g
    ensures F(b * (1 + y)) == F(2 * (1 + c)) && F(b * (1 - y)) == F(2 * (1 - v))
  {
    hide F;
    assert b * (1 + y) == b + b * y && b * (1 - y) == b - b * y;
    Reduce2(b * (1 + y), 2 * (1 + c), 1, v - c, g, 1, b * y, v + c);
    Reduce2(b * (1 - y), 2 * (1 - v), 1, v - c, g, -1, b * y, v + c);
  }

  lemma EightNotZero()
    ensures F(8) != 0
  {
  }

  lemma FactorNotZero(s: int, l: int, b: int, h: int)
    requires s * s == 1 && F(l) != 0 && F(b) != 0 && F(h) != 0
    ensures F(8 * s * (l * l * (l * l)) * (b * h)) != 0
  {
    hide F;
    EightNotZero();
    UnitNotZero(s);
    NonzeroProduct(8, s);
    NonzeroProduct(l, l);
    NonzeroProduct(l * l, l * l);
    NonzeroProduct(8 * s, l * l * (l * l));
    NonzeroProduct(b, h);
    NonzeroProduct(8 * s * (l * l * (l * l)), b * h);
  }

  lemma NonzeroQuotient(v: int, e: int) returns (k: int)
    requires F(e) != 0 && F(v) != 0
    ensures F(e * k) == F(v) && F(k) != 0
  {
    hide F, Div;
    k := Div(v, e);
    DivIs(v, e);
    if F(k) == 0 {
      ZeroTimes(k, e);
    }
  }

  /** A doubled pair stands for the doubled point. */
  lemma DoubleStands(d: int, s: int, t: Point, l: int, x: int, z: int) returns (k: int)
    requires Model(d, s) && On(d, t) && Stands(s, t, l, x, z)
    ensures Stands(s, Add(d, t, t), k, DoubleX(x, z), DoubleZ(x, z))
  {
    hide F, Model, Twisted, Joint, Add, On, DoubleX, DoubleZ;
    var m, b, h, e := l * l * (l * l), 1 - Joint(d, t, t), 1 + d * (t.y * t.y), 1 + d;
    var r, c, v := Add(d, t, t), t.x * t.x, t.y * t.y;
    ModelFacts(d, s);
    CurveFactor(d, t);
    DoubledY(d, t);
    FactorNotZero(s, l, b, h);
    k := NonzeroQuotient(8 * s * m * (b * h), e);
    DoubleXIs(s, l, t.y, x, z);
    DoubleZIs(d, s, l, t.y, x, z);
    DoubledCleared(e, k, s, m, b, h, r.y, 1 + c, v, DoubleX(x, z), DoubleZ(x, z));
  }

  lemma DoubledCleared(e: int, k: int, s: int, m: int, b: int, h: int, y: int, c: int, v: int, x: int, z: int)
    requires F(e * k) == F(8 * s * m * (b * h)) && s * s == 1 && F(e) != 0
    requires F(b * (1 + y)) == F(2 * c) && F(b * (1 - y)) == F(2 * (1 - v)) && F(h * c) == F(e * v)
    requires F(x) == F(16 * m * v) && F(e * z) == F(16 * m * (s * (1 - v) * h))
    ensures F(x) == F(k * (s * (1 + y))) && F(z) == F(k * (1 - y))
  {
    hide F;
    XCleared(e, k, s, m, b, h, y, c, v, x);
    ZCleared(e, k, s, m, b, h, y, v, z);
  }

  lemma XCleared(e: int, k: int, s: int, m: int, b: int, h: int, y: int, c: int, v: int, x: int)
    requires F(e * k) == F(8 * s * m * (b * h)) && s * s == 1 && F(e) != 0
    requires F(b * (1 + y)) == F(2 * c) && F(h * c) == F(e * v) && F(x) == F(16 * m * v)
    ensures F(x) == F(k * (s * (1 + y)))
  {
    hide F;
    Products(e * k, 8 * s * m * (b * h), s * (1 + y), s * (1 + y));
    ClearedX(s, m, b, h, 1 + y);
    Products(8 * m * h, 8 * m * h, b * (1 + y), 2 * c);
    Products(16 * m, 16 * m, h * c, e * v);
    Products(e, e, x, 16 * m * v);
    XRegrouped(e, m, h, c, v, k, s * (1 + y));
    Cancel(e, x, k * (s * (1 + y)));
  }

  lemma XRegrouped(e: int, m: int, h: int, c: int, v: int, k: int, u: int)
    ensures 8 * m * h * (2 * c) == 16 * m * (h * c) && e * (16 * m * v) == 16 * m * (e * v) && e * k * u == e * (k * u)
  {
  }

  lemma ZCleared(e: int, k: int, s: int, m: int, b: int, h: int, y: int, v: int, z: int)
    requires F(e * k) == F(8 * s * m * (b * h)) && F(e) != 0
    requires F(b * (1 - y)) == F(2 * (1 - v)) && F(e * z) == F(16 * m * (s * (1 - v) * h))
    ensures F(z) == F(k * (1 - y))
  {
    hide F;
    Products(e * k, 8 * s * m * (b * h), 1 - y, 1 - y);
    ClearedZ(s, m, b, h, 1 - y);
    Products(8 * s * m * h, 8 * s * m * h, b * (1 - y), 2 * (1 - v));
    ZRegrouped(e, s, m, h, 1 - v, k, 1 - y);
    Cancel(e, z, k * (1 - y));
  }

  lemma ZRegrouped(e: int, s: int, m: int, h: int, v: int, k: int, u: int)
    ensures 8 * s * m * h * (2 * v) == 16 * m * (s * v * h) && e * k * u == e * (k * u)
  {
  }

  lemma ClearedX(s: int, m: int, b: int, h: int, u: int)
    requires s * s == 1
    ensures 8 * s * m * (b * h) * (s * u) == 8 * m * h * (b * u)
  {
    assert 8 * s * m * (b * h) * (s * u) == s * s * (8 * m * h * (b * u));
  }

  lemma ClearedZ(s: int, m: int, b: int, h: int, u: int)
    ensures 8 * s * m * (b * h) * u == 8 * s * m * h * (b * u)
  {
  }

  // ---- Adding two points whose difference is known ----

  /** On the curve, (1 + d a2 a3) (b2 + b3) = 1 - d^2 a2 a3 b2 b3 + b2 b3 - a2 a3 for the squares a, b of x and y. */
  lemma SquaresRelation(d: int, a2: int, b2: int, a3: int, b3: int)
    requires F(b2 - a2) == F(1 + d * (a2 * b2)) && F(b3 - a3) == F(1 + d * (a3 * b3))
    ensures F((1 + d * (a2 * a3)) * (b2 + b3)) == F(1 - d * (a2 * a3) * (d * (b2 * b3)) + b2 * b3 - a2 * a3)
  {
    hide F;
    var u2, u3, v2, v3 := (1 - d * a2) * b2, (1 - d * a3) * b3, 1 + a2, 1 + a3;
    Solved(d, a2, b2);
    Solved(d, a3, b3);
    Products(u2, v2, u3, v3);
    RelationExact(d, a2, b2, a3, b3);
    Reduce4((1 + d * (a2 * a3)) * (b2 + b3), 1 - d * (a2 * a3) * (d * (b2 * b3)) + b2 * b3 - a2 * a3,
            1, u2 * u3, v2 * v3, -(b3 + a3), u2, v2, -(b2 + a2), u3, v3, 0, 0, 0);
  }

  lemma Solved(d: int, a: int, b: int)
    requires F(b - a) == F(1 + d * (a * b))
    ensures F((1 - d * a) * b) == F(1 + a)
  {
    hide F;
    assert (1 - d * a) * b == b - d * (a * b);
    Reduce((1 - d * a) * b, 1 + a, 1, b - a, 1 + d * (a * b));
  }

  lemma RelationExact(d: int, a2: int, b2: int, a3: int, b3: int)
    ensures var u2, u3, v2, v3 := (1 - d * a2) * b2, (1 - d * a3) * b3, 1 + a2, 1 + a3;
            (1 + d * (a2 * a3)) * (b2 + b3) == 1 - d * (a2 * a3) * (d * (b2 * b3)) + b2 * b3 - a2 * a3
            + 1 * (u2 * u3 - v2 * v3) + -(b3 + a3) * (u2 - v2) + -(b2 + a2) * (u3 - v3)
  {
    var k := d * (a2 * a3);
    var u2, u3 := (1 - d * a2) * b2, (1 - d * a3) * b3;
    assert u2 == b2 - d * a2 * b2 && u3 == b3 - d * a3 * b3;
    ProductOfSolved(d, a2, b2, a3, b3);
    OuterPart(d, a2, b2, a3, b3);
    OuterPart(d, a3, b3, a2, b2);
    Exchanged(a2, a3);
    Exchanged(b2, b3);
    assert (1 + k) * (b2 + b3) == b2 + b3 + k * b2 + k * b3;
    assert (1 + a2) * (1 + a3) == 1 + a2 + a3 + a2 * a3;
  }

  lemma ProductOfSolved(d: int, a2: int, b2: int, a3: int, b3: int)
    ensures (1 - d * a2) * b2 * ((1 - d * a3) * b3) ==
            b2 * b3 - d * a2 * (b2 * b3) - d * a3 * (b2 * b3) + d * (a2 * a3) * (d * (b2 * b3))
  {
    var f, g := d * a2, d * a3;
    assert (1 - f) * (1 - g) == 1 - f - g + f * g;
    assert f * g == d * (a2 * a3) * d;
    assert (1 - f) * b2 * ((1 - g) * b3) == (1 - f) * (1 - g) * (b2 * b3);
    FourTerms(f, g, f * g, b2 * b3);
    assert d * (a2 * a3) * d * (b2 * b3) == d * (a2 * a3) * (d * (b2 * b3));
  }

  lemma FourTerms(f: int, g: int, h: int, t: int)
    ensures (1 - f - g + h) * t == t - f * t - g * t + h * t
  {
  }

  lemma OuterPart(d: int, a2: int, b2: int, a3: int, b3: int)
    ensures -(b3 + a3) * ((1 - d * a2) * b2 - (1 + a2)) ==
            b3 + a3 + a2 * b3 + a2 * a3 - b2 * b3 - a3 * b2 + d * a2 * (b2 * b3) + d * (a2 * a3) * b2
  {
    var u := b2 - d * a2 * b2;
    assert (1 - d * a2) * b2 == u;
    OuterProduct(d, a2, b2, a3, b3, u);
    assert (b3 + a3) * (1 + a2) == b3 + a3 + a2 * b3 + a2 * a3;
    assert -(b3 + a3) * (u - (1 + a2)) == -((b3 + a3) * u) + (b3 + a3) * (1 + a2);
  }

  lemma OuterProduct(d: int, a2: int, b2: int, a3: int, b3: int, u: int)
    requires u == b2 - d * a2 * b2
    ensures (b3 + a3) * u == b2 * b3 + a3 * b2 - d * a2 * (b2 * b3) - d * (a2 * a3) * b2
  {
    assert b3 * u == b2 * b3 - d * a2 * (b2 * b3);
    assert a3 * u == a3 * b2 - d * (a2 * a3) * b2;
  }

  /** (g + h) (q - 2 r) = (g - h) (q + 2 r) if g = (1 + k) q and h = 2 r (1 + k). */
  lemma BalancedRatio(g: int, h: int, q: int, r: int, k: int)
    requires F((1 + k) * q) == F(g) && h == 2 * (r * (1 + k))
    ensures F((g + h) * (q - 2 * r)) == F((g - h) * (q + 2 * r))
  {
    hide F;
    RatioExact(g, h, q, r);
    assert h * q == 2 * r * ((1 + k) * q);
    Differences(2 * r, (1 + k) * q, g);
    Reduce((g + h) * (q - 2 * r), (g - h) * (q + 2 * r), 4 * r, (1 + k) * q, g);
  }

  lemma RatioExact(g: int, h: int, q: int, r: int)
    ensures (g + h) * (q - 2 * r) == (g - h) * (q + 2 * r) + 2 * (h * q) - 4 * r * g
  {
  }

  lemma HalfCleared(j: int, b: int, b': int, y: int, y': int)
    requires F((1 - j) * y) == F(b) && F((1 + j) * y') == F(b')
    ensures F((1 - j * j) * ((1 + y) * (1 + y'))) == F(1 - j * j + b * b' + (b + b' + j * (b - b')))
  {
    hide F;
    var f, f' := (1 - j) * y, (1 + j) * y';
    ClearedPlus(j, y, y');
    PlusExpanded(j, b, b');
    Reduce(1 - j + f, 1 - j + b, 1, f, b);
    Reduce(1 + j + f', 1 + j + b', 1, f', b');
    Products(1 - j + f, 1 - j + b, 1 + j + f', 1 + j + b');
  }

  lemma Negated(u: int, y: int, b: int)
    requires F(u * y) == F(b)
    ensures F(u * -y) == F(-b)
  {
    hide F;
    assert u * -y == -(u * y);
    Reduce(u * -y, -b, -1, u * y, b);
  }

  lemma SignsChange(j: int, b: int, b': int)
    ensures -b * -b' == b * b' && -b + -b' + j * (-b - -b') == -(b + b' + j * (b - b'))
  {
    assert j * (-b - -b') == -(j * (b - b'));
  }

  /** The two y of a sum and a difference, cleared: j is d x2 y2 x3 y3. */
  lemma CrossCleared(j: int, b: int, b': int, y: int, y': int)
    requires F((1 - j) * y) == F(b) && F((1 + j) * y') == F(b')
    ensures var e, g, h := 1 - j * j, 1 - j * j + b * b', b + b' + j * (b - b');
            F(e * ((1 + y) * (1 + y'))) == F(g + h) && F(e * ((1 - y) * (1 - y'))) == F(g - h)
  {
    hide F;
    Negated(1 - j, y, b);
    Negated(1 + j, y', b');
    SignsChange(j, b, b');
    HalfCleared(j, b, b', y, y');
    HalfCleared(j, -b, -b', -y, -y');
  }

  lemma ClearedPlus(j: int, y: int, y': int)
    ensures (1 - j * j) * ((1 + y) * (1 + y')) == (1 - j + (1 - j) * y) * (1 + j + (1 + j) * y')
  {
    var u, v := 1 - j, 1 + j;
    assert u * v == 1 - j * j;
    assert u + u * y == u * (1 + y) && v + v * y' == v * (1 + y');
    assert u * (1 + y) * (v * (1 + y')) == u * v * ((1 + y) * (1 + y'));
  }

  lemma PlusExpanded(j: int, b: int, b': int)
    ensures (1 - j + b) * (1 + j + b') == 1 - j * j + b * b' + (b + b' + j * (b - b'))
  {
  }

  /** The coordinates of the sum and the difference of two points, by their x and y. */
  lemma CrossRatio(d: int, t2: Point, t3: Point, y: int, y': int)
    requires On(d, t2) && On(d, t3) && F(1 - Joint(d, t2, t3)) != 0 && F(1 + Joint(d, t2, t3)) != 0
    requires F((1 - Joint(d, t2, t3)) * y) == F(t2.y * t3.y + t2.x * t3.x)
    requires F((1 + Joint(d, t2, t3)) * y') == F(t2.y * t3.y - t2.x * t3.x)
    ensures var f, g := t2.y - t3.y, t2.y + t3.y;
            F((1 + y) * (1 + y') * (f * f)) == F((1 - y) * (1 - y') * (g * g))
  {
    hide F, On;
    Equation(d, t2);
    Equation(d, t3);
    var (x2, y2, x3, y3, j) := (t2.x, t2.y, t3.x, t3.y, Joint(d, t2, t3));
    var r, x, q := y2 * y3, x2 * x3, y2 * y2 + y3 * y3;
    var k := d * (x2 * x2 * (x3 * x3));
    var e, g, h := 1 - j * j, 1 - j * j + (r + x) * (r - x), r + x + (r - x) + j * (r + x - (r - x));
    SquareProducts(d, x2, y2, x3, y3);
    SquaresRelation(d, x2 * x2, y2 * y2, x3 * x3, y3 * y3);
    BalancedRatio(g, h, q, r, k);
    CrossCleared(j, r + x, r - x, y, y');
    BothNotZero(j);
    Products(e * ((1 + y) * (1 + y')), g + h, q - 2 * r, q - 2 * r);
    Products(e * ((1 - y) * (1 - y')), g - h, q + 2 * r, q + 2 * r);
    SquaredDifference(y2, y3);
    var f, f' := (y2 - y3) * (y2 - y3), (y2 + y3) * (y2 + y3);
    Associate(e, (1 + y) * (1 + y'), f);
    Associate(e, (1 - y) * (1 - y'), f');
    Cancel(e, (1 + y) * (1 + y') * f, (1 - y) * (1 - y') * f');
  }

  lemma SquaredDifference(y2: int, y3: int)
    ensures (y2 - y3) * (y2 - y3) == y2 * y2 + y3 * y3 - 2 * (y2 * y3)
    ensures (y2 + y3) * (y2 + y3) == y2 * y2 + y3 * y3 + 2 * (y2 * y3)
  {
  }

  lemma SquareProducts(d: int, x2: int, y2: int, x3: int, y3: int)
    ensures x2 * y2 * (x2 * y2) == x2 * x2 * (y2 * y2) && x3 * y3 * (x3 * y3) == x3 * x3 * (y3 * y3)
    ensures var j, r, x, k := d * (x2 * y2 * (x3 * y3)), y2 * y3, x2 * x3, d * (x2 * x2 * (x3 * x3));
            && 1 - j * j + (r + x) * (r - x) ==
               1 - k * (d * (y2 * y2 * (y3 * y3))) + y2 * y2 * (y3 * y3) - x2 * x2 * (x3 * x3)
            && r + x + (r - x) + j * (r + x - (r - x)) == 2 * (r * (1 + k))
  {
    PairProducts(x2, y2, x3, y3);
    JointParts(d, x2 * x3, y2 * y3);
  }

  lemma PairProducts(x2: int, y2: int, x3: int, y3: int)
    ensures x2 * y2 * (x3 * y3) == x2 * x3 * (y2 * y3)
    ensures x2 * x3 * (x2 * x3) == x2 * x2 * (x3 * x3) && y2 * y3 * (y2 * y3) == y2 * y2 * (y3 * y3)
  {
  }

  lemma JointParts(d: int, x: int, r: int)
    ensures var j := d * (x * r);
            && j * j == d * (x * x) * (d * (r * r)) && (r + x) * (r - x) == r * r - x * x
            && j * (r + x - (r - x)) == 2 * (r * (d * (x * x))) && r * (1 + d * (x * x)) == r + r * (d * (x * x))
  {
  }

  lemma CrossProductsIs(s: int, l2: int, y2: int, x2: int, z2: int, l3: int, y3: int, x3: int, z3: int)
    requires s * s == 1
    requires F(x2) == F(l2 * (s * (1 + y2))) && F(z2) == F(l2 * (1 - y2))
    requires F(x3) == F(l3 * (s * (1 + y3))) && F(z3) == F(l3 * (1 - y3))
    ensures var m := l2 * l3;
            && F(x2 * x3 - z2 * z3) == F(2 * m * (y2 + y3)) && F(x2 * z3 - z2 * x3) == F(2 * (m * s) * (y2 - y3))
  {
    hide F;
    var m, f2, g2, f3, g3 := l2 * l3, l2 * (s * (1 + y2)), l2 * (1 - y2), l3 * (s * (1 + y3)), l3 * (1 - y3);
    Products(x2, f2, x3, f3);
    Products(z2, g2, z3, g3);
    Products(x2, f2, z3, g3);
    Products(z2, g2, x3, f3);
    CrossSpread(s, l2, y2, l3, y3);
    Reduce2(x2 * x3 - z2 * z3, 2 * m * (y2 + y3), 1, x2 * x3, f2 * f3, -1, z2 * z3, g2 * g3);
    Reduce2(x2 * z3 - z2 * x3, 2 * (m * s) * (y2 - y3), 1, x2 * z3, f2 * g3, -1, z2 * x3, g2 * f3);
  }

  lemma CrossSpread(s: int, l2: int, y2: int, l3: int, y3: int)
    requires s * s == 1
    ensures var m, f2, g2, f3, g3 := l2 * l3, l2 * (s * (1 + y2)), l2 * (1 - y2), l3 * (s * (1 + y3)), l3 * (1 - y3);
            f2 * f3 - g2 * g3 == 2 * m * (y2 + y3) && f2 * g3 - g2 * f3 == 2 * (m * s) * (y2 - y3)
  {
    FactorsApart(s, l2, l3, 1 + y2, 1 + y3);
    FactorsApart(s, l2, l3, 1 - y2, 1 - y3);
    FactorsApart(s, l2, l3, 1 + y2, 1 - y3);
    FactorsApart(s, l2, l3, 1 - y2, 1 + y3);
    UnitProducts(l2 * l3, y2, y3);
    UnitProducts(l2 * l3 * s, y2, -y3);
  }

  lemma UnitProducts(m: int, y2: int, y3: int)
    ensures m * ((1 + y2) * (1 + y3)) - m * ((1 - y2) * (1 - y3)) == 2 * m * (y2 + y3)
  {
    assert (1 + y2) * (1 + y3) - (1 - y2) * (1 - y3) == 2 * (y2 + y3);
    Differences(m, (1 + y2) * (1 + y3), (1 - y2) * (1 - y3));
  }

  lemma FactorsApart(s: int, l2: int, l3: int, u: int, v: int)
    requires s * s == 1
    ensures l2 * (s * u) * (l3 * (s * v)) == l2 * l3 * (u * v) && l2 * u * (l3 * v) == l2 * l3 * (u * v)
    ensures l2 * (s * u) * (l3 * v) == l2 * l3 * s * (u * v) && l2 * u * (l3 * (s * v)) == l2 * l3 * s * (u * v)
  {
    assert l2 * (s * u) * (l3 * (s * v)) == s * s * (l2 * l3 * (u * v));
  }

  /** The y of the sum and of the difference of two points. */
  lemma SumAndDifferenceY(d: int, t2: Point, t3: Point)
    requires Twisted(d, I) && On(d, t2) && On(d, t3)
    ensures var j, r, q := Joint(d, t2, t3), Add(d, t2, t3), Add(d, t3, Neg(t2));
            && F(1 - j) != 0 && F(1 + j) != 0
            && F((1 - j) * r.y) == F(t2.y * t3.y + t2.x * t3.x) && F((1 + j) * q.y) == F(t2.y * t3.y - t2.x * t3.x)
  {
    hide F, Twisted, Add, FNeg, On;
    var j, q, x := Joint(d, t2, t3), Add(d, t3, Neg(t2)), FNeg(t2.x);
    NegOn(d, t2);
    AddIs(d, I, t2, t3);
    Complete(d, I, t2, t3);
    AddIs(d, I, t3, Neg(t2));
    var w2, w3 := t2.x * t2.y, t3.x * t3.y;
    NegProducts(t2.x, t2.y, 0);
    NegProducts(t2.x, t3.x, 0);
    Products(w3, w3, x * t2.y, -w2);
    assert w3 * -w2 == -(w2 * w3);
    var j' := Joint(d, t3, Neg(t2));
    Reduce(1 - j', 1 + j, -d, w3 * (x * t2.y), -(w2 * w3));
    Products(1 - j', 1 + j, q.y, q.y);
    Exchanged(t3.x, x);
    Exchanged(t3.y, t2.y);
    Reduce(t3.y * t2.y + t3.x * x, t2.y * t3.y - t2.x * t3.x, 1, x * t3.x, -(t2.x * t3.x));
  }

  /** Pairs in the same ratio, neither of them 0 : 0, have a common factor. */
  lemma Proportional(m: int, n: int, x: int, z: int) returns (l: int)
    requires F(m * z) == F(n * x) && (F(m) != 0 || F(n) != 0) && (F(x) != 0 || F(z) != 0)
    ensures F(l) != 0 && F(x) == F(l * m) && F(z) == F(l * n)
  {
    hide F, Div;
    ZeroIs();
    if F(n) != 0 {
      l := Div(z, n);
      DivIs(z, n);
      Products(m, m, n * l, z);
      assert m * (n * l) == n * (l * m) && n * l == l * n;
      Cancel(n, x, l * m);
    } else {
      l := Div(x, m);
      DivIs(x, m);
      assert m * l == l * m;
      ZeroTimes(n, x);
      ZeroTimes(n, l);
      ZeroProduct(m, z);
    }
    if F(l) == 0 {
      ZeroTimes(l, m);
      ZeroTimes(l, n);
    }
  }

  lemma NotBothOnes(s: int, y: int)
    requires s * s == 1
    ensures F(s * (1 + y)) != 0 || F(1 - y) != 0
  {
    hide F;
    UnitNotZero(s);
    TwoNotZero();
    ZeroIs();
    if F(s * (1 + y)) == 0 && F(1 - y) == 0 {
      ZeroProduct(s, 1 + y);
      Reduce2(2, 0, 1, 1 + y, 0, 1, 1 - y, 0);
    }
  }

  /** If two points have y = 0, the y of their difference is 1 or -1. */
  lemma BothYZero(d: int, t2: Point, t3: Point, y: int)
    requires On(d, t2) && On(d, t3) && F((1 + Joint(d, t2, t3)) * y) == F(t2.y * t3.y - t2.x * t3.x)
    ensures F(t2.y) == 0 && F(t3.y) == 0 ==> F((1 - y) * (1 + y)) == 0
  {
    hide F, On, Joint;
    if F(t2.y) == 0 && F(t3.y) == 0 {
      ZeroY(d, t2);
      ZeroY(d, t3);
      JointOfZero(d, t2, t3);
      DifferenceOfZero(Joint(d, t2, t3), t2.x, t2.y, t3.x, t3.y, y);
    }
  }

  lemma JointOfZero(d: int, t2: Point, t3: Point)
    requires F(t2.y) == 0
    ensures F(Joint(d, t2, t3)) == 0
  {
    hide F;
    ZeroTimes(t2.y, t2.x);
    ZeroTimes(t2.x * t2.y, t3.x * t3.y);
    ZeroTimes(t2.x * t2.y * (t3.x * t3.y), d);
  }

  lemma DifferenceOfZero(j: int, x2: int, y2: int, x3: int, y3: int, y: int)
    requires F(j) == 0 && F(y2) == 0 && F(x2 * x2) == F(-1) && F(x3 * x3) == F(-1)
    requires F((1 + j) * y) == F(y2 * y3 - x2 * x3)
    ensures F((1 - y) * (1 + y)) == 0
  {
    hide F;
    var k := x2 * x3;
    ZeroIs();
    ZeroTimes(y2, y3);
    assert (1 + j) * y == y + y * j;
    Reduce(y + y * j, y, y, j, 0);
    Reduce(y2 * y3 - k, -k, 1, y2 * y3, 0);
    Products(y, -k, y, -k);
    Products(x2 * x2, -1, x3 * x3, -1);
    assert -k * -k == x2 * x2 * (x3 * x3);
    assert (1 - y) * (1 + y) == 1 - y * y;
    Reduce(1 - y * y, 0, -1, y * y, 1);
  }

  lemma ZeroY(d: int, t: Point)
    requires On(d, t) && F(t.y) == 0
    ensures F(t.x * t.x) == F(-1)
  {
    hide F, On;
    Equation(d, t);
    SquareOfX(d, t.x, t.y, t.x * t.y);
  }

  lemma SquareOfX(d: int, x: int, y: int, w: int)
    requires F(y * y - x * x) == F(1 + d * (w * w)) && F(y) == 0 && w == x * y
    ensures F(x * x) == F(-1)
  {
    hide F;
    var g, r, v := d * (w * w), y * y - x * x, y * y;
    ZeroIs();
    ZeroTimes(y, y);
    ZeroTimes(y, x);
    ZeroTimes(w, w);
    ZeroTimes(w * w, d);
    Reduce(r + 0, 1 + g, 1, r, 1 + g);
    Reduce(1 + g, 1, 1, g, 0);
    Reduce2(x * x, -1, 1, v, 0, -1, r, 1);
  }

  lemma SquaredCross(s: int, m: int, f: int, g: int, cx: int, cz: int)
    requires s * s == 1 && F(cx) == F(2 * m * g) && F(cz) == F(2 * (m * s) * f)
    ensures F(4 * (cx * cx)) == F(16 * (m * m) * (g * g)) && F(4 * (cz * cz)) == F(16 * (m * m) * (f * f))
  {
    hide F;
    Products(cx, 2 * m * g, cx, 2 * m * g);
    Products(cz, 2 * (m * s) * f, cz, 2 * (m * s) * f);
    SquaredFactor(m, g);
    SquaredFactor(m * s, f);
    assert m * s * (m * s) == m * m by { assert m * s * (m * s) == m * m * (s * s); }
    Reduce(4 * (cx * cx), 16 * (m * m) * (g * g), 4, cx * cx, 2 * m * g * (2 * m * g));
    Reduce(4 * (cz * cz), 16 * (m * m) * (f * f), 4, cz * cz, 2 * (m * s) * f * (2 * (m * s) * f));
  }

  lemma SquaredFactor(m: int, g: int)
    ensures 4 * (2 * m * g * (2 * m * g)) == 16 * (m * m) * (g * g)
  {
  }

  /** The ratio of the crossed products, the difference of the points being the one that u belongs to. */
  lemma CrossedRatio(s: int, u: int, m: int, f: int, g: int, y: int, y': int, x: int, z: int)
    requires s * s == 1 && F(u * (1 - y')) == F(s * (1 + y')) && F(1 - y') != 0
    requires F((1 + y) * (1 + y') * (f * f)) == F((1 - y) * (1 - y') * (g * g))
    requires F(x) == F(16 * (m * m) * (g * g)) && F(z) == F(16 * (m * m) * (f * f))
    ensures F(s * (1 + y) * (u * z)) == F((1 - y) * x)
  {
    hide F;
    var n, v := 16 * (m * m), 1 - y';
    Products(s, s, u * v, s * (1 + y'));
    assert s * (s * (1 + y')) == 1 + y' by { assert s * (s * (1 + y')) == s * s * (1 + y'); }
    var h := (1 + y) * (f * f);
    Products(h, h, s * (u * v), 1 + y');
    RatioRegrouped(s, u, v, y, y', f, g);
    Cancel(v, s * (1 + y) * (u * (f * f)), (1 - y) * (g * g));
    Products(s * (1 + y) * u, s * (1 + y) * u, z, n * (f * f));
    Products(1 - y, 1 - y, x, n * (g * g));
    Products(n, n, s * (1 + y) * (u * (f * f)), (1 - y) * (g * g));
    RatioScaled(s * (1 + y), u, z, n, f * f, 1 - y, g * g);
  }

  lemma RatioRegrouped(s: int, u: int, v: int, y: int, y': int, f: int, g: int)
    ensures (1 + y) * (f * f) * (s * (u * v)) == v * (s * (1 + y) * (u * (f * f)))
    ensures (1 + y) * (f * f) * (1 + y') == (1 + y) * (1 + y') * (f * f)
    ensures (1 - y) * v * (g * g) == v * ((1 - y) * (g * g))
  {
  }

  lemma RatioScaled(k: int, u: int, z: int, n: int, f: int, w: int, g: int)
    ensures k * u * z == k * (u * z) && k * u * (n * f) == n * (k * (u * f)) && w * (n * g) == n * (w * g)
  {
  }

  /** Crossed pairs stand for the sum, if u belongs to the difference and is not zero. */
  lemma AddStands(d: int, s: int, u: int, t2: Point, l2: int, x2: int, z2: int, t3: Point, l3: int, x3: int, z3: int)
      returns (l: int)
    requires Model(d, s) && On(d, t2) && On(d, t3) && Stands(s, t2, l2, x2, z2) && Stands(s, t3, l3, x3, z3)
    requires var y := Add(d, t3, Neg(t2)).y; F(u) != 0 && F(1 - y) != 0 && F(u * (1 - y)) == F(s * (1 + y))
    ensures var cx, cz := x2 * x3 - z2 * z3, x2 * z3 - z2 * x3;
            Stands(s, Add(d, t2, t3), l, 4 * (cx * cx), u * (4 * (cz * cz)))
  {
    hide F, Model, Twisted, Add, Joint, On, Neg;
    var cx, cz, m, f, g := x2 * x3 - z2 * z3, x2 * z3 - z2 * x3, l2 * l3, t2.y - t3.y, t2.y + t3.y;
    var r, q := Add(d, t2, t3), Add(d, t3, Neg(t2));
    ModelFacts(d, s);
    CrossProductsIs(s, l2, t2.y, x2, z2, l3, t3.y, x3, z3);
    SquaredCross(s, m, f, g, cx, cz);
    SumAndDifferenceY(d, t2, t3);
    CrossRatio(d, t2, t3, r.y, q.y);
    NonzeroProduct(l2, l3);
    CrossedRatio(s, u, m, f, g, r.y, q.y, 4 * (cx * cx), 4 * (cz * cz));
    BothYZero(d, t2, t3, q.y);
    NotBothCrossed(s, u, t2.y, t3.y, m, q.y, cx, cz);
    NotBothOnes(s, r.y);
    l := Proportional(s * (1 + r.y), 1 - r.y, 4 * (cx * cx), u * (4 * (cz * cz)));
  }

  lemma NotBothCrossed(s: int, u: int, y2: int, y3: int, m: int, y: int, cx: int, cz: int)
    requires s * s == 1 && F(m) != 0 && F(u) != 0 && F(1 - y) != 0 && F(u * (1 - y)) == F(s * (1 + y))
    requires F(y2) == 0 && F(y3) == 0 ==> F((1 - y) * (1 + y)) == 0
    requires F(4 * (cx * cx)) == F(16 * (m * m) * ((y2 + y3) * (y2 + y3)))
    requires F(4 * (cz * cz)) == F(16 * (m * m) * ((y2 - y3) * (y2 - y3)))
    ensures F(4 * (cx * cx)) != 0 || F(u * (4 * (cz * cz))) != 0
  {
    hide F;
    if F(4 * (cx * cx)) == 0 && F(u * (4 * (cz * cz))) == 0 {
      ZeroProduct(u, 4 * (cz * cz));
      SquareFactorZero(m, y2 + y3);
      SquareFactorZero(m, y2 - y3);
      HalvesZero(y2, y3);
      ZeroProduct(1 - y, 1 + y);
      ZeroTimes(1 + y, s);
      ZeroProduct(u, 1 - y);
    }
  }

  lemma SquareFactorZero(m: int, g: int)
    requires F(m) != 0 && F(16 * (m * m) * (g * g)) == 0
    ensures F(g) == 0
  {
    hide F;
    SixteenNotZero();
    NonzeroProduct(m, m);
    NonzeroProduct(16, m * m);
    ZeroProduct(16 * (m * m), g * g);
    ZeroProduct(g, g);
  }

  lemma SixteenNotZero()
    ensures F(16) != 0
  {
  }

  lemma HalvesZero(y2: int, y3: int)
    requires F(y2 + y3) == 0 && F(y2 - y3) == 0
    ensures F(y2) == 0 && F(y3) == 0
  {
    hide F;
    ZeroIs();
    TwoNotZero();
    Reduce2(2 * y2, 0, 1, y2 + y3, 0, 1, y2 - y3, 0);
    Reduce2(2 * y3, 0, 1, y2 + y3, 0, -1, y2 - y3, 0);
    ZeroProduct(2, y2);
    ZeroProduct(2, y3);
  }

  // ---- The ladder ----

  /** p is a point of one of the curves, other than its zero, and u is its u-coordinate. */
  ghost predicate Belongs(d: int, s: int, u: int, p: Point)
  {
    Model(d, s) && On(d, p) && F(1 - p.y) != 0 && F(u * (1 - p.y)) == F(s * (1 + p.y))
  }

  ghost predicate StandsFor(s: int, t: Point, x: int, z: int)
  {
    exists l :: Stands(s, t, l, x, z)
  }

  lemma StandsWitness(s: int, t: Point, l: int, x: int, z: int)
    requires Stands(s, t, l, x, z)
    ensures StandsFor(s, t, x, z)
  {
    hide F;
  }

  /** The registers hold the u-coordinates of m p and (m + 1) p, in the order that swap says. */
  ghost predicate Holds(d: int, s: int, p: Point, m: nat, r: Ladder)
  {
    if r.swap == 0 then StandsFor(s, Times(d, m, p), r.x2, r.z2) && StandsFor(s, Times(d, m + 1, p), r.x3, r.z3)
    else r.swap == 1 && StandsFor(s, Times(d, m + 1, p), r.x2, r.z2) && StandsFor(s, Times(d, m, p), r.x3, r.z3)
  }

  lemma SameStands(s: int, t: Point, x: int, z: int, x': int, z': int)
    requires StandsFor(s, t, x, z) && F(x') == F(x) && F(z') == F(z)
    ensures StandsFor(s, t, x', z')
  {
    hide F;
    var l :| Stands(s, t, l, x, z);
    assert Stands(s, t, l, x', z');
  }

  /** Neighbouring multiples differ by the point. */
  lemma Neighbours(d: int, m: nat, p: Point)
    requires Twisted(d, I) && On(d, p)
    ensures Add(d, Times(d, m + 1, p), Neg(Times(d, m, p))) == p
  {
    hide F, On, Twisted, Add, Neg;
    var t := Times(d, m, p);
    TimesOn(d, I, m, p);
    NegOn(d, t);
    Commutes(d, t, p);
    Associates(d, I, p, t, Neg(t));
    AddNeg(d, I, t);
    AddZero(d, I, p);
  }

  /** Doubling and crossing the pairs of m p and (m + 1) p. */
  lemma PairsTurned(d: int, s: int, u: int, p: Point, m: nat, x: int, z: int, x': int, z': int)
    requires Belongs(d, s, u, p) && F(u) != 0
    requires StandsFor(s, Times(d, m, p), x, z) && StandsFor(s, Times(d, m + 1, p), x', z')
    ensures var cx, cz := x * x' - z * z', x * z' - z * x';
            && StandsFor(s, Times(d, 2 * m, p), DoubleX(x, z), DoubleZ(x, z))
            && StandsFor(s, Times(d, 2 * m + 1, p), 4 * (cx * cx), u * (4 * (cz * cz)))
            && StandsFor(s, Times(d, 2 * m + 2, p), DoubleX(x', z'), DoubleZ(x', z'))
  {
    hide F, On, Twisted, Add, Neg, Stands, DoubleX, DoubleZ, Model, Times, Belongs;
    BelongsParts(d, s, u, p);
    var q, r := Times(d, m, p), Times(d, m + 1, p);
    ModelFacts(d, s);
    TimesOn(d, I, m, p);
    TimesOn(d, I, m + 1, p);
    TimesAdd(d, I, m, m, p);
    TimesAdd(d, I, m, m + 1, p);
    TimesAdd(d, I, m + 1, m + 1, p);
    Neighbours(d, m, p);
    var l :| Stands(s, q, l, x, z);
    var l' :| Stands(s, r, l', x', z');
    var k1 := DoubleStands(d, s, q, l, x, z);
    var k2 := DoubleStands(d, s, r, l', x', z');
    var k3 := AddStands(d, s, u, q, l, x, z, r, l', x', z');
    StandsWitness(s, Add(d, q, q), k1, DoubleX(x, z), DoubleZ(x, z));
    StandsWitness(s, Add(d, r, r), k2, DoubleX(x', z'), DoubleZ(x', z'));
    var cx, cz := x * x' - z * z', x * z' - z * x';
    StandsWitness(s, Add(d, q, r), k3, 4 * (cx * cx), u * (4 * (cz * cz)));
    assert m + m == 2 * m && m + (m + 1) == 2 * m + 1 && m + 1 + (m + 1) == 2 * m + 2;
  }

  lemma CrossSymmetric(x: int, z: int, x': int, z': int)
    ensures x * x' - z * z' == x' * x - z' * z
    ensures (x * z' - z * x') * (x * z' - z * x') == (x' * z - z' * x) * (x' * z - z' * x)
  {
    var c := x * z' - z * x';
    assert x' * z - z' * x == -c;
  }

  /** One turn of the RFC's loop takes the registers from m to 2 m + b. */
  lemma TurnHolds(d: int, s: int, u: int, p: Point, m: nat, b: int, r: Ladder)
    requires Belongs(d, s, u, p) && F(u) != 0 && Holds(d, s, p, m, r) && 0 <= b <= 1
    ensures Holds(d, s, p, 2 * m + b, Turn(u, Swapped(r, (r.swap + b) % 2)).(swap := b))
  {
    hide F, Belongs, StandsFor, DoubleX, DoubleZ, Turn, Times;
    var w := Swapped(r, (r.swap + b) % 2);
    var t := Turn(u, w);
    TurnFormulas(u, w);
    FIdempotent(DoubleX(w.x2, w.z2));
    FIdempotent(DoubleZ(w.x2, w.z2));
    FIdempotent(4 * (CrossX(w) * CrossX(w)));
    FIdempotent(u * (4 * (CrossZ(w) * CrossZ(w))));
    if b == 0 {
      PairsTurned(d, s, u, p, m, w.x2, w.z2, w.x3, w.z3);
      SameStands(s, Times(d, 2 * m, p), DoubleX(w.x2, w.z2), DoubleZ(w.x2, w.z2), t.x2, t.z2);
    } else {
      PairsTurned(d, s, u, p, m, w.x3, w.z3, w.x2, w.z2);
      CrossSymmetric(w.x2, w.z2, w.x3, w.z3);
      SameStands(s, Times(d, 2 * m + 2, p), DoubleX(w.x2, w.z2), DoubleZ(w.x2, w.z2), t.x2, t.z2);
    }
    SameStands(s, Times(d, 2 * m + 1, p), 4 * (CrossX(w) * CrossX(w)), u * (4 * (CrossZ(w) * CrossZ(w))), t.x3, t.z3);
  }

  lemma BelongsParts(d: int, s: int, u: int, p: Point)
    requires Belongs(d, s, u, p)
    ensures Model(d, s) && On(d, p)
    ensures F(1 - p.y) != 0 && F(u * (1 - p.y)) == F(s * (1 + p.y))
  {
    hide F, Model, On;
  }

  /** 1 : 0 stands for the zero of the curve. */
  lemma ZeroStands(s: int)
    requires s * s == 1
    ensures StandsFor(s, ZERO, 1, 0)
  {
    hide F, Div;
    ZeroIs();
    TwoNotZero();
    UnitNotZero(s);
    NonzeroProduct(s, 2);
    var l := Div(1, s * 2);
    DivIs(1, s * 2);
    assert l * (s * (1 + 1)) == s * 2 * l && l * (1 - 1) == 0;
    if F(l) == 0 {
      ZeroTimes(l, s * 2);
    }
    StandsWitness(s, ZERO, l, 1, 0);
  }

  /** u : 1 stands for a point that u belongs to. */
  lemma AffineStands(s: int, u: int, p: Point)
    requires F(1 - p.y) != 0 && F(u * (1 - p.y)) == F(s * (1 + p.y))
    ensures StandsFor(s, p, u, 1)
  {
    hide F, Div;
    var k, v := Div(1, 1 - p.y), 1 - p.y;
    ZeroIs();
    DivIs(1, v);
    assert v * k == k * v;
    Products(k, k, u * v, s * (1 + p.y));
    assert k * (u * v) == u * (k * v);
    Products(u, u, k * v, 1);
    if F(k) == 0 {
      ZeroTimes(k, v);
    }
    StandsWitness(s, p, k, u, 1);
  }

  lemma FirstRegisters(d: int, s: int, u: int, p: Point)
    requires Belongs(d, s, u, p)
    ensures Holds(d, s, p, 0, Ladder(1, 0, u, 1, 0))
  {
    hide F, Model, Twisted, Add, On, Belongs, StandsFor;
    BelongsParts(d, s, u, p);
    ModelFacts(d, s);
    ZeroStands(s);
    AffineStands(s, u, p);
    ZeroOn(d);
    AddZero(d, I, p);
    Commutes(d, p, ZERO);
    assert Times(d, 1, p) == Add(d, Times(d, 0, p), p);
  }

  lemma BitsOnTop(k: nat, t: nat)
    ensures k / Pow2(t) == 2 * (k / Pow2(t + 1)) + Bit(k, t) && 0 <= Bit(k, t) <= 1 && k / Pow2(t + 1) >= 0
  {
    hide Pow2;
    PowStep2(t);
    DivNonNegative(k, Pow2(t + 1));
    Radix.DivTwice(k, Pow2(t), 2);
  }

  lemma PowStep2(t: nat)
    ensures Pow2(t + 1) == Pow2(t) * 2
  {
    Bits.PowStep(t);
  }

  /** After the bits of k from t on, the registers hold k / 2^t times the point. */
  lemma {:induction false} RegistersHold(d: int, s: int, u: int, p: Point, k: nat, t: nat)
    requires Belongs(d, s, u, p) && F(u) != 0 && t <= 255 && k < Pow2(255)
    ensures k / Pow2(t) >= 0 && Holds(d, s, p, k / Pow2(t), Registers(k, u, t))
    decreases 255 - t
  {
    hide F, Belongs, Holds, Turn, Pow2, Swapped, Bit;
    if t == 255 {
      FirstRegisters(d, s, u, p);
      DivSmall(k, Pow2(255));
    } else {
      RegistersHold(d, s, u, p, k, t + 1);
      BitsOnTop(k, t);
      TurnHolds(d, s, u, p, k / Pow2(t + 1), Bit(k, t), Registers(k, u, t + 1));
    }
  }

  lemma DivSmall(k: nat, n: nat)
    requires k < n
    ensures k / n == 0
  {
  }

  // ---- The result ----

  /** The u-coordinate of a point: 0 for the zero of the curve. */
  ghost function UOf(s: int, t: Point): int
  {
    Div(s * (1 + t.y), 1 - t.y)
  }

  lemma DivByZero(a: int, b: int)
    requires F(b) == 0
    ensures Div(a, b) == 0
  {
    hide F, FMul;
    ZeroIs();
    QuadraticResidues.PowStep(b, P - 2);
    MulIs(b, FPow(b, P - 3));
    ZeroTimes(b, FPow(b, P - 3));
    MulIs(a, 0);
    assert a * 0 == 0;
  }

  lemma DivUnique(a: int, b: int, q: int)
    requires F(b) != 0 && F(b * q) == F(a)
    ensures Div(a, b) == F(q)
  {
    hide F, Div;
    DivIs(a, b);
    Cancel(b, Div(a, b), q);
    FOfSmall(Div(a, b));
  }

  /** The last division gives the u-coordinate. */
  lemma DivisionGives(s: int, t: Point, x: int, z: int)
    requires StandsFor(s, t, x, z)
    ensures Div(x, z) == UOf(s, t)
  {
    hide F, Div;
    var m, n := s * (1 + t.y), 1 - t.y;
    var l :| Stands(s, t, l, x, z);
    if F(n) == 0 {
      ZeroTimes(n, l);
      DivByZero(x, z);
      DivByZero(m, n);
    } else {
      NonzeroProduct(l, n);
      var q := Div(m, n);
      DivIs(m, n);
      Products(l, l, n * q, m);
      assert l * (n * q) == l * n * q;
      Products(z, l * n, q, q);
      DivUnique(x, z, q);
      FOfSmall(q);
    }
  }

  // ---- u = 0 ----

  /** With u = 0 the denominators are zero after every turn. */
  lemma {:induction false} ZeroRegisters(k: nat, u: int, t: nat)
    requires F(u) == 0 && t <= 255
    ensures var r := Registers(k, u, t); F(r.x2 * r.z2) == 0 && F(r.x3 * r.z3) == 0 && (t < 255 ==> F(r.z2) == 0)
    decreases 255 - t
  {
    hide F, Turn, Bit;
    ZeroIs();
    if t == 255 {
      assert u * 1 == u && 1 * 0 == 0;
    } else {
      ZeroRegisters(k, u, t + 1);
      var r := Registers(k, u, t + 1);
      ZeroTurn(u, Swapped(r, (r.swap + Bit(k, t)) % 2));
    }
  }

  lemma ZeroTurn(u: int, w: Ladder)
    requires F(u) == 0 && F(w.x2 * w.z2) == 0
    ensures var t := Turn(u, w); F(t.z2) == 0 && F(t.x2 * t.z2) == 0 && F(t.x3 * t.z3) == 0
  {
    hide F, Turn, DoubleX;
    var t := Turn(u, w);
    TurnFormulas(u, w);
    var q := w.x2 * w.x2 + A * (w.x2 * w.z2) + w.z2 * w.z2;
    ZeroTimes(w.x2 * w.z2, 4);
    ZeroTimes(4 * (w.x2 * w.z2), q);
    ZeroTimes(u, 4 * (CrossZ(w) * CrossZ(w)));
    FIdempotent(DoubleZ(w.x2, w.z2));
    FIdempotent(u * (4 * (CrossZ(w) * CrossZ(w))));
    ZeroTimes(t.z2, t.x2);
    ZeroTimes(t.z3, t.x3);
  }

  /** The point of u = 0 is its own inverse, so that its even multiples are zero. */
  lemma ZeroPoint(d: int, s: int, u: int, p: Point)
    requires Belongs(d, s, u, p) && F(u) == 0
    ensures Add(d, p, p) == ZERO
  {
    hide F, Model, Twisted, Add, FNeg, On, Belongs;
    BelongsParts(d, s, u, p);
    Equation(d, p);
    Ranges(d, p);
    ModelFacts(d, s);
    UnitNotZero(s);
    ZeroIs();
    var (x, y, w) := (p.x, p.y, p.x * p.y);
    ZeroTimes(u, 1 - y);
    ZeroProduct(s, 1 + y);
    Reduce(y, -1, 1, 1 + y, 0);
    Products(y, -1, y, -1);
    Products(y * y, 1, x * x, x * x);
    assert w * w == y * y * (x * x);
    ZeroX(d, x, y, w);
    ZeroProduct(1 + d, x * x);
    ZeroProduct(x, x);
    FOfSmall(x);
    NegOfZero();
    AddNeg(d, I, p);
  }

  lemma NegOfZero()
    ensures FNeg(0) == 0
  {
  }

  lemma ZeroX(d: int, x: int, y: int, w: int)
    requires F(y * y - x * x) == F(1 + d * (w * w)) && F(y * y) == F(1) && F(w * w) == F(1 * (x * x))
    ensures F((1 + d) * (x * x)) == F(0)
  {
    hide F;
    var a, v, r := x * x, y * y, y * y - x * x;
    assert (1 + d) * a == a + d * a;
    assert d * (w * w) - d * a == d * (w * w - 1 * a);
    Reduce4((1 + d) * a, 0, -1, r, 1 + d * (w * w), 1, v, 1, -d, w * w, 1 * a, 0, 0, 0);
  }

  lemma {:induction false} EvenMultiples(d: int, p: Point, n: nat)
    requires Twisted(d, I) && On(d, p) && Add(d, p, p) == ZERO
    ensures Times(d, 2 * n, p) == ZERO
  {
    hide F, On, Twisted, Add;
    ZeroOn(d);
    if n == 0 {
    } else {
      EvenMultiples(d, p, n - 1);
      AddZero(d, I, p);
      Commutes(d, ZERO, p);
      assert Times(d, 2 * n - 1, p) == Add(d, Times(d, 2 * n - 2, p), p);
    }
  }

  // ---- X25519 computes multiples ----

  lemma ClampedBounds(k: nat)
    ensures Clamped(k) < Pow2(255) && Clamped(k) % 2 == 0
  {
    hide Pow2;
    Pow2Of255();
    X25519.ClampedEven(k);
  }

  /** For the u-coordinate of a point of either curve, X25519 is that of the multiple by the clamped scalar. */
  lemma ComputesMultiple(d: int, s: int, p: Point, k: nat, u: nat)
    requires Belongs(d, s, F(u % T255), p)
    ensures X25519Spec.X25519(k, u) == UOf(s, Times(d, Clamped(k), p))
  {
    hide F, Pow2, Clamped, Registers, Model, Twisted, Times, X25519Spec.X25519, Belongs, On;
    var v, n := F(u % T255), Clamped(k);
    var r := Registers(n, v, 0);
    X25519.NoFinalSwap(k, v);
    X25519.Unswapped(k, u);
    ClampedBounds(k);
    BelongsParts(d, s, v, p);
    ModelFacts(d, s);
    FIdempotent(u % T255);
    if F(v) == 0 {
      ZeroRegisters(n, v, 0);
      ZeroPoint(d, s, v, p);
      EvenMultiples(d, p, n / 2);
      ZeroIs();
      DivByZero(r.x2, r.z2);
      DivByZero(s * (1 + 1), 1 - 1);
    } else {
      RegistersHold(d, s, v, p, n, 0);
      Bits.PowZero();
      DivisionGives(s, Times(d, n, p), r.x2, r.z2);
    }
  }

  // ---- Every u belongs to a point ----

  /** u^2 + A u + 1 is never zero. */
  lemma MiddleNotZero(u: int)
    ensures F(u * u + A * u + 1) != 0
  {
    hide F;
    var n, t := u * u + A * u + 1, 2 * u + A;
    ZeroIs();
    if F(n) == 0 {
      assert t * t == 4 * n + 236839902240;
      Reduce(t * t, 236839902240, 4, n, 0);
      RootsOfDiscriminant();
      Reduce(2 * (t * t), 2 * 236839902240, 2, t * t, 236839902240);
      TwiceSquare(t, 4 * (R1 * R2));
      ZeroTimes(t, t);
      DiscriminantNotZero();
    }
  }

  lemma DiscriminantNotZero()
    ensures F(236839902240) != 0
  {
  }

  lemma RootsOfDiscriminant()
    ensures F(4 * (R1 * R2) * (4 * (R1 * R2))) == F(2 * 236839902240)
  {
    hide F, R1, R2;
    Roots();
    Products(R1 * R1, 243330, R2 * R2, 121666);
    FourSquared(R1, R2);
    Reduce(16 * (R1 * R1 * (R2 * R2)), 16 * (243330 * 121666), 16, R1 * R1 * (R2 * R2), 243330 * 121666);
  }

  lemma FourSquared(a: int, b: int)
    ensures 4 * (a * b) * (4 * (a * b)) == 16 * (a * a * (b * b))
  {
  }

  /** A point from c y = b and n x^2 = q (b^2 - c^2), where n = q (c^2 + d b^2). */
  lemma CurveFrom(d: int, q: int, n: int, b: int, c: int, x: int, y: int)
    requires F(c * y) == F(b) && F(n * (x * x)) == F(q * (b * b - c * c)) && F(q * (c * c + d * (b * b))) == F(n)
    requires F(q) != 0 && F(c) != 0
    ensures F(y * y - x * x) == F(1 + d * (x * y * (x * y)))
  {
    hide F;
    var a, v, m, z := x * x, y * y, c * c, b * b;
    Products(c * y, b, c * y, b);
    assert c * y * (c * y) == m * v;
    NonzeroProduct(c, c);
    assert x * y * (x * y) == a * v;
    SquaresFrom(d, q, n, m, z, a, v);
  }

  lemma SquaresFrom(d: int, q: int, n: int, m: int, z: int, a: int, v: int)
    requires F(m * v) == F(z) && F(n * a) == F(q * (z - m)) && F(q * (m + d * z)) == F(n) && F(q) != 0 && F(m) != 0
    ensures F(v - a) == F(1 + d * (a * v))
  {
    hide F;
    Products(q * (m + d * z), n, a, a);
    NonzeroProduct(q, m);
    CurveSides(q, m, d, z, a, v);
    Reduce(q * (m * v - m), q * (z - m), q, m * v, z);
    Reduce(q * a * (m + d * (m * v)), q * a * (m + d * z), q * a * d, m * v, z);
    Cancel(q * m, v - 1, a * (1 + d * v));
    assert a * (1 + d * v) == a + d * (a * v);
    Reduce(v - a, 1 + d * (a * v), 1, v - 1, a + d * (a * v));
  }

  lemma CurveSides(q: int, m: int, d: int, z: int, a: int, v: int)
    ensures q * m * (v - 1) == q * (m * v - m) && q * m * (a * (1 + d * v)) == q * a * (m + d * (m * v))
    ensures q * (m + d * z) * a == q * a * (m + d * z)
    ensures q * a * (m + d * (m * v)) == q * a * (m + d * z) + q * a * d * (m * v - z)
  {
    assert m * (a * (1 + d * v)) == a * (m + d * (m * v));
    assert m + d * (m * v) == m + d * z + d * (m * v - z);
  }

  /** u (1 - y) = s (1 + y) for the y with (u + s) y = u - s. */
  lemma CoordinateFrom(u: int, s: int, y: int)
    requires s * s == 1 && F((u + s) * y) == F(u - s) && F(u + s) != 0
    ensures F(u * (1 - y)) == F(s * (1 + y)) && F(1 - y) != 0
  {
    hide F;
    var c, b := u + s, u - s;
    UnitNotZero(s);
    TwoNotZero();
    NonzeroProduct(2, s);
    assert c * (1 - y) == c - c * y;
    Reduce(c * (1 - y), 2 * s, -1, c * y, b);
    if F(1 - y) == 0 {
      ZeroTimes(1 - y, c);
    }
    Products(u, u, c * (1 - y), 2 * s);
    assert c * (s * (1 + y)) == s * c + s * (c * y);
    Reduce(c * (s * (1 + y)), s * c + s * b, s, c * y, b);
    assert s * c + s * b == u * (2 * s) by { assert c + b == 2 * u; Differences(s, c, b); }
    assert c * (u * (1 - y)) == u * (c * (1 - y));
    Cancel(c, u * (1 - y), s * (1 + y));
  }

  /** n x^2 = q e from (n x)^2 = h^2 = q e n. */
  lemma RootFrom(n: int, x: int, h: int, w: int)
    requires F(n * x) == F(h) && F(h * h) == F(n * w) && F(n) != 0
    ensures F(n * (x * x)) == F(w)
  {
    hide F;
    Products(n * x, h, n * x, h);
    assert n * x * (n * x) == n * (n * (x * x));
    Cancel(n, n * (x * x), w);
  }

  lemma SquaresOfSides(u: int, s: int, q: int)
    ensures q * ((u - s) * (u - s) - (u + s) * (u + s)) == -4 * (q * (s * u))
  {
    assert (u - s) * (u - s) - (u + s) * (u + s) == -4 * (s * u);
  }

  /** The point with (u + s) y = u - s and n x = h is on the curve. */
  lemma CoordinatesOn(d: int, s: int, q: int, u: int, n: int, h: int, x: int, y: int)
    requires F(q) != 0 && F(u + s) != 0 && F(n) != 0 && x == Div(h, n) && y == Div(u - s, u + s)
    requires F(q * ((u + s) * (u + s) + d * ((u - s) * (u - s)))) == F(n) && F(h * h) == F(n * (-4 * (q * (s * u))))
    ensures F((u + s) * y) == F(u - s) && F(y * y - x * x) == F(1 + d * (x * y * (x * y)))
  {
    hide F, Div;
    var c, b := u + s, u - s;
    DivIs(h, n);
    DivIs(b, c);
    RootFrom(n, x, h, -4 * (q * (s * u)));
    SquaresOfSides(u, s, q);
    CurveFrom(d, q, n, b, c, x, y);
  }

  lemma SidesFirst(u: int)
    ensures F(121666 * ((u + 1) * (u + 1) + D * ((u - 1) * (u - 1)))) == F(u * u + A * u + 1)
  {
    hide F;
    DIs();
    var m, z := (u + 1) * (u + 1), (u - 1) * (u - 1);
    assert m == u * u + 2 * u + 1 && z == u * u - 2 * u + 1;
    assert 121666 * (m + D * z) == 121666 * m + z * (121666 * D);
    Reduce(121666 * (m + D * z), u * u + A * u + 1, z, 121666 * D, -121665);
  }

  lemma SidesSecond(u: int)
    ensures F(-121665 * ((u + -1) * (u + -1) + DINV * ((u - -1) * (u - -1)))) == F(u * u + A * u + 1)
  {
    hide F;
    InverseIs();
    var m, z := (u - 1) * (u - 1), (u + 1) * (u + 1);
    assert z == u * u + 2 * u + 1 && m == u * u - 2 * u + 1;
    assert -121665 * (m + DINV * z) == -121665 * m + z * (-121665 * DINV);
    Reduce(-121665 * (m + DINV * z), u * u + A * u + 1, z, -121665 * DINV, 121666);
  }

  lemma InverseIs()
    ensures F(-121665 * DINV) == F(121666)
  {
    hide F;
    DIs();
    DInverse();
    ZeroIs();
    Products(121666 * D, -121665, DINV, DINV);
    assert 121666 * D * DINV == 121666 * (D * DINV);
    Products(121666, 121666, D * DINV, 1);
  }

  /** 486660 = A - 2 is no square, and 2 * 486664 = 2 (A + 2) neither. */
  lemma NotRoots(r: int)
    ensures Square(r) != F(486660) && Square(r) != F(973328)
  {
    hide F, R1, R2;
    Roots();
    SmallSquares();
    if Square(r) == F(486660) {
      assert 2 * R1 * (2 * R1) == 4 * (R1 * R1);
      Reduce(2 * (r * r), 973320, 2, r * r, 486660);
      Reduce(2 * R1 * (2 * R1), 973320, 4, R1 * R1, 243330);
      TwiceSquare(r, 2 * R1);
      ZeroTimes(r, r);
    } else if Square(r) == F(973328) {
      assert 2 * R2 * (2 * R2) == 4 * (R2 * R2);
      Reduce(2 * (2 * R2 * (2 * R2)), 973328, 8, R2 * R2, 121666);
      Reduce(2 * R2 * (2 * R2), 486664, 4, R2 * R2, 121666);
      TwiceSquare(2 * R2, r);
      ZeroTimes(2 * R2, 2 * R2);
    }
  }

  lemma SmallSquares()
    ensures F(486660) != 0 && F(486664) != 0
  {
  }

  lemma RootsTimes(k: int, r: int, a: int, f: int)
    requires F(r * r) == F(a) && F(k * k) == F(f)
    ensures F(I * r * k * (I * r * k)) == F(-(a * f))
  {
    hide F;
    MinusOneRoot();
    RootProduct(I, r, k);
    Products(r * r, a, k * k, f);
    Products(I * I, -1, r * r * (k * k), a * f);
    assert -1 * (a * f) == -(a * f);
  }

  lemma FirstRoot(u: int, r: int) returns (h: int)
    requires F(u) != 0 && Square(r) == F(u * (u * u + A * u + 1))
    ensures F(u + 1) != 0 && F(h * h) == F((u * u + A * u + 1) * (-4 * (121666 * (1 * u))))
  {
    hide F, R1, R2;
    var n := u * u + A * u + 1;
    if F(u + 1) == 0 {
      ZeroIs();
      NotRoots(r);
      AtMinusOne(u);
    }
    Roots();
    RootsTimes(r, R2, 121666, u * n);
    var k := I * R2 * r;
    h := 2 * k;
    assert h * h == 4 * (k * k);
    assert n * (-4 * (121666 * (1 * u))) == 4 * -(121666 * (u * n));
    Reduce(h * h, 4 * -(121666 * (u * n)), 4, k * k, -(121666 * (u * n)));
  }

  lemma SecondRoot(u: int, r: int) returns (h: int)
    requires F(u) != 0 && Square(r) == F(2 * (u * (u * u + A * u + 1)))
    ensures F(u + -1) != 0 && F(h * h) == F((u * u + A * u + 1) * (-4 * (-121665 * (-1 * u))))
  {
    hide F, R1, R2;
    var n := u * u + A * u + 1;
    if F(u + -1) == 0 {
      NotRoots(r);
      AtOne(u);
    }
    Roots();
    RootsTimes(r, R1, 243330, 2 * (u * n));
    assert n * (-4 * (-121665 * (-1 * u))) == -(243330 * (2 * (u * n)));
    h := I * R1 * r;
  }

  lemma NotZeroNegated(q: int)
    requires F(q) != 0
    ensures F(-q) != 0
  {
    hide F;
    ZeroIs();
    if F(-q) == 0 {
      Reduce(q, 0, -1, -q, 0);
    }
  }

  lemma AtMinusOne(u: int)
    requires F(u + 1) == 0
    ensures F(u * (u * u + A * u + 1)) == F(486660)
  {
    hide F;
    ZeroIs();
    assert u * (u * u + A * u + 1) == 486660 + (u * u + 486661 * u - 486660) * (u + 1 - 0) by { AtMinusOneExact(u); }
    Reduce(u * (u * u + A * u + 1), 486660, u * u + 486661 * u - 486660, u + 1, 0);
  }

  lemma AtMinusOneExact(u: int)
    ensures u * (u * u + A * u + 1) == 486660 + (u * u + 486661 * u - 486660) * (u + 1)
  {
  }

  lemma AtOne(u: int)
    requires F(u + -1) == 0
    ensures F(2 * (u * (u * u + A * u + 1))) == F(973328)
  {
    hide F;
    ZeroIs();
    AtOneExact(u);
    Reduce(2 * (u * (u * u + A * u + 1)), 973328, 2 * (u * u + 486663 * u + 486664), u + -1, 0);
  }

  lemma AtOneExact(u: int)
    ensures 2 * (u * (u * u + A * u + 1)) == 973328 + 2 * (u * u + 486663 * u + 486664) * (u + -1 - 0)
  {
  }

  lemma PointOfZero()
    ensures Belongs(D, 1, 0, Point(0, P - 1))
  {
    hide F, Decompress.D, On;
    FIs((P - 1) * (P - 1) - 0 * 0, P - 2, 1);
    FIs(1 + D * 0, 0, 1);
    FIs(1 - (P - 1), -1, 2);
    FIs(0, 0, 0);
    FIs(P, 1, 0);
    OnFrom(D, Point(0, P - 1));
  }

  /** Every residue is the u-coordinate of a point of edwards25519 or of its twist. */
  lemma EveryU(u: int) returns (d: int, s: int, p: Point)
    requires 0 <= u < P
    ensures Belongs(d, s, u, p)
  {
    hide F, Div, Decompress.D, On;
    FOfSmall(u);
    if u == 0 {
      d, s, p := D, 1, Point(0, P - 1);
      PointOfZero();
    } else {
      var n := u * u + A * u + 1;
      var q, h;
      MiddleNotZero(u);
      NonzeroProduct(u, n);
      SmallNumbers();
      NotZeroNegated(121665);
      var r := RootOfOne(u * n);
      if Square(r) == F(u * n) {
        h := FirstRoot(u, r);
        SidesFirst(u);
        d, s, q := D, 1, 121666;
      } else {
        h := SecondRoot(u, r);
        SidesSecond(u);
        d, s, q := DINV, -1, -121665;
      }
      p := Point(Div(h, n), Div(u - s, u + s));
      CoordinatesOn(d, s, q, u, n, h, p.x, p.y);
      CoordinateFrom(u, s, p.y);
      OnFrom(d, p);
    }
  }

  /**
   * X25519 of RFC 7748, for every scalar and every u: it is the u-coordinate of the multiple, by the clamped scalar,
   * of a point with that u-coordinate, on edwards25519 or on its twist.
   */
  lemma X25519Multiplies(k: nat, u: nat) returns (d: int, s: int, p: Point)
    ensures Belongs(d, s, F(u % T255), p)
    ensures X25519Spec.X25519(k, u) == UOf(s, Times(d, Clamped(k), p))
  {
    hide F, Belongs, X25519Spec.X25519, UOf, Clamped;
    d, s, p := EveryU(F(u % T255));
    ComputesMultiple(d, s, p, k, u);
  }
}
