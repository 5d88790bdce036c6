/** The curve -x^2 + y^2 = 1 + d x^2 y^2 over the field, for a d that is no square: its points are an abelian group. */
module Edwards {
  import opened Field25519
  import opened FieldLaws
  import opened EdwardsAlgebra

  datatype Point = Point(x: int, y: int)

  /** The equation of the curve in the operations of the field; OnIs writes it out. */
  predicate On(d: int, p: Point)
  {
    && 0 <= p.x < P && 0 <= p.y < P
    && FSub(FSq(p.y), FSq(p.x)) == FAdd(1, FMul(FMul(d, FSq(p.x)), FSq(p.y)))
  }

  lemma OnIs(d: int, x: int, y: int)
    ensures FSub(FSq(y), FSq(x)) == FAdd(1, FMul(FMul(d, FSq(x)), FSq(y))) <==>
            F(y * y - x * x) == F(1 + d * (x * y * (x * y)))
  {
    hide F, FMul, FAdd, FSub;
    var a, b, w := x * x, y * y, x * y;
    ProductIs(x, x, x, x);
    ProductIs(y, y, y, y);
    ProductIs(d, d, FSq(x), a);
    ProductIs(FMul(d, FSq(x)), d * a, FSq(y), b);
    SumIs(FSq(y), b, FSq(x), a);
    SumIs(1, 1, FMul(FMul(d, FSq(x)), FSq(y)), d * a * b);
    assert d * a * b == d * (w * w);
    RangesOf(FSq(y), FSq(x), 1, FMul(FMul(d, FSq(x)), FSq(y)));
  }

  lemma Equation(d: int, p: Point)
    requires On(d, p)
    ensures F(p.y * p.y - p.x * p.x) == F(1 + d * (p.x * p.y * (p.x * p.y)))
  {
    hide F, FMul, FAdd, FSub;
    OnIs(d, p.x, p.y);
  }

  lemma Ranges(d: int, p: Point)
    requires On(d, p)
    ensures 0 <= p.x < P && 0 <= p.y < P
  {
    hide F, FMul, FAdd, FSub;
  }

  lemma OnFrom(d: int, p: Point)
    requires 0 <= p.x < P && 0 <= p.y < P && F(p.y * p.y - p.x * p.x) == F(1 + d * (p.x * p.y * (p.x * p.y)))
    ensures On(d, p)
  {
    hide F, FMul, FAdd, FSub;
    OnIs(d, p.x, p.y);
  }

  lemma RangesOf(a: int, b: int, c: int, d: int)
    ensures F(FSub(a, b)) == FSub(a, b) && F(FAdd(c, d)) == FAdd(c, d)
  {
    hide F;
    FIdempotent(a - b);
    FIdempotent(c + d);
  }

  function Square(z: int): int
  {
    F(z * z)
  }

  /** d has no square root, but -1 has: i. */
  ghost predicate Twisted(d: int, i: int)
  {
    Square(i) == F(-1) && forall z :: Square(z) != F(d)
  }

  /** What two points contribute to the denominators of their sum. */
  function Joint(d: int, p: Point, q: Point): int
  {
    d * (p.x * p.y * (q.x * q.y))
  }

  ghost function Add(d: int, p: Point, q: Point): Point
  {
    Point(Div(p.x * q.y + p.y * q.x, 1 + Joint(d, p, q)), Div(p.y * q.y + p.x * q.x, 1 - Joint(d, p, q)))
  }

  const ZERO := Point(0, 1)

  function Neg(p: Point): Point
  {
    Point(FNeg(p.x), p.y)
  }

  // ---- Denominators are never zero ----

  lemma SquareQuotient(d: int, n: int, h: int)
    requires F(n * n) == F(d * (h * h)) && F(h) != 0
    ensures Square(Div(n, h)) == F(d)
  {
    hide F, Div;
    var z := Div(n, h);
    DivIs(n, h);
    Products(h * z, n, h * z, n);
    assert (h * z) * (h * z) == (h * h) * (z * z);
    assert d * (h * h) == (h * h) * d;
    NonzeroProduct(h, h);
    Cancel(h * h, z * z, d);
  }

  lemma NonzeroProduct(a: int, b: int)
    requires F(a) != 0 && F(b) != 0
    ensures F(a * b) != 0
  {
    hide F;
    if F(a * b) == 0 {
      ZeroProduct(a, b);
    }
  }

  lemma RootSquare(j: int, x: int, y: int)
    requires F(j * j) == F(-1)
    ensures F((y + j * x) * (y + j * x)) == F(y * y - x * x + 2 * j * (x * y))
  {
    hide F;
    assert (y + j * x) * (y + j * x) == y * y - x * x + 2 * j * (x * y) + x * x * (j * j - -1);
    Reduce((y + j * x) * (y + j * x), y * y - x * x + 2 * j * (x * y), x * x, j * j, -1);
  }

  /** If d w1 w2 = e is 1 or -1, then d w1^2 (r2 + 2 j e w2) is r1 + 2 j w1. */
  lemma JointOne(d: int, j: int, e: int, w1: int, w2: int, r1: int, r2: int)
    requires F(r1) == F(1 + d * (w1 * w1)) && F(r2) == F(1 + d * (w2 * w2))
    requires F(d * (w1 * w2)) == F(e) && e * e == 1
    ensures F(d * (w1 * w1) * (r2 + 2 * (j * e) * w2)) == F(r1 + 2 * j * w1)
  {
    hide F;
    var s, g := d * (w1 * w2), d * (w1 * w1);
    Products(s, e, s, e);
    JointExact(d, j, e, w1, w2, r1, r2);
    Reduce4(g * (r2 + 2 * (j * e) * w2), r1 + 2 * j * w1,
            g, r2, 1 + d * (w2 * w2), 1, s * s, e * e, 2 * j * e * w1, s, e, -1, r1, 1 + g);
  }

  lemma JointExact(d: int, j: int, e: int, w1: int, w2: int, r1: int, r2: int)
    requires e * e == 1
    ensures var s, g := d * (w1 * w2), d * (w1 * w1);
            g * (r2 + 2 * (j * e) * w2) == r1 + 2 * j * w1 + g * (r2 - (1 + d * (w2 * w2))) + 1 * (s * s - e * e)
                                           + 2 * j * e * w1 * (s - e) + (-1) * (r1 - (1 + g))
  {
    var s, g := d * (w1 * w2), d * (w1 * w1);
    assert g * (d * (w2 * w2)) == s * s;
    assert g * (2 * (j * e) * w2) == 2 * j * e * w1 * s;
    assert 2 * j * e * w1 * e == 2 * j * w1 by { assert 2 * j * e * w1 * e == 2 * j * w1 * (e * e); }
    assert 2 * j * e * w1 * (s - e) == 2 * j * e * w1 * s - 2 * j * e * w1 * e;
    assert g * (r2 + 2 * (j * e) * w2) == g * r2 + g * (2 * (j * e) * w2);
    assert g * (r2 - (1 + d * (w2 * w2))) == g * r2 - g - g * (d * (w2 * w2));
  }

  /** If d w1 w2 = e is 1 or -1, then (y1 + j x1)^2 = d (w1 (y2 + j e x2))^2 for each root j of -1. */
  lemma SquareOfSum(d: int, j: int, e: int, p: Point, q: Point)
    requires On(d, p) && On(d, q) && F(j * j) == F(-1)
    requires F(Joint(d, p, q)) == F(e) && e * e == 1
    ensures var n, h := p.y + j * p.x, p.x * p.y * (q.y + j * e * q.x); F(n * n) == F(d * (h * h))
  {
    hide F, On;
    Equation(d, p);
    Equation(d, q);
    var w1, w2 := p.x * p.y, q.x * q.y;
    var r1, r2 := p.y * p.y - p.x * p.x, q.y * q.y - q.x * q.x;
    var z := q.y + j * e * q.x;
    RootSquare(j, p.x, p.y);
    assert j * e * (j * e) == j * j by { assert j * e * (j * e) == j * j * (e * e); }
    RootSquare(j * e, q.x, q.y);
    JointOne(d, j, e, w1, w2, r1, r2);
    Products(d * (w1 * w1), d * (w1 * w1), z * z, r2 + 2 * (j * e) * w2);
    Regroup(d, w1, z);
  }

  lemma Regroup(d: int, w: int, z: int)
    ensures d * (w * w) * (z * z) == d * (w * z * (w * z))
  {
  }

  lemma ZeroTimes(a: int, b: int)
    requires F(a) == 0
    ensures F(a * b) == 0 && F(b * a) == 0
  {
    hide F;
    ZeroIs();
    assert 0 * b == 0;
    Products(a, 0, b, b);
  }

  lemma UnitNotZero(e: int)
    requires e * e == 1
    ensures F(e) != 0
  {
    hide F;
    ZeroIs();
    if F(e) == 0 {
      ZeroTimes(e, e);
    }
  }

  lemma TwoNotZero()
    ensures F(2) != 0
  {
  }

  /** Not both y + j x and y - j x are zero, unless y is. */
  lemma BothZero(j: int, x: int, y: int)
    requires F(y + j * x) == 0 && F(y + -j * x) == 0
    ensures F(y) == 0
  {
    hide F;
    ZeroIs();
    Reduce2(2 * y, 0, 1, y + j * x, 0, 1, y + -j * x, 0);
    TwoNotZero();
    ZeroProduct(2, y);
  }

  lemma JointNotUnit(d: int, i: int, e: int, p: Point, q: Point)
    requires Twisted(d, i) && On(d, p) && On(d, q) && e * e == 1
    ensures F(Joint(d, p, q)) != F(e)
  {
    hide F, On;
    var w1, w2 := p.x * p.y, q.x * q.y;
    UnitNotZero(e);
    if F(Joint(d, p, q)) == F(e) {
      if F(w1) == 0 {
        ZeroTimes(w1, w2);
        ZeroTimes(w1 * w2, d);
      } else {
        RootOfMinusOne(d, i, e, p, q, i);
        assert -i * -i == i * i;
        RootOfMinusOne(d, i, e, p, q, -i);
        assert i * e * q.x == i * (e * q.x) && -i * e * q.x == -i * (e * q.x);
        BothZero(i, e * q.x, q.y);
        ZeroTimes(q.y, q.x);
        ZeroTimes(w2, w1);
        ZeroTimes(w1 * w2, d);
      }
    }
  }

  lemma RootOfMinusOne(d: int, i: int, e: int, p: Point, q: Point, j: int)
    requires Twisted(d, i) && On(d, p) && On(d, q) && e * e == 1 && F(j * j) == F(-1)
    requires F(Joint(d, p, q)) == F(e) && F(p.x * p.y) != 0
    ensures F(q.y + j * e * q.x) == 0
  {
    hide F, On;
    var z := q.y + j * e * q.x;
    SquareOfSum(d, j, e, p, q);
    if F(z) != 0 {
      NonzeroProduct(p.x * p.y, z);
      SquareQuotient(d, p.y + j * p.x, p.x * p.y * z);
    }
  }

  /** The denominators of a sum are never zero. */
  lemma Complete(d: int, i: int, p: Point, q: Point)
    requires Twisted(d, i) && On(d, p) && On(d, q)
    ensures F(1 + Joint(d, p, q)) != 0 && F(1 - Joint(d, p, q)) != 0
  {
    hide F, On, Joint, Twisted;
    ZeroIs();
    var s := Joint(d, p, q);
    JointNotUnit(d, i, -1, p, q);
    JointNotUnit(d, i, 1, p, q);
    if F(1 + s) == 0 {
      Reduce(s, -1, 1, 1 + s, 0);
    }
    if F(1 - s) == 0 {
      Reduce(s, 1, -1, 1 - s, 0);
    }
  }

  // ---- Sums ----

  /** The sum, multiplied by its denominators. */
  lemma AddIs(d: int, i: int, p: Point, q: Point)
    requires Twisted(d, i) && On(d, p) && On(d, q)
    ensures var r, s := Add(d, p, q), Joint(d, p, q);
            && F((1 + s) * r.x) == F(p.x * q.y + p.y * q.x)
            && F((1 - s) * r.y) == F(p.y * q.y + p.x * q.x)
  {
    hide F, On, Joint, Twisted, Div;
    Complete(d, i, p, q);
    DivIs(p.x * q.y + p.y * q.x, 1 + Joint(d, p, q));
    DivIs(p.y * q.y + p.x * q.x, 1 - Joint(d, p, q));
  }

  /** 1 - s^2 is not zero either. */
  lemma BothNotZero(s: int)
    requires F(1 + s) != 0 && F(1 - s) != 0
    ensures F(1 - s * s) != 0
  {
    hide F;
    NonzeroProduct(1 + s, 1 - s);
    assert (1 + s) * (1 - s) == 1 - s * s;
  }

  /** The products of the two numerators of a sum, by y^2 - x^2, y^2 + x^2 and x y of the points. */
  lemma NumeratorProducts(p: Point, q: Point)
    ensures var a, b := p.x * q.y + p.y * q.x, p.y * q.y + p.x * q.x;
            var r1, r2 := p.y * p.y - p.x * p.x, q.y * q.y - q.x * q.x;
            var c1, c2 := p.y * p.y + p.x * p.x, q.y * q.y + q.x * q.x;
            var w1, w2 := p.x * p.y, q.x * q.y;
            && b * b - a * a == r1 * r2 && b * b + a * a == c1 * c2 + 4 * (w1 * w2) && a * b == w1 * c2 + w2 * c1
  {
    FourProducts(p.x * q.y, p.y * q.x, p.y * q.y, p.x * q.x);
    SquaredProducts(p.x, p.y, q.x, q.y);
    SumOfSquares(p.x, p.y, q.x, q.y);
    MixedProduct(p.x, p.y, q.x, q.y);
  }

  lemma FourProducts(f: int, g: int, h: int, k: int)
    ensures (h + k) * (h + k) == h * h + 2 * (h * k) + k * k && (f + g) * (f + g) == f * f + 2 * (f * g) + g * g
    ensures (f + g) * (h + k) == f * h + f * k + g * h + g * k
  {
  }

  lemma SquaredProducts(x1: int, y1: int, x2: int, y2: int)
    ensures y1 * y2 * (y1 * y2) + x1 * x2 * (x1 * x2) - x1 * y2 * (x1 * y2) - y1 * x2 * (y1 * x2) ==
            (y1 * y1 - x1 * x1) * (y2 * y2 - x2 * x2)
    ensures x1 * y2 * (y1 * x2) == y1 * y2 * (x1 * x2)
  {
  }

  lemma SumOfSquares(x1: int, y1: int, x2: int, y2: int)
    ensures y1 * y2 * (y1 * y2) + x1 * x2 * (x1 * x2) + x1 * y2 * (x1 * y2) + y1 * x2 * (y1 * x2) ==
            (y1 * y1 + x1 * x1) * (y2 * y2 + x2 * x2)
    ensures x1 * y2 * (y1 * x2) == x1 * y1 * (x2 * y2) && y1 * y2 * (x1 * x2) == x1 * y1 * (x2 * y2)
  {
  }

  lemma MixedProduct(x1: int, y1: int, x2: int, y2: int)
    ensures x1 * y2 * (y1 * y2) + x1 * y2 * (x1 * x2) + y1 * x2 * (y1 * y2) + y1 * x2 * (x1 * x2) ==
            x1 * y1 * (y2 * y2 + x2 * x2) + x2 * y2 * (y1 * y1 + x1 * x1)
  {
  }

  lemma CAnd(x: int, y: int)
    ensures (y * y + x * x) * (y * y + x * x) == (y * y - x * x) * (y * y - x * x) + 4 * (x * y * (x * y))
  {
  }

  lemma SumAndDifference(s: int, u: int, v: int)
    ensures (1 + s) * (1 + s) * u - (1 - s) * (1 - s) * v == (u - v) * (1 + s * s) + 2 * s * (u + v)
  {
  }

  lemma SquareOfTwo(w1: int, w2: int, c1: int, c2: int)
    ensures var t := w1 * c2 + w2 * c1;
            t * t == w1 * w1 * (c2 * c2) + 2 * (w1 * w2 * (c1 * c2)) + w2 * w2 * (c1 * c1)
  {
  }

  lemma JointSquares(d: int, w1: int, w2: int, c1: int, c2: int)
    ensures var s, g1, g2, t := d * (w1 * w2), d * (w1 * w1), d * (w2 * w2), w1 * c2 + w2 * c1;
            && d * (t * t) == g1 * (c2 * c2) + 2 * s * (c1 * c2) + g2 * (c1 * c1)
            && g1 * (w2 * w2) == s * (w1 * w2) == g2 * (w1 * w1) && g1 * g2 == s * s
  {
    SquareOfTwo(w1, w2, c1, c2);
    SpreadThree(d, w1 * w1 * (c2 * c2), 2 * (w1 * w2 * (c1 * c2)), w2 * w2 * (c1 * c1));
    Associate(d, w1 * w1, c2 * c2);
    Associate(d, w1 * w2, c1 * c2);
    Associate(d, w2 * w2, c1 * c1);
    JointProducts(d, w1, w2);
  }

  lemma Associate(a: int, b: int, c: int)
    ensures a * (b * c) == a * b * c && a * (2 * (b * c)) == 2 * (a * b) * c
  {
  }

  lemma JointProducts(d: int, w1: int, w2: int)
    ensures var s, g1, g2 := d * (w1 * w2), d * (w1 * w1), d * (w2 * w2);
            g1 * (w2 * w2) == s * (w1 * w2) == g2 * (w1 * w1) && g1 * g2 == s * s
  {
  }

  lemma ClosureExact(d: int, w1: int, w2: int, r1: int, r2: int, c1: int, c2: int, u: int, v: int, t: int)
    requires u - v == r1 * r2 && u + v == c1 * c2 + 4 * (w1 * w2) && t == w1 * c2 + w2 * c1
    requires c1 * c1 == r1 * r1 + 4 * (w1 * w1) && c2 * c2 == r2 * r2 + 4 * (w2 * w2)
    ensures var s, g1, g2 := d * (w1 * w2), d * (w1 * w1), d * (w2 * w2);
            (1 + s) * (1 + s) * u - (1 - s) * (1 - s) * v - d * (t * t) ==
            r1 * r2 * (1 + s * s) - g1 * (r2 * r2) - g2 * (r1 * r1)
  {
    var s, g1, g2 := d * (w1 * w2), d * (w1 * w1), d * (w2 * w2);
    SumAndDifference(s, u, v);
    JointSquares(d, w1, w2, c1, c2);
    Distribute(g1, r2 * r2, w2 * w2);
    Distribute(g2, r1 * r1, w1 * w1);
    Distribute(2 * s, c1 * c2, w1 * w2);
  }

  lemma Distribute(g: int, a: int, b: int)
    ensures g * (a + 4 * b) == g * a + 4 * (g * b)
  {
  }

  lemma UnitCurve(g1: int, g2: int, z: int)
    requires g1 * g2 == z
    ensures (1 + g1) * (1 + g2) * (1 + z) - g1 * ((1 + g2) * (1 + g2)) - g2 * ((1 + g1) * (1 + g1)) == (1 - z) * (1 - z)
  {
    var v := 1 + g1 + g2 + z;
    assert (1 + g1) * (1 + g2) == v;
    UnitSquare(g1, g2, z);
    UnitSquare(g2, g1, z);
    assert v * (1 + z) == v + g1 * z + g2 * z + z + z * z;
  }

  lemma UnitSquare(g: int, h: int, z: int)
    requires g * h == z
    ensures g * ((1 + h) * (1 + h)) == g + 2 * z + h * z
  {
    assert (1 + h) * (1 + h) == 1 + 2 * h + h * h;
    SpreadThree(g, 1, 2 * h, h * h);
    Associate(g, h, h);
  }

  /** What closure comes to once the denominators are multiplied away. */
  lemma ClosureCleared(d: int, p: Point, q: Point)
    requires On(d, p) && On(d, q)
    ensures var a, b, s := p.x * q.y + p.y * q.x, p.y * q.y + p.x * q.x, Joint(d, p, q);
            F((1 + s) * (1 + s) * (b * b) - (1 - s) * (1 - s) * (a * a)) ==
            F((1 - s * s) * (1 - s * s) + d * (a * b * (a * b)))
  {
    hide F, On;
    Equation(d, p);
    Equation(d, q);
    var a, b, s := p.x * q.y + p.y * q.x, p.y * q.y + p.x * q.x, Joint(d, p, q);
    var w1, w2 := p.x * p.y, q.x * q.y;
    var r1, r2, g1, g2 := p.y * p.y - p.x * p.x, q.y * q.y - q.x * q.x, d * (w1 * w1), d * (w2 * w2);
    NumeratorProducts(p, q);
    CAnd(p.x, p.y);
    CAnd(q.x, q.y);
    ClosureExact(d, w1, w2, r1, r2, p.y * p.y + p.x * p.x, q.y * q.y + q.x * q.x, b * b, a * a, a * b);
    Products(r1, 1 + g1, r2, 1 + g2);
    Products(r1, 1 + g1, r1, 1 + g1);
    Products(r2, 1 + g2, r2, 1 + g2);
    JointSquares(d, w1, w2, 0, 0);
    UnitCurve(g1, g2, s * s);
    var l := (1 + s) * (1 + s) * (b * b) - (1 - s) * (1 - s) * (a * a);
    var m := (1 - s * s) * (1 - s * s) + d * (a * b * (a * b));
    ThreeCofactors(l, m, 1 + s * s, r1 * r2, (1 + g1) * (1 + g2), g1, r2 * r2, (1 + g2) * (1 + g2),
                   g2, r1 * r1, (1 + g1) * (1 + g1));
  }

  lemma ThreeCofactors(l: int, m: int, k: int, u: int, u': int, g: int, v: int, v': int, h: int, w: int, w': int)
    requires F(u) == F(u') && F(v) == F(v') && F(w) == F(w')
    requires l - m == (u * k - g * v - h * w) - (u' * k - g * v' - h * w')
    ensures F(l) == F(m)
  {
    hide F;
    assert l == m + k * (u - u') + -g * (v - v') + -h * (w - w') + 0 * (0 - 0);
    Reduce4(l, m, k, u, u', -g, v, v', -h, w, w', 0, 0, 0);
  }

  /** The sum of two points of the curve is on the curve. */
  lemma Closed(d: int, i: int, p: Point, q: Point)
    requires Twisted(d, i) && On(d, p) && On(d, q)
    ensures On(d, Add(d, p, q))
  {
    hide F, Joint, Twisted, Div, On;
    var a, b, s, r := p.x * q.y + p.y * q.x, p.y * q.y + p.x * q.x, Joint(d, p, q), Add(d, p, q);
    ClosureCleared(d, p, q);
    Complete(d, i, p, q);
    AddIs(d, i, p, q);
    BothNotZero(s);
    ClearedCurve(d, s, r.x, r.y, a, b);
    OnFrom(d, r);
  }

  lemma ClearedCurve(d: int, s: int, x: int, y: int, a: int, b: int)
    requires F((1 + s) * x) == F(a) && F((1 - s) * y) == F(b) && F(1 - s * s) != 0
    requires F((1 + s) * (1 + s) * (b * b) - (1 - s) * (1 - s) * (a * a)) ==
             F((1 - s * s) * (1 - s * s) + d * (a * b * (a * b)))
    ensures F(y * y - x * x) == F(1 + d * (x * y * (x * y)))
  {
    hide F;
    var f, g, e := (1 + s) * x, (1 - s) * y, 1 - s * s;
    Products(f, a, f, a);
    Products(g, b, g, b);
    Products(f, a, g, b);
    Products(f * g, a * b, f * g, a * b);
    var l := (1 + s) * (1 + s) * (g * g) - (1 - s) * (1 - s) * (f * f);
    Reduce2(l, (1 + s) * (1 + s) * (b * b) - (1 - s) * (1 - s) * (a * a),
            (1 + s) * (1 + s), g * g, b * b, -((1 - s) * (1 - s)), f * f, a * a);
    var m := e * e + d * (f * g * (f * g));
    Reduce(m, e * e + d * (a * b * (a * b)), d, f * g * (f * g), a * b * (a * b));
    ClearedExact(d, s, x, y);
    NonzeroProduct(e, e);
    Cancel(e * e, y * y - x * x, 1 + d * (x * y * (x * y)));
  }

  lemma ClearedExact(d: int, s: int, x: int, y: int)
    ensures var f, g, e := (1 + s) * x, (1 - s) * y, 1 - s * s;
            && (1 + s) * (1 + s) * (g * g) - (1 - s) * (1 - s) * (f * f) == e * e * (y * y - x * x)
            && e * e + d * (f * g * (f * g)) == e * e * (1 + d * (x * y * (x * y)))
  {
    var u, v, e := 1 + s, 1 - s, 1 - s * s;
    assert u * v == e;
    SquaredFactors(u, v, e, x, y);
    assert d * (e * e * (x * y * (x * y))) == e * e * (d * (x * y * (x * y)));
    assert e * e * (1 + d * (x * y * (x * y))) == e * e + e * e * (d * (x * y * (x * y)));
    assert e * e * (y * y - x * x) == e * e * (y * y) - e * e * (x * x);
  }

  lemma SquaredFactors(u: int, v: int, e: int, x: int, y: int)
    requires u * v == e
    ensures u * u * (v * y * (v * y)) == e * e * (y * y) && v * v * (u * x * (u * x)) == e * e * (x * x)
    ensures u * x * (v * y) * (u * x * (v * y)) == e * e * (x * y * (x * y))
  {
    assert u * u * (v * y * (v * y)) == u * v * (u * v) * (y * y);
    assert v * v * (u * x * (u * x)) == u * v * (u * v) * (x * x);
    assert u * x * (v * y) == e * (x * y) by { assert u * x * (v * y) == u * v * (x * y); }
    assert e * (x * y) * (e * (x * y)) == e * e * (x * y * (x * y));
  }

  // ---- The laws of a group, but for associativity ----

  /** The sum is the only point that satisfies the two equations. */
  lemma SumUnique(d: int, i: int, p: Point, q: Point, r: Point)
    requires Twisted(d, i) && On(d, p) && On(d, q) && 0 <= r.x < P && 0 <= r.y < P
    requires F((1 + Joint(d, p, q)) * r.x) == F(p.x * q.y + p.y * q.x)
    requires F((1 - Joint(d, p, q)) * r.y) == F(p.y * q.y + p.x * q.x)
    ensures r == Add(d, p, q)
  {
    hide F, Joint, Twisted, Div, On;
    var t := Add(d, p, q);
    Complete(d, i, p, q);
    AddIs(d, i, p, q);
    Cancel(1 + Joint(d, p, q), r.x, t.x);
    Cancel(1 - Joint(d, p, q), r.y, t.y);
    FOfSmall(r.x);
    FOfSmall(r.y);
    FOfSmall(t.x);
    FOfSmall(t.y);
  }

  lemma Commutes(d: int, p: Point, q: Point)
    ensures Add(d, p, q) == Add(d, q, p)
  {
    hide Div;
    Exchanged(p.x, q.y);
    Exchanged(p.y, q.x);
    Exchanged(p.y, q.y);
    Exchanged(p.x, q.x);
    Exchanged(p.x * p.y, q.x * q.y);
  }

  lemma Exchanged(a: int, b: int)
    ensures a * b == b * a
  {
  }

  lemma ZeroOn(d: int)
    ensures On(d, ZERO)
  {
    hide F, On;
    OnFrom(d, ZERO);
  }

  lemma AddZero(d: int, i: int, p: Point)
    requires Twisted(d, i) && On(d, p)
    ensures Add(d, p, ZERO) == p
  {
    hide F, Twisted, On;
    Ranges(d, p);
    ZeroOn(d);
    assert Joint(d, p, ZERO) == 0;
    SumUnique(d, i, p, ZERO, p);
  }

  lemma NegResidue(x: int)
    ensures 0 <= FNeg(x) < P && F(FNeg(x)) == F(-x)
  {
    hide F;
    FIdempotent(-x);
  }

  /** The products in which the negated coordinate occurs. */
  lemma NegProducts(x: int, y: int, z: int)
    ensures F(FNeg(x) * y) == F(-(x * y)) && F(FNeg(x) * FNeg(z)) == F(x * z)
  {
    hide F, FNeg;
    NegResidue(x);
    NegResidue(z);
    Products(FNeg(x), -x, y, y);
    Products(FNeg(x), -x, FNeg(z), -z);
    assert -x * y == -(x * y) && -x * -z == x * z;
  }

  lemma NegOn(d: int, p: Point)
    requires On(d, p)
    ensures On(d, Neg(p))
  {
    hide F, FNeg, On;
    Equation(d, p);
    Ranges(d, p);
    var x := FNeg(p.x);
    NegResidue(p.x);
    NegProducts(p.x, p.y, p.x);
    Products(x * p.y, -(p.x * p.y), x * p.y, -(p.x * p.y));
    var w := p.x * p.y;
    assert -w * -w == w * w;
    Reduce(p.y * p.y - x * x, p.y * p.y - p.x * p.x, -1, x * x, p.x * p.x);
    Reduce(1 + d * (x * p.y * (x * p.y)), 1 + d * (w * w), d, x * p.y * (x * p.y), w * w);
    OnFrom(d, Neg(p));
  }

  lemma AddNeg(d: int, i: int, p: Point)
    requires Twisted(d, i) && On(d, p)
    ensures Add(d, p, Neg(p)) == ZERO
  {
    hide F, Twisted, FNeg, On;
    Equation(d, p);
    var x, w := FNeg(p.x), p.x * p.y;
    NegOn(d, p);
    NegProducts(p.x, p.y, p.x);
    Products(w, w, x * p.y, -w);
    var s := Joint(d, p, Neg(p));
    assert w * -w == -(w * w);
    Reduce(1 - s, 1 + d * (w * w), -d, w * (x * p.y), -(w * w));
    Exchanged(p.y, x);
    Reduce(p.x * p.y + p.y * x, 0, 1, x * p.y, -w);
    Products(p.x, p.x, x, -p.x) by { NegResidue(p.x); }
    assert p.x * -p.x == -(p.x * p.x);
    Reduce(p.y * p.y + p.x * x, p.y * p.y - p.x * p.x, 1, p.x * x, -(p.x * p.x));
    SumUnique(d, i, p, Neg(p), ZERO);
  }

  /** Negation is compatible with addition. */
  lemma NegSum(d: int, i: int, p: Point, q: Point)
    requires Twisted(d, i) && On(d, p) && On(d, q)
    ensures Neg(Add(d, p, q)) == Add(d, Neg(p), Neg(q))
  {
    hide F, Twisted, FNeg, Div, On;
    var r, s, x1, x2 := Add(d, p, q), Joint(d, p, q), FNeg(p.x), FNeg(q.x);
    var s' := Joint(d, Neg(p), Neg(q));
    AddIs(d, i, p, q);
    Closed(d, i, p, q);
    NegOn(d, p);
    NegOn(d, q);
    NegResidue(r.x);
    NegProducts(p.x, p.y, 0);
    NegProducts(q.x, q.y, 0);
    Products(x1 * p.y, -(p.x * p.y), x2 * q.y, -(q.x * q.y));
    var w1, w2 := p.x * p.y, q.x * q.y;
    assert -w1 * -w2 == w1 * w2;
    Reduce(s', s, d, x1 * p.y * (x2 * q.y), w1 * w2);
    NegatedX(s, s', r.x, p.x * q.y + p.y * q.x);
    Products(1 - s', 1 - s, r.y, r.y) by { Reduce(1 - s', 1 - s, -1, s', s); }
    NegProducts(p.x, q.y, q.x);
    NegProducts(q.x, p.y, 0);
    Exchanged(p.y, x2);
    Exchanged(p.y, q.x);
    Reduce2(x1 * q.y + p.y * x2, -(p.x * q.y + p.y * q.x), 1, x1 * q.y, -(p.x * q.y), 1, x2 * p.y, -(q.x * p.y));
    Reduce(p.y * q.y + x1 * x2, p.y * q.y + p.x * q.x, 1, x1 * x2, p.x * q.x);
    SumUnique(d, i, Neg(p), Neg(q), Neg(r));
  }

  lemma NegatedX(s: int, s': int, x: int, a: int)
    requires F(s') == F(s) && F((1 + s) * x) == F(a)
    ensures F((1 + s') * FNeg(x)) == F(-a)
  {
    hide F, FNeg;
    NegResidue(x);
    Reduce(1 + s', 1 + s, 1, s', s);
    Products(1 + s', 1 + s, FNeg(x), -x);
    assert (1 + s) * -x == -((1 + s) * x);
    Reduce((1 + s) * -x, -a, -1, (1 + s) * x, a);
  }

  // ---- Associativity ----

  /** What multiplying by x^2 + y^2 does to y + x and y - x on the curve. */
  lemma PointTurns(g: int, x: int, y: int)
    requires F(y * y - x * x) == F(g)
    ensures var c, p, q, w := y * y + x * x, y + x, y - x, x * y;
            && F(c * p) == F(g * q + 2 * w * p) && F(c * q) == F(g * p - 2 * w * q)
            && F(c * c) == F(g * g + 4 * (w * w))
  {
    hide F;
    var c, p, q, w, r := y * y + x * x, y + x, y - x, x * y, y * y - x * x;
    PointExact(x, y);
    TurnedBy(r, g, p, q, w, c * p, c * q);
    CAnd(x, y);
    Products(r, g, r, g);
    Reduce(c * c, g * g + 4 * (w * w), 1, r * r, g * g);
  }

  lemma TurnedBy(r: int, g: int, p: int, q: int, w: int, u: int, v: int)
    requires F(r) == F(g) && u == r * q + 2 * w * p && v == r * p - 2 * w * q
    ensures F(u) == F(g * q + 2 * w * p) && F(v) == F(g * p - 2 * w * q)
  {
    hide F;
    Reduce(u, g * q + 2 * w * p, q, r, g);
    Reduce(v, g * p - 2 * w * q, p, r, g);
  }

  lemma PointExact(x: int, y: int)
    ensures var c, p, q, w, r := y * y + x * x, y + x, y - x, x * y, y * y - x * x;
            c * p == r * q + 2 * w * p && c * q == r * p - 2 * w * q
  {
  }

  lemma TurnsScaled(a: int, t: int, c: int, g: int, w: int, p: int, q: int)
    requires F(c * p) == F(g * q + 2 * w * p) && F(c * q) == F(g * p - 2 * w * q)
    ensures Turns(a * c, a * g, a * w, p * t, q * t)
  {
    hide F;
    ScaledExact(a, t, c, g, w, p, q);
    Reduce(a * c * (p * t), a * g * (q * t) + 2 * (a * w) * (p * t), a * t, c * p, g * q + 2 * w * p);
    Reduce(a * c * (q * t), a * g * (p * t) - 2 * (a * w) * (q * t), a * t, c * q, g * p - 2 * w * q);
  }

  lemma ScaledExact(a: int, t: int, c: int, g: int, w: int, p: int, q: int)
    ensures a * c * (p * t) == a * g * (q * t) + 2 * (a * w) * (p * t) + a * t * (c * p - (g * q + 2 * w * p))
    ensures a * c * (q * t) == a * g * (p * t) - 2 * (a * w) * (q * t) + a * t * (c * q - (g * p - 2 * w * q))
  {
    assert a * t * (c * p) == a * c * (p * t) && a * t * (c * q) == a * c * (q * t);
    assert a * t * (g * q + 2 * w * p) == a * t * (g * q) + a * t * (2 * w * p);
    assert a * t * (g * p - 2 * w * q) == a * t * (g * p) - a * t * (2 * w * q);
    assert a * t * (g * q) == a * g * (q * t) && a * t * (g * p) == a * g * (p * t);
    assert a * t * (2 * w * p) == 2 * (a * w) * (p * t) && a * t * (2 * w * q) == 2 * (a * w) * (q * t);
  }

  function CubeOf(p: Point, q: Point, r: Point): Cube
  {
    var (p1, q1, p2, q2, p3, q3) := (p.y + p.x, p.y - p.x, q.y + q.x, q.y - q.x, r.y + r.x, r.y - r.x);
    Cube(p1 * p2 * p3, p1 * p2 * q3, p1 * q2 * p3, p1 * q2 * q3, q1 * p2 * p3, q1 * p2 * q3, q1 * q2 * p3, q1 * q2 * q3)
  }

  /** The multiplier that a point contributes, the other two having the joint part a. */
  function Multiplier(a: int, p: Point): int
  {
    a * (p.y * p.y + p.x * p.x)
  }

  lemma MultiplierTurns(d: int, a: int, p: Point, t: int)
    requires On(d, p)
    ensures var w := p.x * p.y;
            Turns(Multiplier(a, p), a * (1 + d * (w * w)), a * w, (p.y + p.x) * t, (p.y - p.x) * t)
  {
    hide F, On;
    Equation(d, p);
    PointTurns(1 + d * (p.x * p.y * (p.x * p.y)), p.x, p.y);
    TurnsScaled(a, t, p.y * p.y + p.x * p.x, 1 + d * (p.x * p.y * (p.x * p.y)), p.x * p.y, p.y + p.x, p.y - p.x);
  }

  lemma MultiplierSquare(d: int, a: int, p: Point)
    requires On(d, p)
    ensures var w, k := p.x * p.y, Multiplier(a, p); var g := a * (1 + d * (w * w));
            F(k * k) == F(g * g + 4 * (a * w) * (a * w))
  {
    hide F, On;
    Equation(d, p);
    var w, c := p.x * p.y, p.y * p.y + p.x * p.x;
    var g := 1 + d * (w * w);
    PointTurns(g, p.x, p.y);
    SquareScaled(a, c, g, w);
    Reduce(a * c * (a * c), a * g * (a * g) + 4 * (a * w) * (a * w), a * a, c * c, g * g + 4 * (w * w));
  }

  lemma SquareScaled(a: int, c: int, g: int, w: int)
    ensures a * c * (a * c) ==
            a * g * (a * g) + 4 * (a * w) * (a * w) + a * a * (c * c - (g * g + 4 * (w * w)))
  {
    assert a * a * (c * c) == a * c * (a * c) && a * a * (g * g) == a * g * (a * g);
    assert a * a * (4 * (w * w)) == 4 * (a * w) * (a * w);
    assert a * a * (c * c - (g * g + 4 * (w * w))) == a * a * (c * c) - a * a * (g * g) - a * a * (4 * (w * w));
  }

  /** The coefficients that the multiplier of the first point has. */
  lemma JointCoefficient(d: int, w1: int, w2: int, w3: int)
    ensures var a, b, c := d * (w2 * w3), d * (w1 * w3), d * (w1 * w2);
            a * (1 + d * (w1 * w1)) == a + b * c && a * w1 == b * w2 == c * w3
  {
    var a, b, c := d * (w2 * w3), d * (w1 * w3), d * (w1 * w2);
    assert b * c == a * (d * (w1 * w1));
  }

  lemma PlaceTurns(d: int, a: int, g: int, m: int, p: Point, t: int)
    requires On(d, p) && a * (1 + d * (p.x * p.y * (p.x * p.y))) == g && a * (p.x * p.y) == m
    ensures Turns(Multiplier(a, p), g, m, (p.y + p.x) * t, (p.y - p.x) * t)
  {
    hide F, On, Turns;
    MultiplierTurns(d, a, p, t);
  }

  lemma Regrouped(u: int, v: int, w: int)
    ensures u * (v * w) == u * v * w && v * (u * w) == u * v * w && w * (u * v) == u * v * w
  {
  }

  ghost predicate FirstTurned(k: int, g: int, m: int, t: Cube)
  {
    && Turns(k, g, m, t.ppp, t.qpp) && Turns(k, g, m, t.ppq, t.qpq)
    && Turns(k, g, m, t.pqp, t.qqp) && Turns(k, g, m, t.pqq, t.qqq)
  }

  ghost predicate SecondTurned(k: int, g: int, m: int, t: Cube)
  {
    && Turns(k, g, m, t.ppp, t.pqp) && Turns(k, g, m, t.ppq, t.pqq)
    && Turns(k, g, m, t.qpp, t.qqp) && Turns(k, g, m, t.qpq, t.qqq)
  }

  /** In the first place of a cube; the third place is the first one of the mirrored cube. */
  lemma FirstPlace(d: int, a: int, g: int, m: int, p: Point, q: Point, r: Point)
    requires On(d, p) && a * (1 + d * (p.x * p.y * (p.x * p.y))) == g && a * (p.x * p.y) == m
    ensures FirstTurned(Multiplier(a, p), g, m, CubeOf(p, q, r))
  {
    hide On, Turns, Multiplier;
    var (p1, q1, p2, q2, p3, q3) := (p.y + p.x, p.y - p.x, q.y + q.x, q.y - q.x, r.y + r.x, r.y - r.x);
    PlaceTurns(d, a, g, m, p, p2 * p3);
    PlaceTurns(d, a, g, m, p, p2 * q3);
    PlaceTurns(d, a, g, m, p, q2 * p3);
    PlaceTurns(d, a, g, m, p, q2 * q3);
    Regrouped(p1, p2, p3); Regrouped(p1, p2, q3); Regrouped(p1, q2, p3); Regrouped(p1, q2, q3);
    Regrouped(q1, p2, p3); Regrouped(q1, p2, q3); Regrouped(q1, q2, p3); Regrouped(q1, q2, q3);
  }

  lemma SecondPlace(d: int, a: int, g: int, m: int, p: Point, q: Point, r: Point)
    requires On(d, q) && a * (1 + d * (q.x * q.y * (q.x * q.y))) == g && a * (q.x * q.y) == m
    ensures SecondTurned(Multiplier(a, q), g, m, CubeOf(p, q, r))
  {
    hide On, Turns, Multiplier;
    var (p1, q1, p2, q2, p3, q3) := (p.y + p.x, p.y - p.x, q.y + q.x, q.y - q.x, r.y + r.x, r.y - r.x);
    PlaceTurns(d, a, g, m, q, p1 * p3);
    PlaceTurns(d, a, g, m, q, p1 * q3);
    PlaceTurns(d, a, g, m, q, q1 * p3);
    PlaceTurns(d, a, g, m, q, q1 * q3);
    Regrouped(p1, p2, p3); Regrouped(p1, p2, q3); Regrouped(p1, q2, p3); Regrouped(p1, q2, q3);
    Regrouped(q1, p2, p3); Regrouped(q1, p2, q3); Regrouped(q1, q2, p3); Regrouped(q1, q2, q3);
  }

  lemma CubeMirrored(p: Point, q: Point, r: Point)
    ensures CubeOf(r, q, p) == Mirror(CubeOf(p, q, r))
  {
    var (p1, q1, p2, q2, p3, q3) := (p.y + p.x, p.y - p.x, q.y + q.x, q.y - q.x, r.y + r.x, r.y - r.x);
    Reversed(p1, p2, p3); Reversed(p1, p2, q3); Reversed(p1, q2, p3); Reversed(p1, q2, q3);
    Reversed(q1, p2, p3); Reversed(q1, p2, q3); Reversed(q1, q2, p3); Reversed(q1, q2, q3);
  }

  lemma Reversed(u: int, v: int, w: int)
    ensures w * v * u == u * v * w
  {
  }

  /** The products of three points of the curve form a turned cube. */
  lemma CubeTurned(d: int, p: Point, q: Point, r: Point)
    requires On(d, p) && On(d, q) && On(d, r)
    ensures var a, b, c := Joint(d, q, r), Joint(d, p, r), Joint(d, p, q);
            Turned(Multiplier(a, p), Multiplier(b, q), Multiplier(c, r), a, b, c, a * (p.x * p.y), CubeOf(p, q, r))
  {
    hide F, On, Turns, Multiplier, CubeOf;
    var w1, w2, w3 := p.x * p.y, q.x * q.y, r.x * r.y;
    var a, b, c := d * (w2 * w3), d * (w1 * w3), d * (w1 * w2);
    JointCoefficient(d, w1, w2, w3);
    JointCoefficient(d, w2, w1, w3);
    JointCoefficient(d, w3, w1, w2);
    Exchanged(w1, w2);
    Exchanged(a, b);
    Exchanged(a, c);
    FirstPlace(d, a, a + b * c, a * w1, p, q, r);
    SecondPlace(d, b, b + a * c, a * w1, p, q, r);
    FirstPlace(d, c, c + a * b, a * w1, r, q, p);
    CubeMirrored(p, q, r);
    MultiplierSquare(d, a, p);
    MultiplierSquare(d, b, q);
    MultiplierSquare(d, c, r);
  }

  /** y + x, y - x and x y of a sum, multiplied by 1 - s^2. */
  lemma SumScaled(d: int, i: int, p: Point, q: Point)
    requires Twisted(d, i) && On(d, p) && On(d, q)
    ensures var r, s := Add(d, p, q), Joint(d, p, q);
            var e, f, g := 1 - s * s, (p.y + p.x) * (q.y + q.x), (p.y - p.x) * (q.y - q.x);
            && F(e * (r.y + r.x)) == F(f + s * g) && F(e * (r.y - r.x)) == F(g + s * f)
            && F(e * (r.x * r.y)) ==
               F(p.x * p.y * (q.y * q.y + q.x * q.x) + q.x * q.y * (p.y * p.y + p.x * p.x))
  {
    hide F, On, Twisted, Add, Joint;
    var r, s := Add(d, p, q), Joint(d, p, q);
    var a, b := p.x * q.y + p.y * q.x, p.y * q.y + p.x * q.x;
    AddIs(d, i, p, q);
    NumeratorProducts(p, q);
    Factors(p, q);
    ScaledSum(s, r.x, r.y, a, b);
  }

  lemma Factors(p: Point, q: Point)
    ensures var a, b := p.x * q.y + p.y * q.x, p.y * q.y + p.x * q.x;
            b + a == (p.y + p.x) * (q.y + q.x) && b - a == (p.y - p.x) * (q.y - q.x)
  {
  }

  lemma ScaledSumExact(s: int, x: int, y: int, a: int, b: int)
    ensures var e, f, g := 1 - s * s, (1 + s) * x, (1 - s) * y;
            && e * (y + x) == (1 + s) * g + (1 - s) * f && e * (y - x) == (1 + s) * g - (1 - s) * f
            && f * g == e * (x * y)
    ensures b + a + s * (b - a) == (1 + s) * b + (1 - s) * a && b - a + s * (b + a) == (1 + s) * b - (1 - s) * a
  {
    assert (1 + s) * (1 - s) == 1 - s * s;
    Associate(1 + s, 1 - s, y);
    Associate(1 - s, 1 + s, x);
    assert (1 + s) * x * ((1 - s) * y) == (1 + s) * (1 - s) * (x * y);
  }

  lemma ScaledSum(s: int, x: int, y: int, a: int, b: int)
    requires F((1 + s) * x) == F(a) && F((1 - s) * y) == F(b)
    ensures var e := 1 - s * s;
            && F(e * (y + x)) == F(b + a + s * (b - a)) && F(e * (y - x)) == F(b - a + s * (b + a))
            && F(e * (x * y)) == F(a * b)
  {
    hide F;
    var e, f, g := 1 - s * s, (1 + s) * x, (1 - s) * y;
    ScaledSumExact(s, x, y, a, b);
    WeightedSum(1 + s, 1 - s, f, a, g, b);
    Products(f, a, g, b);
  }

  lemma WeightedSum(u: int, v: int, f: int, a: int, g: int, b: int)
    requires F(f) == F(a) && F(g) == F(b)
    ensures F(u * g + v * f) == F(u * b + v * a) && F(u * g - v * f) == F(u * b - v * a)
  {
    hide F;
    Reduce2(u * g + v * f, u * b + v * a, u, g, b, v, f, a);
    Reduce2(u * g - v * f, u * b - v * a, u, g, b, -v, f, a);
  }

  lemma ScaledTwice(e: int, s: int, k: int, u: int, v: int, a: int, b: int, p3: int, q3: int, z: int)
    requires F(e * s) == F(k) && F(e * u) == F(a) && F(e * v) == F(b)
    requires F((1 - s * s) * z) == F(u * p3 + s * (v * q3))
    ensures F((e * e - k * k) * z) == F(e * (a * p3) + k * (b * q3))
    ensures F(e * e * (1 - s * s)) == F(e * e - k * k)
  {
    hide F;
    Products(e * s, k, e * s, k);
    assert e * e * (1 - s * s) == e * e - e * s * (e * s);
    Reduce(e * e * (1 - s * s), e * e - k * k, -1, e * s * (e * s), k * k);
    Products(e * e * (1 - s * s), e * e - k * k, z, z);
    assert e * e * (1 - s * s) * z == e * e * ((1 - s * s) * z);
    Products(e * e, e * e, (1 - s * s) * z, u * p3 + s * (v * q3));
    Products(e * s, k, e * v, b);
    TwiceExact(e, s, u, v, p3, q3);
    Reduce2(e * e * (u * p3 + s * (v * q3)), e * (a * p3) + k * (b * q3),
            e * p3, e * u, a, q3, e * s * (e * v), k * b);
  }

  lemma TwiceExact(e: int, s: int, u: int, v: int, p3: int, q3: int)
    ensures e * e * (u * p3 + s * (v * q3)) == e * p3 * (e * u) + q3 * (e * s * (e * v))
  {
  }

  /** The sum of three points, two of them first: y + x of it by the numerator and the denominator of the cube. */
  lemma ThirdSum(d: int, i: int, p: Point, q: Point, r: Point)
    requires Twisted(d, i) && On(d, p) && On(d, q) && On(d, r)
    ensures var t, c := Add(d, Add(d, p, q), r), Joint(d, p, q);
            var k1, k2 := Multiplier(Joint(d, q, r), p), Multiplier(Joint(d, p, r), q);
            && F(Denominator(k1, k2, c) * (t.y + t.x)) == F(Numerator(k1, k2, c, CubeOf(p, q, r)))
            && F(Denominator(k1, k2, c)) != 0
  {
    hide F, On, Twisted, Add;
    var u := Add(d, p, q);
    var t, c, s := Add(d, u, r), Joint(d, p, q), Joint(d, u, r);
    var k1, k2 := Multiplier(Joint(d, q, r), p), Multiplier(Joint(d, p, r), q);
    var e, f, g := 1 - c * c, (p.y + p.x) * (q.y + q.x), (p.y - p.x) * (q.y - q.x);
    Closed(d, i, p, q);
    SumScaled(d, i, p, q);
    SumScaled(d, i, u, r);
    JointScaled(d, p, q, r, e, u);
    ScaledTwice(e, s, k1 + k2, u.y + u.x, u.y - u.x, f + c * g, g + c * f, r.y + r.x, r.y - r.x, t.y + t.x);
    NumeratorOfCube(p, q, r, k1 + k2, c);
    Complete(d, i, p, q);
    Complete(d, i, u, r);
    BothNotZero(c);
    BothNotZero(s);
    NonzeroProduct(e, e);
    NonzeroProduct(e * e, 1 - s * s);
  }

  lemma JointScaled(d: int, p: Point, q: Point, r: Point, e: int, u: Point)
    requires F(e * (u.x * u.y)) ==
             F(p.x * p.y * (q.y * q.y + q.x * q.x) + q.x * q.y * (p.y * p.y + p.x * p.x))
    ensures F(e * Joint(d, u, r)) == F(Multiplier(Joint(d, q, r), p) + Multiplier(Joint(d, p, r), q))
  {
    hide F;
    var (w1, w2, w3, c1, c2) := (p.x * p.y, q.x * q.y, r.x * r.y, p.y * p.y + p.x * p.x, q.y * q.y + q.x * q.x);
    JointSpread(d, w1, w2, w3, c1, c2, e, u.x * u.y);
    Products(d * w3, d * w3, e * (u.x * u.y), w1 * c2 + w2 * c1);
  }

  lemma JointSpread(d: int, w1: int, w2: int, w3: int, c1: int, c2: int, e: int, w: int)
    ensures d * w3 * (w1 * c2 + w2 * c1) == d * (w2 * w3) * c1 + d * (w1 * w3) * c2
    ensures e * (d * (w * w3)) == d * w3 * (e * w)
  {
  }

  lemma NumeratorOfCube(p: Point, q: Point, r: Point, k: int, c: int)
    ensures var e, f, g := 1 - c * c, (p.y + p.x) * (q.y + q.x), (p.y - p.x) * (q.y - q.x);
            var t := CubeOf(p, q, r);
            e * ((f + c * g) * (r.y + r.x)) + k * ((g + c * f) * (r.y - r.x)) ==
            e * (t.ppp + c * t.qqp) + k * (t.qqq + c * t.ppq)
  {
    var f, g := (p.y + p.x) * (q.y + q.x), (p.y - p.x) * (q.y - q.x);
    Spread2(f, c, g, r.y + r.x);
    Spread2(g, c, f, r.y - r.x);
  }

  lemma Spread2(f: int, c: int, g: int, z: int)
    ensures (f + c * g) * z == f * z + c * (g * z)
  {
  }

  lemma JointSwap(d: int, p: Point, q: Point)
    ensures Joint(d, p, q) == Joint(d, q, p)
  {
    Exchanged(p.x * p.y, q.x * q.y);
  }

  lemma CrossCancel(z: int, z': int, n: int, n': int, m: int, m': int)
    requires F(m * z) == F(n) && F(m' * z') == F(n') && F(n * m') == F(n' * m) && F(m) != 0 && F(m') != 0
    ensures F(z) == F(z')
  {
    hide F;
    Products(m * z, n, m', m');
    Products(m' * z', n', m, m);
    assert m * z * m' == m * m' * z && m' * z' * m == m * m' * z';
    NonzeroProduct(m, m');
    Cancel(m * m', z, z');
  }

  lemma HalfAssociative(d: int, i: int, p: Point, q: Point, r: Point)
    requires Twisted(d, i) && On(d, p) && On(d, q) && On(d, r)
    ensures var t, t' := Add(d, Add(d, p, q), r), Add(d, p, Add(d, q, r)); F(t.y + t.x) == F(t'.y + t'.x)
  {
    hide F, On, Twisted, Add, Joint, Multiplier, Numerator, Denominator, CubeOf, Turned;
    var t, t' := Add(d, Add(d, p, q), r), Add(d, p, Add(d, q, r));
    var a, b, c := Joint(d, q, r), Joint(d, p, r), Joint(d, p, q);
    var k1, k2, k3, u := Multiplier(a, p), Multiplier(b, q), Multiplier(c, r), CubeOf(p, q, r);
    ThirdSum(d, i, p, q, r);
    ThirdSum(d, i, r, q, p);
    Commutes(d, q, r);
    Commutes(d, p, Add(d, q, r));
    JointSwap(d, p, q);
    JointSwap(d, q, r);
    JointSwap(d, p, r);
    CubeMirrored(p, q, r);
    CubeTurned(d, p, q, r);
    Associativity(k1, k2, k3, a, b, c, a * (p.x * p.y), u);
    CrossCancel(t.y + t.x, t'.y + t'.x, Numerator(k1, k2, c, u), Numerator(k3, k2, a, Mirror(u)),
                Denominator(k1, k2, c), Denominator(k3, k2, a));
  }

  lemma SamePoint(t: Point, t': Point)
    requires 0 <= t.x < P && 0 <= t.y < P && 0 <= t'.x < P && 0 <= t'.y < P
    requires F(t.y + t.x) == F(t'.y + t'.x) && F(t.y + FNeg(t.x)) == F(t'.y + FNeg(t'.x))
    ensures t == t'
  {
    hide F, FNeg;
    NegResidue(t.x);
    NegResidue(t'.x);
    TwoNotZero();
    Reduce4(2 * t.y, 2 * t'.y, 1, t.y + t.x, t'.y + t'.x, 1, t.y + FNeg(t.x), t'.y + FNeg(t'.x),
            -1, FNeg(t.x), -t.x, 1, FNeg(t'.x), -t'.x);
    Cancel(2, t.y, t'.y);
    Reduce2(t.x, t'.x, 1, t.y + t.x, t'.y + t'.x, -1, t.y, t'.y);
    FOfSmall(t.x);
    FOfSmall(t.y);
    FOfSmall(t'.x);
    FOfSmall(t'.y);
  }

  /** Addition is associative. */
  lemma Associates(d: int, i: int, p: Point, q: Point, r: Point)
    requires Twisted(d, i) && On(d, p) && On(d, q) && On(d, r)
    ensures Add(d, Add(d, p, q), r) == Add(d, p, Add(d, q, r))
  {
    hide F, Twisted, Add, FNeg, On;
    NegOn(d, p);
    NegOn(d, q);
    NegOn(d, r);
    Closed(d, i, p, q);
    Closed(d, i, q, r);
    Closed(d, i, Add(d, p, q), r);
    Closed(d, i, p, Add(d, q, r));
    HalfAssociative(d, i, p, q, r);
    HalfAssociative(d, i, Neg(p), Neg(q), Neg(r));
    NegSum(d, i, p, q);
    NegSum(d, i, q, r);
    NegSum(d, i, Add(d, p, q), r);
    NegSum(d, i, p, Add(d, q, r));
    Ranges(d, Add(d, Add(d, p, q), r));
    Ranges(d, Add(d, p, Add(d, q, r)));
    SamePoint(Add(d, Add(d, p, q), r), Add(d, p, Add(d, q, r)));
  }

  // ---- Multiples ----

  ghost function Times(d: int, n: nat, p: Point): Point
  {
    if n == 0 then ZERO else Add(d, Times(d, n - 1, p), p)
  }

  lemma {:induction false} TimesOn(d: int, i: int, n: nat, p: Point)
    requires Twisted(d, i) && On(d, p)
    ensures On(d, Times(d, n, p))
  {
    hide On, Twisted, Add;
    if n == 0 {
      ZeroOn(d);
    } else {
      TimesOn(d, i, n - 1, p);
      Closed(d, i, Times(d, n - 1, p), p);
    }
  }

  /** Multiples add. */
  lemma {:induction false} TimesAdd(d: int, i: int, m: nat, n: nat, p: Point)
    requires Twisted(d, i) && On(d, p)
    ensures Times(d, m + n, p) == Add(d, Times(d, m, p), Times(d, n, p))
  {
    hide On, Twisted, Add;
    TimesOn(d, i, m, p);
    if n == 0 {
      AddZero(d, i, Times(d, m, p));
    } else {
      TimesAdd(d, i, m, n - 1, p);
      TimesOn(d, i, n - 1, p);
      Associates(d, i, Times(d, m, p), Times(d, n - 1, p), p);
    }
  }
}
