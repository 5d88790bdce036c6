/**
 * The point formulas of the library, on field values: each computes the sum, the difference or the double of the points
 * of edwards25519 that its operands stand for.
 */
module PointFormulas {
  import opened Field25519
  import opened FieldLaws
  import opened Edwards
  import opened QuadraticResidues
  import Decompress

  /** x = X / Z, y = Y / Z. */
  datatype P2 = P2(X: int, Y: int, Z: int)

  /** x = X / Z, y = Y / Z, x y = T / Z. */
  datatype P3 = P3(X: int, Y: int, Z: int, T: int)

  /** x = X / Z, y = Y / T. */
  datatype P1P1 = P1P1(X: int, Y: int, Z: int, T: int)

  datatype Cached = Cached(YplusX: int, YminusX: int, Z: int, T2d: int)

  datatype Precomp = Precomp(yplusx: int, yminusx: int, xy2d: int)

  ghost predicate Projective(t: Point, p: P2)
  {
    F(p.Z) != 0 && F(p.X) == F(t.x * p.Z) && F(p.Y) == F(t.y * p.Z)
  }

  ghost predicate Extended(t: Point, p: P3)
  {
    F(p.Z) != 0 && F(p.X) == F(t.x * p.Z) && F(p.Y) == F(t.y * p.Z) && F(p.T) == F(t.x * t.y * p.Z)
  }

  ghost predicate Completed(t: Point, r: P1P1)
  {
    F(r.Z) != 0 && F(r.T) != 0 && F(r.X) == F(t.x * r.Z) && F(r.Y) == F(t.y * r.T)
  }

  ghost predicate CachedFor(t: Point, c: Cached)
  {
    && F(c.Z) != 0 && F(c.YplusX) == F((t.y + t.x) * c.Z) && F(c.YminusX) == F((t.y - t.x) * c.Z)
    && F(c.T2d) == F(2 * D * (t.x * t.y * c.Z))
  }

  ghost predicate PrecompFor(t: Point, c: Precomp)
  {
    F(c.yplusx) == F(t.y + t.x) && F(c.yminusx) == F(t.y - t.x) && F(c.xy2d) == F(2 * D * (t.x * t.y))
  }

  // ---- Conversions ----

  /** A coordinate x with denominator u, over the common denominator z = u v. */
  lemma Coordinate(a: int, x: int, u: int, v: int, z: int)
    requires F(a) == F(x * u) && F(z) == F(u * v)
    ensures F(FMul(a, v)) == F(x * z)
  {
    hide F, FMul;
    ProductIs(a, x * u, v, v);
    Products(x, x, z, u * v);
    assert x * u * v == x * (u * v);
  }

  lemma CommonDenominator(t: Point, p: P1P1)
    requires Completed(t, p)
    ensures var z := FMul(p.Z, p.T);
            && F(z) != 0 && F(FMul(p.X, p.T)) == F(t.x * z) && F(FMul(p.Y, p.Z)) == F(t.y * z)
            && F(FMul(p.X, p.Y)) == F(t.x * t.y * z)
  {
    hide F, FMul;
    var z := FMul(p.Z, p.T);
    ProductIs(p.Z, p.Z, p.T, p.T);
    NonzeroProduct(p.Z, p.T);
    Coordinate(p.X, t.x, p.Z, p.T, z);
    Exchanged(p.Z, p.T);
    Coordinate(p.Y, t.y, p.T, p.Z, z);
    ProductIs(p.X, t.x * p.Z, p.Y, t.y * p.T);
    Denominators(t.x, t.y, p.Z, p.T);
    Products(t.x * t.y, t.x * t.y, z, p.Z * p.T);
  }

  /** ge_p1p1_to_p2. */
  method ToP2(ghost t: Point, p: P1P1) returns (r: P2)
    requires Completed(t, p)
    ensures Projective(t, r)
  {
    hide F, FMul;
    CommonDenominator(t, p);
    r := P2(FMul(p.X, p.T), FMul(p.Y, p.Z), FMul(p.Z, p.T));
  }

  /** ge_p1p1_to_p3. */
  method ToP3(ghost t: Point, p: P1P1) returns (r: P3)
    requires Completed(t, p)
    ensures Extended(t, r)
  {
    hide F, FMul;
    CommonDenominator(t, p);
    r := P3(FMul(p.X, p.T), FMul(p.Y, p.Z), FMul(p.Z, p.T), FMul(p.X, p.Y));
  }

  /** ge_p3_to_p2. */
  function ToProjective(p: P3): P2
  {
    P2(p.X, p.Y, p.Z)
  }

  /** 2 d, as the limbs of the source. */
  const D2_LIMBS: seq<int> :=
    [-21827239, -5839606, -30745221, 13898782, 229458, 15978800, -12551817, -6495438, 29715968, 9444199]
  const D2: int := F(Decompress.FeValue(D2_LIMBS))

  lemma TwiceD()
    ensures F(D2) == F(2 * D)
  {
    hide F, Decompress.D;
    Decompress.DValue();
    FIdempotent(Decompress.FeValue(D2_LIMBS));
    Congruent(Decompress.FeValue(D2_LIMBS), 2 * D, -1);
  }

  /** ge_p3_to_cached. */
  method ToCached(ghost t: Point, p: P3) returns (r: Cached)
    requires Extended(t, p)
    ensures CachedFor(t, r)
  {
    hide F, FMul, FAdd, FSub, D2;
    r := Cached(FAdd(p.Y, p.X), FSub(p.Y, p.X), p.Z, FMul(p.T, D2));
    SumIs(p.Y, t.y * p.Z, p.X, t.x * p.Z);
    TwiceD();
    ProductIs(p.T, t.x * t.y * p.Z, D2, 2 * D);
    CachedExact(t.x, t.y, p.Z, 2 * D);
  }

  lemma CachedExact(x: int, y: int, z: int, d: int)
    ensures y * z + x * z == (y + x) * z && y * z - x * z == (y - x) * z && x * y * z * d == d * (x * y * z)
  {
  }

  // ---- Sums ----

  /** What the four products of an addition have to be, u being the product of the denominators. */
  ghost predicate Parts(p: Point, q: Point, u: int, a: int, b: int, c: int, e: int)
  {
    && F(u) != 0 && F(a) == F((p.y + p.x) * (q.y + q.x) * u) && F(b) == F((p.y - p.x) * (q.y - q.x) * u)
    && F(c) == F(2 * Joint(D, p, q) * u) && F(e) == F(2 * u)
  }

  /** The sum over the common denominator: k / (1 + s) and h / (1 - s). */
  lemma SumOver(u: int, s: int, h: int, k: int, x: int, y: int, a: int, b: int, c: int, e: int)
    requires F(u) != 0 && F(1 + s) != 0 && F(1 - s) != 0 && F((1 + s) * x) == F(k) && F((1 - s) * y) == F(h)
    requires F(a) == F((h + k) * u) && F(b) == F((h - k) * u) && F(c) == F(2 * s * u) && F(e) == F(2 * u)
    ensures Completed(Point(x, y), P1P1(FSub(a, b), FAdd(a, b), FAdd(e, c), FSub(e, c)))
  {
    hide F, FAdd, FSub;
    SumIs(a, (h + k) * u, b, (h - k) * u);
    SumIs(e, 2 * u, c, 2 * s * u);
    TwoNotZero();
    NonzeroProduct(2, u);
    NonzeroProduct(2 * u, 1 + s);
    NonzeroProduct(2 * u, 1 - s);
    PartsExact(u, s, h, k, x, y);
    Products(2 * u, 2 * u, (1 + s) * x, k);
    Products(2 * u, 2 * u, (1 - s) * y, h);
    Products(x, x, FAdd(e, c), 2 * u * (1 + s));
    Products(y, y, FSub(e, c), 2 * u * (1 - s));
  }

  /** The sum of two points of the curve, by its denominators. */
  lemma SumFacts(p: Point, q: Point)
    requires On(D, p) && On(D, q)
    ensures var r, s, h, k := Add(D, p, q), Joint(D, p, q), p.y * q.y + p.x * q.x, p.x * q.y + p.y * q.x;
            && F(1 + s) != 0 && F(1 - s) != 0 && F((1 + s) * r.x) == F(k) && F((1 - s) * r.y) == F(h)
            && h + k == (p.y + p.x) * (q.y + q.x) && h - k == (p.y - p.x) * (q.y - q.x)
  {
    hide F, On, Twisted, Add, Joint;
    BothTwisted();
    AddIs(D, I, p, q);
    Complete(D, I, p, q);
    Factors(p, q);
  }

  /** Four products of that kind make the sum. */
  lemma SumParts(p: Point, q: Point, u: int, a: int, b: int, c: int, e: int)
    requires On(D, p) && On(D, q)
    ensures Parts(p, q, u, a, b, c, e) ==>
              Completed(Add(D, p, q), P1P1(FSub(a, b), FAdd(a, b), FAdd(e, c), FSub(e, c)))
  {
    hide F, On, Add, Joint, FAdd, FSub;
    SumFacts(p, q);
    if Parts(p, q, u, a, b, c, e) {
      var r := Add(D, p, q);
      SumOver(u, Joint(D, p, q), p.y * q.y + p.x * q.x, p.x * q.y + p.y * q.x, r.x, r.y, a, b, c, e);
    }
  }

  lemma PartsExact(u: int, s: int, h: int, k: int, x: int, y: int)
    ensures (h + k) * u - (h - k) * u == 2 * u * k && (h + k) * u + (h - k) * u == 2 * u * h
    ensures 2 * u + 2 * s * u == 2 * u * (1 + s) && 2 * u - 2 * s * u == 2 * u * (1 - s)
    ensures x * (2 * u * (1 + s)) == 2 * u * ((1 + s) * x) && y * (2 * u * (1 - s)) == 2 * u * ((1 - s) * y)
  {
  }

  /** ge_add. */
  method GeAdd(ghost t: Point, ghost v: Point, p: P3, q: Cached) returns (r: P1P1)
    requires On(D, t) && On(D, v) && Extended(t, p) && CachedFor(v, q)
    ensures Completed(Add(D, t, v), r)
  {
    hide F, FMul, FAdd, FSub, On, Add;
    var X, Y := FAdd(p.Y, p.X), FSub(p.Y, p.X);
    var Z := FMul(X, q.YplusX);
    Y := FMul(Y, q.YminusX);
    var T := FMul(q.T2d, p.T);
    X := FMul(p.Z, q.Z);
    var t0 := FAdd(X, X);
    AddParts(t, v, p, q);
    SumParts(t, v, p.Z * q.Z, Z, Y, T, t0);
    r := P1P1(FSub(Z, Y), FAdd(Z, Y), FAdd(t0, T), FSub(t0, T));
  }

  lemma AddParts(t: Point, v: Point, p: P3, q: Cached)
    requires Extended(t, p) && CachedFor(v, q)
    ensures Parts(t, v, p.Z * q.Z, FMul(FAdd(p.Y, p.X), q.YplusX), FMul(FSub(p.Y, p.X), q.YminusX),
                  FMul(q.T2d, p.T), FAdd(FMul(p.Z, q.Z), FMul(p.Z, q.Z)))
  {
    hide F, FMul, FAdd, FSub;
    var z, w := p.Z, q.Z;
    NonzeroProduct(z, w);
    SumIs(p.Y, t.y * z, p.X, t.x * z);
    CachedExact(t.x, t.y, z, 0);
    ProductIs(FAdd(p.Y, p.X), (t.y + t.x) * z, q.YplusX, (v.y + v.x) * w);
    ProductIs(FSub(p.Y, p.X), (t.y - t.x) * z, q.YminusX, (v.y - v.x) * w);
    ProductIs(q.T2d, 2 * D * (v.x * v.y * w), p.T, t.x * t.y * z);
    ProductIs(z, z, w, w);
    SumIs(FMul(z, w), z * w, FMul(z, w), z * w);
    Denominators(t.y + t.x, v.y + v.x, z, w);
    Denominators(t.y - t.x, v.y - v.x, z, w);
    JointExact2(D, t.x * t.y, v.x * v.y, z, w);
  }

  lemma Denominators(a: int, b: int, z: int, w: int)
    ensures a * z * (b * w) == a * b * (z * w)
  {
  }

  lemma JointExact2(d: int, w1: int, w2: int, z: int, w: int)
    ensures 2 * d * (w2 * w) * (w1 * z) == 2 * (d * (w1 * w2)) * (z * w)
  {
  }

  /** ge_madd. */
  method GeMadd(ghost t: Point, ghost v: Point, p: P3, q: Precomp) returns (r: P1P1)
    requires On(D, t) && On(D, v) && Extended(t, p) && PrecompFor(v, q)
    ensures Completed(Add(D, t, v), r)
  {
    hide F, FMul, FAdd, FSub, On, Add;
    var X, Y := FAdd(p.Y, p.X), FSub(p.Y, p.X);
    var Z := FMul(X, q.yplusx);
    Y := FMul(Y, q.yminusx);
    var T := FMul(q.xy2d, p.T);
    var t0 := FAdd(p.Z, p.Z);
    MaddParts(t, v, p, q);
    SumParts(t, v, p.Z, Z, Y, T, t0);
    r := P1P1(FSub(Z, Y), FAdd(Z, Y), FAdd(t0, T), FSub(t0, T));
  }

  lemma MaddParts(t: Point, v: Point, p: P3, q: Precomp)
    requires Extended(t, p) && PrecompFor(v, q)
    ensures Parts(t, v, p.Z, FMul(FAdd(p.Y, p.X), q.yplusx), FMul(FSub(p.Y, p.X), q.yminusx), FMul(q.xy2d, p.T),
                  FAdd(p.Z, p.Z))
  {
    hide F, FMul, FAdd, FSub;
    var z := p.Z;
    SumIs(p.Y, t.y * z, p.X, t.x * z);
    CachedExact(t.x, t.y, z, 0);
    ProductIs(FAdd(p.Y, p.X), (t.y + t.x) * z, q.yplusx, v.y + v.x);
    ProductIs(FSub(p.Y, p.X), (t.y - t.x) * z, q.yminusx, v.y - v.x);
    ProductIs(q.xy2d, 2 * D * (v.x * v.y), p.T, t.x * t.y * z);
    SumIs(z, z, z, z);
    Denominators(t.y + t.x, v.y + v.x, z, 1);
    Denominators(t.y - t.x, v.y - v.x, z, 1);
    JointExact2(D, t.x * t.y, v.x * v.y, z, 1);
  }

  // ---- Differences: sums with the negated point ----

  /** The cached form of the negated point. */
  lemma NegCached(v: Point, q: Cached)
    requires CachedFor(v, q)
    ensures CachedFor(Neg(v), Cached(q.YminusX, q.YplusX, q.Z, -q.T2d))
  {
    hide F, FNeg;
    var x := FNeg(v.x);
    NegResidue(v.x);
    NegProducts(v.x, v.y, 0);
    Reduce(v.y + x, v.y - v.x, 1, x, -v.x);
    Reduce(v.y - x, v.y + v.x, -1, x, -v.x);
    Products(v.y + x, v.y - v.x, q.Z, q.Z);
    Products(v.y - x, v.y + v.x, q.Z, q.Z);
    NegatedProduct(v.x * v.y, x * v.y, q.Z, q.T2d);
  }

  lemma NegatedProduct(w: int, w': int, z: int, t: int)
    requires F(w') == F(-w) && F(t) == F(2 * D * (w * z))
    ensures F(-t) == F(2 * D * (w' * z))
  {
    hide F, Decompress.D;
    Products(2 * D * z, 2 * D * z, w', -w);
    NegatedExact(2 * D, w, w', z);
    Reduce(-t, -(2 * D * (w * z)), -1, t, 2 * D * (w * z));
  }

  lemma NegatedExact(d: int, w: int, w': int, z: int)
    ensures d * z * -w == -(d * (w * z)) && d * z * w' == d * (w' * z)
  {
  }

  lemma NegPrecomp(v: Point, q: Precomp)
    requires PrecompFor(v, q)
    ensures PrecompFor(Neg(v), Precomp(q.yminusx, q.yplusx, -q.xy2d))
  {
    hide F, FNeg;
    var x := FNeg(v.x);
    NegResidue(v.x);
    NegProducts(v.x, v.y, 0);
    Reduce(v.y + x, v.y - v.x, 1, x, -v.x);
    Reduce(v.y - x, v.y + v.x, -1, x, -v.x);
    NegatedProduct(v.x * v.y, x * v.y, 1, q.xy2d);
  }

  /** Adding the product with the negated third factor is subtracting the product. */
  lemma NegatedTerm(a: int, b: int, e: int)
    ensures FAdd(e, FMul(-a, b)) == FSub(e, FMul(a, b)) && FSub(e, FMul(-a, b)) == FAdd(e, FMul(a, b))
  {
    hide F, FMul;
    var f, g := FMul(a, b), FMul(-a, b);
    MulIs(a, b);
    MulIs(-a, b);
    FIdempotent(a * b);
    FIdempotent(-a * b);
    assert -a * b == -(a * b);
    Reduce2(e + g, e - f, 1, g, -(a * b), 1, f, a * b);
    Reduce2(e - g, e + f, -1, g, -(a * b), -1, f, a * b);
  }

  /** ge_sub. */
  method GeSub(ghost t: Point, ghost v: Point, p: P3, q: Cached) returns (r: P1P1)
    requires On(D, t) && On(D, v) && Extended(t, p) && CachedFor(v, q)
    ensures Completed(Add(D, t, Neg(v)), r)
  {
    hide F, FMul, FAdd, FSub, On, Add, Neg;
    var X, Y := FAdd(p.Y, p.X), FSub(p.Y, p.X);
    var Z := FMul(X, q.YminusX);
    Y := FMul(Y, q.YplusX);
    var T := FMul(q.T2d, p.T);
    X := FMul(p.Z, q.Z);
    var t0 := FAdd(X, X);
    NegOn(D, v);
    NegCached(v, q);
    AddParts(t, Neg(v), p, Cached(q.YminusX, q.YplusX, q.Z, -q.T2d));
    SumParts(t, Neg(v), p.Z * q.Z, Z, Y, FMul(-q.T2d, p.T), t0);
    NegatedTerm(q.T2d, p.T, t0);
    r := P1P1(FSub(Z, Y), FAdd(Z, Y), FSub(t0, T), FAdd(t0, T));
  }

  /** ge_msub. */
  method GeMsub(ghost t: Point, ghost v: Point, p: P3, q: Precomp) returns (r: P1P1)
    requires On(D, t) && On(D, v) && Extended(t, p) && PrecompFor(v, q)
    ensures Completed(Add(D, t, Neg(v)), r)
  {
    hide F, FMul, FAdd, FSub, On, Add, Neg;
    var X, Y := FAdd(p.Y, p.X), FSub(p.Y, p.X);
    var Z := FMul(X, q.yminusx);
    Y := FMul(Y, q.yplusx);
    var T := FMul(q.xy2d, p.T);
    var t0 := FAdd(p.Z, p.Z);
    NegOn(D, v);
    NegPrecomp(v, q);
    MaddParts(t, Neg(v), p, Precomp(q.yminusx, q.yplusx, -q.xy2d));
    SumParts(t, Neg(v), p.Z, Z, Y, FMul(-q.xy2d, p.T), t0);
    NegatedTerm(q.xy2d, p.T, t0);
    r := P1P1(FSub(Z, Y), FAdd(Z, Y), FSub(t0, T), FAdd(t0, T));
  }

  // ---- Doubling ----

  /** ge_p2_dbl. */
  method GeDouble(ghost t: Point, p: P2) returns (r: P1P1)
    requires On(D, t) && Projective(t, p)
    ensures Completed(Add(D, t, t), r)
  {
    hide F, FMul, FAdd, FSub, On, Add;
    var X, Z := FSq(p.X), FSq(p.Y);
    var T := FMul(2, FSq(p.Z));
    var Y := FAdd(p.X, p.Y);
    var t0 := FSq(Y);
    Y := FAdd(Z, X);
    Z := FSub(Z, X);
    X := FSub(t0, Y);
    T := FSub(T, Z);
    DoubleParts(t, p);
    r := P1P1(X, Y, Z, T);
  }

  /** ge_p3_dbl. */
  method GeDoubleExtended(ghost t: Point, p: P3) returns (r: P1P1)
    requires On(D, t) && Extended(t, p)
    ensures Completed(Add(D, t, t), r)
  {
    hide F, On, Add;
    r := GeDouble(t, ToProjective(p));
  }

  lemma DoubleParts(t: Point, p: P2)
    requires On(D, t) && Projective(t, p)
    ensures var x, y := FSq(p.X), FSq(p.Y);
            var z := FSub(y, x);
            Completed(Add(D, t, t),
                      P1P1(FSub(FSq(FAdd(p.X, p.Y)), FAdd(y, x)), FAdd(y, x), z, FSub(FMul(2, FSq(p.Z)), z)))
  {
    hide F, FMul, FAdd, FSub, On, Add;
    var (a, b, z) := (t.x, t.y, p.Z);
    var u := z * z;
    ProductIs(p.X, a * z, p.X, a * z);
    ProductIs(p.Y, b * z, p.Y, b * z);
    ProductIs(z, z, z, z);
    ProductIs(2, 2, FSq(z), u);
    SumIs(p.X, a * z, p.Y, b * z);
    ProductIs(FAdd(p.X, p.Y), a * z + b * z, FAdd(p.X, p.Y), a * z + b * z);
    var x, y := FSq(p.X), FSq(p.Y);
    SumIs(y, b * z * (b * z), x, a * z * (a * z));
    SumIs(FSq(FAdd(p.X, p.Y)), (a * z + b * z) * (a * z + b * z), FAdd(y, x), b * z * (b * z) + a * z * (a * z));
    SumIs(FMul(2, FSq(z)), 2 * u, FSub(y, x), b * z * (b * z) - a * z * (a * z));
    DoubleExact(a, b, z);
    NonzeroProduct(z, z);
    var X, Z := FSub(FSq(FAdd(p.X, p.Y)), FAdd(y, x)), FSub(y, x);
    DoubledPoint(t, u, X, FAdd(y, x), Z, FSub(FMul(2, FSq(z)), Z));
  }

  lemma DoubleExact(a: int, b: int, z: int)
    ensures var u := z * z;
            && b * z * (b * z) + a * z * (a * z) == (b * b + a * a) * u
            && b * z * (b * z) - a * z * (a * z) == (b * b - a * a) * u
            && (a * z + b * z) * (a * z + b * z) - (b * z * (b * z) + a * z * (a * z)) == 2 * (a * b) * u
            && 2 * u - (b * b - a * a) * u == (2 - (b * b - a * a)) * u
  {
    var f, g := a * z, b * z;
    assert f * f == a * a * (z * z) && g * g == b * b * (z * z) && f * g == a * b * (z * z);
    assert (f + g) * (f + g) == f * f + 2 * (f * g) + g * g;
  }

  lemma DoubledPoint(t: Point, u: int, X: int, Y: int, Z: int, T: int)
    requires On(D, t) && F(u) != 0
    requires F(X) == F(2 * (t.x * t.y) * u) && F(Y) == F((t.y * t.y + t.x * t.x) * u)
    requires F(Z) == F((t.y * t.y - t.x * t.x) * u) && F(T) == F((2 - (t.y * t.y - t.x * t.x)) * u)
    ensures Completed(Add(D, t, t), P1P1(X, Y, Z, T))
  {
    hide F, Twisted, Add, On;
    Equation(D, t);
    var r, s, v := Add(D, t, t), Joint(D, t, t), t.y * t.y - t.x * t.x;
    BothTwisted();
    AddIs(D, I, t, t);
    Complete(D, I, t, t);
    Reduce(2 - v, 1 - s, -1, v, 1 + s);
    Exchanged(t.y, t.x);
    OverDenominator(u, v, 1 + s, r.x, 2 * (t.x * t.y), X, Z);
    OverDenominator(u, 2 - v, 1 - s, r.y, t.y * t.y + t.x * t.x, Y, T);
  }

  lemma OverDenominator(u: int, v: int, s: int, x: int, h: int, n: int, m: int)
    requires F(u) != 0 && F(s) != 0 && F(v) == F(s) && F(s * x) == F(h) && F(n) == F(h * u) && F(m) == F(v * u)
    ensures F(m) != 0 && F(n) == F(x * m)
  {
    hide F;
    Products(v, s, u, u);
    NonzeroProduct(s, u);
    Products(u, u, s * x, h);
    Products(x, x, m, s * u);
    assert u * (s * x) == x * (s * u) && u * h == h * u;
  }
}
