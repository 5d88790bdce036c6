module EdwardsAlgebra {
  import opened Field25519
  import opened FieldLaws

  /** The eight products of one of p1, q1, one of p2, q2 and one of p3, q3. */
  datatype Cube = Cube(ppp: int, ppq: int, pqp: int, pqq: int, qpp: int, qpq: int, qqp: int, qqq: int)

  /** Multiplying by k mixes two products that differ in one place: u with a p there and v with a q. */
  ghost predicate Turns(k: int, a: int, m: int, u: int, v: int)
  {
    F(k * u) == F(a * v + 2 * m * u) && F(k * v) == F(a * u - 2 * m * v)
  }

  /** The three multipliers, one for each place. */
  ghost predicate Turned(k1: int, k2: int, k3: int, a: int, b: int, c: int, m: int, t: Cube)
  {
    && Turns(k1, a + b * c, m, t.ppp, t.qpp) && Turns(k1, a + b * c, m, t.ppq, t.qpq)
    && Turns(k1, a + b * c, m, t.pqp, t.qqp) && Turns(k1, a + b * c, m, t.pqq, t.qqq)
    && Turns(k2, b + a * c, m, t.ppp, t.pqp) && Turns(k2, b + a * c, m, t.ppq, t.pqq)
    && Turns(k2, b + a * c, m, t.qpp, t.qqp) && Turns(k2, b + a * c, m, t.qpq, t.qqq)
    && Turns(k3, c + a * b, m, t.ppp, t.ppq) && Turns(k3, c + a * b, m, t.pqp, t.pqq)
    && Turns(k3, c + a * b, m, t.qpp, t.qpq) && Turns(k3, c + a * b, m, t.qqp, t.qqq)
    && F(k1 * k1) == F((a + b * c) * (a + b * c) + 4 * m * m)
    && F(k2 * k2) == F((b + a * c) * (b + a * c) + 4 * m * m)
    && F(k3 * k3) == F((c + a * b) * (c + a * b) + 4 * m * m)
  }

  /** The cube with its first and last place exchanged. */
  function Mirror(t: Cube): Cube
  {
    Cube(t.ppp, t.qpp, t.pqp, t.qqp, t.ppq, t.qpq, t.pqq, t.qqq)
  }

  lemma MirrorTurned(k1: int, k2: int, k3: int, a: int, b: int, c: int, m: int, t: Cube)
    requires Turned(k1, k2, k3, a, b, c, m, t)
    ensures Turned(k3, k2, k1, c, b, a, m, Mirror(t))
  {
    hide F;
    assert a * b == b * a && b * c == c * b && a * c == c * a;
  }

  function Core(a: int, b: int, c: int, t: Cube): int
  {
    t.ppp + c * t.qqp + a * t.pqq - b * t.qpq
  }

  function Tail(c: int, t: Cube): int
  {
    t.qqq + c * t.ppq
  }

  function Numerator(k1: int, k2: int, c: int, t: Cube): int
  {
    (1 - c * c) * (t.ppp + c * t.qqp) + (k1 + k2) * Tail(c, t)
  }

  lemma Cofactors(a: int, b: int, c: int)
    ensures (a + b * c) - c * (b + a * c) == a * (1 - c * c)
    ensures (b + a * c) - c * (a + b * c) == b * (1 - c * c)
  {
  }

  lemma NumeratorIs(k1: int, k2: int, k3: int, a: int, b: int, c: int, m: int, t: Cube)
    requires Turned(k1, k2, k3, a, b, c, m, t)
    ensures F(Numerator(k1, k2, c, t)) == F((1 - c * c) * Core(a, b, c, t) + 2 * k2 * Tail(c, t))
  {
    hide F;
    var a1, b1 := a + b * c, b + a * c;
    Cofactors(a, b, c);
    NumeratorExact(k1, k2, a, b, c, m, 1 - c * c, a1, b1, t);
    Reduce4(Numerator(k1, k2, c, t), (1 - c * c) * Core(a, b, c, t) + 2 * k2 * Tail(c, t),
            1, k1 * t.qqq, a1 * t.pqq - 2 * m * t.qqq, c, k1 * t.ppq, a1 * t.qpq + 2 * m * t.ppq,
            -1, k2 * t.qqq, b1 * t.qpq - 2 * m * t.qqq, -c, k2 * t.ppq, b1 * t.pqq + 2 * m * t.ppq);
  }

  lemma NumeratorExact(k1: int, k2: int, a: int, b: int, c: int, m: int, x: int, a1: int, b1: int, t: Cube)
    requires a1 - c * b1 == a * x && b1 - c * a1 == b * x
    ensures x * (t.ppp + c * t.qqp) + (k1 + k2) * Tail(c, t) == x * Core(a, b, c, t) + 2 * k2 * Tail(c, t)
            + 1 * (k1 * t.qqq - (a1 * t.pqq - 2 * m * t.qqq)) + c * (k1 * t.ppq - (a1 * t.qpq + 2 * m * t.ppq))
            + (-1) * (k2 * t.qqq - (b1 * t.qpq - 2 * m * t.qqq)) + (-c) * (k2 * t.ppq - (b1 * t.pqq + 2 * m * t.ppq))
  {
    Collect(a, b, c, x, a1, b1, t.pqq, t.qpq);
  }

  lemma Collect(a: int, b: int, c: int, x: int, a1: int, b1: int, u: int, v: int)
    requires a1 - c * b1 == a * x && b1 - c * a1 == b * x
    ensures x * (a * u - b * v) == a1 * u + c * (a1 * v) - b1 * v - c * (b1 * u)
  {
    assert x * (a * u - b * v) == (a * x) * u - (b * x) * v;
  }

  function Denominator(k1: int, k2: int, c: int): int
  {
    (1 - c * c) * (1 - c * c) - (k1 + k2) * (k1 + k2)
  }

  lemma DenominatorIs(k1: int, k2: int, k3: int, a: int, b: int, c: int, m: int, t: Cube)
    requires Turned(k1, k2, k3, a, b, c, m, t)
    ensures F(Denominator(k1, k2, c)) == F((1 - c * c) * (1 - a * a - c * c + b * b) - 2 * k2 * (k1 + k2))
  {
    hide F;
    var a1, b1 := a + b * c, b + a * c;
    SquaresDiffer(a, b, c);
    Reduce2(Denominator(k1, k2, c), (1 - c * c) * (1 - a * a - c * c + b * b) - 2 * k2 * (k1 + k2),
            -1, k1 * k1, a1 * a1 + 4 * m * m, 1, k2 * k2, b1 * b1 + 4 * m * m);
  }

  lemma SquaresDiffer(a: int, b: int, c: int)
    ensures (a + b * c) * (a + b * c) - (b + a * c) * (b + a * c) == (a * a - b * b) * (1 - c * c)
  {
  }

  /** (k1 + k2) times the core. */
  function CoreTurned(a: int, b: int, c: int, m: int, t: Cube): int
  {
    (a + b * c + c * (b + a * c)) * t.qpp + (b + a * c + c * (a + b * c)) * t.pqp
    + 4 * m * (t.ppp - c * t.qqp) + (a * a - b * b) * Tail(c, t)
  }

  lemma FrontTurns(k1: int, k2: int, c: int, m: int, a1: int, b1: int, t: Cube)
    requires Turns(k1, a1, m, t.ppp, t.qpp) && Turns(k1, a1, m, t.pqp, t.qqp)
    requires Turns(k2, b1, m, t.ppp, t.pqp) && Turns(k2, b1, m, t.qpp, t.qqp)
    ensures F((k1 + k2) * (t.ppp + c * t.qqp)) ==
            F((a1 + c * b1) * t.qpp + (b1 + c * a1) * t.pqp + 4 * m * (t.ppp - c * t.qqp))
  {
    hide F;
    FrontExact(k1, k2, c, m, a1, b1, t);
    Reduce4((k1 + k2) * (t.ppp + c * t.qqp),
            (a1 + c * b1) * t.qpp + (b1 + c * a1) * t.pqp + 4 * m * (t.ppp - c * t.qqp),
            1, k1 * t.ppp, a1 * t.qpp + 2 * m * t.ppp, 1, k2 * t.ppp, b1 * t.pqp + 2 * m * t.ppp,
            c, k1 * t.qqp, a1 * t.pqp - 2 * m * t.qqp, c, k2 * t.qqp, b1 * t.qpp - 2 * m * t.qqp);
  }

  lemma BackTurns(k1: int, k2: int, a: int, b: int, c: int, m: int, a1: int, b1: int, e: int, t: Cube)
    requires Turns(k1, a1, m, t.pqq, t.qqq) && Turns(k1, a1, m, t.ppq, t.qpq)
    requires Turns(k2, b1, m, t.ppq, t.pqq) && Turns(k2, b1, m, t.qpq, t.qqq)
    requires a * a1 - b * b1 == e && a * b1 - b * a1 == c * e
    ensures F((k1 + k2) * (a * t.pqq - b * t.qpq)) == F(e * Tail(c, t))
  {
    hide F;
    BackExact(k1, k2, a, b, c, m, a1, b1, e, t);
    Reduce4((k1 + k2) * (a * t.pqq - b * t.qpq), e * Tail(c, t),
            a, k1 * t.pqq, a1 * t.qqq + 2 * m * t.pqq, a, k2 * t.pqq, b1 * t.ppq - 2 * m * t.pqq,
            -b, k1 * t.qpq, a1 * t.ppq - 2 * m * t.qpq, -b, k2 * t.qpq, b1 * t.qqq + 2 * m * t.qpq);
  }

  lemma BackCofactors(a: int, b: int, c: int)
    ensures a * (a + b * c) - b * (b + a * c) == a * a - b * b
    ensures a * (b + a * c) - b * (a + b * c) == c * (a * a - b * b)
  {
  }

  lemma CoreTurns(k1: int, k2: int, k3: int, a: int, b: int, c: int, m: int, t: Cube)
    requires Turned(k1, k2, k3, a, b, c, m, t)
    ensures F((k1 + k2) * Core(a, b, c, t)) == F(CoreTurned(a, b, c, m, t))
  {
    hide F, Tail;
    var a1, b1 := a + b * c, b + a * c;
    FrontTurns(k1, k2, c, m, a1, b1, t);
    BackCofactors(a, b, c);
    BackTurns(k1, k2, a, b, c, m, a1, b1, a * a - b * b, t);
    var f, g := t.ppp + c * t.qqp, a * t.pqq - b * t.qpq;
    var f' := (a1 + c * b1) * t.qpp + (b1 + c * a1) * t.pqp + 4 * m * (t.ppp - c * t.qqp);
    var g' := (a * a - b * b) * Tail(c, t);
    TwoParts(k1 + k2, f, g, f', g');
  }

  lemma TwoParts(k: int, f: int, g: int, f': int, g': int)
    requires F(k * f) == F(f') && F(k * g) == F(g')
    ensures F(k * (f + g)) == F(f' + g')
  {
    hide F;
    Reduce2(k * (f + g), f' + g', 1, k * f, f', 1, k * g, g');
  }

  lemma FrontExact(k1: int, k2: int, c: int, m: int, a1: int, b1: int, t: Cube)
    ensures (k1 + k2) * (t.ppp + c * t.qqp) ==
            (a1 + c * b1) * t.qpp + (b1 + c * a1) * t.pqp + 4 * m * (t.ppp - c * t.qqp)
            + 1 * (k1 * t.ppp - (a1 * t.qpp + 2 * m * t.ppp)) + 1 * (k2 * t.ppp - (b1 * t.pqp + 2 * m * t.ppp))
            + c * (k1 * t.qqp - (a1 * t.pqp - 2 * m * t.qqp)) + c * (k2 * t.qqp - (b1 * t.qpp - 2 * m * t.qqp))
  {
  }

  lemma BackExact(k1: int, k2: int, a: int, b: int, c: int, m: int, a1: int, b1: int, e: int, t: Cube)
    requires a * a1 - b * b1 == e && a * b1 - b * a1 == c * e
    ensures (k1 + k2) * (a * t.pqq - b * t.qpq) == e * Tail(c, t)
            + a * (k1 * t.pqq - (a1 * t.qqq + 2 * m * t.pqq)) + a * (k2 * t.pqq - (b1 * t.ppq - 2 * m * t.pqq))
            + (-b) * (k1 * t.qpq - (a1 * t.ppq - 2 * m * t.qpq)) + (-b) * (k2 * t.qpq - (b1 * t.qqq + 2 * m * t.qpq))
  {
    TailCollect(a, b, c, a1, b1, e, t.qqq, t.ppq);
  }

  lemma TailCollect(a: int, b: int, c: int, a1: int, b1: int, e: int, u: int, v: int)
    requires a * a1 - b * b1 == e && a * b1 - b * a1 == c * e
    ensures e * (u + c * v) == a * (a1 * u) - b * (b1 * u) + a * (b1 * v) - b * (a1 * v)
  {
    assert e * (u + c * v) == (a * a1 - b * b1) * u + (a * b1 - b * a1) * v;
  }

  // ---- The two numerators turned by the other's multipliers ----

  lemma SideTurns(k1: int, k2: int, a: int, m: int, a1: int, b1: int, t: Cube)
    requires Turns(k1, a1, m, t.pqq, t.qqq) && Turns(k1, a1, m, t.ppp, t.qpp) && Turns(k2, b1, m, t.qpp, t.qqp)
    ensures F(k1 * (t.qqq + a * t.qpp) + k2 * (a * t.qpp)) ==
            F(a1 * t.pqq - 2 * m * t.qqq + a * a1 * t.ppp + a * b1 * t.qqp)
  {
    hide F;
    SideExact(k1, k2, a, m, a1, b1, t);
    Reduce4(k1 * (t.qqq + a * t.qpp) + k2 * (a * t.qpp),
            a1 * t.pqq - 2 * m * t.qqq + a * a1 * t.ppp + a * b1 * t.qqp,
            1, k1 * t.qqq, a1 * t.pqq - 2 * m * t.qqq, a, k1 * t.qpp, a1 * t.ppp - 2 * m * t.qpp,
            a, k2 * t.qpp, b1 * t.qqp + 2 * m * t.qpp, 0, 0, 0);
  }

  lemma SideExact(k1: int, k2: int, a: int, m: int, a1: int, b1: int, t: Cube)
    ensures k1 * (t.qqq + a * t.qpp) + k2 * (a * t.qpp) ==
            a1 * t.pqq - 2 * m * t.qqq + a * a1 * t.ppp + a * b1 * t.qqp
            + 1 * (k1 * t.qqq - (a1 * t.pqq - 2 * m * t.qqq)) + a * (k1 * t.qpp - (a1 * t.ppp - 2 * m * t.qpp))
            + a * (k2 * t.qpp - (b1 * t.qqp + 2 * m * t.qpp))
  {
  }

  /** What the difference of the turned tails comes to. */
  function Cross(a: int, c: int, t: Cube): int
  {
    a * (1 - c * c) * t.pqq - c * (1 - a * a) * t.qqp + (a * a - c * c) * t.ppp
  }

  lemma TailsTurn(k1: int, k2: int, k3: int, a: int, b: int, c: int, m: int, t: Cube)
    requires Turned(k1, k2, k3, a, b, c, m, t)
    ensures F((k1 + k2) * Tail(a, Mirror(t)) - (k2 + k3) * Tail(c, t)) == F(Cross(a, c, t))
  {
    hide F, Cross;
    var a1, b1, c1 := a + b * c, b + a * c, c + a * b;
    SideTurns(k1, k2, a, m, a1, b1, t);
    MirrorTurned(k1, k2, k3, a, b, c, m, t);
    SideTurns(k3, k2, c, m, c1, b1, Mirror(t));
    var l1, l3 := k1 * (t.qqq + a * t.qpp) + k2 * (a * t.qpp), k3 * (t.qqq + c * t.ppq) + k2 * (c * t.ppq);
    var r1 := a1 * t.pqq - 2 * m * t.qqq + a * a1 * t.ppp + a * b1 * t.qqp;
    var r3 := c1 * t.qqp - 2 * m * t.qqq + c * c1 * t.ppp + c * b1 * t.pqq;
    TailsExact(k1, k2, k3, a, c, t);
    CrossExact(a, b, c, m, t);
    Reduce2((k1 + k2) * Tail(a, Mirror(t)) - (k2 + k3) * Tail(c, t), Cross(a, c, t), 1, l1, r1, -1, l3, r3);
  }

  lemma TailsExact(k1: int, k2: int, k3: int, a: int, c: int, t: Cube)
    ensures (k1 + k2) * Tail(a, Mirror(t)) - (k2 + k3) * Tail(c, t) ==
            k1 * (t.qqq + a * t.qpp) + k2 * (a * t.qpp) - (k3 * (t.qqq + c * t.ppq) + k2 * (c * t.ppq))
  {
  }

  lemma CrossExact(a: int, b: int, c: int, m: int, t: Cube)
    ensures var a1, b1, c1 := a + b * c, b + a * c, c + a * b;
            Cross(a, c, t) == (a1 * t.pqq - 2 * m * t.qqq + a * a1 * t.ppp + a * b1 * t.qqp)
                              - (c1 * t.qqp - 2 * m * t.qqq + c * c1 * t.ppp + c * b1 * t.pqq)
  {
    hide Cross;
    CrossCofactors(a, b, c);
    CrossParts(a, c, m, a + b * c, b + a * c, c + a * b, t);
  }

  lemma CrossCofactors(a: int, b: int, c: int)
    ensures (a + b * c) - c * (b + a * c) == a * (1 - c * c)
    ensures (c + a * b) - a * (b + a * c) == c * (1 - a * a)
    ensures a * (a + b * c) - c * (c + a * b) == a * a - c * c
  {
  }

  lemma CrossParts(a: int, c: int, m: int, a1: int, b1: int, c1: int, t: Cube)
    requires a1 - c * b1 == a * (1 - c * c) && c1 - a * b1 == c * (1 - a * a) && a * a1 - c * c1 == a * a - c * c
    ensures Cross(a, c, t) == (a1 * t.pqq - 2 * m * t.qqq + a * a1 * t.ppp + a * b1 * t.qqp)
                              - (c1 * t.qqp - 2 * m * t.qqq + c * c1 * t.ppp + c * b1 * t.pqq)
  {
    Grouped(a1, c * b1, t.pqq);
    Grouped(c1, a * b1, t.qqp);
    Grouped(a * a1, c * c1, t.ppp);
  }

  lemma Grouped(x: int, y: int, u: int)
    ensures (x - y) * u == x * u - y * u
  {
  }

  /** k2 times the cross. */
  function CrossTurned(a: int, b: int, c: int, m: int, t: Cube): int
  {
    (b + a * c) * (a * (1 - c * c) * t.ppq - c * (1 - a * a) * t.qpp + (a * a - c * c) * t.pqp)
    + 2 * m * (-(a * (1 - c * c)) * t.pqq + c * (1 - a * a) * t.qqp + (a * a - c * c) * t.ppp)
  }

  lemma CrossTurns(k1: int, k2: int, k3: int, a: int, b: int, c: int, m: int, t: Cube)
    requires Turned(k1, k2, k3, a, b, c, m, t)
    ensures F(k2 * Cross(a, c, t)) == F(CrossTurned(a, b, c, m, t))
  {
    hide F;
    var b1 := b + a * c;
    ThreeTurn(k2, b1, m, a * (1 - c * c), c * (1 - a * a), a * a - c * c, t);
  }

  lemma ThreeTurn(k2: int, b1: int, m: int, e1: int, e2: int, e3: int, t: Cube)
    requires Turns(k2, b1, m, t.ppq, t.pqq) && Turns(k2, b1, m, t.qpp, t.qqp) && Turns(k2, b1, m, t.ppp, t.pqp)
    ensures F(k2 * (e1 * t.pqq - e2 * t.qqp + e3 * t.ppp)) ==
            F(b1 * (e1 * t.ppq - e2 * t.qpp + e3 * t.pqp) + 2 * m * (-e1 * t.pqq + e2 * t.qqp + e3 * t.ppp))
  {
    hide F;
    ThreeExact(k2, b1, m, e1, e2, e3, t);
    Reduce4(k2 * (e1 * t.pqq - e2 * t.qqp + e3 * t.ppp),
            b1 * (e1 * t.ppq - e2 * t.qpp + e3 * t.pqp) + 2 * m * (-e1 * t.pqq + e2 * t.qqp + e3 * t.ppp),
            e1, k2 * t.pqq, b1 * t.ppq - 2 * m * t.pqq, -e2, k2 * t.qqp, b1 * t.qpp - 2 * m * t.qqp,
            e3, k2 * t.ppp, b1 * t.pqp + 2 * m * t.ppp, 0, 0, 0);
  }

  lemma ThreeExact(k2: int, b1: int, m: int, e1: int, e2: int, e3: int, t: Cube)
    ensures k2 * (e1 * t.pqq - e2 * t.qqp + e3 * t.ppp) ==
            b1 * (e1 * t.ppq - e2 * t.qpp + e3 * t.pqp) + 2 * m * (-e1 * t.pqq + e2 * t.qqp + e3 * t.ppp)
            + e1 * (k2 * t.pqq - (b1 * t.ppq - 2 * m * t.pqq)) + (-e2) * (k2 * t.qqp - (b1 * t.qpp - 2 * m * t.qqp))
            + e3 * (k2 * t.ppp - (b1 * t.pqp + 2 * m * t.ppp))
  {
  }

  // ---- Associativity ----

  /** 1 - a^2 - c^2 + b^2. */
  function Theta(a: int, b: int, c: int): int
  {
    1 - a * a - c * c + b * b
  }

  lemma OuterBalance(a: int, b: int, c: int, x: int, y: int, a1: int, b1: int, h: int)
    requires a1 - c * b1 == a * y && c * c - b * b + h == x
    ensures x * (a1 + c * b1) - y * (c * c - b * b) * a - 2 * b1 * (c * x) - h * y * a == 0
  {
    var w, s := c * c - b * b, a * y;
    assert y * w * a + h * y * a == x * s by {
      assert y * w * a == w * s && h * y * a == h * s && w * s + h * s == (w + h) * s;
    }
    assert x * (a1 + c * b1) - 2 * b1 * (c * x) == x * (a1 - c * b1);
  }

  lemma HalfBalance(c: int, y: int, a1: int, b1: int, s: int)
    requires y == 1 - c * c && a1 - c * b1 == s
    ensures b1 + c * a1 == 2 * b1 - y * b1 + c * s
  {
    assert c * a1 == c * (c * b1) + c * s;
    assert c * (c * b1) == (1 - y) * b1;
  }

  lemma MiddleBalance(a: int, c: int, x: int, y: int, a1: int, b1: int, c1: int)
    requires x == 1 - a * a && y == 1 - c * c && a1 - c * b1 == a * y && c1 - a * b1 == c * x
    ensures x * (b1 + c * a1) - y * (b1 + a * c1) + 2 * b1 * (a * a - c * c) == 0
  {
    HalfBalance(c, y, a1, b1, a * y);
    HalfBalance(a, x, c1, b1, c * x);
    MiddleProducts(x, y, b1, b1 + c * a1, b1 + a * c1, a * c);
  }

  lemma MiddleProducts(x: int, y: int, b: int, f: int, g: int, s: int)
    requires f == 2 * b - y * b + s * y && g == 2 * b - x * b + s * x
    ensures x * f - y * g == 2 * b * (x - y)
  {
  }

  /** The coefficients of the eight products in the balance below. */
  lemma BalanceCofactors(a: int, b: int, c: int)
    ensures var x, y, h := 1 - a * a, 1 - c * c, Theta(a, b, c);
            var a1, b1, c1 := a + b * c, b + a * c, c + a * b;
            && x * (a1 + c * b1) - y * (c * c - b * b) * a - 2 * b1 * (c * x) - h * y * a == 0
            && y * (c1 + a * b1) - x * (a * a - b * b) * c - 2 * b1 * (a * y) - h * x * c == 0
            && x * (b1 + c * a1) - y * (b1 + a * c1) + 2 * b1 * (a * a - c * c) == 0
            && x * (a * a - b * b) - y * (c * c - b * b) + h * (x - y) == 0
  {
    var x, y, h := 1 - a * a, 1 - c * c, Theta(a, b, c);
    var a1, b1, c1 := a + b * c, b + a * c, c + a * b;
    CrossCofactors(a, b, c);
    OuterBalance(a, b, c, x, y, a1, b1, h);
    OuterBalance(c, b, a, y, x, c1, b1, h);
    MiddleBalance(a, c, x, y, a1, b1, c1);
    InnerBalance(x, y, a * a - b * b, c * c - b * b, h);
  }

  lemma InnerBalance(x: int, y: int, e: int, e': int, h: int)
    requires e + h == y && e' + h == x
    ensures x * e - y * e' + h * (x - y) == 0
  {
    assert x * e - y * e' + h * (x - y) == x * (e + h) - y * (e' + h);
  }

  lemma SpreadTurned(x: int, f1: int, f2: int, m: int, c: int, e: int,
                     qpp: int, pqp: int, ppp: int, qqp: int, qqq: int, ppq: int)
    ensures x * (f1 * qpp + f2 * pqp + 4 * m * (ppp - c * qqp) + e * (qqq + c * ppq)) ==
            (x * f1) * qpp + (x * f2) * pqp + (4 * m * x) * ppp - (4 * m * (c * x)) * qqp
            + (x * e) * qqq + (x * e * c) * ppq
  {
    SpreadFour(x, f1 * qpp, f2 * pqp, 4 * m * (ppp - c * qqp), e * (qqq + c * ppq));
    SpreadDifference(x, m, c, ppp, qqp);
    SpreadSum(x, e, c, qqq, ppq);
  }

  lemma SpreadFour(x: int, u1: int, u2: int, u3: int, u4: int)
    ensures x * (u1 + u2 + u3 + u4) == x * u1 + x * u2 + x * u3 + x * u4
  {
  }

  lemma SpreadDifference(x: int, m: int, c: int, u: int, v: int)
    ensures x * (4 * m * (u - c * v)) == (4 * m * x) * u - (4 * m * (c * x)) * v
  {
  }

  lemma SpreadSum(x: int, e: int, c: int, u: int, v: int)
    ensures x * (e * (u + c * v)) == (x * e) * u + (x * e * c) * v
  {
  }

  lemma SpreadCross(b1: int, m: int, s: int, r: int, z: int, ppq: int, qpp: int, pqp: int, pqq: int, qqp: int, ppp: int)
    ensures 2 * (b1 * (s * ppq - r * qpp + z * pqp) + 2 * m * (-s * pqq + r * qqp + z * ppp)) ==
            (2 * b1 * s) * ppq - (2 * b1 * r) * qpp + (2 * b1 * z) * pqp
            - (4 * m * s) * pqq + (4 * m * r) * qqp + (4 * m * z) * ppp
  {
  }

  lemma SpreadTails(h: int, x: int, y: int, a: int, c: int, qqq: int, ppq: int, qpp: int)
    ensures h * (x * (qqq + c * ppq) - y * (qqq + a * qpp)) ==
            (h * (x - y)) * qqq + (h * x * c) * ppq - (h * y * a) * qpp
  {
  }

  lemma None4(k1: int, k2: int, k3: int, k4: int, u: int)
    requires k1 - k2 - k3 - k4 == 0
    ensures k1 * u - k2 * u - k3 * u - k4 * u == 0
  {
    assert (k1 - k2 - k3 - k4) * u == k1 * u - k2 * u - k3 * u - k4 * u;
  }

  lemma None3(k1: int, k2: int, k3: int, u: int)
    requires k1 - k2 + k3 == 0
    ensures k1 * u - k2 * u + k3 * u == 0
  {
    assert (k1 - k2 + k3) * u == k1 * u - k2 * u + k3 * u;
  }

  /** The balance, product by product. */
  lemma BalanceParts(a: int, c: int, m: int, x: int, y: int, h: int, b1: int, f1: int, f2: int, g1: int, g2: int,
                     e: int, e': int, t: Cube)
    requires x * f1 - y * e' * a - 2 * b1 * (c * x) - h * y * a == 0
    requires y * g1 - x * e * c - 2 * b1 * (a * y) - h * x * c == 0
    requires x * f2 - y * g2 + 2 * b1 * (y - x) == 0
    requires x * e - y * e' + h * (x - y) == 0
    ensures x * (f1 * t.qpp + f2 * t.pqp + 4 * m * (t.ppp - c * t.qqp) + e * (t.qqq + c * t.ppq))
            - y * (g1 * t.ppq + g2 * t.pqp + 4 * m * (t.ppp - a * t.pqq) + e' * (t.qqq + a * t.qpp))
            + 2 * (b1 * (a * y * t.ppq - c * x * t.qpp + (y - x) * t.pqp)
                   + 2 * m * (-(a * y) * t.pqq + c * x * t.qqp + (y - x) * t.ppp))
            + h * (x * (t.qqq + c * t.ppq) - y * (t.qqq + a * t.qpp)) == 0
  {
    SpreadTurned(x, f1, f2, m, c, e, t.qpp, t.pqp, t.ppp, t.qqp, t.qqq, t.ppq);
    SpreadTurned(y, g1, g2, m, a, e', t.ppq, t.pqp, t.ppp, t.pqq, t.qqq, t.qpp);
    SpreadCross(b1, m, a * y, c * x, y - x, t.ppq, t.qpp, t.pqp, t.pqq, t.qqp, t.ppp);
    SpreadTails(h, x, y, a, c, t.qqq, t.ppq, t.qpp);
    None4(x * f1, y * e' * a, 2 * b1 * (c * x), h * y * a, t.qpp);
    None4(y * g1, x * e * c, 2 * b1 * (a * y), h * x * c, t.ppq);
    None3(x * f2, y * g2, 2 * b1 * (y - x), t.pqp);
    None3(x * e, y * e', h * (x - y), t.qqq);
    None3(4 * m * x, 4 * m * y, 4 * m * (y - x), t.ppp);
  }

  lemma Balance(k1: int, k2: int, k3: int, a: int, b: int, c: int, m: int, t: Cube)
    requires Turned(k1, k2, k3, a, b, c, m, t)
    ensures var s, u, v := Core(a, b, c, t), Tail(a, Mirror(t)), Tail(c, t);
            F((1 - a * a) * ((k1 + k2) * s) - (1 - c * c) * ((k2 + k3) * s)
              + 2 * (k2 * ((k1 + k2) * u - (k2 + k3) * v))
              + Theta(a, b, c) * ((1 - a * a) * v - (1 - c * c) * u)) == F(0)
  {
    hide F, Core, CoreTurned, Cross, CrossTurned, Turned, Tail, Theta;
    var s, u, v := Core(a, b, c, t), Tail(a, Mirror(t)), Tail(c, t);
    var x, y := 1 - a * a, 1 - c * c;
    var w := (k1 + k2) * u - (k2 + k3) * v;
    MirrorTurned(k1, k2, k3, a, b, c, m, t);
    CoreTurns(k1, k2, k3, a, b, c, m, t);
    CoreTurns(k3, k2, k1, c, b, a, m, Mirror(t));
    CoreMirrored(a, b, c, t);
    TailsTurn(k1, k2, k3, a, b, c, m, t);
    CrossTurns(k1, k2, k3, a, b, c, m, t);
    Products(k2, k2, w, Cross(a, c, t));
    BalanceIs(a, b, c, m, t);
    var l1, l2 := (k1 + k2) * s, (k2 + k3) * s;
    var r1, r2 := CoreTurned(a, b, c, m, t), CoreTurned(c, b, a, m, Mirror(t));
    assert (k3 + k2) * s == l2;
    var g := Theta(a, b, c) * (x * v - y * u);
    Replaced(x, y, l1, l2, k2 * w, r1, r2, CrossTurned(a, b, c, m, t), g);
  }

  lemma Replaced(x: int, y: int, l1: int, l2: int, l3: int, r1: int, r2: int, r3: int, g: int)
    requires F(l1) == F(r1) && F(l2) == F(r2) && F(l3) == F(r3)
    ensures F(x * l1 - y * l2 + 2 * l3 + g) == F(x * r1 - y * r2 + 2 * r3 + g)
  {
    hide F;
    Reduce4(x * l1 - y * l2 + 2 * l3 + g, x * r1 - y * r2 + 2 * r3 + g, x, l1, r1, -y, l2, r2, 2, l3, r3, 0, 0, 0);
  }

  lemma CoreMirrored(a: int, b: int, c: int, t: Cube)
    ensures Core(c, b, a, Mirror(t)) == Core(a, b, c, t)
  {
  }

  lemma BalanceIs(a: int, b: int, c: int, m: int, t: Cube)
    ensures (1 - a * a) * CoreTurned(a, b, c, m, t) - (1 - c * c) * CoreTurned(c, b, a, m, Mirror(t))
            + 2 * CrossTurned(a, b, c, m, t)
            + Theta(a, b, c) * ((1 - a * a) * Tail(c, t) - (1 - c * c) * Tail(a, Mirror(t))) == 0
  {
    hide Theta;
    BalanceCofactors(a, b, c);
    var a1, b1, c1 := a + b * c, b + a * c, c + a * b;
    BalanceParts(a, c, m, 1 - a * a, 1 - c * c, Theta(a, b, c), b1, a1 + c * b1, b1 + c * a1, c1 + a * b1, b1 + a * c1,
                 a * a - b * b, c * c - b * b, t);
    assert a * b == b * a && b * c == c * b && a * c == c * a;
  }

  lemma TwoByTwo(p: int, q: int, f: int, g: int)
    ensures (p + q) * (f - g) == p * f - p * g + q * f - q * g
  {
  }

  lemma FirstCross(s: int, x: int, y: int, r: int, k: int, k': int)
    ensures (x * s) * (r * k) - (y * s) * (r * k') == r * (x * (k * s) - y * (k' * s))
  {
  }

  lemma SecondCross(u: int, v: int, r: int, k: int, k': int)
    ensures (r * u) * (r * k) - (r * v) * (r * k') == r * (r * (k * u - k' * v))
  {
    assert r * (k * u - k' * v) == r * (k * u) - r * (k' * v);
  }

  lemma ThirdCross(u: int, v: int, x: int, y: int, h: int, r: int)
    ensures (r * v) * (x * h) - (r * u) * (y * h) == r * (h * (x * v - y * u))
  {
    assert h * (x * v - y * u) == h * (x * v) - h * (y * u);
  }

  lemma SpreadThree(r: int, p: int, q: int, t: int)
    ensures r * (p + q + t) == r * p + r * q + r * t
  {
  }

  lemma Swapped(s: int, x: int, y: int, h: int)
    ensures (y * s) * (x * h) == (x * s) * (y * h)
  {
  }

  lemma CrossProducts(s: int, u: int, v: int, x: int, y: int, h: int, r: int, k: int, k': int)
    ensures (y * s + r * v) * (x * h - r * k') - (x * s + r * u) * (y * h - r * k) ==
            r * (x * (k * s) - y * (k' * s) + r * (k * u - k' * v) + h * (x * v - y * u))
  {
    TwoByTwo(y * s, r * v, x * h, r * k');
    TwoByTwo(x * s, r * u, y * h, r * k);
    Swapped(s, x, y, h);
    FirstCross(s, x, y, r, k, k');
    SecondCross(u, v, r, k, k');
    ThirdCross(u, v, x, y, h, r);
    SpreadThree(r, x * (k * s) - y * (k' * s), r * (k * u - k' * v), h * (x * v - y * u));
  }

  /** The two ways of adding three points agree: the cross products of numerators and denominators. */
  lemma Associativity(k1: int, k2: int, k3: int, a: int, b: int, c: int, m: int, t: Cube)
    requires Turned(k1, k2, k3, a, b, c, m, t)
    ensures F(Numerator(k1, k2, c, t) * Denominator(k3, k2, a)) ==
            F(Numerator(k3, k2, a, Mirror(t)) * Denominator(k1, k2, c))
  {
    hide F, Turned, Numerator, Denominator, Core, Tail, Theta;
    var s, u, v := Core(a, b, c, t), Tail(a, Mirror(t)), Tail(c, t);
    var x, y, h := 1 - a * a, 1 - c * c, Theta(a, b, c);
    MirrorTurned(k1, k2, k3, a, b, c, m, t);
    CoreMirrored(a, b, c, t);
    NumeratorIs(k1, k2, k3, a, b, c, m, t);
    NumeratorIs(k3, k2, k1, c, b, a, m, Mirror(t));
    DenominatorIs(k1, k2, k3, a, b, c, m, t);
    DenominatorIs(k3, k2, k1, c, b, a, m, Mirror(t));
    ThetaMirrored(a, b, c);
    var n1, n2 := y * s + 2 * k2 * v, x * s + 2 * k2 * u;
    var d1, d2 := y * h - 2 * k2 * (k1 + k2), x * h - 2 * k2 * (k3 + k2);
    Products(Numerator(k1, k2, c, t), n1, Denominator(k3, k2, a), d2);
    Products(Numerator(k3, k2, a, Mirror(t)), n2, Denominator(k1, k2, c), d1);
    CrossProducts(s, u, v, x, y, h, 2 * k2, k1 + k2, k3 + k2);
    Balance(k1, k2, k3, a, b, c, m, t);
    var z := x * ((k1 + k2) * s) - y * ((k3 + k2) * s)
             + 2 * (k2 * ((k1 + k2) * u - (k3 + k2) * v)) + h * (x * v - y * u);
    Reduce(n1 * d2, n2 * d1, 2 * k2, z, 0);
  }

  lemma ThetaMirrored(a: int, b: int, c: int)
    ensures Theta(a, b, c) == 1 - a * a - c * c + b * b == 1 - c * c - a * a + b * b
  {
  }
}
