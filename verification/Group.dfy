/** An arbitrary abelian group, for the code that uses nothing of the curve but its group law. */
module Group {

  datatype Group<!G> = Group(zero: G, add: (G, G) -> G, neg: G -> G)

  ghost predicate Abelian<G(!new)>(g: Group<G>)
  {
    && (forall a, b :: g.add(a, b) == g.add(b, a))
    && (forall a, b, c :: g.add(g.add(a, b), c) == g.add(a, g.add(b, c)))
    && (forall a :: g.add(a, g.zero) == a)
    && (forall a :: g.add(a, g.neg(a)) == g.zero)
  }

  /** The n-fold multiple of p, for any integer n. */
  ghost function Times<G>(g: Group<G>, n: int, p: G): G
    decreases if n < 0 then 1 - n else n
  {
    if n == 0 then g.zero else
    if n > 0 then g.add(Times(g, n - 1, p), p) else g.neg(Times(g, -n, p))
  }

  lemma NegZero<G(!new)>(g: Group<G>)
    requires Abelian(g)
    ensures g.neg(g.zero) == g.zero
  {
    assert g.add(g.zero, g.neg(g.zero)) == g.zero;
    assert g.add(g.neg(g.zero), g.zero) == g.neg(g.zero);
  }

  /** Inverses are unique. */
  lemma NegUnique<G(!new)>(g: Group<G>, a: G, b: G)
    requires Abelian(g) && g.add(a, b) == g.zero
    ensures b == g.neg(a)
  {
    assert g.add(g.neg(a), g.add(a, b)) == g.add(g.add(g.neg(a), a), b);
    assert g.add(g.neg(a), a) == g.add(a, g.neg(a)) == g.zero;
    assert g.add(g.zero, b) == g.add(b, g.zero) == b;
  }

  /** Exchanging the middle terms of a sum of four. */
  lemma Middle<G(!new)>(g: Group<G>, a: G, b: G, c: G, d: G)
    requires Abelian(g)
    ensures g.add(g.add(a, b), g.add(c, d)) == g.add(g.add(a, c), g.add(b, d))
  {
    var add := g.add;
    calc {
      add(add(a, b), add(c, d));
      add(a, add(b, add(c, d)));
      { assert add(b, add(c, d)) == add(add(b, c), d); }
      add(a, add(add(b, c), d));
      { assert add(b, c) == add(c, b); }
      add(a, add(add(c, b), d));
      { assert add(add(c, b), d) == add(c, add(b, d)); }
      add(a, add(c, add(b, d)));
      add(add(a, c), add(b, d));
    }
  }

  lemma NegAdd<G(!new)>(g: Group<G>, a: G, b: G)
    requires Abelian(g)
    ensures g.neg(g.add(a, b)) == g.add(g.neg(a), g.neg(b))
  {
    hide Abelian;
    Middle(g, a, b, g.neg(a), g.neg(b));
    ZeroRight(g, a);
    ZeroRight(g, b);
    ZeroRight(g, g.zero);
    NegUnique(g, g.add(a, b), g.add(g.neg(a), g.neg(b)));
  }

  lemma CancelRight<G(!new)>(g: Group<G>, a: G, p: G)
    requires Abelian(g)
    ensures g.add(g.add(a, g.neg(p)), p) == a
  {
    assert g.add(g.neg(p), p) == g.add(p, g.neg(p)) == g.zero;
  }

  lemma Cancel<G(!new)>(g: Group<G>, a: G, b: G, p: G)
    requires Abelian(g) && g.add(a, p) == g.add(b, p)
    ensures a == b
  {
    assert g.add(g.add(a, p), g.neg(p)) == g.add(a, g.add(p, g.neg(p)));
    assert g.add(g.add(b, p), g.neg(p)) == g.add(b, g.add(p, g.neg(p)));
  }

  /** Stepping a multiple by one, in either direction from any integer. */
  lemma TimesStep<G(!new)>(g: Group<G>, n: int, p: G)
    requires Abelian(g)
    ensures Times(g, n + 1, p) == g.add(Times(g, n, p), p)
  {
    hide Abelian;
    if n < 0 {
      var m := Times(g, -n - 1, p);
      assert Times(g, -n, p) == g.add(m, p);
      NegAdd(g, m, p);
      CancelRight(g, g.neg(m), p);
      NegZero(g);
    }
  }

  lemma Associates<G(!new)>(g: Group<G>, a: G, b: G, c: G)
    requires Abelian(g)
    ensures g.add(g.add(a, b), c) == g.add(a, g.add(b, c))
  {
  }

  lemma ZeroRight<G(!new)>(g: Group<G>, a: G)
    requires Abelian(g)
    ensures g.add(a, g.zero) == a && g.add(g.zero, a) == a && g.add(a, g.neg(a)) == g.zero
  {
    assert g.add(a, g.zero) == g.add(g.zero, a);
  }

  lemma {:induction false} TimesAdd<G(!new)>(g: Group<G>, m: int, n: int, p: G)
    requires Abelian(g)
    ensures Times(g, m + n, p) == g.add(Times(g, m, p), Times(g, n, p))
    decreases if n < 0 then -n else n
  {
    hide Abelian;
    var a, b, c := Times(g, m, p), Times(g, n, p), Times(g, m + n, p);
    if n == 0 {
      ZeroRight(g, a);
    } else if n > 0 {
      TimesAdd(g, m, n - 1, p);
      TimesStep(g, m + n - 1, p);
      TimesStep(g, n - 1, p);
      Associates(g, a, Times(g, n - 1, p), p);
    } else {
      TimesAdd(g, m, n + 1, p);
      TimesStep(g, m + n, p);
      TimesStep(g, n, p);
      Associates(g, a, b, p);
      Cancel(g, c, g.add(a, b), p);
    }
  }

  lemma {:induction false} TimesNeg<G(!new)>(g: Group<G>, n: int, p: G)
    requires Abelian(g)
    ensures Times(g, -n, p) == g.neg(Times(g, n, p))
  {
    hide Abelian;
    TimesAdd(g, n, -n, p);
    NegUnique(g, Times(g, n, p), Times(g, -n, p));
  }

  lemma {:induction false} TimesOne<G(!new)>(g: Group<G>, p: G)
    requires Abelian(g)
    ensures Times(g, 1, p) == p
  {
    hide Abelian;
    ZeroRight(g, p);
  }

  /** Adding one combination of two points to another. */
  lemma {:induction false} CombinationAdd<G(!new)>(g: Group<G>, m: int, n: int, m': int, n': int, p: G, q: G)
    requires Abelian(g)
    ensures g.add(g.add(Times(g, m, p), Times(g, n, q)), g.add(Times(g, m', p), Times(g, n', q)))
         == g.add(Times(g, m + m', p), Times(g, n + n', q))
  {
    hide Abelian;
    Middle(g, Times(g, m, p), Times(g, n, q), Times(g, m', p), Times(g, n', q));
    TimesAdd(g, m, m', p);
    TimesAdd(g, n, n', q);
  }
}
