/** The variable-time computation of a*A + b*B, over any abelian group. Conversions between the point
    representations of the library are the identity here: all of them stand for the same group element. */
module DoubleScalarMult {
  import opened MachineInts
  import opened Bits
  import opened LittleEndian
  import opened Group
  import opened Slide

  /** The combination m*p + n*q. */
  ghost function Comb<G>(g: Group<G>, m: int, p: G, n: int, q: G): G
  {
    g.add(Times(g, m, p), Times(g, n, q))
  }

  /** table[j] holds (2j + 1) * p. */
  ghost predicate OddMultiples<G>(g: Group<G>, table: seq<G>, p: G)
  {
    |table| == 8 && forall j :: 0 <= j < 8 ==> table[j] == Times(g, 2 * j + 1, p)
  }

  lemma CombDouble<G(!new)>(g: Group<G>, m: int, p: G, n: int, q: G)
    requires Abelian(g)
    ensures g.add(Comb(g, m, p, n, q), Comb(g, m, p, n, q)) == Comb(g, 2 * m, p, 2 * n, q)
  {
    hide Abelian, Times;
    CombinationAdd(g, m, n, m, n, p, q);
  }

  lemma CombAddFirst<G(!new)>(g: Group<G>, m: int, p: G, n: int, q: G, d: int)
    requires Abelian(g)
    ensures g.add(Comb(g, m, p, n, q), Times(g, d, p)) == Comb(g, m + d, p, n, q)
  {
    hide Abelian;
    CombinationAdd(g, m, n, d, 0, p, q);
    ZeroRight(g, Times(g, d, p));
  }

  lemma CombAddSecond<G(!new)>(g: Group<G>, m: int, p: G, n: int, q: G, d: int)
    requires Abelian(g)
    ensures g.add(Comb(g, m, p, n, q), Times(g, d, q)) == Comb(g, m, p, n + d, q)
  {
    hide Abelian;
    CombinationAdd(g, m, n, 0, d, p, q);
    ZeroRight(g, Times(g, d, q));
  }

  lemma CombZero<G(!new)>(g: Group<G>, p: G, q: G)
    requires Abelian(g)
    ensures Comb(g, 0, p, 0, q) == g.zero
  {
    ZeroRight(g, g.zero);
  }

  /** The eight odd multiples of A, each two A above the one before. */
  method BuildTable<G(!new)>(g: Group<G>, A: G) returns (table: array<G>)
    requires Abelian(g)
    ensures fresh(table) && OddMultiples(g, table[..], A)
  {
    hide Abelian, Times;
    table := new G[8](_ => A);
    TimesOne(g, A);
    TimesAdd(g, 1, 1, A);
    var A2 := g.add(A, A);
    var j := 1;
    while j < 8
      invariant 1 <= j <= 8
      invariant forall k :: 0 <= k < j ==> table[k] == Times(g, 2 * k + 1, A)
    {
      TimesAdd(g, 2, 2 * (j - 1) + 1, A);
      table[j] := g.add(A2, table[j - 1]);
      j := j + 1;
    }
  }

  /** Adds or subtracts the table entry that a window digit selects; the index is always within the table. */
  method AddDigit<G(!new)>(g: Group<G>, t: G, table: seq<G>, d: i8, ghost p: G) returns (t': G)
    requires Abelian(g) && OddMultiples(g, table, p)
    requires d == 0 || (d % 2 == 1 && -15 <= d <= 15)
    ensures t' == g.add(t, Times(g, d, p))
  {
    hide Abelian;
    t' := t;
    if d > 0 {
      var k := d / 2;
      assert 0 <= k < 8 && d == 2 * k + 1;
      t' := g.add(t, table[k]);
    } else if d < 0 {
      var k := (0 - d) / 2;
      assert 0 <= k < 8 && -d == 2 * k + 1;
      TimesNeg(g, -d, p);
      t' := g.add(t, g.neg(table[k]));
    } else {
      ZeroRight(g, t);
    }
  }

  lemma DigitShape(r: seq<int>, i: nat)
    requires i < |r| && Naf5(r)
    ensures r[i] == 0 || (r[i] % 2 == 1 && -15 <= r[i] <= 15)
    ensures Sum(r[i..]) == r[i] + 2 * Sum(r[i + 1..])
  {
    assert r[i] == 0 || Window(r, i);
    assert r[i..][1..] == r[i + 1..];
  }

  /** Positions above i hold only zeros in both recodings. */
  method SkipZeros(x: array<i8>, y: array<i8>) returns (i: int)
    requires x.Length == DIGITS && y.Length == DIGITS
    ensures -1 <= i < DIGITS
    ensures Sum(x[i + 1..]) == 0 && Sum(y[i + 1..]) == 0
  {
    i := DIGITS - 1;
    while i >= 0
      invariant -1 <= i < DIGITS
      invariant forall j :: i < j < DIGITS ==> x[j] == 0 && y[j] == 0
    {
      if x[i] != 0 || y[i] != 0 {
        break;
      }
      i := i - 1;
    }
    SumZero(x[i + 1..]);
    SumZero(y[i + 1..]);
  }

  /** One turn of the Horner loop: doubling, then one digit of each scalar. */
  method Turn<G(!new)>(g: Group<G>, r: G, Ai: seq<G>, da: i8, Bi: seq<G>, db: i8,
                       ghost m: int, ghost A: G, ghost n: int, ghost B: G)
      returns (r': G)
    requires Abelian(g) && OddMultiples(g, Ai, A) && OddMultiples(g, Bi, B)
    requires da == 0 || (da % 2 == 1 && -15 <= da <= 15)
    requires db == 0 || (db % 2 == 1 && -15 <= db <= 15)
    requires r == Comb(g, m, A, n, B)
    ensures r' == Comb(g, da + 2 * m, A, db + 2 * n, B)
  {
    hide Abelian, Times, OddMultiples, Comb;
    CombDouble(g, m, A, n, B);
    CombAddFirst(g, 2 * m, A, 2 * n, B, da);
    CombAddSecond(g, 2 * m + da, A, 2 * n, B, db);
    r' := g.add(r, r);
    r' := AddDigit(g, r', Ai, da, A);
    r' := AddDigit(g, r', Bi, db, B);
  }

  /** A turn at position i, the digits after it having been done. */
  method DigitTurn<G(!new)>(g: Group<G>, r: G, ghost x: seq<int>, da: i8, Ai: seq<G>,
                            ghost y: seq<int>, db: i8, Bi: seq<G>, ghost i: nat, ghost A: G, ghost B: G) returns (r': G)
    requires |x| == |y| == DIGITS && Naf5(x) && Naf5(y) && i < DIGITS && da == x[i] && db == y[i]
    requires Abelian(g) && OddMultiples(g, Ai, A) && OddMultiples(g, Bi, B)
    requires r == Comb(g, Sum(x[i + 1..]), A, Sum(y[i + 1..]), B)
    ensures r' == Comb(g, Sum(x[i..]), A, Sum(y[i..]), B)
  {
    hide *;
    DigitShape(x, i);
    DigitShape(y, i);
    r' := Turn(g, r, Ai, da, Bi, db, Sum(x[i + 1..]), A, Sum(y[i + 1..]), B);
  }

  /** The Horner loop over both recodings, from the highest nonzero digit down. */
  method Horner<G(!new)>(g: Group<G>, aslide: array<i8>, Ai: array<G>, bslide: array<i8>, Bi: seq<G>,
                         ghost A: G, ghost B: G)
      returns (r: G)
    requires aslide.Length == DIGITS && bslide.Length == DIGITS && Naf5(aslide[..]) && Naf5(bslide[..])
    requires Abelian(g) && OddMultiples(g, Ai[..], A) && OddMultiples(g, Bi, B)
    ensures r == Comb(g, Sum(aslide[..]), A, Sum(bslide[..]), B)
  {
    hide *;
    ghost var x: seq<int>, y: seq<int> := aslide[..], bslide[..];
    r := g.zero;
    CombZero(g, A, B);
    var i := SkipZeros(aslide, bslide);
    ghost var s, t := x[i + 1..], y[i + 1..];
    while i >= 0
      invariant -1 <= i < DIGITS
      invariant s == x[i + 1..] && t == y[i + 1..]
      invariant r == Comb(g, Sum(s), A, Sum(t), B)
    {
      r := DigitTurn(g, r, x, aslide[i], Ai[..], y, bslide[i], Bi, i, A, B);
      s, t := x[i..], y[i..];
      i := i - 1;
    }
    assert s == x && t == y;
  }

  /** The scalar that the recoding of n stands for: n, or 2^256 less if the recoding overflows. */
  function Kept(n: nat): int
  {
    n - if Overflows(n, DIGITS) then Pow2(DIGITS) else 0
  }

  /** a*A + b*B for the scalars as the recoding keeps them, and so for all scalars below 2^255. */
  method DoubleScalarMult<G(!new)>(g: Group<G>, a: array<byte>, A: G, b: array<byte>, Bi: seq<G>, ghost B: G)
      returns (r: G)
    requires Abelian(g) && a.Length == 32 && b.Length == 32
    requires OddMultiples(g, Bi, B)
    ensures LE(a[..]) >= 0 && LE(b[..]) >= 0
    ensures r == g.add(Times(g, Kept(LE(a[..])), A), Times(g, Kept(LE(b[..])), B))
    ensures LE(a[..]) < Pow2(255) && LE(b[..]) < Pow2(255) ==>
              r == g.add(Times(g, LE(a[..]), A), Times(g, LE(b[..]), B))
  {
    hide Abelian, Times, LE, Pow2, Sum, Naf5, OddMultiples, Overflows;
    LENonNegative(a[..]);
    LENonNegative(b[..]);
    var aslide, bslide := new i8[256], new i8[256];
    Slide.Slide(aslide, a);
    Slide.Slide(bslide, b);
    var Ai := BuildTable(g, A);
    r := Horner(g, aslide, Ai, bslide, Bi, A, B);
  }
}
