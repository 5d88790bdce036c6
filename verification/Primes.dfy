/** Congruences, prime numbers, and a test that proves a number prime from a prime factor of its predecessor. */
module Primes {

  // ---- Congruence ----

  /** The product, as the sum of k times n. */
  function Times(k: int, n: int): int
    decreases if k < 0 then -k else k
  {
    if k == 0 then 0 else if k > 0 then Times(k - 1, n) + n else Times(k + 1, n) - n
  }

  lemma {:induction false} TimesIs(k: int, n: int)
    ensures Times(k, n) == k * n
    decreases if k < 0 then -k else k
  {
    if k == 0 {
    } else if k > 0 {
      TimesIs(k - 1, n);
      assert k * n == (k - 1) * n + n;
    } else {
      TimesIs(k + 1, n);
      assert k * n == (k + 1) * n - n;
    }
  }

  /** a and b differ by a multiple of n. */
  ghost predicate Cong(n: int, a: int, b: int)
  {
    exists k: int :: a == b + Times(k, n)
  }

  lemma CongBy(n: int, a: int, b: int, k: int)
    requires a == b + k * n
    ensures Cong(n, a, b)
  {
    hide Times;
    TimesIs(k, n);
    assert a == b + Times(k, n);
  }

  lemma Multiple(n: int, a: int, b: int) returns (k: int)
    requires Cong(n, a, b)
    ensures a == b + k * n
  {
    hide Times;
    k :| a == b + Times(k, n);
    TimesIs(k, n);
  }

  lemma CongSelf(n: int, a: int)
    ensures Cong(n, a, a)
  {
    CongBy(n, a, a, 0);
  }

  lemma CongFlip(n: int, a: int, b: int)
    requires Cong(n, a, b)
    ensures Cong(n, b, a)
  {
    var k := Multiple(n, a, b);
    assert b == a + (-k) * n;
    CongBy(n, b, a, -k);
  }

  lemma CongTrans(n: int, a: int, b: int, c: int)
    requires Cong(n, a, b) && Cong(n, b, c)
    ensures Cong(n, a, c)
  {
    var k := Multiple(n, a, b);
    var l := Multiple(n, b, c);
    assert a == c + (k + l) * n;
    CongBy(n, a, c, k + l);
  }

  lemma CongTimes(n: int, a: int, b: int, c: int, d: int)
    requires Cong(n, a, b) && Cong(n, c, d)
    ensures Cong(n, a * c, b * d)
  {
    var k := Multiple(n, a, b);
    var l := Multiple(n, c, d);
    ProductOfShifted(n, b, k, d, l);
    CongBy(n, a * c, b * d, b * l + d * k + k * l * n);
  }

  lemma ProductOfShifted(n: int, b: int, k: int, d: int, l: int)
    ensures (b + k * n) * (d + l * n) == b * d + (b * l + d * k + k * l * n) * n
  {
    calc {
      (b + k * n) * (d + l * n);
      b * d + b * (l * n) + (k * n) * d + (k * n) * (l * n);
      b * d + (b * l) * n + (d * k) * n + (k * l * n) * n;
      b * d + (b * l + d * k + k * l * n) * n;
    }
  }

  /** The remainder is congruent. */
  lemma CongRem(n: int, a: int)
    requires n > 0
    ensures Cong(n, a, a % n) && 0 <= a % n < n
  {
    CongBy(n, a, a % n, a / n);
  }

  /** Congruent numbers in [0, n) are equal. */
  lemma CongSmall(n: int, a: int, b: int)
    requires Cong(n, a, b) && 0 <= a < n && 0 <= b < n
    ensures a == b
  {
    var k := Multiple(n, a, b);
    FarMultiple(n, k);
    FarMultiple(n, -k);
  }

  lemma FarMultiple(n: int, k: int)
    requires n > 0
    ensures k >= 1 ==> k * n >= n
  {
  }

  // ---- Prime numbers ----

  ghost predicate Prime(p: int)
  {
    p > 1 && forall d :: 1 < d < p ==> !Cong(d, p, 0)
  }

  /** No number from 2 to m divides n. */
  predicate Undivided(n: int, m: nat)
  {
    m < 2 || (n % m != 0 && Undivided(n, m - 1))
  }

  lemma {:induction false} UndividedBy(n: int, m: nat, d: int, k: int)
    requires Undivided(n, m) && 2 <= d <= m
    ensures n != k * d
  {
    if d < m {
      UndividedBy(n, m - 1, d, k);
    } else {
      RemainderOfMultiple(d, k);
    }
  }

  lemma RemainderOfMultiple(d: int, k: int)
    requires d > 0
    ensures (k * d) % d == 0
  {
    hide Cong;
    CongRem(d, k * d);
    CongBy(d, k * d, 0, k);
    CongFlip(d, k * d, (k * d) % d);
    CongTrans(d, (k * d) % d, k * d, 0);
    CongSmall(d, (k * d) % d, 0);
  }

  /** Division by the numbers up to the square root. */
  lemma TrialDivision(n: int, m: nat)
    requires 1 < n < (m + 1) * (m + 1) && Undivided(n, m)
    ensures Prime(n)
  {
    hide Cong, Undivided;
    forall d | 1 < d < n
      ensures !Cong(d, n, 0)
    {
      if Cong(d, n, 0) {
        var k := Multiple(d, n, 0);
        PositiveFactor(d, k);
        if d <= m {
          UndividedBy(n, m, d, k);
        } else if k <= m {
          UndividedBy(n, m, k, d);
        } else {
          BothLarge(m, d, k);
        }
      }
    }
  }

  lemma BothLarge(m: nat, d: int, k: int)
    requires d > m && k > m
    ensures k * d >= (m + 1) * (m + 1)
  {
    ProductNotNegative(k - m - 1, d);
    ProductNotNegative(m + 1, d - m - 1);
  }

  /** The inverse of a modulo a prime, from that of a smaller number. */
  lemma {:induction false} InverseBelow(p: int, a: int) returns (u: int)
    requires Prime(p) && 0 < a < p
    ensures Cong(p, u * a, 1)
    decreases a
  {
    hide Cong;
    if a == 1 {
      u := 1;
      CongSelf(p, 1);
    } else {
      var q, r := p / a, p % a;
      assert p == q * a + r;
      if r == 0 {
        CongBy(a, p, 0, q);
      }
      var v := InverseBelow(p, r);
      var k := Multiple(p, v * r, 1);
      u := -q * v;
      TurnedRound(p, a, q, r, v);
      assert u * a == 1 + (k - v) * p;
      CongBy(p, u * a, 1, k - v);
    }
  }

  lemma TurnedRound(p: int, a: int, q: int, r: int, v: int)
    requires p == q * a + r
    ensures (-q * v) * a == v * r - v * p
  {
    assert v * p == v * (q * a) + v * r;
  }

  /** Every number that p does not divide has an inverse modulo p. */
  lemma Inverse(p: int, a: int) returns (u: nat)
    requires Prime(p) && !Cong(p, a, 0)
    ensures Cong(p, u * a, 1)
  {
    hide Cong;
    CongRem(p, a);
    var v := InverseBelow(p, a % p);
    CongRem(p, v);
    u := v % p;
    CongFlip(p, v, u);
    CongTimes(p, u, v, a, a % p);
    CongTrans(p, u * a, v * (a % p), 1);
  }

  /** A prime that divides a product divides one of its factors. */
  lemma Euclid(p: int, a: int, b: int)
    requires Prime(p) && Cong(p, a * b, 0)
    ensures Cong(p, a, 0) || Cong(p, b, 0)
  {
    hide Cong, Prime;
    if !Cong(p, a, 0) {
      var u := Inverse(p, a);
      CongSelf(p, b);
      CongTimes(p, u * a, 1, b, b);
      CongFlip(p, u * a * b, b);
      CongSelf(p, u);
      CongTimes(p, u, u, a * b, 0);
      assert u * a * b == u * (a * b);
      CongTrans(p, b, u * (a * b), 0);
    }
  }

  /** Factors that p does not divide may be cancelled. */
  lemma Cancel(p: int, a: int, b: int, c: int)
    requires Prime(p) && Cong(p, a * b, a * c) && !Cong(p, a, 0)
    ensures Cong(p, b, c)
  {
    hide Cong, Prime;
    var k := Multiple(p, a * b, a * c);
    assert a * (b - c) == a * b - a * c;
    CongBy(p, a * (b - c), 0, k);
    Euclid(p, a, b - c);
    var l := Multiple(p, b - c, 0);
    CongBy(p, b, c, l);
  }

  /** Every number above 1 has a prime factor. */
  lemma {:induction false} PrimeFactor(n: int) returns (p: int, m: int)
    requires n > 1
    ensures Prime(p) && n == p * m && m >= 1
    decreases n
  {
    hide Cong;
    if Prime(n) {
      p, m := n, 1;
    } else {
      var d :| 1 < d < n && Cong(d, n, 0);
      var k := Multiple(d, n, 0);
      PositiveFactor(d, k);
      var l;
      p, l := PrimeFactor(d);
      m := l * k;
      assert n == p * l * k == p * (l * k);
      PositiveFactor(p, m);
    }
  }

  lemma PositiveFactor(d: int, k: int)
    requires d > 0 && k * d > 0
    ensures k >= 1
  {
  }

  // ---- Powers ----

  ghost function Pow(a: int, e: nat): int
  {
    if e == 0 then 1 else Times(a, Pow(a, e - 1))
  }

  lemma PowStep(a: int, e: nat)
    requires e > 0
    ensures Pow(a, e) == a * Pow(a, e - 1)
  {
    hide Times;
    TimesIs(a, Pow(a, e - 1));
  }

  lemma PowZero(a: int)
    ensures Pow(a, 0) == 1
  {
  }

  lemma {:induction false} PowAdd(a: int, d: nat, e: nat)
    ensures Pow(a, d + e) == Pow(a, d) * Pow(a, e)
  {
    hide Pow;
    PowZero(a);
    if d == 0 {
    } else {
      PowAdd(a, d - 1, e);
      PowStep(a, d);
      PowStep(a, d + e);
      assert d + e - 1 == d - 1 + e;
      assert a * (Pow(a, d - 1) * Pow(a, e)) == a * Pow(a, d - 1) * Pow(a, e);
    }
  }

  lemma {:induction false} PowTimes(a: int, d: nat, e: nat)
    ensures Pow(Pow(a, d), e) == Pow(a, d * e)
  {
    hide Pow;
    if e == 0 {
      PowZero(a);
      PowZero(Pow(a, d));
      assert d * e == 0;
    } else {
      PowTimes(a, d, e - 1);
      PowStep(Pow(a, d), e);
      PowAdd(a, d, d * (e - 1));
      assert d + d * (e - 1) == d * e;
    }
  }

  lemma {:induction false} CongPow(n: int, a: int, b: int, e: nat)
    requires Cong(n, a, b)
    ensures Cong(n, Pow(a, e), Pow(b, e))
  {
    hide Cong, Times;
    if e == 0 {
      CongSelf(n, 1);
    } else {
      CongPow(n, a, b, e - 1);
      PowStep(a, e);
      PowStep(b, e);
      CongTimes(n, a, b, Pow(a, e - 1), Pow(b, e - 1));
    }
  }

  lemma {:induction false} PowOfOne(e: nat)
    ensures Pow(1, e) == 1
  {
    hide Times;
    if e == 0 {
    } else {
      PowOfOne(e - 1);
      PowStep(1, e);
    }
  }

  /** A power of something congruent to 1 is congruent to 1. */
  lemma OneToThe(n: int, a: int, e: nat)
    requires Cong(n, a, 1)
    ensures Cong(n, Pow(a, e), 1)
  {
    CongPow(n, a, 1, e);
    PowOfOne(e);
  }

  // ---- Fermat's little theorem ----

  /** The product of the elements of s from 1 to n. */
  ghost function Product(s: set<int>, n: nat): int
  {
    if n == 0 then 1 else (if n in s then n else 1) * Product(s, n - 1)
  }

  lemma ProductStep(s: set<int>, n: nat, i: int)
    requires n > 0 && i == if n in s then n else 1
    ensures Product(s, n) == i * Product(s, n - 1)
  {
  }

  lemma {:induction false} ProductWith(s: set<int>, y: int, n: nat)
    requires y !in s && y > 0
    ensures Product(s + {y}, n) == (if y <= n then y else 1) * Product(s, n)
  {
    if n == 0 {
    } else {
      hide Product;
      ProductWith(s, y, n - 1);
      ProductStep(s, n, if n in s then n else 1);
      ProductStep(s + {y}, n, if n in s + {y} then n else 1);
      if n in s {
        Swapped(n, if y <= n then y else 1, Product(s, n - 1));
      }
    }
  }

  lemma Exchanged(a: int, b: int)
    ensures a * b == b * a && b * 1 == b
  {
  }

  lemma Swapped(a: int, b: int, c: int)
    ensures a * (b * c) == b * (a * c)
  {
  }

  ghost function Factorial(n: nat): int
  {
    if n == 0 then 1 else n * Factorial(n - 1)
  }

  lemma {:induction false} ProductOfAll(s: set<int>, n: nat)
    requires forall x :: 0 < x <= n ==> x in s
    ensures Product(s, n) == Factorial(n)
  {
    if n == 0 {
    } else {
      ProductOfAll(s, n - 1);
    }
  }

  /** The residue of a multiple of a. */
  function Image(p: int, a: int, x: int): int
    requires p > 0
  {
    (a * x) % p
  }

  /** The images of 1 to n. */
  ghost function Images(p: int, a: int, n: nat): set<int>
    requires p > 0
  {
    if n == 0 then {} else Images(p, a, n - 1) + {Image(p, a, n)}
  }

  lemma NotDivided(p: int, x: int)
    requires 0 < x < p
    ensures !Cong(p, x, 0)
  {
    hide Cong;
    if Cong(p, x, 0) {
      CongSmall(p, x, 0);
    }
  }

  lemma ImageIs(p: int, a: int, x: int)
    requires Prime(p) && !Cong(p, a, 0) && 0 < x < p
    ensures Cong(p, a * x, Image(p, a, x)) && 0 < Image(p, a, x) < p
  {
    hide Cong, Prime;
    PrimePositive(p);
    CongRem(p, a * x);
    if Image(p, a, x) == 0 {
      Euclid(p, a, x);
      NotDivided(p, x);
    }
  }

  lemma PrimePositive(p: int)
    requires Prime(p)
    ensures p > 1
  {
  }

  lemma ImagesDiffer(p: int, a: int, x: int, y: int)
    requires Prime(p) && !Cong(p, a, 0) && 0 < x < p && 0 < y < p && x != y
    ensures p > 1 && Image(p, a, x) != Image(p, a, y)
  {
    hide Cong, Prime;
    PrimePositive(p);
    if Image(p, a, x) == Image(p, a, y) {
      ImageIs(p, a, x);
      ImageIs(p, a, y);
      CongFlip(p, a * y, Image(p, a, y));
      CongTrans(p, a * x, Image(p, a, x), a * y);
      Cancel(p, a, x, y);
      CongSmall(p, x, y);
    }
  }

  lemma {:induction false} ImageIsNew(p: int, a: int, n: nat, x: int)
    requires Prime(p) && !Cong(p, a, 0) && n < x < p
    ensures Image(p, a, x) !in Images(p, a, n)
  {
    hide Cong, Prime, Image;
    if n == 0 {
    } else {
      ImageIsNew(p, a, n - 1, x);
      ImagesDiffer(p, a, n, x);
    }
  }

  /** Multiplying 1 to n by a keeps their number and multiplies their product by a power of a. */
  lemma {:induction false} ImagesProduct(p: int, a: int, n: nat)
    requires Prime(p) && !Cong(p, a, 0) && n < p
    ensures |Images(p, a, n)| == n && Images(p, a, n) <= Below(p)
    ensures Cong(p, Pow(a, n) * Factorial(n), Product(Images(p, a, n), p - 1))
  {
    hide Cong, Prime, Image, Product;
    if n == 0 {
      ProductOfNone(p - 1);
      CongSelf(p, 1);
    } else {
      ImagesProduct(p, a, n - 1);
      ImageIs(p, a, n);
      ImageIsNew(p, a, n - 1, n);
      hide Pow, Factorial, Below;
      ProductWith(Images(p, a, n - 1), Image(p, a, n), p - 1);
      ImagesStep(p, a, n, Product(Images(p, a, n - 1), p - 1));
    }
  }

  lemma ImagesStep(p: int, a: int, n: nat, r: int)
    requires n > 0 && p > 0 && Cong(p, a * n, Image(p, a, n)) && Cong(p, Pow(a, n - 1) * Factorial(n - 1), r)
    ensures Cong(p, Pow(a, n) * Factorial(n), Image(p, a, n) * r)
  {
    hide Cong, Image, Pow;
    PowStep(a, n);
    CongTimes(p, a * n, Image(p, a, n), Pow(a, n - 1) * Factorial(n - 1), r);
    Regrouped(a, n, Pow(a, n - 1), Factorial(n - 1));
  }

  lemma {:induction false} ProductOfNone(n: nat)
    ensures Product({}, n) == 1
  {
    if n == 0 {
    } else {
      ProductOfNone(n - 1);
    }
  }

  lemma Regrouped(a: int, x: int, e: int, r: int)
    ensures (a * x) * (e * r) == (a * e) * (x * r)
  {
    calc {
      (a * x) * (e * r);
      a * (x * (e * r));
      a * (e * (x * r));
      (a * e) * (x * r);
    }
  }

  lemma {:induction false} FactorialNotDivided(p: int, n: nat)
    requires Prime(p) && n < p
    ensures !Cong(p, Factorial(n), 0)
  {
    hide Cong, Prime;
    if n == 0 {
      PrimePositive(p);
      NotDivided(p, 1);
    } else {
      FactorialNotDivided(p, n - 1);
      NotDivided(p, n);
      if Cong(p, Factorial(n), 0) {
        Euclid(p, n, Factorial(n - 1));
      }
    }
  }

  /** The numbers from 1 to p - 1. */
  ghost function Below(p: nat): (s: set<int>)
    ensures forall x :: x in s <==> 0 < x < p
    ensures |s| == if p == 0 then 0 else p - 1
  {
    if p <= 1 then {} else Below(p - 1) + {p - 1}
  }

  lemma SubsetOfSameSize(s: set<int>, t: set<int>)
    requires s <= t && |s| == |t|
    ensures s == t
  {
    assert |t - s| == |t| - |s|;
  }

  /** Fermat's little theorem. */
  lemma Fermat(p: int, a: int)
    requires Prime(p) && !Cong(p, a, 0)
    ensures p > 1 && Cong(p, Pow(a, p - 1), 1)
  {
    hide Cong, Prime, Product, Images, Below, Pow, Factorial;
    PrimePositive(p);
    ImagesProduct(p, a, p - 1);
    SubsetOfSameSize(Images(p, a, p - 1), Below(p));
    ProductOfAll(Below(p), p - 1);
    FactorialNotDivided(p, p - 1);
    Exchanged(Pow(a, p - 1), Factorial(p - 1));
    Cancel(p, Factorial(p - 1), Pow(a, p - 1), 1);
  }

  /** Euler's criterion, without saying which: half of the exponent gives a root of 1, which is 1 or -1. */
  lemma Euler(p: int, a: int, h: nat)
    requires Prime(p) && !Cong(p, a, 0) && p == 2 * h + 1
    ensures Cong(p, Pow(a, h), 1) || Cong(p, Pow(a, h), -1)
  {
    hide Cong, Prime, Pow;
    Fermat(p, a);
    PowAdd(a, h, h);
    var w := Pow(a, h);
    var k := Multiple(p, w * w, 1);
    assert (w - 1) * (w + 1) == w * w - 1;
    CongBy(p, (w - 1) * (w + 1), 0, k);
    Euclid(p, w - 1, w + 1);
    if Cong(p, w - 1, 0) {
      var l := Multiple(p, w - 1, 0);
      CongBy(p, w, 1, l);
    } else {
      var l := Multiple(p, w + 1, 0);
      CongBy(p, w, -1, l);
    }
  }

  // ---- A primality test ----

  /** An element of prime order q modulo a prime p makes q divide p - 1. */
  lemma OrderDivides(p: int, q: int, g: int)
    requires Prime(p) && Prime(q) && !Cong(p, g, 1)
    requires q > 0 && Cong(p, Pow(g, q), 1)
    ensures Cong(q, p - 1, 0)
  {
    hide Cong, Prime, Pow;
    PrimePositive(p);
    PrimePositive(q);
    if !Cong(q, p - 1, 0) {
      NotZero(p, q, g);
      Fermat(p, g);
      var u := Inverse(q, p - 1);
      var k := Multiple(q, u * (p - 1), 1);
      CofactorNotNegative(u, p - 1, k, q);
      PowTimes(g, p - 1, u);
      OneToThe(p, Pow(g, p - 1), u);
      PowTimes(g, q, k);
      OneToThe(p, Pow(g, q), k);
      PowAdd(g, 1, q * k);
      PowIsSelf(g);
      CongSelf(p, g);
      CongTimes(p, g, g, Pow(g, q * k), 1);
      assert (p - 1) * u == 1 + q * k;
      CongFlip(p, Pow(g, 1 + q * k), g);
      CongTrans(p, g, Pow(g, 1 + q * k), 1);
    }
  }

  lemma PowIsSelf(g: int)
    ensures Pow(g, 1) == g
  {
    hide Pow;
    PowZero(g);
    PowStep(g, 1);
  }

  lemma CofactorNotNegative(u: nat, m: nat, k: int, q: int)
    requires u * m == 1 + k * q && q > 1
    ensures k >= 0
  {
    FarMultiple(q, -k);
    ProductNotNegative(u, m);
  }

  lemma ProductNotNegative(a: nat, b: nat)
    ensures a * b >= 0
  {
  }

  /** What has a power congruent to 1 is not divided. */
  lemma NotZero(p: int, q: nat, g: int)
    requires p > 1 && q > 0 && Cong(p, Pow(g, q), 1)
    ensures !Cong(p, g, 0)
  {
    hide Cong;
    if Cong(p, g, 0) {
      PowStep(g, q);
      CongSelf(p, Pow(g, q - 1));
      CongTimes(p, g, 0, Pow(g, q - 1), Pow(g, q - 1));
      CongFlip(p, Pow(g, q), 1);
      CongTrans(p, 1, Pow(g, q), 0);
      NotDivided(p, 1);
    }
  }

  /** Congruence modulo a factor. */
  lemma CongFactor(n: int, p: int, m: int, a: int, b: int)
    requires n == p * m && Cong(n, a, b)
    ensures Cong(p, a, b)
  {
    hide Cong;
    var k := Multiple(n, a, b);
    assert k * (p * m) == (k * m) * p;
    CongBy(p, a, b, k * m);
  }

  /** n - 1 = q r, and g of order q modulo n stays different from 1 modulo every factor of n, t being an inverse. */
  ghost predicate Witness(n: int, q: int, r: int, g: int, t: int)
  {
    n == 1 + q * r && q > 0 && Cong(n, Pow(g, q), 1) && Cong(n, (g - 1) * t, 1)
  }

  /** Every prime factor of n is congruent to 1 modulo q. */
  lemma FactorIsOne(n: int, q: int, r: int, g: int, t: int, p: int, m: int)
    requires Prime(q) && Witness(n, q, r, g, t) && Prime(p) && n == p * m
    ensures Cong(q, p - 1, 0)
  {
    hide Cong, Prime, Pow;
    PrimePositive(p);
    CongFactor(n, p, m, Pow(g, q), 1);
    CongFactor(n, p, m, (g - 1) * t, 1);
    if Cong(p, g, 1) {
      var k := Multiple(p, g, 1);
      CongBy(p, g - 1, 0, k);
      CongSelf(p, t);
      CongTimes(p, g - 1, 0, t, t);
      CongFlip(p, (g - 1) * t, 1);
      CongTrans(p, 1, (g - 1) * t, 0);
      NotDivided(p, 1);
    }
    OrderDivides(p, q, g);
  }

  /**
   * A test in the manner of Pocklington, for a prime factor q of n - 1 above the cube root of n. Two factors of n would
   * both be congruent to 1 modulo q, which the two digits of (n - 1) / q in base q exclude.
   */
  lemma Pocklington(n: int, q: int, a: int, b: int, g: int, t: int)
    requires n > 1 && Prime(q) && 0 <= a && a + 1 < b < q && Witness(n, q, a * q + b, g, t)
    ensures Prime(n)
  {
    hide Cong, Prime, Pow;
    var p, m := PrimeFactor(n);
    if m > 1 {
      PrimePositive(p);
      FactorIsOne(n, q, a * q + b, g, t, p, m);
      var k := Multiple(q, p - 1, 0);
      TwoFactors(n, q, a, b, p, m, k);
    }
  }

  lemma TwoFactors(n: int, q: int, a: int, b: int, p: int, m: int, k: int)
    requires 0 <= a && a + 1 < b < q && n == 1 + q * (a * q + b)
    requires n == p * m && p > 1 && p - 1 == k * q
    ensures m <= 1
  {
    if m > 1 {
      var l := a * q + b - k * m;
      PositiveFactor(q, k);
      assert m == 1 + l * q by {
        assert n == (1 + k * q) * m == m + q * (k * m);
        assert q * l == q * (a * q + b) - q * (k * m);
      }
      PositiveFactor(q, l);
      assert a * q + b == k + l + k * l * q by {
        assert k * m == k + k * (l * q) == k + k * l * q;
      }
      Digits(q, a, b, k, l);
    }
  }

  lemma Digits(q: int, a: int, b: int, k: int, l: int)
    requires 0 <= a && a + 1 < b < q && k >= 1 && l >= 1
    ensures a * q + b != k + l + k * l * q
  {
    if a * q + b == k + l + k * l * q {
      ProductNotNegative(k - 1, l - 1);
      assert (k - 1) * (l - 1) == k * l - k - l + 1;
      SmallerDigit(q, a, b, k * l, k + l);
    }
  }

  lemma SmallerDigit(q: int, a: int, b: int, c: int, d: int)
    requires 0 <= b < q && d >= 0 && a * q + b == d + c * q
    ensures c <= a && b <= d
  {
    FarMultiple(q, c - a);
    assert (c - a) * q == b - d;
    FarMultiple(q, a - c);
    assert (a - c) * q == d - b;
  }

  // ---- Powers by digits of three bits ----

  /** From g^e to g^(8 e + d). */
  lemma Onward(n: nat, g: int, e: nat, x: int, d: nat, c: int, y: int) returns (f: nat, z: int)
    requires n > 0 && Cong(n, Pow(g, e), x) && Cong(n, Pow(g, d), c)
    requires x * x * x * x * x * x * x * x * c % n == y
    ensures f == 8 * e + d && z == y && Cong(n, Pow(g, f), z)
  {
    f, z := 8 * e + d, y;
    hide Cong, Pow;
    PowTimes(g, e, 8);
    PowAdd(g, 8 * e, d);
    CongPow(n, Pow(g, e), x, 8);
    EighthPower(x);
    CongTimes(n, Pow(g, 8 * e), x * x * x * x * x * x * x * x, Pow(g, d), c);
    CongRem(n, x * x * x * x * x * x * x * x * c);
    CongTrans(n, Pow(g, 8 * e + d), x * x * x * x * x * x * x * x * c, y);
  }

  lemma EighthPower(x: int)
    ensures Pow(x, 8) == x * x * x * x * x * x * x * x
  {
    hide Pow;
    PowIsSelf(x);
    PowAdd(x, 1, 1);
    PowAdd(x, 2, 2);
    PowAdd(x, 4, 4);
    Squares(x);
  }

  lemma Squares(x: int)
    ensures ((x * x) * (x * x)) * ((x * x) * (x * x)) == x * x * x * x * x * x * x * x
  {
  }

  lemma NoPower(n: nat, g: int)
    ensures Cong(n, Pow(g, 0), 1)
  {
    CongSelf(n, 1);
  }

  /** The next power, from the residue of the one before it. */
  lemma NextPower(n: nat, g: int, d: nat, c: int, z: int)
    requires n > 0 && Cong(n, Pow(g, d), c) && c * g % n == z
    ensures Cong(n, Pow(g, d + 1), z)
  {
    hide Cong;
    CongSelf(n, g);
    CongTimes(n, Pow(g, d), c, g, g);
    CongRem(n, c * g);
    PowStep(g, d + 1);
    CongTrans(n, Pow(g, d + 1), c * g, z);
  }
}
