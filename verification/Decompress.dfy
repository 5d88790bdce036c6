/** Decompression of an Edwards point. Field elements are canonical residues here: the 10-limb routines are
    used through what they compute. */
module Decompress {
  import opened MachineInts
  import opened Bits
  import opened LittleEndian
  import opened Field25519
  import PrimeField

  /** The value of ten limbs of alternating 26 and 25 bits. */
  function FeValue(t: seq<int>): int
    requires |t| == 10
  {
    t[0] + 0x400_0000 * (t[1] + 0x200_0000 * (t[2] + 0x400_0000 * (t[3] + 0x200_0000 * (t[4]
      + 0x400_0000 * (t[5] + 0x200_0000 * (t[6] + 0x400_0000 * (t[7] + 0x200_0000 * (t[8] + 0x400_0000 * t[9]))))))))
  }

  /** The curve constant and a square root of -1, as the limbs of the source. */
  const D_LIMBS: seq<int> :=
    [-10913610, 13857413, -15372611, 6949391, 114729, -8787816, -6275908, -3247719, -18696448, -12055116]
  const SQRTM1_LIMBS: seq<int> :=
    [-32595792, -7943725, 9377950, 3500415, 12389472, -272473, -25146209, -2005654, 326686, 11406482]
  const D: int := F(FeValue(D_LIMBS))
  const SQRTM1: int := F(FeValue(SQRTM1_LIMBS))

  lemma DValue()
    ensures D == 37095705934669439343138083508754565189542113879843219016388785533085940283555
  {
    FIs(FeValue(D_LIMBS), -1, 37095705934669439343138083508754565189542113879843219016388785533085940283555);
  }

  lemma Sqrtm1Value()
    ensures SQRTM1 == 19681161376707505956807079304988542015446066515923890162744021073123829784752
  {
    FIs(FeValue(SQRTM1_LIMBS), 0, 19681161376707505956807079304988542015446066515923890162744021073123829784752);
  }

  /** The constants are what their names say: 121666 d = -121665, and the square is -1. */
  lemma Constants()
    ensures FMul(D, 121666) == F(-121665)
    ensures FSq(SQRTM1) == F(-1)
  {
    hide F, FMul, FeValue, D, SQRTM1;
    DValue();
    Sqrtm1Value();
    MulIs(D, 121666);
    MulIs(SQRTM1, SQRTM1);
    FIs(D * 121666, 77954, P - 121665);
    FIs(-121665, -1, P - 121665);
    FIs(SQRTM1 * SQRTM1, 6690407189080634018507799843845558368979872843924222843531373839242004886244, P - 1);
    FIs(-1, -1, P - 1);
  }

  predicate Residue(x: int)
  {
    0 <= x < P
  }

  // ---- The exponentiation z^((p - 5) / 8) ----

  /** A run of n squarings. */
  method SqTimes(f: int, n: nat) returns (h: int)
    requires n >= 1
    ensures Residue(h) && h == FPow(f, Pow2(n))
  {
    hide F, FMul, FPow, Pow2;
    h := FSq(f);
    PowTwo(f);
    var i := 1;
    while i < n
      invariant 1 <= i <= n
      invariant h == FPow(f, Pow2(i))
    {
      PowDouble(f, i);
      h := FSq(h);
      i := i + 1;
    }
    PowRange(f, Pow2(n));
  }

  lemma PowRange(z: int, e: nat)
    ensures Residue(FPow(z, e))
  {
    hide FMul;
    PowReduced(z, e);
  }

  /** z^(2^252 - 3). */
  method Pow22523(z: int) returns (out: int)
    requires Residue(z)
    ensures out == FPow(z, Pow2(252) - 3)
  {
    hide F, FMul, FSq, FPow, Pow2, Residue;
    var t0 := FSq(z);
    var t1 := SqTimes(t0, 2);
    ghost var z8 := t1;
    t1 := FMul(z, t1);
    t0 := FMul(t0, t1);
    ghost var z11 := t0;
    t0 := FSq(t0);
    ghost var z22 := t0;
    t0 := FMul(t1, t0);
    RangeOf(z);
    ChainStart(z, z8, t1, z11, z22, t0);
    t1 := SqTimes(t0, 5);
    t0 := FMul(t1, t0);
    OnesConcat(z, 5, 5);
    t1 := SqTimes(t0, 10);
    t1 := FMul(t1, t0);
    OnesConcat(z, 10, 10);
    var t2 := SqTimes(t1, 20);
    t1 := FMul(t2, t1);
    OnesConcat(z, 20, 20);
    t1 := SqTimes(t1, 10);
    t0 := FMul(t1, t0);
    OnesConcat(z, 40, 10);
    t1 := SqTimes(t0, 50);
    t1 := FMul(t1, t0);
    OnesConcat(z, 50, 50);
    t2 := SqTimes(t1, 100);
    t1 := FMul(t2, t1);
    OnesConcat(z, 100, 100);
    t1 := SqTimes(t1, 50);
    t0 := FMul(t1, t0);
    OnesConcat(z, 200, 50);
    t0 := SqTimes(t0, 2);
    PowOne(z);
    OnesFinish(z, 250, 2, 1);
    SmallPowers();
    out := FMul(t0, z);
  }

  lemma RangeOf(z: int)
    requires Residue(z)
    ensures 0 <= z < P
  {
  }

  // ---- The curve ----

  /** -x^2 + y^2 = 1 + d x^2 y^2. */
  predicate OnCurve(x: int, y: int)
  {
    FSub(FSq(y), FSq(x)) == FAdd(1, FMul(FMul(D, FSq(x)), FSq(y)))
  }

  datatype Point = Point(X: int, Y: int, Z: int, T: int)

  function U(y: int): int
  {
    FSub(FSq(y), 1)
  }

  function V(y: int): int
  {
    FAdd(FMul(FSq(y), D), 1)
  }

  /** x is a root for y exactly when the point is on the curve. */
  lemma RootIffOnCurve(x: int, y: int)
    ensures FMul(FSq(x), V(y)) == U(y) <==> OnCurve(x, y)
  {
    hide F, FMul;
    var a, b := FSq(x), FSq(y);
    var m := FMul(FMul(a, b), D);
    RootSide(a, b);
    CurveSide(a, b);
    assert U(y) == F(b - 1);
    if F(m + a) == F(b - 1) {
      Balance(m + a, b - 1, 1 - a);
      SameSum(m + a + (1 - a), 1 + m, b - 1 + (1 - a), b - a);
    }
    if F(b - a) == F(1 + m) {
      Balance(b - a, 1 + m, a - 1);
      SameSum(b - a + (a - 1), b - 1, 1 + m + (a - 1), m + a);
    }
  }

  lemma SameSum(x: int, x': int, y: int, y': int)
    requires x == x' && y == y'
    ensures F(x) == F(x') && F(y) == F(y')
  {
  }

  lemma RootSide(a: int, b: int)
    ensures FMul(a, FAdd(FMul(b, D), 1)) == F(FMul(FMul(a, b), D) + a)
  {
    hide F, FMul, D;
    MulDistributes(a, FMul(b, D), 1);
    MulAssociates(a, b, D);
    MulCommutes(a, 1);
    MulOne(a);
    AddResidue(a, FMul(FMul(a, b), D));
  }

  lemma CurveSide(a: int, b: int)
    ensures FMul(FMul(D, a), b) == FMul(FMul(a, b), D)
  {
    hide FMul, D;
    MulAssociates(D, a, b);
    MulCommutes(D, FMul(a, b));
  }

  /** Adding the same number to congruent numbers. */
  lemma Balance(x: int, y: int, c: int)
    requires F(x) == F(y)
    ensures F(x + c) == F(y + c)
  {
    var k := Quotient(x);
    var l := Quotient(y);
    Congruent(x + c, y + c, k - l);
  }

  // ---- Signs ----

  lemma NegResidue(x: int)
    ensures F(-F(x)) == F(-x)
  {
    hide F;
    var k := Quotient(x);
    Congruent(-F(x), -x, k);
  }

  lemma NegProduct(a: int, b: int)
    ensures (-a) * b == -(a * b)
  {
  }

  lemma NegMul(a: int, b: int)
    ensures FMul(FNeg(a), b) == FNeg(FMul(a, b))
  {
    hide F, FMul;
    MulLeft(-a, b);
    MulIs(-a, b);
    MulIs(a, b);
    NegProduct(a, b);
    NegResidue(a * b);
  }

  lemma NegNeg(m: int)
    requires Residue(m)
    ensures FNeg(FNeg(m)) == m
  {
    hide F;
    var k := Quotient(-m);
    Congruent(-F(-m), m, k);
    FOfResidue(m);
  }

  lemma FOfResidue(m: int)
    requires Residue(m)
    ensures F(m) == m
  {
    FOfSmall(m);
  }

  /** Exactly one of x and -x is odd, unless x is zero. */
  lemma NegParity(x: int)
    requires Residue(x) && x != 0
    ensures FNeg(x) % 2 == 1 - x % 2
  {
    FIs(-x, -1, P - x);
  }

  /** Multiplying a candidate by the root of -1 negates its square. */
  lemma TimesI(x: int, v: int)
    ensures FMul(FSq(FMul(x, SQRTM1)), v) == FNeg(FMul(FSq(x), v))
  {
    hide F, FMul, FSq, FNeg;
    Constants();
    var i := SQRTM1;
    assert FSq(FMul(x, i)) == FMul(FSq(x), FSq(i)) by { SquareOfProduct(x, i); }
    MinusOne(FSq(x));
    assert FMul(FSq(x), F(-1)) == FNeg(FSq(x));
    NegMul(FSq(x), v);
  }

  lemma SquareOfProduct(x: int, i: int)
    ensures FSq(FMul(x, i)) == FMul(FSq(x), FSq(i))
  {
    hide FMul;
    MulAssociates(x, i, FMul(x, i));
    MulAssociates(i, x, i);
    MulCommutes(i, x);
    MulAssociates(x, i, i);
    MulAssociates(x, x, FSq(i));
  }

  lemma MinusOne(a: int)
    ensures FMul(a, F(-1)) == FNeg(a)
  {
    hide F, FMul;
    MulLeft(-1, a);
    MulCommutes(a, F(-1));
    MulIs(-1, a);
  }

  // ---- The routine ----

  /** The square-root candidate u v^3 (u v^7)^((p - 5) / 8). */
  ghost function Candidate(y: int): int
  {
    var u, v := U(y), V(y);
    var v3 := FMul(FSq(v), v);
    FMul(FMul(FPow(FMul(FMul(FSq(v3), v), u), Pow2(252) - 3), v3), u)
  }

  /** The two ways in which a candidate can be a root, as the code checks them. */
  lemma CandidateChecks(c: int, y: int)
    ensures FSub(FMul(FSq(c), V(y)), U(y)) == 0 <==> OnCurve(c, y)
    ensures FAdd(FMul(FSq(c), V(y)), U(y)) == 0 <==> OnCurve(FMul(c, SQRTM1), y)
  {
    hide FMul, OnCurve, U, V, FSq, SQRTM1;
    var w, u := FMul(FSq(c), V(y)), U(y);
    URange(y);
    ProductRange(FSq(c), V(y));
    RootIffOnCurve(c, y);
    RootIffOnCurve(FMul(c, SQRTM1), y);
    TimesI(c, V(y));
    ZeroTests(w, u);
  }

  lemma URange(y: int)
    ensures Residue(U(y))
  {
  }

  lemma ZeroTests(w: int, u: int)
    requires Residue(w) && Residue(u)
    ensures FSub(w, u) == 0 <==> w == u
    ensures FAdd(w, u) == 0 <==> FNeg(w) == u
  {
    hide F;
    FIs(w - u, if w >= u then 0 else -1, if w >= u then w - u else w - u + P);
    FIs(w + u, if w + u < P then 0 else 1, if w + u < P then w + u else w + u - P);
    FIs(-w, if w == 0 then 0 else -1, if w == 0 then 0 else P - w);
  }

  /** One of the two candidates is a root for y. */
  ghost predicate Accepted(y: int)
  {
    OnCurve(Candidate(y), y) || OnCurve(FMul(Candidate(y), SQRTM1), y)
  }

  /** The point over y: the candidate that is a root, negated if its parity is not the sign bit. */
  ghost function Decoded(y: int, sign: int): Point
  {
    var c := if OnCurve(Candidate(y), y) then Candidate(y) else FMul(Candidate(y), SQRTM1);
    var x := if c % 2 != sign then FNeg(c) else c;
    Point(x, y, 1, FMul(x, y))
  }

  /** Decompression: accepts exactly when one of the two candidates is on the curve, and then returns a point of the
      curve over the encoded y, with Z = 1, T = X Y and the encoded sign unless X is zero. */
  method FromBytesVartime(s: array<byte>) returns (ok: bool, h: Point)
    requires s.Length == 32
    ensures h.Y == F(LE(s[..]) % T255)
    ensures ok <==> Accepted(h.Y)
    ensures ok ==> h == Decoded(h.Y, s[31] / 128)
    ensures ok ==> OnCurve(h.X, h.Y) && Residue(h.X) && h.Z == 1 && h.T == FMul(h.X, h.Y)
    ensures ok ==> (h.X % 2 == s[31] / 128 <==> FSq(h.Y) != 1 || s[31] < 128)
    ensures AsStandard(LE(s[..]) % T255, s[31] / 128, ok, h) <==>
            !Accepted(h.Y) || (LE(s[..]) % T255 < P && (FSq(h.Y) != 1 || s[31] < 128))
  {
    hide AsStandard, F, FMul, FSq, FPow, OnCurve, LE, SQRTM1, D, Pow2, FNeg, FSub, FAdd, Candidate;
    var y := F(LE(s[..]) % T255);
    var u := FSq(y);
    var v := FMul(u, D);
    u := FSub(u, 1);
    v := FAdd(v, 1);

    var v3 := FSq(v);
    v3 := FMul(v3, v);
    var x := FSq(v3);
    x := FMul(x, v);
    x := FMul(x, u);
    ProductRange(FMul(FSq(v3), v), u);
    x := Pow22523(x);
    x := FMul(x, v3);
    ProductRange(x, u);
    x := FMul(x, u);
    Pow2Of255();
    CandidateIs(y, u, v, v3, x);
    CandidateChecks(x, y);

    var vxx := FSq(x);
    vxx := FMul(vxx, v);
    var check := FSub(vxx, u);
    if check != 0 {
      check := FAdd(vxx, u);
      if check != 0 {
        ok, h := false, Point(x, y, 1, 0);
        Departs(LE(s[..]) % T255, s[31] / 128, ok, h);
        return;
      }
      x := FMul(x, SQRTM1);
    }
    if x % 2 != s[31] / 128 {
      x := FNeg(x);
    }
    DecodedPoint(y, s[31] / 128);
    ok, h := true, Point(x, y, 1, FMul(x, y));
    Departs(LE(s[..]) % T255, s[31] / 128, ok, h);
  }

  lemma CandidateIs(y: int, u: int, v: int, v3: int, x: int)
    requires u == U(y) && v == V(y) && v3 == FMul(FSq(v), v)
    requires Pow2(252) >= 3 && x == FMul(FMul(FPow(FMul(FMul(FSq(v3), v), u), Pow2(252) - 3), v3), u)
    ensures x == Candidate(y)
  {
    hide FMul, FPow, Pow2;
  }

  /** x = 0 belongs to y = 1 and y = -1 and to no other y. */
  lemma ZeroOnCurve(y: int)
    ensures OnCurve(0, y) <==> FSq(y) == 1
    ensures FSq(y) == 1 ==> Candidate(y) == 0
  {
    hide FMul, FPow, V, Pow2, OnCurve;
    RootIffOnCurve(0, y);
    TimesOne(0);
    MulOne(0);
    MulOne(V(y));
    ProductRange(y, y);
    LessOneZero(FSq(y));
    if FSq(y) == 1 {
      CandidateOfZero(y);
    }
  }

  lemma LessOneZero(b: int)
    requires Residue(b)
    ensures FSub(b, 1) == 0 <==> b == 1
  {
    FIs(b - 1, if b == 0 then -1 else 0, if b == 0 then P - 1 else b - 1);
  }

  lemma CandidateOfZero(y: int)
    requires U(y) == 0
    ensures Candidate(y) == 0
  {
    hide FMul, FPow, V, U, Pow2;
    Pow2Of255();
    var v3 := FMul(FSq(V(y)), V(y));
    TimesZero(FMul(FPow(FMul(FMul(FSq(v3), V(y)), U(y)), Pow2(252) - 3), v3));
  }

  /** The decoded point is on the curve; its parity is the sign bit unless x is 0 and the bit is 1. */
  lemma DecodedPoint(y: int, sign: int)
    requires Accepted(y) && 0 <= sign <= 1
    ensures var h := Decoded(y, sign);
            OnCurve(h.X, y) && Residue(h.X) && (h.X % 2 == sign <==> FSq(y) != 1 || sign == 0)
  {
    hide F, FMul, FSq, FNeg, OnCurve, Candidate, SQRTM1;
    var c := if OnCurve(Candidate(y), y) then Candidate(y) else FMul(Candidate(y), SQRTM1);
    CandidateRange(y);
    ProductRange(Candidate(y), SQRTM1);
    ZeroOnCurve(y);
    SignFix(c, y);
    ResidueZero(c);
  }

  lemma CandidateRange(y: int)
    ensures Residue(Candidate(y))
  {
    hide FMul, FPow, V, U, Pow2;
  }

  /** The sign bit is not checked against x = 0: the string for y = 1 with the sign bit set is accepted. */
  method SignOfZeroIgnored(s: array<byte>) returns (ok: bool, h: Point)
    requires s.Length == 32 && s[0] == 1 && s[31] == 128 && forall j :: 0 < j < 31 ==> s[j] == 0
    ensures ok && h.X == 0 && h.Y == 1 && h.X % 2 != s[31] / 128
  {
    hide FMul, FSq, OnCurve, LE, F, Candidate, SQRTM1;
    OneSigned(s[..]);
    ok, h := FromBytesVartime(s);
    FIs(1, 0, 1);
    OneSquared();
    ZeroOnCurve(1);
    ResidueZero(0);
  }

  lemma OneSquared()
    ensures FSq(1) == 1
  {
    hide FMul;
    TimesOne(1);
  }

  /** The string 01 00 .. 00 80 stands for 2^255 + 1. */
  lemma {:induction false} OneSigned(s: seq<byte>)
    requires |s| == 32 && s[0] == 1 && s[31] == 128 && forall j :: 0 < j < 31 ==> s[j] == 0
    ensures LE(s) % T255 == 1
  {
    hide LE, Pow2;
    assert s == s[..31] + [s[31]] && s[..31] == [s[0]] + s[1..31];
    LEAppend(s[..31], [s[31]]);
    LEAppend([s[0]], s[1..31]);
    LEOne(s[0]);
    LEOne(s[31]);
    LEZeros(s[1..31]);
    Pow2Of64();
    Pow2Of255();
    Pow2At(240, 8, Pow2(240), 0x100);
  }

  lemma {:induction false} LEZeros(s: seq<int>)
    requires forall j :: 0 <= j < |s| ==> s[j] == 0
    ensures LE(s) == 0
  {
    if |s| == 0 {
      LEEmpty(s);
    } else {
      LEZeros(s[1..]);
      LECons(s);
    }
  }

  lemma LEEmpty(s: seq<int>)
    requires |s| == 0
    ensures LE(s) == 0
  {
  }

  lemma LECons(s: seq<int>)
    requires |s| > 0
    ensures LE(s) == s[0] + 256 * LE(s[1..])
  {
  }

  /** A y at or above p is taken for its residue: the two strings are both refused, or decode to the same point. */
  method LargeYAccepted(s: array<byte>, t: array<byte>) returns (ok: bool, h: Point, ok': bool, h': Point)
    requires s.Length == 32 && t.Length == 32 && s[31] / 128 == t[31] / 128
    requires LE(t[..]) % T255 == LE(s[..]) % T255 + P
    ensures ok == ok' && h.Y == h'.Y && (ok ==> h == h')
  {
    hide FMul, FSq, OnCurve, LE, F, Candidate, SQRTM1, Decoded, Accepted;
    ok, h := FromBytesVartime(s);
    ok', h' := FromBytesVartime(t);
    Congruent(LE(t[..]) % T255, LE(s[..]) % T255, 1);
  }

  /** y = p + 1 is accepted and stands for y = 1. */
  method LargeOneAccepted(s: array<byte>) returns (ok: bool, h: Point)
    requires s.Length == 32 && LE(s[..]) % T255 == P + 1
    ensures ok && h.X == 0 && h.Y == 1
  {
    hide FMul, FSq, OnCurve, LE, F, Candidate, SQRTM1;
    ok, h := FromBytesVartime(s);
    Congruent(LE(s[..]) % T255, 1, 1);
    FIs(1, 0, 1);
    OneSquared();
    ZeroOnCurve(1);
    ResidueZero(0);
  }

  lemma TimesZero(a: int)
    ensures FMul(a, 0) == 0
  {
    hide FMul;
    MulCommutes(a, 0);
    MulOne(a);
  }

  lemma TimesOne(a: int)
    ensures FMul(a, 1) == F(a)
  {
    hide FMul;
    MulCommutes(a, 1);
    MulOne(a);
  }

  lemma ProductRange(a: int, b: int)
    ensures Residue(FMul(a, b))
  {
    hide FMul;
  }

  lemma SignFix(x: int, y: int)
    requires OnCurve(x, y)
    ensures OnCurve(FNeg(x), y) && Residue(FNeg(x))
    ensures Residue(x) ==> FNeg(x) == 0 || FNeg(x) % 2 == 1 - x % 2
  {
    hide F, FMul, FNeg, FAdd, FSub, D, Residue;
    NegMul(x, FNeg(x));
    MulCommutes(x, FNeg(x));
    NegMul(x, x);
    ProductRange(x, x);
    NegNeg(FMul(x, x));
    NegRange(x);
    ResidueZero(x);
    if Residue(x) && x != 0 {
      NegParity(x);
    }
  }

  lemma ResidueZero(x: int)
    ensures x == 0 ==> FNeg(x) == 0
  {
  }

  lemma NegRange(x: int)
    ensures Residue(FNeg(x))
  {
  }

  // ---- Every point of the curve is accepted ----

  /** v to the i times x to the j. */
  ghost function Mono(v: int, x: int, i: nat, j: nat): int
  {
    FMul(FPow(v, i), FPow(x, j))
  }

  lemma MonoMul(v: int, x: int, i: nat, j: nat, k: nat, l: nat)
    ensures FMul(Mono(v, x, i, j), Mono(v, x, k, l)) == Mono(v, x, i + k, j + l)
  {
    hide FMul, FPow;
    var a, b, c, d := FPow(v, i), FPow(x, j), FPow(v, k), FPow(x, l);
    MulAssociates(a, b, FMul(c, d));
    MulAssociates(b, c, d);
    MulCommutes(b, c);
    MulAssociates(c, b, d);
    MulAssociates(a, c, FMul(b, d));
    PowAdd(v, i, k);
    PowAdd(x, j, l);
  }

  lemma {:induction false} MonoPow(v: int, x: int, i: nat, j: nat, n: nat)
    ensures FPow(Mono(v, x, i, j), n) == Mono(v, x, i * n, j * n)
  {
    hide FMul, Mono;
    if n == 0 {
      MonoOne(v, x);
    } else {
      MonoPow(v, x, i, j, n - 1);
      MonoMul(v, x, i, j, i * (n - 1), j * (n - 1));
      assert i * n == i + i * (n - 1) && j * n == j + j * (n - 1);
    }
  }

  lemma MonoOne(v: int, x: int)
    ensures Mono(v, x, 0, 0) == 1
  {
    hide FMul;
    MulOne(1);
  }

  lemma MonoAtoms(v: int, x: int)
    requires Residue(v) && Residue(x)
    ensures Mono(v, x, 1, 0) == v && Mono(v, x, 0, 2) == FSq(x)
  {
    hide FMul;
    FOfResidue(v);
    ProductRange(x, x);
    FOfResidue(FSq(x));
    PowOne(v);
    PowOne(x);
    MulCommutes(v, 1);
    MulOne(v);
    PowAdd(x, 1, 1);
    MulOne(FSq(x));
  }

  /** The candidate and its square, as monomials in v and x, when u = v x^2. */
  lemma CandidateMono(x: int, y: int)
    requires Residue(x) && OnCurve(x, y)
    ensures FMul(FSq(Candidate(y)), V(y)) == FMul(U(y), FPow(Mono(V(y), x, 4, 1), 4 * (Pow2(252) - 3) + 2))
  {
    hide FMul, FPow, Mono, OnCurve, U, V, Pow2, F;
    var v, e := V(y), Pow2(252) - 3;
    Pow2Of255();
    VRange(y);
    RootIffOnCurve(x, y);
    MonoAtoms(v, x);
    MonoMul(v, x, 0, 2, 1, 0);
    MonoMul(v, x, 1, 0, 1, 0);
    MonoMul(v, x, 2, 0, 1, 0);
    MonoMul(v, x, 3, 0, 3, 0);
    MonoMul(v, x, 6, 0, 1, 0);
    MonoMul(v, x, 7, 0, 1, 2);
    MonoPow(v, x, 8, 2, e);
    MonoMul(v, x, 8 * e, 2 * e, 3, 0);
    MonoMul(v, x, 8 * e + 3, 2 * e, 1, 2);
    var i, j := 8 * e + 4, 2 * e + 2;
    MonoMul(v, x, i, j, i, j);
    MonoMul(v, x, i + i, j + j, 1, 0);
    MonoPow(v, x, 4, 1, 4 * e + 2);
    MonoMul(v, x, 1, 2, 4 * (4 * e + 2), 4 * e + 2);
  }

  lemma VRange(y: int)
    ensures Residue(V(y))
  {
  }

  /** One of the candidates is a root if the power (p - 1) / 2 of v^4 x is 1 or -1, or u is 0. */
  lemma RootFound(x: int, y: int)
    requires Residue(x) && OnCurve(x, y)
    requires U(y) == 0 || FPow(Mono(V(y), x, 4, 1), (P - 1) / 2) in {1, P - 1}
    ensures Accepted(y)
  {
    hide FPow, OnCurve, U, V, Mono, Candidate, FSq, SQRTM1, Pow2;
    CandidateMono(x, y);
    Pow2Of255();
    assert 4 * (Pow2(252) - 3) + 2 == (P - 1) / 2;
    var c := Candidate(y);
    URange(y);
    CandidateChecks(c, y);
    var p := FPow(Mono(V(y), x, 4, 1), (P - 1) / 2);
    ZeroTests(FMul(FSq(c), V(y)), U(y));
    TimesSign(U(y), p);
  }

  /** v^4 x is zero only if u = v x^2 is. */
  lemma ZeroMono(x: int, y: int)
    requires Residue(x) && OnCurve(x, y) && Mono(V(y), x, 4, 1) == 0
    ensures U(y) == 0
  {
    hide F, FMul, FPow, OnCurve, U, V;
    var v := V(y);
    VRange(y);
    FOfResidue(x);
    FOfResidue(v);
    RootIffOnCurve(x, y);
    PowOne(x);
    PrimeField.NoZeroDivisors(FPow(v, 4), FPow(x, 1));
    FIdempotent(x);
    PowReduced(v, 4);
    FOfResidue(FPow(v, 4));
    if x == 0 {
      TimesZero(0);
      MulCommutes(0, v);
      TimesZero(v);
    } else {
      ZeroPower(v, 4);
      TimesZero(FSq(x));
    }
  }

  /** A residue with a power that is zero is zero. */
  lemma {:induction false} ZeroPower(v: int, e: nat)
    requires Residue(v) && FPow(v, e) == 0
    ensures v == 0
  {
    hide F, FMul;
    if e == 0 {
    } else {
      FOfResidue(v);
      PowReduced(v, e - 1);
      FOfResidue(FPow(v, e - 1));
      PrimeField.NoZeroDivisors(v, FPow(v, e - 1));
      if v != 0 {
        ZeroPower(v, e - 1);
      }
    }
  }

  /** Whenever (x, y) is on the curve, decompression of y succeeds. */
  lemma AcceptsEveryPoint(x: int, y: int)
    requires Residue(x) && OnCurve(x, y)
    ensures Accepted(y)
  {
    hide F, FMul, FPow, OnCurve, U, V, Mono, Accepted;
    var m := Mono(V(y), x, 4, 1);
    if m == 0 {
      ZeroMono(x, y);
    } else {
      MonoRange(V(y), x);
      FOfResidue(m);
      PrimeField.Euler(m);
    }
    RootFound(x, y);
  }

  lemma MonoRange(v: int, x: int)
    ensures Residue(Mono(v, x, 4, 1))
  {
    hide FMul, FPow;
  }

  /** Decompression accepts y exactly if there is a point of the curve over it. */
  lemma AcceptedIff(y: int)
    ensures Accepted(y) <==> exists x :: Residue(x) && OnCurve(x, y)
  {
    hide FMul, OnCurve, Candidate, SQRTM1;
    if Accepted(y) {
      CandidateRange(y);
      ProductRange(Candidate(y), SQRTM1);
      var c := if OnCurve(Candidate(y), y) then Candidate(y) else FMul(Candidate(y), SQRTM1);
      assert Residue(c) && OnCurve(c, y);
    }
    if x :| Residue(x) && OnCurve(x, y) {
      AcceptsEveryPoint(x, y);
    }
  }

  // ---- Against section 5.1.3 of RFC 8032 ----

  /** x is what the standard decodes from y and the sign bit: y is below p, and x a root of the parity asked for. */
  predicate Decodes(y: int, sign: int, x: int)
  {
    y < P && Residue(x) && OnCurve(x, y) && x % 2 == sign
  }

  /** The standard decodes y and a sign bit, unless y is not below p, has no root, or has the root 0 and the bit 1. */
  lemma DecodesIff(y: nat, sign: int)
    requires 0 <= sign <= 1
    ensures (exists x :: Decodes(y, sign, x)) <==>
            y < P && (exists x :: Residue(x) && OnCurve(x, y)) && !(FSq(y) == 1 && sign == 1)
  {
    hide FMul, FSq, FNeg, OnCurve;
    ZeroOnCurve(y);
    if x :| Decodes(y, sign, x) {
      assert Residue(x) && OnCurve(x, y);
      if FSq(y) == 1 {
        OnlyZero(x, y);
      }
    }
    if y < P && !(FSq(y) == 1 && sign == 1) {
      if x :| Residue(x) && OnCurve(x, y) {
        SignFix(x, y);
        assert x % 2 != sign ==> x != 0 && FNeg(x) != 0 by { ZeroNeg(x); }
        assert Decodes(y, sign, x) || Decodes(y, sign, FNeg(x));
      }
    }
  }

  lemma ZeroNeg(x: int)
    requires Residue(x)
    ensures FNeg(x) == 0 <==> x == 0
  {
    FIs(-x, if x == 0 then 0 else -1, if x == 0 then 0 else P - x);
  }

  /** A point of the curve has a denominator v that is not 0. */
  lemma VNotZero(x: int, y: int)
    requires OnCurve(x, y)
    ensures V(y) != 0
  {
    hide FMul, OnCurve, D, V;
    RootIffOnCurve(x, y);
    TimesZero(FSq(x));
    ProductRange(y, y);
    LessOneZero(FSq(y));
    if V(y) == 0 {
      VOfOne(y);
    }
  }

  lemma VOfOne(y: int)
    requires FSq(y) == 1
    ensures V(y) == D + 1 && D + 1 != 0
  {
    hide FMul, D;
    MulOne(D);
    DValue();
    FOfResidue(D);
    FOfResidue(D + 1);
  }

  /** Two points of the curve over the same y have the same x up to the sign. */
  lemma TwoRoots(x: int, x': int, y: int)
    requires Residue(x) && Residue(x') && OnCurve(x, y) && OnCurve(x', y)
    ensures x == x' || x == FNeg(x')
  {
    hide F, FMul, FNeg, OnCurve, U, V;
    RootIffOnCurve(x, y);
    RootIffOnCurve(x', y);
    VNotZero(x, y);
    VRange(y);
    FOfResidue(V(y));
    MulCommutes(V(y), FSq(x));
    MulCommutes(V(y), FSq(x'));
    PrimeField.Cancel(V(y), FSq(x), FSq(x'));
    ProductRange(x, x);
    ProductRange(x', x');
    FOfResidue(FSq(x));
    FOfResidue(FSq(x'));
    PrimeField.RootsAgree(x, x');
    FOfResidue(x);
    FOfResidue(x');
  }

  lemma OnlyZero(x: int, y: int)
    requires Residue(x) && OnCurve(x, y) && FSq(y) == 1
    ensures x == 0
  {
    hide FMul, FSq, FNeg, OnCurve;
    ZeroOnCurve(y);
    TwoRoots(x, 0, y);
    ResidueZero(0);
  }

  /** The standard decodes at most one x. */
  lemma DecodesOne(y: int, sign: int, x: int, x': int)
    ensures Decodes(y, sign, x) && Decodes(y, sign, x') ==> x == x'
  {
    hide FMul, FNeg, OnCurve;
    if Decodes(y, sign, x) && Decodes(y, sign, x') {
      TwoRoots(x, x', y);
      SignFix(x', y);
      ZeroNeg(x');
    }
  }

  /** The answer is the one of the standard: the point it decodes, or a refusal where it decodes none. */
  ghost predicate AsStandard(y: int, sign: int, ok: bool, h: Point)
  {
    if ok then Decodes(y, sign, h.X) && h.Y == y else forall x :: !Decodes(y, sign, x)
  }

  /** When the decision by the two candidates and the point made from them are those of the standard. */
  lemma Departs(y: nat, sign: int, ok: bool, h: Point)
    requires 0 <= sign <= 1 && (ok <==> Accepted(F(y))) && (ok ==> h == Decoded(F(y), sign))
    ensures AsStandard(y, sign, ok, h) <==> !Accepted(F(y)) || (y < P && (FSq(F(y)) != 1 || sign == 0))
  {
    hide FMul, FSq, FNeg, OnCurve, Accepted, Decoded;
    if y < P {
      FOfResidue(y);
    }
    if ok {
      DecodedPoint(F(y), sign);
      DecodedY(F(y), sign);
    } else {
      AcceptedIff(F(y));
      forall x
        ensures !Decodes(y, sign, x)
      {
        assert Decodes(y, sign, x) ==> Residue(x) && OnCurve(x, F(y));
      }
    }
  }

  lemma DecodedY(y: int, sign: int)
    ensures Decoded(y, sign).Y == y
  {
  }

  /** Multiplying by 1 or by -1. */
  lemma TimesSign(u: int, p: int)
    requires Residue(u)
    ensures p == 1 ==> FMul(u, p) == u
    ensures p == P - 1 ==> FNeg(FMul(u, p)) == u
    ensures u == 0 ==> FMul(u, p) == u
  {
    hide F, FMul;
    TimesOne(u);
    FOfResidue(u);
    if p == P - 1 {
      MulIs(u, P - 1);
      LessOne(u);
      Congruent(u * (P - 1), -u, u);
      NegNeg(u);
    }
    if u == 0 {
      MulOne(p);
    }
  }

  lemma LessOne(u: int)
    ensures u * (P - 1) == -u + u * P
  {
  }
}
