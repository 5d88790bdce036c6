/** Reduction of a 64-byte string modulo the group order L = 2^252 + 27742317777372353535851937790883648493,
    on 24 signed limbs in radix 2^21. */
module ScReduce {
  import opened MachineInts
  import opened Bits
  import opened Radix
  import opened LittleEndian

  const L: int := 7237005577332262213973186563042994240857116359379907606001950938285454250989
  const T252: int := 7237005577332262213973186563042994240829374041602535252466099000494570602496
  const T20: int := 0x10_0000
  const T21: int := 0x20_0000

  function Value(s: seq<int>): int
  {
    Eval(s, 0x20_0000)
  }

  function W(i: nat): nat
  {
    Weight(0x20_0000, i)
  }

  predicate Within(x: int, m: int)
  {
    -m <= x <= m
  }

  /** All limbs from lo up to but not including hi are at most m in size. */
  predicate AllWithin(s: seq<int>, lo: nat, hi: nat, m: int)
  {
    hi <= |s| && forall j :: lo <= j < hi ==> Within(s[j], m)
  }

  lemma Weights()
    ensures W(0) == 1 && W(1) == 0x20_0000 && W(2) == 0x400_0000_0000 && W(3) == 0x8000_0000_0000_0000
    ensures W(4) == 0x10_0000_0000_0000_0000_0000 && W(5) == 0x200_0000_0000_0000_0000_0000_0000
    ensures W(12) == T252
  {
    assert W(6) == 0x4000_0000_0000_0000_0000_0000_0000_0000;
    WeightAdd(0x20_0000, 6, 6);
  }

  // ---- One fold ----

  /** The six digits that replace one unit of weight 2^252, lowest first. */
  function FoldDigit(t: nat): int
    requires t < 6
  {
    if t == 0 then 666643 else if t == 1 then 470296 else if t == 2 then 654183 else
    if t == 3 then -997805 else if t == 4 then 136657 else -683901
  }

  /** Limb i is removed and its multiples are added to limbs i - 12 to i - 12 + t - 1. */
  function FoldedBy(s: seq<int>, i: nat, t: nat): (r: seq<int>)
    requires 12 <= i < |s| && t <= 6
    ensures |r| == |s|
  {
    if t == 0 then s[i := 0] else
    var r := FoldedBy(s, i, t - 1);
    r[i - 12 + (t - 1) := r[i - 12 + (t - 1)] + s[i] * FoldDigit(t - 1)]
  }

  /** The first t fold digits, as an integer. */
  function FoldSum(t: nat): int
    requires t <= 6
  {
    if t == 0 then 0 else FoldSum(t - 1) + W(t - 1) * FoldDigit(t - 1)
  }

  lemma FoldSumIs()
    ensures FoldSum(6) == T252 - L
  {
    Weights();
    assert FoldSum(2) == 666643 + 0x20_0000 * 470296;
    assert FoldSum(4) == FoldSum(2) + 0x400_0000_0000 * 654183 + 0x8000_0000_0000_0000 * -997805;
  }

  lemma {:induction false} FoldedEntries(s: seq<int>, i: nat, t: nat)
    requires 12 <= i < |s| && t <= 6
    ensures forall j :: 0 <= j < |s| && j != i && !(i - 12 <= j < i - 12 + t) ==> FoldedBy(s, i, t)[j] == s[j]
    ensures forall j :: i - 12 <= j < i - 12 + t ==> FoldedBy(s, i, t)[j] == s[j] + s[i] * FoldDigit(j - (i - 12))
    ensures FoldedBy(s, i, t)[i] == 0
  {
    hide FoldDigit;
    if t == 0 {
    } else {
      FoldedEntries(s, i, t - 1);
    }
  }

  lemma {:induction false} FoldedByValue(s: seq<int>, i: nat, t: nat)
    requires 12 <= i < |s| && t <= 6
    ensures Value(FoldedBy(s, i, t)) == Value(s) - W(i) * s[i] + W(i - 12) * (s[i] * FoldSum(t))
  {
    hide FoldDigit, Eval, Weight;
    if t == 0 {
      EvalUpdate(s, i, 0, 0x20_0000);
    } else {
      FoldedByValue(s, i, t - 1);
      var r, j := FoldedBy(s, i, t - 1), i - 12 + (t - 1);
      EvalUpdate(r, j, r[j] + s[i] * FoldDigit(t - 1), 0x20_0000);
      WeightAdd(0x20_0000, i - 12, t - 1);
      Rearrange(W(i - 12), W(t - 1), s[i], FoldDigit(t - 1), FoldSum(t - 1));
    }
  }

  lemma Rearrange(a: int, b: int, x: int, c: int, f: int)
    ensures a * (x * f) + (a * b) * (x * c) == a * (x * (f + b * c))
  {
  }

  /** A fold takes away a multiple of L. */
  lemma FoldValue(s: seq<int>, i: nat)
    requires 12 <= i < |s|
    ensures Value(FoldedBy(s, i, 6)) == Value(s) - L * (W(i - 12) * s[i])
  {
    hide FoldedBy, FoldSum, Eval;
    FoldedByValue(s, i, 6);
    FoldSumIs();
    Weights();
    WeightAdd(0x20_0000, i - 12, 12);
    FoldAlgebra(W(i - 12), s[i], T252, L);
  }

  lemma FoldAlgebra(a: int, x: int, t: int, l: int)
    ensures (a * t) * x == a * (x * t)
    ensures a * (x * (t - l)) == a * (x * t) - l * (a * x)
  {
  }

  lemma ScaledDigit(x: int, a: int, t: nat)
    requires Within(x, a) && t < 6
    ensures Within(x * FoldDigit(t), a * T20)
  {
    var d := FoldDigit(t);
    assert -a * T20 <= x * d <= a * T20;
  }

  /** Folding limb i away; every product and sum stays within 64 bits. */
  method Fold(s: array<i64>, i: nat, ghost m: nat, ghost a: nat)
    requires s.Length == 24 && 12 <= i < 24
    requires AllWithin(s[..], i - 12, i - 6, m) && Within(s[i], a) && m + a * T20 < TWO_63
    modifies s
    ensures s[..] == FoldedBy(old(s[..]), i, 6)
    ensures AllWithin(s[..], i - 12, i - 6, m + a * T20) && s[i] == 0
    ensures forall j :: 0 <= j < 24 && j != i && !(i - 12 <= j < i - 6) ==> s[j] == old(s[j])
  {
    hide FoldedBy, FoldDigit;
    ghost var start := s[..];
    var x := s[i];
    FoldStart(start, i);
    var t := 0;
    while t < 6
      invariant 0 <= t <= 6
      invariant s[..] == FoldedBy(start, i, t)[i := x]
      invariant AllWithin(s[..], i - 12, i - 12 + t, m + a * T20)
    {
      FoldedEntries(start, i, t);
      ScaledDigit(x, a, t);
      var k := i - 12 + t;
      ghost var before := s[..];
      assert before[k] == start[k];
      var product: i64 := x * FoldDigit(t);
      s[k] := s[k] + product;
      assert s[..] == before[k := s[k]];
      FoldNext(start, i, t, x, before);
      t := t + 1;
    }
    FoldedEntries(start, i, 6);
    s[i] := 0;
    assert s[..] == FoldedBy(start, i, 6);
  }

  lemma FoldStart(s: seq<int>, i: nat)
    requires 12 <= i < |s|
    ensures FoldedBy(s, i, 0)[i := s[i]] == s
  {
  }

  lemma FoldNext(s: seq<int>, i: nat, t: nat, x: int, r: seq<int>)
    requires 12 <= i < |s| && t < 6 && x == s[i] && r == FoldedBy(s, i, t)[i := x]
    ensures r[i - 12 + t := r[i - 12 + t] + x * FoldDigit(t)] == FoldedBy(s, i, t + 1)[i := x]
  {
    hide FoldDigit;
  }

  // ---- Six folds in a row ----

  /** Folding limbs hi down to lo = hi - 5: none of them is touched by the folds above it. */
  method FoldSix(s: array<i64>, hi: nat, ghost m: nat, ghost a: nat) returns (ghost k: int)
    requires s.Length == 24 && 17 <= hi < 24
    requires AllWithin(s[..], hi - 17, hi - 5, m) && AllWithin(s[..], hi - 5, hi + 1, a)
    requires m + 6 * (a * T20) < TWO_63
    modifies s
    ensures AllWithin(s[..], hi - 17, hi - 5, m + 6 * (a * T20))
    ensures s[hi - 6] == old(s[hi - 6])
    ensures forall j :: hi - 5 <= j <= hi ==> s[j] == 0
    ensures forall j :: 0 <= j < 24 && !(hi - 17 <= j <= hi) ==> s[j] == old(s[j])
    ensures Value(s[..]) == old(Value(s[..])) - L * k
  {
    hide Value, W, FoldedBy;
    k := 0;
    var i := hi;
    ghost var start := s[..];
    while i > hi - 6
      invariant hi - 6 <= i <= hi
      invariant AllWithin(s[..], hi - 17, hi - 5, m + (hi - i) * (a * T20))
      invariant forall j :: hi - 6 <= j <= i ==> s[j] == start[j]
      invariant s[hi - 6] == start[hi - 6] && forall j :: i < j <= hi && hi - 6 < j ==> s[j] == 0
      invariant forall j :: 0 <= j < 24 && !(hi - 17 <= j <= hi) ==> s[j] == start[j]
      invariant Value(s[..]) == Value(start) - L * k
    {
      ghost var before := s[..];
      FoldValue(before, i);
      Grow(hi - i, a * T20);
      Fold(s, i, m + (hi - i) * (a * T20), a);
      k := k + W(i - 12) * before[i];
      i := i - 1;
    }
  }

  lemma Grow(n: nat, x: nat)
    requires n < 6
    ensures n * x + x == (n + 1) * x <= 6 * x && n * x >= 0
  {
  }

  // ---- Carries ----

  /** Moving q units of weight i + 1 out of limb i keeps the value. */
  lemma CarryValue(s: seq<int>, i: nat, q: int)
    requires i + 1 < |s|
    ensures Value(s[i + 1 := s[i + 1] + q][i := s[i] - q * 0x20_0000]) == Value(s)
  {
    hide Eval;
    var r := s[i + 1 := s[i + 1] + q];
    EvalUpdate(s, i + 1, s[i + 1] + q, 0x20_0000);
    EvalUpdate(r, i, s[i] - q * 0x20_0000, 0x20_0000);
    assert W(i + 1) == 0x20_0000 * W(i);
    CarryAlgebra(W(i), q);
  }

  lemma CarryAlgebra(w: int, q: int)
    ensures (0x20_0000 * w) * q + w * (-(q * 0x20_0000)) == 0
  {
  }

  predicate Near(x: int, y: int, c: int)
  {
    -c <= x - y <= c
  }

  /** The size of the carry out of a limb of size m. */
  function CarrySize(m: nat): nat
  {
    m / T21 + 1
  }

  /** A rounding carry leaves limb i between -2^20 and 2^20. */
  method CarryRound(s: array<i64>, i: nat, ghost m: nat)
    requires s.Length == 24 && i < 23
    requires Within(s[i], m) && Within(s[i + 1], m) && m < TWO_63 / 2
    modifies s
    ensures Value(s[..]) == old(Value(s[..]))
    ensures Within(s[i], T20) && Near(s[i + 1], old(s[i + 1]), CarrySize(m))
    ensures forall j :: 0 <= j < 24 && j != i && j != i + 1 ==> s[j] == old(s[j])
  {
    hide Value;
    ghost var before := s[..];
    var carry: i64 := (s[i] + T20) / T21;
    CarryValue(before, i, carry);
    s[i + 1] := s[i + 1] + carry;
    s[i] := s[i] - carry * T21;
    assert s[..] == before[i + 1 := before[i + 1] + carry][i := before[i] - carry * 0x20_0000];
  }

  /** Rounding carries out of limbs from, from + 2, and so on, count of them. */
  method CarryPass(s: array<i64>, from: nat, count: nat, ghost m: nat)
    requires s.Length == 24 && from + 2 * count <= 24
    requires AllWithin(s[..], from, from + 2 * count, m) && m < TWO_63 / 2
    modifies s
    ensures Value(s[..]) == old(Value(s[..]))
    ensures forall j :: from <= j < from + 2 * count ==>
              if (j - from) % 2 == 0 then Within(s[j], T20) else Near(s[j], old(s[j]), CarrySize(m))
    ensures forall j :: 0 <= j < 24 && !(from <= j < from + 2 * count) ==> s[j] == old(s[j])
  {
    hide Value, CarrySize;
    ghost var start := s[..];
    var i := from;
    while i < from + 2 * count
      invariant from <= i <= from + 2 * count && (i - from) % 2 == 0
      invariant Value(s[..]) == Value(start)
      invariant forall j :: from <= j < i ==>
                  if (j - from) % 2 == 0 then Within(s[j], T20) else Near(s[j], start[j], CarrySize(m))
      invariant forall j :: 0 <= j < 24 && !(from <= j < i) ==> s[j] == start[j]
    {
      CarryRound(s, i, m);
      i := i + 2;
    }
  }

  /** Both rounding passes: six carries from limb from on, then odd carries from the next limb on. */
  method CarryTwice(s: array<i64>, from: nat, odd: nat, ghost m: nat)
    requires s.Length == 24 && 5 <= odd <= 6 && from <= 6
    requires AllWithin(s[..], from, from + odd + 7, m) && T21 <= m < TWO_63 / 4
    modifies s
    ensures Value(s[..]) == old(Value(s[..]))
    ensures AllWithin(s[..], from, from + odd + 6, T20 + CarrySize(2 * m))
    ensures forall j :: from < j < from + 2 * odd && (j - from) % 2 == 1 ==> Within(s[j], T20)
    ensures Near(s[from + odd + 6], old(s[from + odd + 6]), CarrySize(2 * m))
    ensures forall j :: 0 <= j < 24 && !(from <= j <= from + odd + 6) ==> s[j] == old(s[j])
  {
    hide Value;
    CarryPass(s, from, 6, m);
    CarryPass(s, from + 1, odd, 2 * m);
  }

  /** Flooring carries out of limbs 0 to count - 1, one after the other; they end up as plain digits. */
  method CarryFloor(s: array<i64>, count: nat, ghost m: nat)
    requires s.Length == 24 && count < 24
    requires AllWithin(s[..], 0, count + 1, m) && T21 <= m < TWO_63 / 2
    modifies s
    ensures Value(s[..]) == old(Value(s[..]))
    ensures Reduced(s[..count], 0x20_0000)
    ensures forall j :: count < j < 24 ==> s[j] == old(s[j])
  {
    hide Value;
    ghost var start := s[..];
    var i := 0;
    while i < count
      invariant 0 <= i <= count
      invariant Value(s[..]) == Value(start)
      invariant forall j :: 0 <= j < i ==> 0 <= s[j] < T21
      invariant forall j :: i < j < 24 ==> s[j] == start[j]
      invariant Within(s[i], 2 * m)
    {
      ghost var before := s[..];
      var carry: i64 := s[i] / T21;
      assert Within(carry, m);
      CarryValue(before, i, carry);
      s[i + 1] := s[i + 1] + carry;
      s[i] := s[i] - carry * T21;
      assert s[..] == before[i + 1 := before[i + 1] + carry][i := before[i] - carry * 0x20_0000];
      i := i + 1;
    }
  }

  // ---- Sizes of limb strings ----

  /** The integer of a string whose limbs are at most m in size. */
  lemma {:induction false} SizeBound(s: seq<int>, m: nat)
    requires AllWithin(s, 0, |s|, m)
    ensures Within(Value(s) * 0x1f_ffff, m * (W(|s|) - 1))
  {
    if |s| == 0 {
    } else {
      SizeBound(s[1..], m);
      assert Value(s) == s[0] + 0x20_0000 * Value(s[1..]);
      assert W(|s|) == 0x20_0000 * W(|s| - 1);
      SizeAlgebra(m, W(|s| - 1));
    }
  }

  lemma SizeAlgebra(m: int, w: int)
    ensures m * (0x20_0000 * w - 1) == 0x20_0000 * (m * (w - 1)) + m * 0x1f_ffff
  {
  }

  lemma MoreWeights()
    ensures W(5) == 0x200_0000_0000_0000_0000_0000_0000 && W(6) == 0x4000_0000_0000_0000_0000_0000_0000_0000
    ensures W(11) == 0x80_0000_0000_0000_0000_0000_0000_0000_0000_0000_0000_0000_0000_0000_0000
  {
    Weights();
    assert W(6) == 0x20_0000 * W(5);
    WeightAdd(0x20_0000, 6, 5);
  }

  /** A string of zero limbs. */
  lemma {:induction false} ZeroValue(s: seq<int>)
    requires forall j :: 0 <= j < |s| ==> s[j] == 0
    ensures Value(s) == 0
  {
    if |s| == 0 {
    } else {
      ZeroValue(s[1..]);
    }
  }

  /** Before the last flooring carries the value lies strictly between -2^252 and 2^252. */
  lemma {:induction false} FoldedRange(s: seq<int>)
    requires |s| == 24 && AllWithin(s, 0, 6, 0x1000_0000_0000_0000) && AllWithin(s, 6, 11, 0x80_0000_0000)
    requires Within(s[11], T20) && forall j :: 12 <= j < 24 ==> s[j] == 0
    ensures -T252 < Value(s) < T252
  {
    hide Eval, Weight;
    MoreWeights();
    EvalSplit(s, 6, 0x20_0000);
    EvalSplit(s[6..], 5, 0x20_0000);
    EvalSplit(s[11..], 1, 0x20_0000);
    assert s[6..][..5] == s[6..11] && s[6..][5..] == s[11..] && s[11..][..1] == [s[11]] && s[11..][1..] == s[12..];
    OneLimb(s[11]);
    ZeroValue(s[12..]);
    SizeBound(s[..6], 0x1000_0000_0000_0000);
    SizeBound(s[6..11], 0x80_0000_0000);
  }

  lemma OneLimb(x: int)
    ensures Value([x]) == x
  {
    var t := [x];
    assert t[1..] == [] && Eval(t[1..], 0x20_0000) == 0;
    assert Eval(t, 0x20_0000) == t[0] + 0x20_0000 * Eval(t[1..], 0x20_0000);
  }

  /** Plain digits below a top limb: the value is bracketed by the top limb. */
  lemma TopLimb(s: seq<int>, k: nat)
    requires k < |s| && Reduced(s[..k], 0x20_0000) && forall j :: k < j < |s| ==> s[j] == 0
    ensures W(k) * s[k] <= Value(s) < W(k) * (s[k] + 1)
  {
    hide Eval, Weight;
    EvalSplit(s, k, 0x20_0000);
    EvalSplit(s[k..], 1, 0x20_0000);
    assert s[k..][..1] == [s[k]] && s[k..][1..] == s[k + 1..];
    OneLimb(s[k]);
    ZeroValue(s[k + 1..]);
    EvalBound(s[..k], 0x20_0000);
  }

  // ---- Loading ----

  /** The 21 bits from bit 21 i on, taken from a load of three or four bytes, as wide as the shift needs. */
  function LoadLimb(b: seq<byte>, i: nat): nat
    requires 21 * i / 8 + 4 <= |b|
  {
    var a, r := 21 * i / 8, 21 * i % 8;
    Shr(Load(b[a..], if r <= 3 then 3 else 4), r) % T21
  }

  lemma {:induction false} LoadLimbIs(b: seq<byte>, i: nat)
    requires 21 * i / 8 + 4 <= |b|
    ensures LE(b) >= 0 && LoadLimb(b, i) == Digit(LE(b), 0x20_0000, i)
  {
    hide LE, Pow2, Load, Digit, Weight;
    var a, r := 21 * i / 8, 21 * i % 8;
    var n := if r <= 3 then 3 else 4;
    var x := LE(b);
    LoadIsLE(b[a..], n);
    assert b[a..][..n] == b[a..a + n];
    LESlice(b, a, n);
    Pow2Of21();
    Pow2Add(r, 21);
    Pow2Add(r + 21, 8 * n - 21 - r);
    MulAssoc(Pow2(r), Pow2(21), Pow2(8 * n - 21 - r));
    MidBits(x / Pow2(8 * a), Pow2(r), Pow2(21), Pow2(8 * n - 21 - r));
    DivTwice(x, Pow2(8 * a), Pow2(r));
    Pow2Add(8 * a, r);
    WeightIsPow2(21, i);
    DigitIs(x, 0x20_0000, i);
  }

  lemma Pow2Of21()
    ensures Pow2(21) == 0x20_0000
  {
    Pow2Of64();
    assert Pow2(5) == 32;
    Pow2At(16, 5, 0x1_0000, 32);
  }

  /** The top limb takes all the remaining 29 bits. */
  lemma {:induction false} TopLoad(b: seq<byte>)
    requires |b| == 64
    ensures LE(b) >= 0 && W(23) > 0 && Load(b[60..], 4) / 8 == LE(b) / W(23) < 0x2000_0000
  {
    hide LE, Pow2, Load, Weight;
    LoadIsLE(b[60..], 4);
    assert b[60..][..4] == b[60..64];
    LESlice(b, 60, 4);
    LEBound(b);
    Pow2Of64();
    Pow2Of21();
    Pow2Add(480, 32);
    Pow2Add(480, 3);
    assert Pow2(3) == 8 by { SmallPowers(); }
    WeightIsPow2(21, 23);
    DivTwice(LE(b), Pow2(480), 8);
    BelowProduct(LE(b), Pow2(480), 0x1_0000_0000);
  }

  lemma BelowProduct(x: nat, a: nat, b: nat)
    requires a > 0 && x < a * b
    ensures x / a < b && x / a % b == x / a
  {
    var q := x / a;
    if q >= b {
      ProductGrows(a, b, q);
    }
  }

  lemma ProductGrows(a: nat, b: nat, q: nat)
    requires q >= b
    ensures a * q >= a * b
  {
  }

  /** The 24 limbs of a 64-byte string; only the top one is not masked. */
  method LoadLimbs(b: array<byte>) returns (s: array<i64>)
    requires b.Length == 64
    ensures fresh(s) && s.Length == 24
    ensures LE(b[..]) >= 0 && Value(s[..]) == LE(b[..])
    ensures AllWithin(s[..], 0, 18, T21) && AllWithin(s[..], 18, 24, 0x2000_0000)
  {
    hide LE, Load, LoadLimb, Eval, Digit;
    s := new i64[24];
    ghost var n := LE(b[..]);
    LENonNegative(b[..]);
    var i := 0;
    while i < 23
      invariant 0 <= i <= 23
      invariant forall j :: 0 <= j < i ==> s[j] == Digit(n, 0x20_0000, j) && 0 <= s[j] < T21
    {
      LoadLimbIs(b[..], i);
      LimbSize(n, i);
      s[i] := LoadLimb(b[..], i);
      i := i + 1;
    }
    TopLoad(b[..]);
    s[23] := Load(b[60..], 4) / 8;
    assert b[60..] == b[..][60..];
    LoadedValue(s[..], n);
  }

  lemma LimbSize(n: nat, i: nat)
    ensures 0 <= Digit(n, 0x20_0000, i) < T21
  {
  }

  lemma {:induction false} LoadedValue(s: seq<int>, n: nat)
    requires |s| == 24 && forall j :: 0 <= j < 23 ==> s[j] == Digit(n, 0x20_0000, j)
    requires W(23) > 0 && s[23] == n / W(23)
    ensures Value(s) == n
  {
    hide Eval, Digit, Weight;
    EvalSplit(s, 23, 0x20_0000);
    EvalDigits(s[..23], n, 0x20_0000);
    assert s[23..] == [s[23]];
    OneLimb(s[23]);
  }

  // ---- Storing ----

  /** Byte j of the output: from one limb, or from the top of one limb joined with the bottom of the next. */
  function StoredByte(s: seq<int>, j: nat): int
    requires |s| == 24 && j < 32 && forall k :: 0 <= k < 24 ==> s[k] >= 0
  {
    var i, r := 8 * j / 21, 8 * j % 21;
    if r <= 13 then Shr(s[i], r) % 256 else Or(Shr(s[i], r), Shl(s[i + 1], 21 - r)) % 256
  }

  /** Twelve digits, the top one with one bit more. */
  predicate Finished(s: seq<int>)
  {
    && |s| == 24 && Reduced(s[..11], 0x20_0000) && 0 <= s[11] < 2 * T21
    && forall j :: 12 <= j < 24 ==> s[j] == 0
  }

  /** Seen from limb i on, the value starts with limbs i and i + 1. */
  lemma TwoLimbs(s: seq<int>, i: nat) returns (rest: nat)
    requires Finished(s) && i <= 11
    ensures Value(s) >= 0 && W(i) > 0
    ensures Value(s) / W(i) == s[i] + 0x20_0000 * (s[i + 1] + 0x20_0000 * rest)
  {
    hide Eval, Weight;
    EvalSplit(s, i, 0x20_0000);
    assert s[i..][2..] == s[i + 2..];
    FirstTwo(s[i..]);
    Weights();
    assert Reduced(s[..i], 0x20_0000) by { assert forall k :: 0 <= k < i ==> s[..i][k] == s[..11][k]; }
    EvalBound(s[..i], 0x20_0000);
    WeightPositive(0x20_0000, i);
    NonNegativeLimbs(s[i + 2..]);
    rest := Value(s[i + 2..]);
    var top := s[i] + 0x20_0000 * (s[i + 1] + 0x20_0000 * rest);
    DivModUnique(Value(s), W(i), top, Value(s[..i]));
  }

  lemma FirstTwo(u: seq<int>)
    requires |u| >= 2
    ensures Value(u) == u[0] + 0x20_0000 * (u[1] + 0x20_0000 * Value(u[2..]))
  {
    hide Eval;
    EvalSplit(u, 1, 0x20_0000);
    EvalSplit(u[1..], 1, 0x20_0000);
    assert u[..1] == [u[0]] && u[1..][..1] == [u[1]] && u[1..][1..] == u[2..];
    OneLimb(u[0]);
    OneLimb(u[1]);
    Weights();
  }

  lemma {:induction false} NonNegativeLimbs(s: seq<int>)
    requires forall j :: 0 <= j < |s| ==> s[j] >= 0
    ensures Value(s) >= 0
  {
    if |s| == 0 {
    } else {
      NonNegativeLimbs(s[1..]);
      assert Value(s) == s[0] + 0x20_0000 * Value(s[1..]);
    }
  }

  lemma FinishedLimbs(s: seq<int>)
    requires Finished(s)
    ensures forall k :: 0 <= k < 24 ==> 0 <= s[k] < 2 * T21
    ensures forall k :: 0 <= k < 11 ==> s[k] < T21
  {
    assert forall k :: 0 <= k < 11 ==> s[k] == s[..11][k];
  }

  /** Shifting two joined limbs right by r. */
  lemma ShiftedLimbs(x: nat, y: nat, rest: nat, p: nat, q: nat)
    requires p > 0 && p * q == 0x20_0000
    ensures (x + 0x20_0000 * (y + 0x20_0000 * rest)) / p == x / p + q * (y + 0x20_0000 * rest)
  {
    var z := y + 0x20_0000 * rest;
    MulAssoc(p, q, z);
    DivModUnique(x + 0x20_0000 * z, p, x / p + q * z, x % p);
  }

  lemma {:induction false} StoredByteIs(s: seq<int>, j: nat)
    requires Finished(s) && j < 32
    ensures Value(s) >= 0 && forall k :: 0 <= k < 24 ==> s[k] >= 0
    ensures StoredByte(s, j) == Digit(Value(s), 256, j)
  {
    hide Eval, Weight, Pow2, Or, Digit, Reduced;
    FinishedLimbs(s);
    var i, r := 8 * j / 21, 8 * j % 21;
    var p, q := Pow2(r), Pow2(21 - r);
    var rest := TwoLimbs(s, i);
    Pow2Of21();
    Pow2Add(r, 21 - r);
    ShiftedLimbs(s[i], s[i + 1], rest, p, q);
    WeightIsPow2(21, i);
    Pow2Add(21 * i, r);
    ByteWeight(j);
    DivTwice(Value(s), W(i), p);
    DigitIs(Value(s), 256, j);
    LowByte(s[i], s[i + 1], rest, r);
  }

  /** The byte that the source writes is the low byte of the shifted limbs. */
  lemma LowByte(x: nat, y: nat, rest: nat, r: nat)
    requires r < 21 && (x < T21 || y == 0)
    ensures (Shr(x, r) + Pow2(21 - r) * (y + 0x20_0000 * rest)) % 256
         == if r <= 13 then Shr(x, r) % 256 else Or(Shr(x, r), Shl(y, 21 - r)) % 256
  {
    hide Pow2, Or;
    var p, q := Pow2(r), Pow2(21 - r);
    Pow2Of21();
    Pow2Of64();
    Pow2Add(r, 21 - r);
    if r <= 13 {
      Pow2Add(8, 13 - r);
      var h := Pow2(13 - r) * (y + 0x20_0000 * rest);
      MulAssoc(256, Pow2(13 - r), y + 0x20_0000 * rest);
      DropMultiple(x / p, h);
    } else {
      BelowProductOr(x, y, p, q, 21 - r);
      var h := q * (0x2000 * rest);
      assert q * (y + 0x20_0000 * rest) == y * q + 256 * h by { JoinAlgebra(q, y, rest); }
      DropMultiple(x / p + y * q, h);
    }
  }

  lemma JoinAlgebra(q: int, y: int, rest: int)
    ensures q * (y + 0x20_0000 * rest) == y * q + 256 * (q * (0x2000 * rest))
  {
  }

  lemma DropMultiple(a: nat, h: nat)
    ensures (a + 256 * h) % 256 == a % 256
  {
  }

  lemma BelowProductOr(x: nat, y: nat, p: nat, q: nat, k: nat)
    requires p > 0 && q == Pow2(k) && p * q == T21 && (x < T21 || y == 0)
    ensures Or(x / p, y * q) == x / p + y * q
  {
    hide Pow2;
    if y == 0 {
      assert y * q == 0;
    } else {
      BelowProduct(x, p, q);
      OrDisjoint(x / p, y, k);
    }
  }

  method StoreBytes(b: array<byte>, s: array<i64>)
    requires b.Length >= 32 && s.Length == 24 && Finished(s[..])
    modifies b
    ensures Value(s[..]) >= 0 && LE(b[..32]) == old(Value(s[..])) % Pow2(256)
    ensures b[32..] == old(b[32..])
  {
    hide Eval, LE, Finished, StoredByte, Digit, Pow2;
    ghost var v := s[..];
    ghost var high := b[32..];
    var j := 0;
    FinishedLimbs(v);
    StoredByteIs(v, 0);
    while j < 32
      invariant 0 <= j <= 32 && s[..] == v && b[32..] == high
      invariant forall k :: 0 <= k < j ==> b[k] == Digit(Value(v), 256, k)
    {
      StoredByteIs(v, j);
      ByteSize(Value(v), j);
      b[j] := StoredByte(s[..], j);
      j := j + 1;
    }
    EvalDigits(b[..32], Value(v), 256);
    ByteWeight(32);
    LEIs(b[..32]);
  }

  lemma LEIs(t: seq<int>)
    ensures LE(t) == Eval(t, 256)
  {
  }

  lemma ByteSize(n: nat, i: nat)
    ensures 0 <= Digit(n, 256, i) < 256
  {
  }

  // ---- The reduction ----

  /** The first half: twelve limbs whose value is less than 2^252 in size. */
  method Shrink(s: array<i64>) returns (ghost k: int)
    requires s.Length == 24 && AllWithin(s[..], 0, 24, 0x8000_0000)
    modifies s
    ensures Value(s[..]) == old(Value(s[..])) - L * k
    ensures -T252 < Value(s[..]) < T252
    ensures AllWithin(s[..], 0, 12, 0x1000_0000_0000_0000) && forall j :: 12 <= j < 24 ==> s[j] == 0
  {
    hide Value, CarrySize;
    CarrySizes();
    ghost var k1 := FoldSix(s, 23, 0x8000_0000, 0x8000_0000);
    CarryTwice(s, 6, 5, 0x40_0000_0000_0000);
    ghost var k2 := FoldSix(s, 17, 0x8_0000_0000, 0x8_0000_0000);
    CarryTwice(s, 0, 6, 0x400_0000_0000_0000);
    ghost var last := s[..];
    FoldValue(last, 12);
    Fold(s, 12, 0x80_0000_0000, 0x80_0000_0000);
    k := k1 + k2 + W(0) * last[12];
    FoldedRange(s[..]);
  }

  lemma CarrySizes()
    ensures CarrySize(2 * 0x40_0000_0000_0000) == 0x4_0000_0001
    ensures CarrySize(2 * 0x400_0000_0000_0000) == 0x40_0000_0001
  {
  }

  /** Flooring decides whether one L has to be added: the value ends up in [0, L). */
  method Finish(s: array<i64>) returns (ghost k: int)
    requires s.Length == 24
    requires AllWithin(s[..], 0, 12, 0x1000_0000_0000_0000) && forall j :: 12 <= j < 24 ==> s[j] == 0
    requires -T252 < Value(s[..]) < T252
    modifies s
    ensures Finished(s[..])
    ensures 0 <= Value(s[..]) < L && Value(s[..]) == old(Value(s[..])) - L * k
  {
    hide Value, W;
    CarryFloor(s, 12, 0x1000_0000_0000_0000);
    ghost var v := s[..];
    Weights();
    MoreWeights();
    TopLimb(v, 12);
    k := v[12];
    assert k == 0 || k == -1;
    FoldValue(v, 12);
    DigitsWithin(v, 12);
    Fold(s, 12, T21, 1);
    CarryFloor(s, 11, 0x200_0000);
    TopLimb(s[..], 11);
  }

  lemma DigitsWithin(s: seq<int>, k: nat)
    requires k <= |s| && Reduced(s[..k], 0x20_0000)
    ensures AllWithin(s, 0, k, T21)
  {
    assert forall j :: 0 <= j < k ==> s[j] == s[..k][j];
  }

  lemma SmallLimbs(s: seq<int>)
    requires |s| == 24 && AllWithin(s, 0, 18, T21) && AllWithin(s, 18, 24, 0x2000_0000)
    ensures AllWithin(s, 0, 24, 0x8000_0000)
  {
  }

  /** For every 64-byte string, the first 32 bytes become its residue modulo L. */
  method ScReduce(b: array<byte>)
    requires b.Length == 64
    modifies b
    ensures old(LE(b[..])) >= 0 && LE(b[..32]) == old(LE(b[..])) % L
    ensures b[32..] == old(b[32..])
  {
    hide Value, LE, Finished, Pow2, AllWithin;
    ghost var n := LE(b[..]);
    var s := LoadLimbs(b);
    SmallLimbs(s[..]);
    ghost var k := Shrink(s);
    ghost var k' := Finish(s);
    DivModUnique(n, L, k + k', Value(s[..]));
    Residue256(Value(s[..]));
    StoreBytes(b, s);
  }

  lemma Residue256(v: int)
    requires 0 <= v < L
    ensures v % Pow2(256) == v
  {
    hide Pow2;
    Pow2Of64();
    Pow2At(64, 64, 0x1_0000_0000_0000_0000, 0x1_0000_0000_0000_0000);
    Pow2At(128, 128, 0x1_0000_0000_0000_0000_0000_0000_0000_0000, 0x1_0000_0000_0000_0000_0000_0000_0000_0000);
  }
}
