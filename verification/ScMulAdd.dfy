/** The scalar multiply-add of signing, (a b + c) mod L, on twelve limbs each; the reduction is that of ScReduce. */
module ScMulAdd {
  import opened MachineInts
  import opened Bits
  import opened Radix
  import opened LittleEndian
  import opened ScReduce

  // ---- The product of two limb strings ----

  /** What limb i of a contributes to column k. */
  function Term(a: seq<int>, b: seq<int>, k: nat, i: nat): int
    requires i < |a|
  {
    if i <= k && k - i < |b| then a[i] * b[k - i] else 0
  }

  /** The contributions of the first n limbs of a to column k. */
  function Column(a: seq<int>, b: seq<int>, k: nat, n: nat): int
    requires n <= |a|
  {
    if n == 0 then 0 else Column(a, b, k, n - 1) + Term(a, b, k, n - 1)
  }

  function Columns(a: seq<int>, b: seq<int>, n: nat): (r: seq<int>)
    requires n <= |a|
    ensures |r| == 24
  {
    seq(24, k requires 0 <= k < 24 => Column(a, b, k, n))
  }

  function Zeros(n: nat): (r: seq<int>)
    ensures |r| == n && forall j :: 0 <= j < n ==> r[j] == 0
  {
    seq(n, _ => 0)
  }

  lemma {:induction false} Linear(r: seq<int>, x: seq<int>, y: seq<int>, c: int)
    requires |r| == |x| == |y| && forall k :: 0 <= k < |r| ==> r[k] == x[k] + c * y[k]
    ensures Value(r) == Value(x) + c * Value(y)
    decreases |r|
  {
    if |r| == 0 {
    } else {
      Linear(r[1..], x[1..], y[1..], c);
      LinearStep(x[0], y[0], Value(x[1..]), Value(y[1..]), c);
    }
  }

  lemma LinearStep(x: int, y: int, u: int, v: int, c: int)
    ensures (x + c * y) + 0x20_0000 * (u + c * v) == (x + 0x20_0000 * u) + c * (y + 0x20_0000 * v)
  {
  }

  lemma {:induction false} MovedValue(b: seq<int>, m: nat)
    requires |b| == 12 && m <= 12
    ensures Value(Zeros(m) + (b + Zeros(12 - m))) == W(m) * Value(b)
  {
    hide Eval, Weight;
    EvalAppend(Zeros(m), b + Zeros(12 - m), 0x20_0000);
    EvalAppend(b, Zeros(12 - m), 0x20_0000);
    ZeroValue(Zeros(m));
    ZeroValue(Zeros(12 - m));
  }

  lemma MovedEntry(a: seq<int>, b: seq<int>, m: nat, k: nat)
    requires |a| == |b| == 12 && m < 12 && k < 24
    ensures Term(a, b, k, m) == a[m] * (Zeros(m) + (b + Zeros(12 - m)))[k]
  {
  }

  /** The columns of the first n limbs of a make up the product of these limbs with b. */
  lemma {:induction false} ColumnsValue(a: seq<int>, b: seq<int>, n: nat)
    requires |a| == |b| == 12 && n <= 12
    ensures Value(Columns(a, b, n)) == Value(a[..n]) * Value(b)
  {
    hide Eval, Weight, Term;
    if n == 0 {
      ZeroValue(Columns(a, b, 0));
      ZeroValue(a[..0]);
    } else {
      var m := n - 1;
      ColumnsValue(a, b, m);
      var moved := Zeros(m) + (b + Zeros(12 - m));
      forall k | 0 <= k < 24
        ensures Columns(a, b, n)[k] == Columns(a, b, m)[k] + a[m] * moved[k]
      {
        MovedEntry(a, b, m, k);
      }
      Linear(Columns(a, b, n), Columns(a, b, m), moved, a[m]);
      MovedValue(b, m);
      EvalAppend(a[..m], [a[m]], 0x20_0000);
      assert a[..n] == a[..m] + [a[m]];
      OneLimb(a[m]);
      RowAlgebra(Value(a[..m]), Value(b), a[m], W(m));
    }
  }

  lemma RowAlgebra(u: int, v: int, x: int, w: int)
    ensures u * v + x * (w * v) == (u + w * x) * v
  {
  }

  // ---- Sizes ----

  /** Twelve limbs as they are loaded; only the top one may be longer. */
  predicate Loaded(s: seq<int>)
  {
    |s| == 12 && (forall j :: 0 <= j < 11 ==> 0 <= s[j] < T21) && 0 <= s[11] < 0x200_0000
  }

  lemma AnyLimb(s: seq<int>)
    requires Loaded(s)
    ensures forall j :: 0 <= j < 12 ==> 0 <= s[j] < 0x200_0000
  {
  }

  lemma ProductSize(x: int, y: int, m: int, n: int)
    requires 0 <= x <= m && 0 <= y <= n
    ensures 0 <= x * y <= m * n
  {
    assert x * y <= m * y <= m * n;
  }

  /** Only column 22 has a product of both top limbs, and nothing else. */
  lemma TermSize(a: seq<int>, b: seq<int>, k: nat, i: nat)
    requires Loaded(a) && Loaded(b) && i < 12 && k < 24
    ensures 0 <= Term(a, b, k, i)
    ensures if k != 22 then Term(a, b, k, i) <= 0x4000_0000_0000
            else Term(a, b, k, i) <= if i < 11 then 0 else 0x4_0000_0000_0000
  {
    if i <= k && k - i < 12 {
      if i < 11 {
        ProductSize(a[i], b[k - i], T21, 0x200_0000);
      } else if k - i < 11 {
        ProductSize(a[i], b[k - i], 0x200_0000, T21);
      } else {
        ProductSize(a[i], b[k - i], 0x200_0000, 0x200_0000);
      }
    }
  }

  lemma {:induction false} ColumnSize(a: seq<int>, b: seq<int>, k: nat, n: nat)
    requires Loaded(a) && Loaded(b) && k < 24 && n <= 12
    ensures 0 <= Column(a, b, k, n)
    ensures if k != 22 then Column(a, b, k, n) <= n * 0x4000_0000_0000
            else Column(a, b, k, n) <= if n < 12 then 0 else 0x4_0000_0000_0000
  {
    hide Term, Loaded;
    if n == 0 {
    } else {
      TermSize(a, b, k, n - 1);
      ColumnSize(a, b, k, n - 1);
    }
  }

  // ---- The operation ----

  /** The twelve limbs of a 32-byte string; only the top one is not masked. */
  method LoadTwelve(b: array<byte>) returns (s: array<i64>)
    requires b.Length == 32
    ensures fresh(s) && s.Length == 12 && Loaded(s[..])
    ensures LE(b[..]) >= 0 && Value(s[..]) == LE(b[..])
  {
    hide LE, Load, LoadLimb, Eval, Digit;
    s := new i64[12];
    ghost var n := LE(b[..]);
    LENonNegative(b[..]);
    for i := 0 to 11
      invariant forall j :: 0 <= j < i ==> s[j] == Digit(n, 0x20_0000, j) && 0 <= s[j] < T21
    {
      LoadLimbIs(b[..], i);
      LimbSize(n, i);
      s[i] := LoadLimb(b[..], i);
    }
    TopTwelfth(b[..]);
    s[11] := Load(b[28..], 4) / 0x80;
    assert b[28..] == b[..][28..];
    TwelveValue(s[..], n);
  }

  /** The top limb takes all the remaining 25 bits. */
  lemma {:induction false} TopTwelfth(b: seq<byte>)
    requires |b| == 32
    ensures LE(b) >= 0 && W(11) > 0 && Load(b[28..], 4) / 0x80 == LE(b) / W(11) < 0x200_0000
  {
    hide LE, Pow2, Load, Weight;
    LoadIsLE(b[28..], 4);
    assert b[28..][..4] == b[28..32];
    LESlice(b, 28, 4);
    LEBound(b);
    Pow2Of64();
    Pow2Of21();
    Pow2Add(224, 32);
    Pow2Add(224, 7);
    assert Pow2(7) == 0x80 by { SmallPowers(); }
    WeightIsPow2(21, 11);
    DivTwice(LE(b), Pow2(224), 0x80);
    BelowProduct(LE(b), Pow2(224), 0x1_0000_0000);
  }

  lemma {:induction false} TwelveValue(s: seq<int>, n: nat)
    requires |s| == 12 && forall j :: 0 <= j < 11 ==> s[j] == Digit(n, 0x20_0000, j)
    requires W(11) > 0 && s[11] == n / W(11)
    ensures Value(s) == n
  {
    hide Eval, Digit, Weight;
    EvalSplit(s, 11, 0x20_0000);
    EvalDigits(s[..11], n, 0x20_0000);
    assert s[11..] == [s[11]];
    OneLimb(s[11]);
  }

  /** The columns of a b + c; every product and sum stays within 64 bits. */
  method Products(a: array<i64>, b: array<i64>, c: array<i64>) returns (s: array<i64>)
    requires a.Length == 12 && b.Length == 12 && c.Length == 12
    requires Loaded(a[..]) && Loaded(b[..]) && Loaded(c[..])
    ensures fresh(s) && s.Length == 24
    ensures Value(s[..]) == Value(c[..]) + Value(a[..]) * Value(b[..])
    ensures AllWithin(s[..], 0, 24, 0x4_0000_0000_0000) && s[23] == 0
  {
    hide Column, Term, Eval, Loaded;
    s := new i64[24];
    for k := 0 to 24
      invariant forall j :: 0 <= j < k ==> s[j] == Column(a[..], b[..], j, 12) + if j < 12 then c[j] else 0
    {
      AnyLimb(c[..]);
      s[k] := OneColumn(a, b, if k < 12 then c[k] else 0, k);
    }
    ColumnSizes(a[..], b[..], c[..], s[..]);
    Added(a[..], b[..], c[..], s[..]);
  }

  /** One column: the limb of c, if any, and the products whose indices add up to k. */
  method OneColumn(a: array<i64>, b: array<i64>, x: i64, k: nat) returns (acc: i64)
    requires a.Length == 12 && b.Length == 12 && Loaded(a[..]) && Loaded(b[..]) && k < 24 && 0 <= x < 0x200_0000
    ensures acc == Column(a[..], b[..], k, 12) + x
  {
    hide Loaded;
    acc := x;
    for i := 0 to 12
      invariant acc == Column(a[..], b[..], k, i) + x
    {
      TermSize(a[..], b[..], k, i);
      ColumnSize(a[..], b[..], k, i);
      if i <= k && k - i < 12 {
        acc := acc + a[i] * b[k - i];
      }
    }
  }

  lemma ColumnSizes(a: seq<int>, b: seq<int>, c: seq<int>, s: seq<int>)
    requires Loaded(a) && Loaded(b) && Loaded(c) && |s| == 24
    requires forall j :: 0 <= j < 24 ==> s[j] == Column(a, b, j, 12) + if j < 12 then c[j] else 0
    ensures AllWithin(s, 0, 24, 0x4_0000_0000_0000) && s[23] == 0
  {
    hide Column;
    forall j | 0 <= j < 24 ensures Within(s[j], 0x4_0000_0000_0000) {
      ColumnSize(a, b, j, 12);
    }
    NoColumn(a, b, 12);
  }

  lemma {:induction false} NoColumn(a: seq<int>, b: seq<int>, n: nat)
    requires |a| == |b| == 12 && n <= 12
    ensures Column(a, b, 23, n) == 0
  {
    if n == 0 {
    } else {
      NoColumn(a, b, n - 1);
    }
  }

  lemma Added(a: seq<int>, b: seq<int>, c: seq<int>, s: seq<int>)
    requires |a| == |b| == |c| == 12 && |s| == 24
    requires forall j :: 0 <= j < 24 ==> s[j] == Column(a, b, j, 12) + if j < 12 then c[j] else 0
    ensures Value(s) == Value(c) + Value(a) * Value(b)
  {
    hide Column, Eval, Weight;
    ColumnsValue(a, b, 12);
    assert a[..12] == a;
    var extended := c + Zeros(12);
    Linear(s, Columns(a, b, 12), extended, 1);
    EvalAppend(c, Zeros(12), 0x20_0000);
    ZeroValue(Zeros(12));
  }

  /** The first rounding carries: all limbs come down to less than 2^31. */
  method FirstCarries(s: array<i64>)
    requires s.Length == 24 && AllWithin(s[..], 0, 24, 0x4_0000_0000_0000) && s[23] == 0
    modifies s
    ensures Value(s[..]) == old(Value(s[..])) && AllWithin(s[..], 0, 24, 0x8000_0000)
  {
    hide Value;
    CarryPass(s, 0, 12, 0x4_0000_0000_0000);
    CarryPass(s, 1, 11, 0x8_0000_0000_0000);
  }

  /** For all 32-byte strings, the residue of a b + c modulo L. */
  method ScMulAdd(out: array<byte>, a: array<byte>, b: array<byte>, c: array<byte>)
    requires out.Length == 32 && a.Length == 32 && b.Length == 32 && c.Length == 32
    modifies out
    ensures old(LE(a[..]) * LE(b[..]) + LE(c[..])) >= 0
    ensures LE(out[..]) == old(LE(a[..]) * LE(b[..]) + LE(c[..])) % L
  {
    hide Value, LE, Finished, Pow2, AllWithin, Loaded;
    ghost var x, y, z := LE(a[..]), LE(b[..]), LE(c[..]);
    var a' := LoadTwelve(a);
    var b' := LoadTwelve(b);
    var c' := LoadTwelve(c);
    LENonNegative(a[..]);
    MulNonNegative(x, y);
    var s := Products(a', b', c');
    FirstCarries(s);
    ghost var k := Shrink(s);
    ghost var k' := Finish(s);
    DivModUnique(x * y + z, L, k + k', Value(s[..]));
    Residue256(Value(s[..]));
    StoreBytes(out, s);
    assert out[..32] == out[..];
  }
}
