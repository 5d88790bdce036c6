/** The signed sliding-window recoding of a scalar. */
module Slide {
  import opened MachineInts
  import opened Bits
  import opened Radix
  import opened LittleEndian

  const DIGITS: int := 256

  /** The value of a string of signed binary digits. */
  function Sum(r: seq<int>): int
  {
    Eval(r, 2)
  }

  /** A window digit: odd, at most 15 in size, and followed by four zeros. */
  predicate Window(r: seq<int>, j: nat)
    requires j < |r|
  {
    && r[j] % 2 == 1 && -15 <= r[j] <= 15
    && forall k :: j < k < |r| && k < j + 5 ==> r[k] == 0
  }

  /** Positions below i are recoded. */
  predicate Recoded(r: seq<int>, i: nat)
    requires i <= |r|
  {
    forall j :: 0 <= j < i ==> r[j] == 0 || Window(r, j)
  }

  /** Width-5 non-adjacent form. */
  predicate Naf5(r: seq<int>)
  {
    Recoded(r, |r|)
  }

  /** Positions from i on still hold plain bits. */
  predicate PlainFrom(r: seq<int>, i: nat)
    requires i <= |r|
  {
    forall j :: i <= j < |r| ==> r[j] == 0 || r[j] == 1
  }

  /** Digits at the top four positions do not reach beyond position 255. */
  predicate Fits(r: seq<int>, i: nat)
    requires i <= |r| == DIGITS
  {
    forall j :: 252 <= j < i ==> 0 <= r[j] < Pow2(DIGITS - j)
  }

  predicate ZeroFrom(r: seq<int>, i: nat)
    requires i <= |r|
  {
    forall j :: i <= j < |r| ==> r[j] == 0
  }

  lemma SumUpdate(r: seq<int>, i: nat, v: int)
    requires i < |r|
    ensures Sum(r[i := v]) == Sum(r) + Pow2(i) * (v - r[i])
  {
    EvalUpdate(r, i, v, 2);
    BinaryWeight(i);
  }

  lemma {:induction false} SumZero(r: seq<int>)
    requires forall j :: 0 <= j < |r| ==> r[j] == 0
    ensures Sum(r) == 0
  {
    if |r| == 0 {
    } else {
      SumZero(r[1..]);
    }
  }

  /** One more digit on top of a prefix. */
  lemma SumPrefix(r: seq<int>, i: nat)
    requires i < |r|
    ensures Sum(r[..i + 1]) == Sum(r[..i]) + Pow2(i) * r[i]
  {
    assert r[..i + 1] == r[..i] + [r[i]];
    EvalAppend(r[..i], [r[i]], 2);
    BinaryWeight(i);
    var t := [r[i]];
    assert t[1..] == [] && Eval(t[1..], 2) == 0;
    assert Eval(t, 2) == t[0] + 2 * Eval(t[1..], 2);
  }

  /** Below a nonzero digit the four preceding positions are zero. */
  lemma ZerosBelow(r: seq<int>, i: nat)
    requires i < |r| && Recoded(r, i) && r[i] != 0
    ensures forall j :: 0 <= j < i && i - 4 <= j ==> r[j] == 0
  {
  }

  lemma WindowAdds(d: int, p: int, m: nat)
    requires -15 <= d <= 15
    requires p == 0 || (m >= 1 && -Pow2(m - 1) < p < Pow2(m - 1))
    ensures -Pow2(m + 4) < p + Pow2(m) * d < Pow2(m + 4)
  {
    hide Pow2;
    PowStep(m); PowStep(m + 1); PowStep(m + 2); PowStep(m + 3);
    if m >= 1 { PowStep(m - 1); }
    Scaled(Pow2(m), d);
  }

  lemma Scaled(q: int, d: int)
    requires q >= 0 && -15 <= d <= 15
    ensures -15 * q <= q * d <= 15 * q
  {
  }

  /** A recoded prefix whose digits from t on are zero is small. */
  lemma {:induction false} PrefixBound(r: seq<int>, i: nat, t: nat)
    requires t <= i <= |r| && Recoded(r, i)
    requires forall j :: t <= j < i ==> r[j] == 0
    ensures -Pow2(t + 3) < Sum(r[..i]) < Pow2(t + 3)
    ensures t == 0 ==> Sum(r[..i]) == 0
    decreases i, t
  {
    hide Pow2, Sum;
    if t == 0 {
      SumZero(r[..i]);
    } else if t < i {
      SumPrefix(r, i - 1);
      PrefixBound(r, i - 1, t);
    } else if r[i - 1] == 0 {
      PrefixBound(r, i, i - 1);
      PowStep(i + 2);
    } else {
      SumPrefix(r, i - 1);
      ZerosBelow(r, i - 1);
      PrefixBound(r, i - 1, if i < 5 then 0 else i - 5);
      assert Window(r, i - 1);
      WindowAdds(r[i - 1], Sum(r[..i - 1]), i - 1);
    }
  }

  /** The carry of the inner loop: a ripple of ones from position from on; it runs off when every digit there is one. */
  method Carry(r: array<i8>, from: nat) returns (ghost ranOff: bool)
    requires r.Length == DIGITS && from < DIGITS
    requires PlainFrom(r[..], from) && r[from] == 1
    modifies r
    ensures r[..from] == old(r[..from]) && r[from] == 0
    ensures PlainFrom(r[..], from)
    ensures ranOff ==> ZeroFrom(r[..], from)
    ensures Sum(r[..]) == old(Sum(r[..])) + Pow2(from) - (if ranOff then Pow2(DIGITS) else 0)
  {
    hide Sum, Pow2;
    var k := from;
    ranOff := true;
    while k < DIGITS
      invariant from <= k <= DIGITS
      invariant r[..from] == old(r[..from])
      invariant forall j :: from <= j < k ==> r[j] == 0
      invariant forall j :: k <= j < DIGITS ==> r[j] == old(r[j])
      invariant Sum(r[..]) == old(Sum(r[..])) + Pow2(from) - Pow2(k)
      invariant k > from || r[from] == 1
    {
      ghost var before := r[..];
      if r[k] == 0 {
        r[k] := 1;
        assert r[..] == before[k := 1];
        SumUpdate(before, k, 1);
        ranOff := false;
        break;
      }
      r[k] := 0;
      assert r[..] == before[k := 0];
      SumUpdate(before, k, 0);
      PowStep(k);
      k := k + 1;
    }
  }

  /** When everything above i is zero, the value is the prefix plus digit i. */
  lemma SumWithZeros(r: seq<int>, i: nat)
    requires i < |r| && ZeroFrom(r, i + 1)
    ensures Sum(r) == Sum(r[..i]) + Pow2(i) * r[i]
  {
    EvalSplit(r, i + 1, 2);
    SumZero(r[i + 1..]);
    SumPrefix(r, i);
  }

  /** A carry only runs off for scalars of at least 2^255. */
  lemma RunOff(r: seq<int>, i: nat, n: int)
    requires |r| == DIGITS && i + 4 < DIGITS && Recoded(r, i) && ZeroFrom(r, i + 1)
    requires forall j :: 0 <= j < i && i - 4 <= j ==> r[j] == 0
    requires r[i] >= -15 && Sum(r) == n - Pow2(DIGITS)
    ensures n >= Pow2(DIGITS - 1)
  {
    hide Sum, Pow2;
    SumWithZeros(r, i);
    PrefixBound(r, i, if i < 4 then 0 else i - 4);
    if i >= 4 { PowStep(i - 1); }
    assert Pow2(i) * r[i] >= Pow2(i) * -15;
    PowStep(i); PowStep(i + 1); PowStep(i + 2); PowStep(i + 3); PowStep(DIGITS - 1);
    PowMonotonic(i + 4, DIGITS - 1);
  }

  lemma {:induction false} PowMonotonic(j: nat, k: nat)
    requires j <= k
    ensures Pow2(j) <= Pow2(k)
  {
    if j < k {
      PowMonotonic(j, k - 1);
    }
  }

  /** Rewriting positions from i on keeps the windows below a nonzero digit i. */
  lemma KeepWindows(r: seq<int>, r': seq<int>, i: nat)
    requires |r| == |r'| && i < |r| && Recoded(r, i) && r[i] != 0 && r[..i] == r'[..i]
    ensures Recoded(r', i)
    ensures forall j :: 0 <= j < i && i - 4 <= j ==> r'[j] == 0
  {
    ZerosBelow(r, i);
    forall j | 0 <= j < i
      ensures r'[j] == 0 || Window(r', j)
    {
      assert r[j] == r[..i][j] == r'[..i][j] == r'[j];
      assert forall k :: 0 <= k < i ==> r'[k] == r'[..i][k] == r[..i][k] == r[k];
    }
  }

  /** What holds when the inner loop at i is about to look at position i + b; dropped says a carry has run off. */
  predicate Gathering(r: seq<int>, i: nat, b: nat, n: int, dropped: bool)
    requires |r| == DIGITS && 1 <= b && i + b <= DIGITS
  {
    && r[i] % 2 == 1 && -15 <= r[i] <= 15
    && (b <= 4 ==> !dropped && 1 <= r[i] < Pow2(b))
    && (forall k :: i < k < i + b ==> r[k] == 0)
    && PlainFrom(r, i + 1)
    && Sum(r) == n - (if dropped then Pow2(DIGITS) else 0)
    && (dropped ==> ZeroFrom(r, i + 1) && n >= Pow2(DIGITS - 1))
  }

  /** Moving bit i + b into digit i, by addition or against a carry, keeps the value. */
  lemma Moved(r: seq<int>, i: nat, b: nat)
    requires i < |r| && 1 <= b && i + b < |r| && r[i + b] == 1
    ensures Sum(r[i := r[i] + Pow2(b)][i + b := 0]) == Sum(r)
    ensures Sum(r[i := r[i] - Pow2(b)]) + Pow2(i + b) == Sum(r)
  {
    hide Sum, Pow2;
    var p := Pow2(b);
    SumUpdate(r, i, r[i] + p);
    SumUpdate(r[i := r[i] + p], i + b, 0);
    SumUpdate(r, i, r[i] - p);
    Pow2Add(i, b);
  }

  /** Taking the bit by subtraction: 2^b goes off digit i and a carry is sent up from i + b. */
  method Borrow(r: array<i8>, i: nat, b: nat, ghost start: seq<int>, ghost n: int) returns (ghost dropped: bool)
    requires r.Length == DIGITS && i + 4 < DIGITS && b == 4
    requires |start| == DIGITS && Recoded(start, i) && start[i] != 0 && r[..i] == start[..i]
    requires Gathering(r[..], i, b, n, false) && r[i + b] == 1
    modifies r
    ensures r[..i] == start[..i]
    ensures Gathering(r[..], i, b + 1, n, dropped)
  {
    hide Sum, Pow2, Recoded;
    SmallPowers();
    ghost var before := r[..];
    Moved(before, i, b);
    r[i] := r[i] - r[i + b] * Pow2(b);
    assert r[..] == before[i := before[i] - Pow2(b)];
    ghost var rest := r[..];
    dropped := Carry(r, i + b);
    assert forall k :: 0 <= k < i + b ==> r[k] == r[..i + b][k] == rest[..i + b][k] == rest[k];
    if dropped {
      KeepWindows(start, r[..], i);
      RunOff(r[..], i, n);
    }
  }

  /** Taking a set bit into the window, adding or subtracting it; go is false when it fits neither way. */
  method TakeBit(r: array<i8>, i: nat, b: nat, ghost start: seq<int>, ghost n: int, ghost dropped: bool)
      returns (go: bool, ghost dropped': bool)
    requires r.Length == DIGITS && 1 <= b <= 6 && i + b < DIGITS
    requires |start| == DIGITS && Recoded(start, i) && start[i] != 0 && r[..i] == start[..i]
    requires Gathering(r[..], i, b, n, dropped) && r[i + b] != 0
    modifies r
    ensures r[..i] == start[..i]
    ensures go ==> Gathering(r[..], i, b + 1, n, dropped')
    ensures !go ==> b >= 5 && dropped' == dropped && r[..] == old(r[..])
  {
    hide Sum, Pow2, Recoded;
    SmallPowers();
    ghost var before := r[..];
    go, dropped' := true, dropped;
    var shifted := r[i + b] * Pow2(b);
    if r[i] + shifted <= 15 {
      Moved(before, i, b);
      r[i] := r[i] + shifted;
      r[i + b] := 0;
      assert r[..] == before[i := before[i] + Pow2(b)][i + b := 0];
    } else if r[i] - shifted >= -15 {
      dropped' := Borrow(r, i, b, start, n);
    } else {
      go := false;
    }
  }

  /** The inner loop at a set bit i: gathers the bits of the window into digit i. */
  method Gather(r: array<i8>, i: nat, ghost n: int) returns (ghost dropped: bool)
    requires r.Length == DIGITS && i < DIGITS
    requires Recoded(r[..], i) && PlainFrom(r[..], i) && r[i] == 1
    requires Sum(r[..]) == n
    modifies r
    ensures Recoded(r[..], i + 1) && PlainFrom(r[..], i + 1)
    ensures Sum(r[..]) == n - (if dropped then Pow2(DIGITS) else 0)
    ensures dropped ==> ZeroFrom(r[..], i + 1) && n >= Pow2(DIGITS - 1)
    ensures r[..i] == old(r[..i]) && r[i] % 2 == 1
    ensures i >= 252 ==> 0 <= r[i] < Pow2(DIGITS - i)
  {
    hide Sum, Pow2, Recoded;
    SmallPowers();
    ghost var start := r[..];
    dropped := false;
    var b := 1;
    while b <= 6 && i + b < DIGITS
      invariant 1 <= b <= 7 && i + b <= DIGITS
      invariant r[..i] == start[..i]
      invariant Gathering(r[..], i, b, n, dropped)
    {
      if r[i + b] != 0 {
        var go;
        go, dropped := TakeBit(r, i, b, start, n, dropped);
        if !go { break; }
      }
      b := b + 1;
    }
    KeepWindows(start, r[..], i);
    WindowMade(r[..], i);
  }

  lemma WindowMade(r: seq<int>, i: nat)
    requires i < |r| && Recoded(r, i)
    requires r[i] % 2 == 1 && -15 <= r[i] <= 15
    requires forall k :: i < k < |r| && k < i + 5 ==> r[k] == 0
    ensures Recoded(r, i + 1)
  {
    assert Window(r, i);
  }

  /** The bits of the scalar, one per position. */
  method FillBits(r: array<i8>, a: array<byte>)
    requires r.Length == DIGITS && a.Length == 32
    modifies r
    ensures PlainFrom(r[..], 0) && old(LE(a[..])) >= 0 && Sum(r[..]) == old(LE(a[..]))
  {
    hide LE, Sum, Pow2;
    ghost var s := a[..];
    LEBound(s);
    var i := 0;
    while i < DIGITS
      invariant 0 <= i <= DIGITS
      invariant a[..] == s
      invariant forall j :: 0 <= j < i ==> r[j] == LE(s) / Pow2(j) % 2
    {
      BitOfByte(s, i);
      r[i] := a[i / 8] / Pow2(i % 8) % 2;
      i := i + 1;
    }
    BitsRead(r[..], LE(s));
  }

  lemma BitIs(n: nat, j: nat)
    ensures Digit(n, 2, j) == n / Pow2(j) % 2
  {
    hide Pow2, Digit, Weight;
    BinaryWeight(j);
    DigitIs(n, 2, j);
  }

  lemma BitsRead(r: seq<int>, n: nat)
    requires |r| == DIGITS && n < Pow2(DIGITS)
    requires forall j :: 0 <= j < |r| ==> r[j] == n / Pow2(j) % 2
    ensures Sum(r) == n
  {
    hide Pow2, Digit, Weight, Eval;
    forall j | 0 <= j < |r|
      ensures r[j] == Digit(n, 2, j)
    {
      BitIs(n, j);
    }
    EvalDigits(r, n, 2);
    BinaryWeight(DIGITS);
  }

  /** The largest values such a digit string can have stay below 2^256 - 2^251. */
  lemma {:induction false} TopBound(r: seq<int>, i: nat)
    requires i <= |r| == DIGITS && Naf5(r) && Fits(r, DIGITS) && ZeroFrom(r, i)
    ensures Sum(r) < Pow2(DIGITS) - Pow2(251)
  {
    hide Sum, Pow2, Recoded, Fits;
    PowStep(251); PowStep(252); PowStep(253); PowStep(254); PowStep(255);
    if i == 0 {
      SumZero(r);
    } else if r[i - 1] == 0 {
      TopBound(r, i - 1);
    } else {
      var m := i - 1;
      SumWithZeros(r, m);
      RecodedPrefix(r, m);
      PrefixBound(r, m, if m < 4 then 0 else m - 4);
      if m >= 4 { PowStep(m - 1); }
      SmallPowers();
      if m < 252 {
        Scaled(Pow2(m), r[m]);
        PowMonotonic(m, 251);
      } else {
        FitsAt(r, m);
      }
    }
  }

  lemma RecodedPrefix(r: seq<int>, m: nat)
    requires m < |r| && Naf5(r) && r[m] != 0
    ensures Recoded(r, m) && -15 <= r[m] <= 15
    ensures forall j :: 0 <= j < m && m - 4 <= j ==> r[j] == 0
  {
    assert Window(r, m);
    ZerosBelow(r, m);
  }

  lemma FitsAt(r: seq<int>, m: nat)
    requires |r| == DIGITS && Fits(r, DIGITS) && 252 <= m < DIGITS
    ensures Pow2(m) * r[m] <= Pow2(DIGITS) - Pow2(m)
  {
    hide Pow2;
    Pow2Add(m, DIGITS - m);
    ScaledBelow(Pow2(m), r[m], Pow2(DIGITS - m));
  }

  lemma ScaledBelow(p: int, x: int, y: int)
    requires p > 0 && x < y
    ensures p * x <= p * y - p
  {
    assert p * x <= p * (y - 1);
  }

  // ---- Which scalars lose 2^256 ----

  /** The odd digit of a window: the five lowest bits, moved into -15..15. */
  function WindowDigit(m: int): int
  {
    if m % 32 < 16 then m % 32 else m % 32 - 32
  }

  /** The recoding of the k-bit number m ends in a carry out of its top bit. */
  predicate Overflows(m: int, k: nat)
    decreases k
  {
    if k < 5 || m <= 0 then false
    else if m % 2 == 0 then Overflows(m / 2, k - 1)
    else var rest := (m - WindowDigit(m)) / 32; rest == Pow2(k - 5) || Overflows(rest, k - 5)
  }

  lemma OverflowsEven(m: nat, k: nat)
    requires k >= 1
    ensures Overflows(2 * m, k) <==> Overflows(m, k - 1)
  {
    hide Pow2;
  }

  lemma {:induction false} OverflowsShifted(m: nat, j: nat, k: nat)
    ensures Pow2(j) * m >= 0 && (Overflows(Pow2(j) * m, k + j) <==> Overflows(m, k))
  {
    hide Pow2, Overflows;
    if j == 0 {
      PowZero();
    } else {
      OverflowsShifted(m, j - 1, k);
      PowStep(j - 1);
      assert Pow2(j) * m == 2 * (Pow2(j - 1) * m);
      OverflowsEven(Pow2(j - 1) * m, k + j);
    }
  }

  /** A scalar that loses 2^256: 17 * 2^251, whose five top bits ask for the digit -15 and a carry. */
  lemma LosesTopBit()
    ensures Overflows(Pow2(255) + Pow2(251), DIGITS)
  {
    hide Pow2, Overflows;
    SeventeenOverflows();
    OverflowsShifted(17, 251, 5);
    Pow2Add(251, 4);
    SmallPowers();
  }

  lemma SeventeenOverflows()
    ensures Overflows(17, 5)
  {
    PowZero();
  }

  lemma OverflowsSixteen(m: nat, k: nat)
    requires k >= 4
    ensures Overflows(16 * m, k) <==> Overflows(m, k - 4)
  {
    hide Pow2, Overflows;
    OverflowsEven(8 * m, k);
    OverflowsEven(4 * m, k - 1);
    OverflowsEven(2 * m, k - 2);
    OverflowsEven(m, k - 3);
  }

  /** Plain bits from position i on. */
  lemma {:induction false} PlainValue(r: seq<int>, i: nat)
    requires i <= |r| && PlainFrom(r, i)
    ensures 0 <= Sum(r[i..]) < Pow2(|r| - i)
  {
    EvalBound(r[i..], 2);
    BinaryWeight(|r| - i);
  }

  lemma TailStep(r: seq<int>, i: nat)
    requires i < |r|
    ensures Sum(r[i..]) == r[i] + 2 * Sum(r[i + 1..])
  {
    var t := r[i..];
    assert t[1..] == r[i + 1..];
    assert Eval(t, 2) == t[0] + 2 * Eval(t[1..], 2);
  }

  lemma TailAfterWindow(r: seq<int>, i: nat)
    requires i + 5 <= |r| && Window(r, i)
    ensures Sum(r[i + 1..]) == 16 * Sum(r[i + 5..])
  {
    hide Sum;
    TailStep(r, i + 1);
    TailStep(r, i + 2);
    TailStep(r, i + 3);
    TailStep(r, i + 4);
  }

  /** A window decides by arithmetic alone: its digit is fixed by the five lowest bits of what is left. */
  lemma WindowDecides(m: nat, k: nat, d: int, q: int, dropped: bool)
    requires k >= 5 && m < Pow2(k) && m % 2 == 1
    requires d % 2 == 1 && -15 <= d <= 15 && 0 <= q < Pow2(k - 5) && (dropped ==> q == 0)
    requires d + 32 * q == m - if dropped then Pow2(k) else 0
    ensures Overflows(m, k) <==> dropped || Overflows(q, k - 5)
  {
    hide Pow2;
    Pow2Add(5, k - 5);
    SmallPowers();
    var e := if dropped then Pow2(k - 5) else 0;
    assert m == d + 32 * (q + e);
    DivModUnique(m, 32, if d >= 0 then q + e else q + e - 1, if d >= 0 then d else d + 32);
    assert WindowDigit(m) == d;
    assert (m - d) / 32 == q + e;
  }

  /** Recoding the window at position i decides part of the question and leaves the rest to the bits after it. */
  lemma GatherDecides(before: seq<int>, r: seq<int>, i: nat, dropped: bool)
    requires |before| == |r| == DIGITS && i < DIGITS && PlainFrom(before, i) && before[i] == 1
    requires PlainFrom(r, i + 1) && Window(r, i) && (dropped ==> ZeroFrom(r, i + 1)) && (i >= 252 ==> 0 <= r[i])
    requires Sum(r[i..]) == Sum(before[i..]) - if dropped then Pow2(DIGITS - i) else 0
    ensures Overflows(Sum(before[i..]), DIGITS - i) <==> dropped || Overflows(Sum(r[i + 1..]), DIGITS - i - 1)
  {
    hide Sum, Pow2, Overflows, Window, PlainFrom, ZeroFrom;
    PlainValue(before, i);
    PlainValue(r, i + 1);
    TailStep(r, i);
    if i < 252 {
      TailStep(before, i);
      FullWindow(Sum(before[i..]), r, i, dropped);
    } else {
      FewBits(Sum(before[i..]), DIGITS - i);
      FewBits(Sum(r[i + 1..]), DIGITS - i - 1);
    }
  }

  lemma FullWindow(m: nat, r: seq<int>, i: nat, dropped: bool)
    requires |r| == DIGITS && i < 252 && m % 2 == 1 && m < Pow2(DIGITS - i)
    requires PlainFrom(r, i + 1) && Window(r, i) && (dropped ==> ZeroFrom(r, i + 1))
    requires r[i] + 2 * Sum(r[i + 1..]) == m - if dropped then Pow2(DIGITS - i) else 0
    ensures Overflows(m, DIGITS - i) <==> dropped || Overflows(Sum(r[i + 1..]), DIGITS - i - 1)
  {
    hide Sum, Pow2, Overflows;
    var q := Sum(r[i + 5..]);
    TailAfterWindow(r, i);
    PlainValue(r, i + 5);
    if dropped {
      SumZero(r[i + 5..]);
    }
    WindowDecides(m, DIGITS - i, r[i], q, dropped);
    OverflowsSixteen(q, DIGITS - i - 1);
  }

  lemma FewBits(m: int, k: nat)
    requires k < 5
    ensures !Overflows(m, k)
  {
  }

  /** The same for a position that holds a zero. */
  lemma ZeroDecides(r: seq<int>, i: nat)
    requires |r| == DIGITS && i < DIGITS && PlainFrom(r, i) && r[i] == 0
    ensures Overflows(Sum(r[i..]), DIGITS - i) <==> Overflows(Sum(r[i + 1..]), DIGITS - i - 1)
  {
    hide Sum, Pow2, Overflows;
    PlainValue(r, i + 1);
    TailStep(r, i);
    OverflowsEven(Sum(r[i + 1..]), DIGITS - i);
  }

  /** The tails of two strings that agree below position i differ as the strings do. */
  lemma TailDifference(before: seq<int>, r: seq<int>, i: nat, dropped: bool)
    requires |before| == |r| == DIGITS && i <= DIGITS && before[..i] == r[..i]
    requires Sum(r) == Sum(before) - if dropped then Pow2(DIGITS) else 0
    ensures Sum(r[i..]) == Sum(before[i..]) - if dropped then Pow2(DIGITS - i) else 0
  {
    hide Pow2, Eval;
    EvalSplit(r, i, 2);
    EvalSplit(before, i, 2);
    BinaryWeight(i);
    Pow2Add(i, DIGITS - i);
    var e := if dropped then Pow2(DIGITS - i) else 0;
    CancelFactor(Pow2(i), Sum(r[i..]), Sum(before[i..]) - e, Sum(before[i..]), e);
  }

  lemma CancelFactor(p: int, x: int, y: int, z: int, e: int)
    requires p > 0 && y == z - e && p * x == p * z - p * e
    ensures x == y
  {
    assert p * (x - y) == 0;
  }

  lemma AllTail(r: seq<int>)
    ensures r[0..] == r && r[|r|..] == [] && Sum([]) == 0
  {
  }

  /** Exactly the scalars for which Overflows holds lose 2^256: none below 2^255, all from 2^256 - 2^251 on. */
  method Slide(r: array<i8>, a: array<byte>)
    requires r.Length == DIGITS && a.Length == 32
    modifies r
    ensures Naf5(r[..])
    ensures Sum(r[..]) == old(LE(a[..])) - if Overflows(old(LE(a[..])), DIGITS) then Pow2(DIGITS) else 0
    ensures Overflows(old(LE(a[..])), DIGITS) ==> old(LE(a[..])) >= Pow2(DIGITS - 1)
    ensures old(LE(a[..])) >= Pow2(DIGITS) - Pow2(251) ==> Overflows(old(LE(a[..])), DIGITS)
  {
    hide LE, Sum, Pow2, Recoded, Fits, Overflows;
    ghost var n := LE(a[..]);
    FillBits(r, a);
    ghost var dropped := false;
    Start(r[..]);
    AllTail(r[..]);
    var i := 0;
    while i < DIGITS
      invariant 0 <= i <= DIGITS
      invariant Recoded(r[..], i) && PlainFrom(r[..], i) && Fits(r[..], i)
      invariant Sum(r[..]) == n - (if dropped then Pow2(DIGITS) else 0)
      invariant dropped ==> ZeroFrom(r[..], i) && n >= Pow2(DIGITS - 1)
      invariant Overflows(n, DIGITS) <==> dropped || Overflows(Sum(r[i..]), DIGITS - i)
    {
      dropped := Position(r, i, n, dropped);
      i := i + 1;
    }
    FewBits(Sum(r[DIGITS..]), 0);
    TopBound(r[..], DIGITS);
  }

  /** The work at position i. */
  method Position(r: array<i8>, i: nat, ghost n: int, ghost dropped: bool) returns (ghost dropped': bool)
    requires r.Length == DIGITS && i < DIGITS && Recoded(r[..], i) && PlainFrom(r[..], i) && Fits(r[..], i)
    requires Sum(r[..]) == n - (if dropped then Pow2(DIGITS) else 0)
    requires dropped ==> ZeroFrom(r[..], i) && n >= Pow2(DIGITS - 1)
    modifies r
    ensures Recoded(r[..], i + 1) && PlainFrom(r[..], i + 1) && Fits(r[..], i + 1)
    ensures Sum(r[..]) == n - (if dropped' then Pow2(DIGITS) else 0)
    ensures dropped' ==> ZeroFrom(r[..], i + 1) && n >= Pow2(DIGITS - 1)
    ensures dropped || old(Overflows(Sum(r[i..]), DIGITS - i)) <==>
            dropped' || Overflows(Sum(r[i + 1..]), DIGITS - i - 1)
  {
    hide Sum, Pow2, Recoded, Fits, Overflows;
    ghost var before := r[..];
    assert before[i..] == r[i..];
    dropped' := dropped;
    if r[i] != 0 {
      dropped' := Gather(r, i, n);
      TailDifference(before, r[..], i, dropped');
      DigitMade(r[..], i);
      GatherDecides(before, r[..], i, dropped');
      assert r[i + 1..] == r[..][i + 1..];
    } else {
      SkipZero(r[..], i);
      ZeroDecides(r[..], i);
      assert r[i + 1..] == r[..][i + 1..];
    }
    FitsStep(before, r[..], i);
  }

  /** A digit that was a set bit is a window. */
  lemma DigitMade(r: seq<int>, i: nat)
    requires i < |r| && Recoded(r, i + 1)
    ensures r[i] == 0 || Window(r, i)
  {
  }

  lemma FitsStep(before: seq<int>, r: seq<int>, i: nat)
    requires |before| == |r| == DIGITS && i < DIGITS && Fits(before, i) && r[..i] == before[..i]
    requires i >= 252 ==> 0 <= r[i] < Pow2(DIGITS - i)
    ensures Fits(r, i + 1)
  {
    assert forall j :: 0 <= j < i ==> r[j] == r[..i][j] == before[..i][j] == before[j];
  }

  lemma Start(r: seq<int>)
    ensures Recoded(r, 0)
    ensures |r| == DIGITS ==> Fits(r, 0)
  {
  }

  lemma SkipZero(r: seq<int>, i: nat)
    requires i < |r| && Recoded(r, i) && r[i] == 0
    ensures Recoded(r, i + 1)
  {
  }
}
