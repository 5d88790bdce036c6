/** Digit strings in any base, least significant digit first, digits of either sign. */
module Radix {
  import opened Bits

  /** The integer a digit string stands for in base b. */
  function Eval(r: seq<int>, b: nat): int
  {
    if |r| == 0 then 0 else r[0] + b * Eval(r[1..], b)
  }

  /** The weight of position k. */
  function Weight(b: nat, k: nat): nat
  {
    if k == 0 then 1 else b * Weight(b, k - 1)
  }

  lemma {:induction false} WeightAdd(b: nat, j: nat, k: nat)
    ensures Weight(b, j + k) == Weight(b, j) * Weight(b, k)
  {
    if j == 0 {
    } else {
      WeightAdd(b, j - 1, k);
      assert Weight(b, j + k) == b * Weight(b, (j - 1) + k);
      MulAssoc(b, Weight(b, j - 1), Weight(b, k));
    }
  }

  lemma {:induction false} WeightPositive(b: nat, k: nat)
    requires b > 0
    ensures Weight(b, k) > 0
  {
    if k == 0 {
    } else {
      WeightPositive(b, k - 1);
    }
  }

  /** In a base that is a power of two the weights are powers of two. */
  lemma {:induction false} WeightIsPow2(w: nat, k: nat)
    ensures Weight(Pow2(w), k) == Pow2(w * k)
  {
    if k == 0 {
      assert w * k == 0;
    } else {
      WeightIsPow2(w, k - 1);
      assert w * k == w + w * (k - 1);
      Pow2Add(w, w * (k - 1));
    }
  }

  lemma {:induction false} BinaryWeight(k: nat)
    ensures Weight(2, k) == Pow2(k)
  {
    if k == 0 {
    } else {
      BinaryWeight(k - 1);
    }
  }

  lemma MulAssoc(a: int, b: int, c: int)
    ensures (a * b) * c == a * (b * c)
  {
  }

  lemma Distribute(b: int, x: int, y: int, z: int)
    ensures b * (x + y * z) == b * x + (b * y) * z
  {
    MulAssoc(b, y, z);
  }

  lemma {:induction false} EvalAppend(r: seq<int>, t: seq<int>, b: nat)
    ensures Eval(r + t, b) == Eval(r, b) + Weight(b, |r|) * Eval(t, b)
  {
    if |r| == 0 {
      assert r + t == t;
    } else {
      EvalAppend(r[1..], t, b);
      assert (r + t)[1..] == r[1..] + t;
      Distribute(b, Eval(r[1..], b), Weight(b, |r| - 1), Eval(t, b));
    }
  }

  lemma {:induction false} EvalSplit(r: seq<int>, k: nat, b: nat)
    requires k <= |r|
    ensures Eval(r, b) == Eval(r[..k], b) + Weight(b, k) * Eval(r[k..], b)
  {
    assert r == r[..k] + r[k..];
    EvalAppend(r[..k], r[k..], b);
  }

  /** Changing one digit changes the value by the difference times its weight. */
  lemma {:induction false} EvalUpdate(r: seq<int>, i: nat, v: int, b: nat)
    requires i < |r|
    ensures Eval(r[i := v], b) == Eval(r, b) + Weight(b, i) * (v - r[i])
  {
    if i == 0 {
      assert r[0 := v][1..] == r[1..];
    } else {
      EvalUpdate(r[1..], i - 1, v, b);
      assert r[i := v][1..] == r[1..][i - 1 := v];
      Distribute(b, Eval(r[1..], b), Weight(b, i - 1), v - r[i]);
    }
  }

  /** Digits of a natural number in the usual range. */
  predicate Reduced(r: seq<int>, b: nat)
  {
    forall i :: 0 <= i < |r| ==> 0 <= r[i] < b
  }

  lemma {:induction false} EvalBound(r: seq<int>, b: nat)
    requires Reduced(r, b)
    ensures 0 <= Eval(r, b) < Weight(b, |r|)
  {
    if |r| == 0 {
    } else {
      EvalBound(r[1..], b);
      Pack(r[0], Eval(r[1..], b), b, Weight(b, |r| - 1));
    }
  }

  lemma Pack(low: int, high: int, a: int, b: int)
    requires 0 <= low < a && 0 <= high < b
    ensures 0 <= low + a * high < a * b
  {
    assert a * high <= a * (b - 1);
  }

  /** Digit i of n. */
  function Digit(n: nat, b: nat, i: nat): nat
    requires b > 0
  {
    WeightPositive(b, i);
    n / Weight(b, i) % b
  }

  lemma DigitIs(n: nat, b: nat, i: nat)
    requires b > 0
    ensures Weight(b, i) > 0 && Digit(n, b, i) == n / Weight(b, i) % b
  {
    WeightPositive(b, i);
  }

  lemma NextDigit(n: nat, b: nat, i: nat)
    requires b > 0
    ensures Digit(n, b, i + 1) == Digit(n / b, b, i) && Digit(n, b, 0) == n % b
  {
    WeightPositive(b, i);
    DivTwice(n, b, Weight(b, i));
  }

  /** Writing out digits of n and reading them back. */
  lemma {:induction false} EvalDigits(r: seq<int>, n: nat, b: nat)
    requires b > 0 && forall i :: 0 <= i < |r| ==> r[i] == Digit(n, b, i)
    ensures Weight(b, |r|) > 0 && Eval(r, b) == n % Weight(b, |r|)
  {
    hide Digit;
    WeightPositive(b, |r|);
    if |r| == 0 {
    } else {
      forall i | 0 <= i < |r| - 1
        ensures r[1..][i] == Digit(n / b, b, i)
      {
        NextDigit(n, b, i);
      }
      EvalDigits(r[1..], n / b, b);
      NextDigit(n, b, 0);
      ModSplit(n, b, Weight(b, |r| - 1));
    }
  }

  /** The digits of a reduced string are the digits of its value. */
  lemma {:induction false} DigitOfEval(r: seq<int>, b: nat, i: nat)
    requires b > 0 && Reduced(r, b) && i < |r|
    ensures Eval(r, b) >= 0 && Digit(Eval(r, b), b, i) == r[i]
  {
    hide Digit;
    EvalBound(r, b);
    EvalBound(r[1..], b);
    DivModUnique(Eval(r, b), b, Eval(r[1..], b), r[0]);
    if i == 0 {
      NextDigit(Eval(r, b), b, 0);
    } else {
      DigitOfEval(r[1..], b, i - 1);
      NextDigit(Eval(r, b), b, i - 1);
    }
  }

  lemma DivTwice(v: nat, a: nat, b: nat)
    requires a > 0 && b > 0
    ensures a * b > 0 && v / (a * b) == (v / a) / b
  {
    var q, r := (v / a) / b, (v / a) % b;
    assert v == (a * b) * q + (a * r + v % a);
    assert a * r <= a * (b - 1);
    DivModUnique(v, a * b, q, a * r + v % a);
  }

  lemma ModSplit(v: nat, a: nat, b: nat)
    requires a > 0 && b > 0
    ensures a * b > 0 && v % (a * b) == v % a + a * ((v / a) % b)
  {
    var q, r := (v / a) / b, (v / a) % b;
    assert v == (a * b) * q + (a * r + v % a);
    assert a * r <= a * (b - 1);
    DivModUnique(v, a * b, q, a * r + v % a);
  }
}
