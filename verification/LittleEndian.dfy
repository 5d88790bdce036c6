/** Little-endian byte strings and the integers they stand for. */
module LittleEndian {
  import opened MachineInts
  import opened Bits
  import opened Radix

  /** The integer a little-endian byte string stands for. */
  function LE(s: seq<int>): int
  {
    Eval(s, 256)
  }

  predicate IsBytes(s: seq<int>)
  {
    Reduced(s, 256)
  }

  lemma {:induction false} ByteWeight(k: nat)
    ensures Weight(256, k) == Pow2(8 * k)
  {
    Pow2Of64();
    WeightIsPow2(8, k);
  }

  lemma LENonNegative(s: seq<int>)
    requires IsBytes(s)
    ensures LE(s) >= 0
  {
    EvalBound(s, 256);
  }

  lemma LEBound(s: seq<int>)
    requires IsBytes(s)
    ensures 0 <= LE(s) < Pow2(8 * |s|)
  {
    EvalBound(s, 256);
    ByteWeight(|s|);
  }

  lemma LEAppend(s: seq<int>, t: seq<int>)
    ensures LE(s + t) == LE(s) + Pow2(8 * |s|) * LE(t)
  {
    EvalAppend(s, t, 256);
    ByteWeight(|s|);
  }

  lemma LEOne(b: int)
    ensures LE([b]) == b
  {
    var t := [b];
    assert t[1..] == [] && Eval(t[1..], 256) == 0;
    assert Eval(t, 256) == t[0] + 256 * Eval(t[1..], 256);
  }

  /** Splitting at two points, with the weight given as a number. */
  lemma LEPiece(s: seq<int>, lo: nat, hi: nat, weight: int)
    requires lo <= hi <= |s|
    requires weight == Pow2(8 * (hi - lo))
    ensures LE(s[lo..]) == LE(s[lo..hi]) + weight * LE(s[hi..])
  {
    assert s[lo..] == s[lo..hi] + s[hi..];
    LEAppend(s[lo..hi], s[hi..]);
  }

  /** A load of n bytes as the source spells it: each byte shifted and or-ed in. */
  function Load(s: seq<byte>, n: nat): nat
    requires n <= |s|
  {
    if n == 0 then 0 else Or(Load(s, n - 1), s[n - 1] * Pow2(8 * (n - 1)))
  }

  lemma {:induction false} LoadIsLE(s: seq<byte>, n: nat)
    requires n <= |s|
    ensures Load(s, n) == LE(s[..n])
  {
    hide Or, Pow2;
    if n == 0 {
    } else {
      LoadIsLE(s, n - 1);
      var low: seq<int>, top := s[..n - 1], s[n - 1];
      LEBound(low);
      OrDisjoint(LE(low), top, 8 * (n - 1));
      assert s[..n] == low + [top];
      LEAppend(low, [top]);
      LEOne(top);
    }
  }

  /** s holds successive bytes of v, as a run of shifts and casts writes them. */
  predicate BytesOf(s: seq<int>, v: nat)
  {
    forall i :: 0 <= i < |s| ==> s[i] == v / Pow2(8 * i) % 256
  }

  lemma {:induction false} BytesOfValue(s: seq<int>, v: nat)
    requires BytesOf(s, v)
    ensures LE(s) == v % Pow2(8 * |s|)
  {
    hide Pow2;
    forall i | 0 <= i < |s|
      ensures s[i] == Digit(v, 256, i)
    {
      ByteWeight(i);
    }
    EvalDigits(s, v, 256);
    ByteWeight(|s|);
  }

  /** Bit pos of the integer is bit pos % 8 of byte pos / 8. */
  lemma {:induction false} BitOfByte(s: seq<int>, pos: nat)
    requires IsBytes(s) && pos < 8 * |s|
    ensures LE(s) >= 0 && s[pos / 8] / Pow2(pos % 8) % 2 == LE(s) / Pow2(pos) % 2
  {
    hide Pow2, Digit;
    var n, i, j := LE(s), pos / 8, pos % 8;
    LENonNegative(s);
    DigitOfEval(s, 256, i);
    ByteWeight(i);
    Pow2Add(8 * i, j);
    DivTwice(n, Pow2(8 * i), Pow2(j));
    Pow2At8(j);
    DigitIs(n, 256, i);
    LowBit(n / Pow2(8 * i), Pow2(j), Pow2(7 - j));
  }

  lemma LowBit(m: nat, p: nat, q: nat)
    requires p > 0 && p * (2 * q) == 256
    ensures m % 256 / p % 2 == m / p % 2
  {
    var low, high := m % 256, m / 256;
    assert 256 * high == p * (2 * (q * high)) by { MulAssoc(p, 2 * q, high); MulAssoc(2, q, high); }
    DivModUnique(m, p, low / p + 2 * (q * high), low % p);
  }

  lemma Pow2At8(j: nat)
    requires j < 8
    ensures Pow2(j) * (2 * Pow2(7 - j)) == 256
  {
    Pow2Of64();
    Pow2Add(j, 8 - j);
  }

  /** A byte string is determined by its length and the integer it stands for. */
  lemma {:induction false} LEInjective(s: seq<int>, t: seq<int>)
    requires IsBytes(s) && IsBytes(t) && |s| == |t| && LE(s) == LE(t)
    ensures s == t
  {
    forall i | 0 <= i < |s|
      ensures s[i] == t[i]
    {
      DigitOfEval(s, 256, i);
      DigitOfEval(t, 256, i);
    }
  }

  lemma ThreeSlices(s: seq<int>, a: nat, n: nat)
    requires IsBytes(s) && a + n <= |s|
    ensures s == s[..a] + (s[a..a + n] + s[a + n..])
    ensures IsBytes(s[..a]) && IsBytes(s[a..a + n]) && IsBytes(s[a + n..])
    ensures |s[..a]| == a && |s[a..a + n]| == n
  {
  }

  /** A run of n bytes at offset a is the middle part of the integer. */
  lemma {:induction false} LESlice(s: seq<int>, a: nat, n: nat)
    requires IsBytes(s) && a + n <= |s|
    ensures LE(s) >= 0 && LE(s[a..a + n]) == LE(s) / Pow2(8 * a) % Pow2(8 * n)
  {
    hide LE, Pow2, IsBytes;
    var low, mid, high := s[..a], s[a..a + n], s[a + n..];
    ThreeSlices(s, a, n);
    LEAppend(low, mid + high);
    LEAppend(mid, high);
    LEBound(low);
    LEBound(mid);
    LENonNegative(high);
    LENonNegative(s);
    Middle(LE(s), LE(low), LE(mid), LE(high), LE(mid + high), Pow2(8 * a), Pow2(8 * n));
  }

  lemma Middle(v: nat, low: nat, mid: nat, high: nat, upper: int, p: nat, q: nat)
    requires low < p && mid < q && v == low + p * upper && upper == mid + q * high
    ensures v / p % q == mid
  {
    DivModUnique(v, p, upper, low);
    DivModUnique(upper, q, high, mid);
  }

  /** Truncating to more bits than are looked at changes nothing. */
  lemma MidBits(x: nat, r: nat, t: nat, k: nat)
    requires r > 0 && t > 0 && k > 0
    ensures r * (t * k) > 0 && x % (r * (t * k)) / r % t == x / r % t
  {
    ModSplit(x, r, t * k);
    ModSplit(x / r, t, k);
    DivModUnique(x % (r * (t * k)), r, x / r % (t * k), x % r);
    DivModUnique(x / r % (t * k), t, x / r / t % k, x / r % t);
  }
}
