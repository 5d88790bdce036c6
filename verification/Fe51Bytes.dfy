/** Conversion between 32-byte strings and radix-2^51 elements. */
module Fe51Bytes {
  import opened MachineInts
  import opened Bits
  import opened Radix
  import opened LittleEndian
  import opened Field25519
  import opened Fe51

  lemma {:induction false} Powers()
    ensures Pow2(8) == 0x100 && Pow2(16) == 0x1_0000 && Pow2(24) == 0x100_0000 && Pow2(32) == 0x1_0000_0000
    ensures Pow2(40) == 0x100_0000_0000 && Pow2(48) == 0x1_0000_0000_0000 && Pow2(56) == 0x100_0000_0000_0000
  {
    Pow2Of64();
    Pow2At(8, 16, 0x100, 0x1_0000);
    Pow2At(8, 32, 0x100, 0x1_0000_0000);
    Pow2At(8, 40, 0x100, 0x100_0000_0000);
    Pow2At(8, 48, 0x100, 0x1_0000_0000_0000);
  }

  /** The five loads cover the 32 bytes at bit offsets 0, 56, 104, 160 and 208. */
  lemma {:induction false} FiveLoads(s: seq<byte>)
    requires |s| == 32
    ensures LoadRanges(Load(s, 7), Load(s[7..], 6), Load(s[13..], 7), Load(s[20..], 6), Load(s[26..], 6))
    ensures LE(s) == Joined(Load(s, 7), Load(s[7..], 6), Load(s[13..], 7), Load(s[20..], 6), Load(s[26..], 6))
  {
    hide Load, Pow2, LE;
    Powers();
    LoadIsLE(s, 7);
    LoadIsLE(s[7..], 6);
    LoadIsLE(s[13..], 7);
    LoadIsLE(s[20..], 6);
    LoadIsLE(s[26..], 6);
    assert s[0..] == s && s[7..][..6] == s[7..13] && s[13..][..7] == s[13..20];
    assert s[20..][..6] == s[20..26] && s[26..][..6] == s[26..];
    LEPiece(s, 0, 7, 0x100_0000_0000_0000);
    LEPiece(s, 7, 13, 0x1_0000_0000_0000);
    LEPiece(s, 13, 20, 0x100_0000_0000_0000);
    LEPiece(s, 20, 26, 0x1_0000_0000_0000);
    LEBound(s[..7]); LEBound(s[7..13]); LEBound(s[13..20]); LEBound(s[20..26]); LEBound(s[26..]);
  }

  /** Redistributing 56, 48, 56, 48 and 48 bits into limbs: one carry and one limb at a time. */
  function Spread(a0: int, a1: int, a2: int, a3: int, a4: int): (h: seq<int>)
    ensures |h| == 5
  {
    var c1 := Hi(a0) + a1 * 0x20;
    var c2 := Hi(c1) + a2 * 4;
    var c3 := Hi(c2) + a3 * 0x80;
    [Lo(a0), Lo(c1), Lo(c2), Lo(c3), Hi(c3) + a4 % 0x8000_0000_0000 * 0x10]
  }

  /** The integer made of the five loads. */
  function Joined(a0: int, a1: int, a2: int, a3: int, a4: int): int
  {
    a0 + 0x100_0000_0000_0000 * (a1 + 0x1_0000_0000_0000 * (a2 + 0x100_0000_0000_0000 * (a3 + 0x1_0000_0000_0000 * a4)))
  }

  predicate LoadRanges(a0: int, a1: int, a2: int, a3: int, a4: int)
  {
    && 0 <= a0 < 0x100_0000_0000_0000 && 0 <= a1 < 0x1_0000_0000_0000 && 0 <= a2 < 0x100_0000_0000_0000
    && 0 <= a3 < 0x1_0000_0000_0000 && 0 <= a4 < 0x1_0000_0000_0000
  }

  lemma SpreadBounds(a0: int, a1: int, a2: int, a3: int, a4: int)
    requires LoadRanges(a0, a1, a2, a3, a4)
    ensures Below(Spread(a0, a1, a2, a3, a4), T51)
  {
  }

  lemma SpreadSum(a0: int, a1: int, a2: int, a3: int, a4: int)
    ensures Joined(a0, a1, a2, a3, a4) == T255 * (a4 / 0x8000_0000_0000) + Val(Spread(a0, a1, a2, a3, a4))
  {
  }

  lemma LimbsBelow(h: seq<int>)
    requires Below(h, T51)
    ensures 0 <= Val(h) < T255
  {
  }

  lemma SpreadValue(a0: int, a1: int, a2: int, a3: int, a4: int)
    requires LoadRanges(a0, a1, a2, a3, a4)
    ensures Val(Spread(a0, a1, a2, a3, a4)) == Joined(a0, a1, a2, a3, a4) % T255
  {
    hide Spread, Joined, Val;
    SpreadBounds(a0, a1, a2, a3, a4);
    SpreadSum(a0, a1, a2, a3, a4);
    LimbsBelow(Spread(a0, a1, a2, a3, a4));
    DivModUnique(Joined(a0, a1, a2, a3, a4), T255, a4 / 0x8000_0000_0000, Val(Spread(a0, a1, a2, a3, a4)));
  }

  /** Reads 32 bytes, ignoring the top bit. */
  method FromBytes(h: array<u64>, s: array<byte>)
    requires h.Length == 5 && s.Length == 32
    modifies h
    ensures Below(h[..], T51)
    ensures Val(h[..]) == old(LE(s[..])) % T255
    ensures Fval(h[..]) == F(old(LE(s[..])) % T255)
  {
    hide Load, Or, Pow2, LE, Val, Below, Hi, Lo, Joined;
    FiveLoads(s[..]);
    SmallPowers();
    var a0: u64, a1: u64, a2: u64 := Load(s[..], 7), Load(s[..][7..], 6), Load(s[..][13..], 7);
    var a3: u64, a4: u64 := Load(s[..][20..], 6), Load(s[..][26..], 6);
    var h0: u64 := a0;
    var h1: u64 := a1 * 0x20;
    var h2: u64 := a2 * 4;
    var h3: u64 := a3 * 0x80;
    var h4: u64 := a4 % 0x8000_0000_0000 * 0x10;

    OrDisjoint(Hi(h0), a1, 5);
    h1 := Or(Hi(h0), h1); h0 := Lo(h0);
    OrDisjoint(Hi(h1), a2, 2);
    h2 := Or(Hi(h1), h2); h1 := Lo(h1);
    OrDisjoint(Hi(h2), a3, 7);
    h3 := Or(Hi(h2), h3); h2 := Lo(h2);
    OrDisjoint(Hi(h3), a4 % 0x8000_0000_0000, 4);
    h4 := Or(Hi(h3), h4); h3 := Lo(h3);

    SpreadBounds(a0, a1, a2, a3, a4);
    SpreadValue(a0, a1, a2, a3, a4);
    assert [h0, h1, h2, h3, h4] == Spread(a0, a1, a2, a3, a4);
    h[0], h[1], h[2], h[3], h[4] := h0, h1, h2, h3, h4;
    assert h[..] == [h0, h1, h2, h3, h4];
  }

  // ---- Full reduction ----

  /** The comparison with the modulus: the carry out of h + 19. */
  function Excess(h: seq<int>): int
    requires |h| == 5
  {
    var q := Hi(h[0] + 19);
    var q := Hi(h[1] + q);
    var q := Hi(h[2] + q);
    var q := Hi(h[3] + q);
    Hi(h[4] + q)
  }

  /** Adding 19 per excess and carrying through, the carry out of the top limb dropped. */
  function Frozen(h: seq<int>): (r: seq<int>)
    requires |h| == 5
    ensures |r| == 5
  {
    var h0 := h[0] + 19 * Excess(h);
    var h1 := h[1] + Hi(h0);
    var h2 := h[2] + Hi(h1);
    var h3 := h[3] + Hi(h2);
    var h4 := h[4] + Hi(h3);
    [Lo(h0), Lo(h1), Lo(h2), Lo(h3), Lo(h4)]
  }

  lemma ExcessBounds(h: seq<int>)
    requires |h| == 5
    ensures Excess(h) * T255 <= Val(h) + 19 < (Excess(h) + 1) * T255
  {
  }

  lemma FrozenSum(h: seq<int>) returns (k: int)
    requires |h| == 5
    ensures Val(h) + 19 * Excess(h) == k * T255 + Val(Frozen(h))
    ensures Below(Frozen(h), T51)
  {
    hide Excess;
    var h0 := h[0] + 19 * Excess(h);
    var h1 := h[1] + Hi(h0);
    var h2 := h[2] + Hi(h1);
    var h3 := h[3] + Hi(h2);
    k := Hi(h[4] + Hi(h3));
  }

  /** Anything below twice the modulus freezes to its canonical residue. */
  lemma FrozenValue(h: seq<int>)
    requires |h| == 5 && 0 <= Val(h) < 2 * P
    ensures Below(Frozen(h), T51)
    ensures Val(Frozen(h)) == Fval(h)
  {
    hide Excess, Frozen, Val;
    ExcessBounds(h);
    var k := FrozenSum(h);
    LimbsBelow(Frozen(h));
    var q := Excess(h);
    assert q == 0 || q == 1;
    assert 0 <= Val(h) - q * P < P;
    assert k == q;
    FIs(Val(h), q, Val(h) - q * P);
  }

  lemma TightBelowTwice(h: seq<int>)
    requires Below(h, TIGHT)
    ensures 0 <= Val(h) < 2 * P
  {
  }

  // ---- Serialisation ----

  /** A byte made of the top bits of one limb and, shifted as a 32-bit value, the low bits of the next. */
  function Join(high: nat, next: nat, shift: nat): int
  {
    Or(high, next % TWO_32 * shift % TWO_32) % 256
  }

  /** Five and six successive bytes of v / k, as a run of shifts and casts writes them. */
  function Run5(v: nat, k: nat): (s: seq<int>)
    requires k > 0
    ensures |s| == 5
  {
    [v / k % 256, v / (k * 0x100) % 256, v / (k * 0x10000) % 256, v / (k * 0x1000000) % 256,
     v / (k * 0x100000000) % 256]
  }

  function Run6(v: nat, k: nat): (s: seq<int>)
    requires k > 0
    ensures |s| == 6
  {
    Run5(v, k) + [v / (k * 0x10000000000) % 256]
  }

  /** The 32 bytes written for five reduced limbs. */
  function Smashed(h: seq<int>): (s: seq<int>)
    requires |h| == 5 && forall i :: 0 <= i < 5 ==> h[i] >= 0
    ensures |s| == 32
  {
    Run6(h[0], 1) + [Join(h[0] / 0x1000000000000, h[1], 8)] +
    Run5(h[1], 0x20) + [Join(h[1] / 0x200000000000, h[2], 64)] +
    Run6(h[2], 4) + [Join(h[2] / 0x4000000000000, h[3], 2)] +
    Run5(h[3], 0x80) + [Join(h[3] / 0x800000000000, h[4], 16)] +
    Run6(h[4], 0x10)
  }

  /** The low bits of a value survive the truncation to 32 bits. */
  lemma LowBits(next: nat, lim: nat, rest: nat)
    requires lim > 0 && rest > 0
    ensures lim * rest > 0 && next % (lim * rest) % rest == next % rest
  {
    ModSplit(next, rest, lim);
    DivModUnique(next % (lim * rest), rest, (next / rest) % lim, next % rest);
  }

  lemma {:induction false} Join8(high: nat, next: nat)
    requires high < 8
    ensures Join(high, next, 8) == high + 8 * (next % 32)
  {
    hide Or, Pow2;
    SmallPowers();
    var n := next % 0x1_0000_0000;
    var m := n % 0x20000000;
    DivModUnique(n * 8, 0x1_0000_0000, n / 0x20000000, m * 8);
    OrDisjoint(high, m, 3);
    DivModUnique(high + m * 8, 256, m / 32, high + 8 * (m % 32));
    LowBits(n, 0x1000000, 32);
    LowBits(next, 0x8000000, 32);
  }

  lemma {:induction false} Join64(high: nat, next: nat)
    requires high < 64
    ensures Join(high, next, 64) == high + 64 * (next % 4)
  {
    hide Or, Pow2;
    SmallPowers();
    var n := next % 0x1_0000_0000;
    var m := n % 0x4000000;
    DivModUnique(n * 64, 0x1_0000_0000, n / 0x4000000, m * 64);
    OrDisjoint(high, m, 6);
    DivModUnique(high + m * 64, 256, m / 4, high + 64 * (m % 4));
    LowBits(n, 0x1000000, 4);
    LowBits(next, 0x40000000, 4);
  }

  lemma {:induction false} Join2(high: nat, next: nat)
    requires high < 2
    ensures Join(high, next, 2) == high + 2 * (next % 128)
  {
    hide Or, Pow2;
    SmallPowers();
    var n := next % 0x1_0000_0000;
    var m := n % 0x80000000;
    DivModUnique(n * 2, 0x1_0000_0000, n / 0x80000000, m * 2);
    OrDisjoint(high, m, 1);
    DivModUnique(high + m * 2, 256, m / 128, high + 2 * (m % 128));
    LowBits(n, 0x1000000, 128);
    LowBits(next, 0x2000000, 128);
  }

  lemma {:induction false} Join16(high: nat, next: nat)
    requires high < 16
    ensures Join(high, next, 16) == high + 16 * (next % 16)
  {
    hide Or, Pow2;
    SmallPowers();
    var n := next % 0x1_0000_0000;
    var m := n % 0x10000000;
    DivModUnique(n * 16, 0x1_0000_0000, n / 0x10000000, m * 16);
    OrDisjoint(high, m, 4);
    DivModUnique(high + m * 16, 256, m / 16, high + 16 * (m % 16));
    LowBits(n, 0x1000000, 16);
    LowBits(next, 0x10000000, 16);
  }

  lemma {:induction false} RunsAreBytes(v: nat, k: nat, q: nat)
    requires k > 0 && q == v / k
    ensures BytesOf(Run5(v, k), q) && BytesOf(Run6(v, k), q)
  {
    hide Pow2;
    Powers();
    PowZero();
    DivTwice(v, k, 0x100); DivTwice(v, k, 0x10000); DivTwice(v, k, 0x1000000); DivTwice(v, k, 0x100000000);
    DivTwice(v, k, 0x10000000000);
  }

  lemma {:induction false} RunValues(v: nat, k: nat)
    requires k > 0
    ensures LE(Run5(v, k)) == v / k % 0x10000000000
    ensures LE(Run6(v, k)) == v / k % 0x1000000000000
  {
    hide LE, Pow2, Run5, Run6, BytesOf;
    Powers();
    DivNonNegative(v, k);
    var q := v / k;
    RunsAreBytes(v, k, q);
    BytesOfValue(Run5(v, k), q);
    BytesOfValue(Run6(v, k), q);
  }

  /** Appending a run and the byte that joins it to the next limb. */
  lemma {:induction false} LEJoin(run: seq<int>, joint: int, rest: seq<int>, weight: int)
    requires weight == Pow2(8 * |run|)
    ensures LE(run + [joint] + rest) == LE(run) + weight * (joint + 0x100 * LE(rest))
  {
    hide Pow2;
    assert run + [joint] + rest == run + ([joint] + rest);
    LEAppend(run, [joint] + rest);
    LEAppend([joint], rest);
    LEOne(joint);
    Pow2Of64();
  }

  /** The pieces of the limbs add up. */
  lemma PiecesAddUp(h: seq<int>)
    requires Below(h, T51)
    ensures Val(h) == h[0] % 0x1000000000000 + 0x1000000000000 * ((h[0] / 0x1000000000000 + 8 * (h[1] % 32))
              + 0x100 * (h[1] / 32 % 0x10000000000 + 0x10000000000 * ((h[1] / 0x200000000000 + 64 * (h[2] % 4))
              + 0x100 * (h[2] / 4 % 0x1000000000000 + 0x1000000000000 * ((h[2] / 0x4000000000000 + 2 * (h[3] % 128))
              + 0x100 * (h[3] / 128 % 0x10000000000 + 0x10000000000 * ((h[3] / 0x800000000000 + 16 * (h[4] % 16))
              + 0x100 * (h[4] / 16 % 0x1000000000000))))))))
  {
    DivTwice(h[1], 32, 0x10000000000);
    DivTwice(h[2], 4, 0x1000000000000);
    DivTwice(h[3], 128, 0x10000000000);
  }

  /** The 32 bytes stand for the same integer as the limbs. */
  lemma {:induction false} SmashedValue(h: seq<int>)
    requires Below(h, T51)
    ensures LE(Smashed(h)) == Val(h)
  {
    hide LE, Run5, Run6, Pow2, Join, Val;
    Powers();
    RunValues(h[0], 1); RunValues(h[1], 32); RunValues(h[2], 4); RunValues(h[3], 128); RunValues(h[4], 16);
    Join8(h[0] / 0x1000000000000, h[1]);
    Join64(h[1] / 0x200000000000, h[2]);
    Join2(h[2] / 0x4000000000000, h[3]);
    Join16(h[3] / 0x800000000000, h[4]);
    var j0, j1 := Join(h[0] / 0x1000000000000, h[1], 8), Join(h[1] / 0x200000000000, h[2], 64);
    var j2, j3 := Join(h[2] / 0x4000000000000, h[3], 2), Join(h[3] / 0x800000000000, h[4], 16);
    var r4 := Run6(h[4], 16);
    var r3 := Run5(h[3], 128) + [j3] + r4;
    var r2 := Run6(h[2], 4) + [j2] + r3;
    var r1 := Run5(h[1], 32) + [j1] + r2;
    assert Smashed(h) == Run6(h[0], 1) + [j0] + r1;
    LEJoin(Run5(h[3], 128), j3, r4, 0x10000000000);
    LEJoin(Run6(h[2], 4), j2, r3, 0x1000000000000);
    LEJoin(Run5(h[1], 32), j1, r2, 0x10000000000);
    LEJoin(Run6(h[0], 1), j0, r1, 0x1000000000000);
    PiecesAddUp(h);
  }

  /** Compares with the modulus: 1 when the element is at least P, 0 when it is below. */
  method Compare(h: seq<u64>) returns (q: u64)
    requires Below(h, TWO_63) && Val(h) < 2 * P
    ensures q == Excess(h) && q <= 1
  {
    hide Val;
    ValNonNegative(h);
    ExcessBounds(h);
    q := Hi(h[0] + 19);
    q := Hi(h[1] + q);
    q := Hi(h[2] + q);
    q := Hi(h[3] + q);
    q := Hi(h[4] + q);
  }

  lemma ValNonNegative(h: seq<int>)
    requires |h| == 5 && forall i :: 0 <= i < 5 ==> h[i] >= 0
    ensures Val(h) >= 0
  {
  }

  /** Full reduction of an element below twice the modulus. */
  method Freeze(h: array<u64>) returns (h0: u64, h1: u64, h2: u64, h3: u64, h4: u64)
    requires h.Length == 5
    requires Below(h[..], TWO_63) && Val(h[..]) < 2 * P
    ensures Below([h0, h1, h2, h3, h4], T51)
    ensures Val([h0, h1, h2, h3, h4]) == Fval(h[..])
  {
    hide Val, F, Excess;
    ValNonNegative(h[..]);
    FrozenValue(h[..]);
    var q: u64 := Compare(h[..]);
    h0 := h[0] + 19 * q;
    h1 := h[1] + Hi(h0); h0 := Lo(h0);
    h2 := h[2] + Hi(h1); h1 := Lo(h1);
    h3 := h[3] + Hi(h2); h2 := Lo(h2);
    h4 := h[4] + Hi(h3); h3 := Lo(h3);
    h4 := Lo(h4);
    assert [h0, h1, h2, h3, h4] == Frozen(h[..]);
  }

  method StoreRun5(s: array<byte>, off: nat, v: u64, k: nat)
    requires k > 0 && off + 5 <= s.Length
    modifies s
    ensures s[off..off + 5] == Run5(v, k)
    ensures s[..off] == old(s[..off]) && s[off + 5..] == old(s[off + 5..])
  {
    s[off] := v / k % 256;
    s[off + 1] := v / (k * 0x100) % 256;
    s[off + 2] := v / (k * 0x10000) % 256;
    s[off + 3] := v / (k * 0x1000000) % 256;
    s[off + 4] := v / (k * 0x100000000) % 256;
  }

  method StoreRun6(s: array<byte>, off: nat, v: u64, k: nat)
    requires k > 0 && off + 6 <= s.Length
    modifies s
    ensures s[off..off + 6] == Run6(v, k)
    ensures s[..off] == old(s[..off]) && s[off + 6..] == old(s[off + 6..])
  {
    hide Run5;
    StoreRun5(s, off, v, k);
    ghost var before := s[..];
    s[off + 5] := v / (k * 0x10000000000) % 256;
    assert s[off..off + 6] == before[off..off + 5] + [s[off + 5]];
    assert s[..off] == before[..off] && s[off + 6..] == before[off + 5..][1..];
  }

  /** Writes the bytes of five reduced limbs, low limb first. */
  method Smash(s: array<byte>, h0: u64, h1: u64, h2: u64, h3: u64, h4: u64)
    requires s.Length == 32
    requires Below([h0, h1, h2, h3, h4], T51)
    modifies s
    ensures s[..] == Smashed([h0, h1, h2, h3, h4])
  {
    hide Or, Below, Run5, Run6;
    StoreRun6(s, 0, h0, 1);
    s[6] := Join(h0 / 0x1000000000000, h1, 8);
    var j0 := s[6];
    StoreRun5(s, 7, h1, 0x20);
    s[12] := Join(h1 / 0x200000000000, h2, 64);
    assert s[..13] == Run6(h0, 1) + [j0] + Run5(h1, 0x20) + [s[12]];
    ghost var low := s[..13];
    StoreRun6(s, 13, h2, 4);
    s[19] := Join(h2 / 0x4000000000000, h3, 2);
    assert s[..20] == low + Run6(h2, 4) + [s[19]];
    low := s[..20];
    StoreRun5(s, 20, h3, 0x80);
    s[25] := Join(h3 / 0x800000000000, h4, 16);
    assert s[..26] == low + Run5(h3, 0x80) + [s[25]];
    low := s[..26];
    StoreRun6(s, 26, h4, 0x10);
    assert s[..] == low + Run6(h4, 0x10);
  }

  /** Writes the unique representative below the modulus, so congruent elements are written identically. */
  method ToBytes(s: array<byte>, h: array<u64>)
    requires s.Length == 32 && h.Length == 5
    requires Below(h[..], TWO_63) && Val(h[..]) < 2 * P
    modifies s
    ensures LE(s[..]) == old(Fval(h[..]))
  {
    hide *;
    var h0, h1, h2, h3, h4 := Freeze(h);
    Smash(s, h0, h1, h2, h3, h4);
    SmashedValue([h0, h1, h2, h3, h4]);
  }

  /** Two encodings are equal exactly if the elements are congruent. */
  lemma EncodingsAgree(s: seq<byte>, t: seq<byte>, f: seq<int>, g: seq<int>)
    requires |s| == |t| == 32 && |f| == |g| == 5
    requires LE(s) == Fval(f) && LE(t) == Fval(g)
    ensures s == t <==> Val(f) % P == Val(g) % P
  {
    hide LE, Val, F;
    FIsRemainder(Val(f));
    FIsRemainder(Val(g));
    if LE(s) == LE(t) {
      LEInjective(s, t);
    }
  }

  /** Decoding and encoding again: the top bit is dropped and the rest reduced. */
  method Reencode(out: array<byte>, s: array<byte>)
    requires out.Length == 32 && s.Length == 32
    modifies out
    ensures LE(out[..]) == old(LE(s[..])) % T255 % P
  {
    hide LE, Val, Below, F;
    var h := new u64[5];
    FromBytes(h, s);
    DecodedFits(h[..]);
    FIsRemainder(Val(h[..]));
    ToBytes(out, h);
  }

  lemma DecodedFits(h: seq<int>)
    requires |h| == 5 && Below(h, T51) && 0 <= Val(h) < T255
    ensures Below(h, TWO_63) && Val(h) < 2 * P
  {
    hide Val;
  }
}
