/** The bit-at-a-time CRC register over bytes, one table lookup for each of them,
    and a register as the sum of what its start and each byte contribute. */
module CrcBytes {
  import opened BitVectors
  import opened CrcPoly

  // ---- Bytes ----

  function FromByte(b: bv8): bv32
  {
    b as bv32
  }

  /** Eight turns of the shift register after a byte has been added to its low end. */
  function CrcByte(c: bv32, b: bv8): bv32
  {
    Steps(Add(c, FromByte(b)), 8)
  }

  /** The register after a byte string. */
  function Crc(c: bv32, s: seq<bv8>): bv32
    decreases |s|
  {
    if |s| == 0 then c else Crc(CrcByte(c, s[0]), s[1..])
  }

  lemma {:induction false} CrcAppend(c: bv32, s: seq<bv8>, t: seq<bv8>)
    ensures Crc(c, s + t) == Crc(Crc(c, s), t)
    decreases |s|
  {
    hide CrcByte;
    if |s| == 0 {
      assert s + t == t;
    } else {
      assert (s + t)[1..] == s[1..] + t;
      CrcAppend(CrcByte(c, s[0]), s[1..], t);
    }
  }

  /** What a difference in the starting register becomes. */
  lemma {:induction false} CrcDifference(c: bv32, d: bv32, s: seq<bv8>)
    ensures Crc(Add(c, d), s) == Add(Crc(c, s), Steps(d, 8 * |s|))
    decreases |s|
  {
    hide Add, FromByte, Step, Steps;
    if |s| == 0 {
      StepsNone(d);
    } else {
      var b := FromByte(s[0]);
      AddLaws(c, d, b);
      AddLaws(d, b, 0);
      AddLaws(c, b, d);
      StepsAdd(Add(c, b), d, 8);
      CrcDifference(CrcByte(c, s[0]), Steps(d, 8), s[1..]);
      StepsPlus(d, 8, 8 * |s[1..]|);
    }
  }

  lemma StepsNone(d: bv32)
    ensures Steps(d, 0) == d
  {
  }

  // ---- The table-driven byte step ----

  function Low(c: bv32): bv8
  {
    (c & 0xff) as bv8
  }

  function Drop(c: bv32): bv32
  {
    c >> 8
  }

  function Clear(c: bv32): bv32
  {
    c & 0xffff_ff00
  }

  lemma SplitLow(c: bv32)
    ensures c == (c & 0xffff_ff00) ^ (c & 0xff) && ((c & 0xff) as bv8) as bv32 == c & 0xff
  {
  }

  lemma LowParts(c: bv32)
    ensures c == Add(Clear(c), FromByte(Low(c)))
  {
    SplitLow(c);
  }

  function Grow(k: bv32): bv32
  {
    (k << 1) | 1
  }

  /** The mask of the n lowest bits. */
  function LowMask(n: nat): bv32
  {
    if n == 0 then 0 else Grow(LowMask(n - 1))
  }

  predicate Disjoint(d: bv32, m: bv32)
  {
    d & m == 0
  }

  /** n plain shifts. */
  function Nexts(d: bv32, n: nat): bv32
    decreases n
  {
    if n == 0 then d else Nexts(Next(d), n - 1)
  }

  lemma ClearLowest(d: bv32, k: bv32)
    requires d & ((k << 1) | 1) == 0
    ensures d & 1 == 0 && (d >> 1) & k == 0
  {
  }

  lemma EvenStep(d: bv32, k: bv32)
    requires Disjoint(d, Grow(k))
    ensures Step(d) == Next(d) && Disjoint(Next(d), k)
  {
    ClearLowest(d, k);
  }

  /** As long as zeros come out of the register, its steps are shifts. */
  lemma {:induction false} EvenSteps(d: bv32, n: nat)
    requires Disjoint(d, LowMask(n))
    ensures Steps(d, n) == Nexts(d, n)
    decreases n
  {
    hide Step, Disjoint, Next, Grow;
    if n == 0 {
    } else {
      EvenStep(d, LowMask(n - 1));
      EvenSteps(Next(d), n - 1);
    }
  }

  lemma {:induction false} NextsPlus(d: bv32, m: nat, n: nat)
    ensures Nexts(d, m + n) == Nexts(Nexts(d, m), n)
    decreases m
  {
    hide Next;
    if m == 0 {
    } else {
      NextsPlus(Next(d), m - 1, n);
    }
  }

  function Shift4(d: bv32): bv32
  {
    d >> 4
  }

  function Shift24(d: bv32): bv32
  {
    d >> 24
  }

  lemma ShiftSums(d: bv32)
    ensures Next(Next(Next(Next(d)))) == Shift4(d)
  {
  }

  lemma ShiftDrop(d: bv32)
    ensures Shift4(Shift4(d)) == Drop(d)
  {
  }

  lemma ShiftThrice(d: bv32)
    ensures Drop(Drop(Drop(d))) == Shift24(d)
  {
  }

  lemma Nexts8(d: bv32)
    ensures Nexts(d, 8) == Drop(d)
  {
    hide Next, Nexts, Shift4, Drop;
    NextsPlus(d, 4, 4);
    Nexts4(d);
    Nexts4(Shift4(d));
    ShiftDrop(d);
  }

  lemma Nexts4(d: bv32)
    ensures Nexts(d, 4) == Shift4(d)
  {
    hide Next, Shift4;
    assert Nexts(d, 4) == Nexts(Next(Next(d)), 2);
    ShiftSums(d);
  }

  lemma Nexts24(d: bv32)
    ensures Nexts(d, 24) == Shift24(d)
  {
    hide Nexts, Drop, Shift24;
    NextsPlus(d, 8, 8);
    NextsPlus(d, 16, 8);
    Nexts8(d);
    Nexts8(Drop(d));
    Nexts8(Drop(Drop(d)));
    ShiftThrice(d);
  }

  lemma GrowValues()
    ensures Grow(0) == 1 && Grow(1) == 3 && Grow(3) == 7 && Grow(7) == 0xf
    ensures Grow(0xf) == 0x1f && Grow(0x1f) == 0x3f && Grow(0x3f) == 0x7f && Grow(0x7f) == 0xff
  {
  }

  lemma Mask8()
    ensures LowMask(8) == 0xff
  {
    hide Grow;
    GrowValues();
    assert LowMask(2) == 3;
    assert LowMask(4) == 0xf;
    assert LowMask(6) == 0x3f;
  }

  /** A register whose low byte is clear just shifts. */
  lemma ClearSteps(d: bv32)
    requires Disjoint(d, 0xff)
    ensures Steps(d, 8) == Drop(d)
  {
    hide Steps, Nexts, LowMask, Drop, Disjoint;
    Mask8();
    EvenSteps(d, 8);
    Nexts8(d);
  }

  lemma ClearIs(c: bv32)
    ensures Disjoint(Clear(c), 0xff) && Drop(Clear(c)) == Drop(c)
  {
  }

  /** One table lookup does the work of eight turns. */
  lemma TableStep(c: bv32)
    ensures Steps(c, 8) == Add(Drop(c), Steps(FromByte(Low(c)), 8))
  {
    hide Step, Steps, Add, Low, Drop, Clear, FromByte, Disjoint;
    LowParts(c);
    ClearIs(c);
    ClearSteps(Clear(c));
    StepsAdd(Clear(c), FromByte(Low(c)), 8);
  }

  lemma DropByte(c: bv32, b: bv8)
    ensures Drop(Add(c, FromByte(b))) == Drop(c)
  {
    DropByteRaw(c, b);
  }

  lemma DropByteRaw(c: bv32, b: bv8)
    ensures (c ^ (b as bv32)) >> 8 == c >> 8
  {
  }

  lemma TableByte(c: bv32, b: bv8)
    ensures CrcByte(c, b) == Add(Drop(c), Steps(FromByte(Low(Add(c, FromByte(b)))), 8))
  {
    hide Step, Steps, Add, Low, Drop, FromByte;
    TableStep(Add(c, FromByte(b)));
    DropByte(c, b);
  }

  /** A byte at the high end of the register. */
  function AtTop(b: bv8): bv32
  {
    (b as bv32) << 24
  }

  lemma MoreGrowValues()
    ensures Grow(0xff) == 0x1ff && Grow(0x1ff) == 0x3ff && Grow(0x3ff) == 0x7ff && Grow(0x7ff) == 0xfff
    ensures Grow(0xfff) == 0x1fff && Grow(0x1fff) == 0x3fff && Grow(0x3fff) == 0x7fff && Grow(0x7fff) == 0xffff
    ensures Grow(0xffff) == 0x1_ffff && Grow(0x1_ffff) == 0x3_ffff
    ensures Grow(0x3_ffff) == 0x7_ffff && Grow(0x7_ffff) == 0xf_ffff
    ensures Grow(0xf_ffff) == 0x1f_ffff && Grow(0x1f_ffff) == 0x3f_ffff
    ensures Grow(0x3f_ffff) == 0x7f_ffff && Grow(0x7f_ffff) == 0xff_ffff
  {
  }

  lemma Mask24()
    ensures LowMask(24) == 0xff_ffff
  {
    hide Grow;
    Mask8();
    MoreGrowValues();
    assert LowMask(10) == 0x3ff;
    assert LowMask(12) == 0xfff;
    assert LowMask(14) == 0x3fff;
    assert LowMask(16) == 0xffff;
    assert LowMask(18) == 0x3_ffff;
    assert LowMask(20) == 0xf_ffff;
    assert LowMask(22) == 0x3f_ffff;
  }

  lemma TopParts(b: bv8)
    ensures Disjoint(AtTop(b), 0xff_ffff) && Shift24(AtTop(b)) == FromByte(b)
    ensures AtTop(b) == 0 ==> b == 0
  {
  }

  /** A byte at the high end reaches the low end in 24 steps. */
  lemma TopByte(b: bv8)
    ensures Steps(AtTop(b), 24) == FromByte(b)
  {
    hide Steps, Nexts, LowMask, Disjoint, AtTop, Shift24, FromByte;
    Mask24();
    TopParts(b);
    EvenSteps(AtTop(b), 24);
    Nexts24(AtTop(b));
  }

  /** The sum of what the bytes of s contribute after n further steps. */
  function SumBytes(s: seq<bv8>, n: nat): bv32
    decreases |s|
  {
    if |s| == 0 then 0 else Add(Steps(FromByte(s[0]), 8 * |s| + n), SumBytes(s[1..], n))
  }

  lemma {:induction false} CrcIsSum(c: bv32, s: seq<bv8>, n: nat)
    ensures Steps(Crc(c, s), n) == Add(Steps(c, 8 * |s| + n), SumBytes(s, n))
    decreases |s|
  {
    hide Add, FromByte, Steps;
    if |s| == 0 {
      AddLaws(Steps(c, n), 0, 0);
    } else {
      var b, t, k := FromByte(s[0]), s[1..], 8 * |s[1..]| + n;
      CrcIsSum(CrcByte(c, s[0]), t, n);
      StepsPlus(Add(c, b), 8, k);
      StepsAdd(c, b, 8 + k);
      AddLaws(Steps(c, 8 + k), Steps(b, 8 + k), SumBytes(t, n));
    }
  }
}
