/** Seeding in SFMT.c: sfmt_init_gen_rand and period_certification. */
module SfmtInit {
  import opened Bits
  import opened BitVectors
  import opened BitNumbers
  import opened SfmtSpec
  import opened Sfmt

  // ---- The parity of the bits of a word ----

  function Shift16(x: bv32): bv32
  {
    x >> 16
  }

  function Shift8(x: bv32): bv32
  {
    x >> 8
  }

  function Shift4(x: bv32): bv32
  {
    x >> 4
  }

  function Shift2(x: bv32): bv32
  {
    x >> 2
  }

  function Shift1(x: bv32): bv32
  {
    x >> 1
  }

  function Shift(x: bv32, i: nat): bv32
  {
    if i == 16 then Shift16(x) else if i == 8 then Shift8(x) else if i == 4 then Shift4(x)
    else if i == 2 then Shift2(x) else Shift1(x)
  }

  /** One turn of the folding loop: inner ^= inner >> i. */
  function FoldBy(x: bv32, i: nat): bv32
  {
    Add(x, Shift(x, i))
  }

  /** The folding loop from shift i on. */
  function Fold(x: bv32, i: nat): bv32
    decreases i
  {
    if i == 0 then x else Fold(FoldBy(x, i), i / 2)
  }

  predicate LowBit(x: bv32)
  {
    x & 1 == 1
  }

  /** The folded word ends in one: an odd number of bits are set. */
  predicate Odd(x: bv32)
  {
    LowBit(Fold(x, 16))
  }

  lemma Sum16(x: bv32, y: bv32)
    ensures Shift16(Add(x, y)) == Add(Shift16(x), Shift16(y))
  {
  }

  lemma Sum8(x: bv32, y: bv32)
    ensures Shift8(Add(x, y)) == Add(Shift8(x), Shift8(y))
  {
  }

  lemma Sum4(x: bv32, y: bv32)
    ensures Shift4(Add(x, y)) == Add(Shift4(x), Shift4(y))
  {
  }

  lemma Sum2(x: bv32, y: bv32)
    ensures Shift2(Add(x, y)) == Add(Shift2(x), Shift2(y))
  {
  }

  lemma Sum1(x: bv32, y: bv32)
    ensures Shift1(Add(x, y)) == Add(Shift1(x), Shift1(y))
  {
  }

  lemma ShiftSum(x: bv32, y: bv32, i: nat)
    ensures Shift(Add(x, y), i) == Add(Shift(x, i), Shift(y, i))
  {
    hide Add, Shift16, Shift8, Shift4, Shift2, Shift1;
    Sum16(x, y);
    Sum8(x, y);
    Sum4(x, y);
    Sum2(x, y);
    Sum1(x, y);
  }

  lemma {:induction false} FoldSum(x: bv32, y: bv32, i: nat)
    ensures Fold(Add(x, y), i) == Add(Fold(x, i), Fold(y, i))
    decreases i
  {
    hide Add, Shift;
    if i == 0 {
    } else {
      ShiftSum(x, y, i);
      AddMiddle(x, y, Shift(x, i), Shift(y, i));
      FoldSum(FoldBy(x, i), FoldBy(y, i), i / 2);
    }
  }

  lemma FoldIs(x: bv32)
    ensures Fold(x, 16) == FoldBy(FoldBy(FoldBy(FoldBy(FoldBy(x, 16), 8), 4), 2), 1)
  {
    hide FoldBy;
    assert Fold(x, 16) == Fold(FoldBy(FoldBy(x, 16), 8), 4);
    assert Fold(x, 16) == Fold(FoldBy(FoldBy(FoldBy(FoldBy(x, 16), 8), 4), 2), 1);
    assert Fold(x, 16) == Fold(FoldBy(FoldBy(FoldBy(FoldBy(FoldBy(x, 16), 8), 4), 2), 1), 0);
  }

  lemma LowXor(x: bv32, y: bv32)
    ensures LowBit(Add(x, y)) <==> (LowBit(x) != LowBit(y))
  {
  }

  lemma LowSingle(w: bv32)
    requires Single(w)
    ensures LowBit(FoldBy(FoldBy(FoldBy(FoldBy(FoldBy(w, 16), 8), 4), 2), 1))
  {
  }

  /** Every bit counts: changing one bit changes the outcome of the fold. */
  lemma OddFlips(x: bv32, w: bv32)
    requires Single(w)
    ensures Odd(Add(x, w)) <==> !Odd(x)
  {
    hide Add, Fold, FoldBy, LowBit, Single;
    FoldSum(x, w, 16);
    LowXor(Fold(x, 16), Fold(w, 16));
    LowSingle(w);
    FoldIs(w);
  }

  // ---- Period certification ----

  function Mask(x: U32, p: U32): bv32
  {
    And(x.bits, p.bits)
  }

  function And(x: bv32, p: bv32): bv32
  {
    x & p
  }

  function Flip(x: U32, w: bv32): U32
  {
    U32(Add(x.bits, w))
  }

  function SetPart(v: W128, k: nat, x: U32): W128
    requires k < 4
  {
    if k == 0 then v.(u0 := x) else if k == 1 then v.(u1 := x) else if k == 2 then v.(u2 := x) else v.(u3 := x)
  }

  /** The sum of the first n parts of v as far as the parity vector p selects them. */
  function SumTo(v: W128, p: W128, n: nat): bv32
    requires n <= 4
  {
    if n == 0 then 0 else Add(SumTo(v, p, n - 1), Mask(Part(v, n - 1), Part(p, n - 1)))
  }

  /** The inner product of the state's first word with the parity vector is one. */
  predicate Certified(v: W128, p: W128)
  {
    Odd(SumTo(v, p, 4))
  }

  predicate Hits(p: U32, w: bv32)
  {
    And(w, p.bits) != 0
  }

  function Twice(w: bv32): bv32
  {
    w << 1
  }

  /** No bit of p is below the single bit w; none at all once w has been shifted out. */
  predicate NoneBelow(p: U32, w: bv32)
  {
    NoneUnder(p.bits, w)
  }

  predicate NoneUnder(p: bv32, w: bv32)
  {
    p & (w - 1) == 0
  }

  lemma AndXorRaw(x: bv32, w: bv32, p: bv32)
    ensures (x ^ w) & p == (x & p) ^ (w & p)
  {
  }

  lemma AndOfXor(x: bv32, w: bv32, p: bv32)
    ensures And(Add(x, w), p) == (x ^ w) & p
  {
  }

  lemma XorOfAnds(x: bv32, w: bv32, p: bv32)
    ensures Add(And(x, p), And(w, p)) == (x & p) ^ (w & p)
  {
  }

  lemma AndXor(x: bv32, w: bv32, p: bv32)
    ensures And(Add(x, w), p) == Add(And(x, p), And(w, p))
  {
    hide *;
    AndOfXor(x, w, p);
    XorOfAnds(x, w, p);
    AndXorRaw(x, w, p);
  }

  lemma AndSingle(w: bv32, p: bv32)
    requires Single(w) && And(w, p) != 0
    ensures And(w, p) == w
  {
  }

  lemma MaskFlip(x: U32, p: U32, w: bv32)
    requires Single(w) && Hits(p, w)
    ensures Mask(Flip(x, w), p) == Add(Mask(x, p), w)
  {
    hide Add, And, Single;
    AndXor(x.bits, w, p.bits);
    AndSingle(w, p.bits);
  }

  lemma {:induction false} SumFlip(v: W128, p: W128, i: nat, w: bv32, n: nat)
    requires i < 4 && n <= 4 && Single(w) && Hits(Part(p, i), w)
    ensures SumTo(SetPart(v, i, Flip(Part(v, i), w)), p, n) ==
            if n <= i then SumTo(v, p, n) else Add(SumTo(v, p, n), w)
  {
    hide Add, Mask, Flip, Single, Hits;
    if n == 0 {
    } else {
      SumFlip(v, p, i, w, n - 1);
      var s, m := SumTo(v, p, n - 1), Mask(Part(v, n - 1), Part(p, n - 1));
      AddLaws(s, m, w);
      AddLaws(m, w, w);
      AddLaws(s, w, m);
      if n - 1 == i {
        MaskFlip(Part(v, i), Part(p, i), w);
      }
    }
  }

  /** Flipping one selected bit certifies a word that was not. */
  lemma Repairs(v: W128, p: W128, i: nat, w: bv32)
    requires i < 4 && Single(w) && Hits(Part(p, i), w) && !Certified(v, p)
    ensures Certified(SetPart(v, i, Flip(Part(v, i), w)), p)
  {
    hide Add, Odd, Flip, Single, Hits, SetPart, SumTo;
    SumFlip(v, p, i, w, 4);
    OddFlips(SumTo(v, p, 4), w);
  }

  lemma NextBit(p: bv32, w: bv32)
    requires w == 0 || (w != 0 && w & (w - 1) == 0)
    requires p & (w - 1) == 0 && w & p == 0
    ensures w << 1 == 0 || (w << 1) & ((w << 1) - 1) == 0
    ensures p & ((w << 1) - 1) == 0
  {
  }

  lemma NextBitFree(p: U32, w: bv32)
    requires (w == 0 || Single(w)) && NoneBelow(p, w) && !Hits(p, w)
    ensures (Twice(w) == 0 || Single(Twice(w))) && NoneBelow(p, Twice(w))
  {
    NextBit(p.bits, w);
  }

  lemma FirstBit(p: U32)
    ensures Single(1) && NoneBelow(p, 1) && OneAt(0) == 1
  {
  }

  lemma LastBit(p: U32)
    ensures NoneBelow(p, 0) ==> p.bits == 0
    ensures !Hits(p, 0)
  {
  }

  /** 1 << j. */
  function OneAt(j: nat): bv32
  {
    if j == 0 then 1 else Twice(OneAt(j - 1))
  }

  lemma OneAtValues()
    ensures OneAt(32) == 0
  {
    hide Twice;
    TwiceValues();
    assert OneAt(8) == 0x100 by {
      assert OneAt(4) == 0x10;
    }
    assert OneAt(16) == 0x1_0000 by {
      assert OneAt(12) == 0x1000;
    }
    assert OneAt(24) == 0x100_0000 by {
      assert OneAt(20) == 0x10_0000;
    }
    assert OneAt(28) == 0x1000_0000;
  }

  lemma TwiceValues()
    ensures Twice(1) == 2 && Twice(2) == 4 && Twice(4) == 8 && Twice(8) == 0x10
    ensures Twice(0x10) == 0x20 && Twice(0x20) == 0x40 && Twice(0x40) == 0x80 && Twice(0x80) == 0x100
    ensures Twice(0x100) == 0x200 && Twice(0x200) == 0x400 && Twice(0x400) == 0x800 && Twice(0x800) == 0x1000
    ensures Twice(0x1000) == 0x2000 && Twice(0x2000) == 0x4000 && Twice(0x4000) == 0x8000 && Twice(0x8000) == 0x1_0000
    ensures Twice(0x1_0000) == 0x2_0000 && Twice(0x2_0000) == 0x4_0000 && Twice(0x4_0000) == 0x8_0000
    ensures Twice(0x8_0000) == 0x10_0000 && Twice(0x10_0000) == 0x20_0000 && Twice(0x20_0000) == 0x40_0000
    ensures Twice(0x40_0000) == 0x80_0000 && Twice(0x80_0000) == 0x100_0000 && Twice(0x100_0000) == 0x200_0000
    ensures Twice(0x200_0000) == 0x400_0000 && Twice(0x400_0000) == 0x800_0000 && Twice(0x800_0000) == 0x1000_0000
    ensures Twice(0x1000_0000) == 0x2000_0000 && Twice(0x2000_0000) == 0x4000_0000
    ensures Twice(0x4000_0000) == 0x8000_0000 && Twice(0x8000_0000) == 0
  {
  }

  predicate Nonzero(p: W128)
  {
    exists i :: 0 <= i < 4 && Part(p, i).bits != 0
  }

  /** The parity check: the inner product, folded to its lowest bit. */
  method Check(v: W128, parity: W128) returns (ok: bool)
    ensures ok <==> Certified(v, parity)
  {
    hide *;
    var inner := Inner(v, parity);
    var i := 16;
    ghost var start := inner;
    while i > 0
      invariant i >= 0 && Fold(inner, i) == Fold(start, 16)
    {
      FoldTurn(inner, i);
      inner := FoldBy(inner, i);
      i := i / 2;
    }
    FoldEnd(inner);
    OddIs(start);
    CertifiedIs(v, parity);
    ok := LowBit(inner);
  }

  method Inner(v: W128, parity: W128) returns (inner: bv32)
    ensures inner == SumTo(v, parity, 4)
  {
    hide Add, Mask, Part;
    inner := 0;
    for i := 0 to 4
      invariant inner == SumTo(v, parity, i)
    {
      inner := Add(inner, Mask(Part(v, i), Part(parity, i)));
    }
  }

  lemma FoldTurn(x: bv32, i: nat)
    requires i > 0
    ensures Fold(x, i) == Fold(FoldBy(x, i), i / 2)
  {
    hide FoldBy;
  }

  lemma FoldEnd(x: bv32)
    ensures Fold(x, 0) == x
  {
  }

  lemma OddIs(x: bv32)
    ensures Odd(x) <==> LowBit(Fold(x, 16))
  {
    hide Fold, LowBit;
  }

  lemma CertifiedIs(v: W128, p: W128)
    ensures Certified(v, p) <==> Odd(SumTo(v, p, 4))
  {
    hide Odd, SumTo;
  }

  /** The search for the lowest bit of one part of the parity vector. */
  method FindBit(p: U32) returns (found: bool, work: bv32)
    ensures found ==> Single(work) && Hits(p, work) && NoneBelow(p, work)
    ensures !found ==> p.bits == 0
  {
    hide Single, Hits, NoneBelow, OneAt, Twice;
    FirstBit(p);
    work := 1;
    var j := 0;
    while j < 32
      invariant 0 <= j <= 32 && work == OneAt(j)
      invariant (work == 0 || Single(work)) && NoneBelow(p, work)
    {
      if Hits(p, work) {
        LastBit(p);
        return true, work;
      }
      NextBitFree(p, work);
      OneAtNext(j);
      work := Twice(work);
      j := j + 1;
    }
    OneAtValues();
    LastBit(p);
    found := false;
  }

  lemma OneAtNext(j: nat)
    ensures OneAt(j + 1) == Twice(OneAt(j))
  {
    hide Twice;
  }

  /** w is the lowest bit of the parity vector, and in part i. */
  predicate LowestBit(p: W128, i: nat, w: bv32)
    requires i < 4
  {
    (forall k :: 0 <= k < i ==> Part(p, k).bits == 0) && Single(w) && Hits(Part(p, i), w) && NoneBelow(Part(p, i), w)
  }

  /**
   * period_certification: afterwards the first word passes the parity check. A word that passed is left alone, and
   * otherwise exactly one bit changes, at the lowest bit w of the first nonzero part i of the parity vector.
   */
  method PeriodCertification(state: array<W128>, parity: W128) returns (ghost i: nat, ghost w: bv32)
    requires state.Length > 0 && Nonzero(parity)
    modifies state
    ensures Certified(state[0], parity)
    ensures forall k :: 0 < k < state.Length ==> state[k] == old(state[k])
    ensures Certified(old(state[0]), parity) ==> state[0] == old(state[0])
    ensures !Certified(old(state[0]), parity) ==>
              && i < 4 && LowestBit(parity, i, w)
              && state[0] == SetPart(old(state[0]), i, Flip(Part(old(state[0]), i), w))
  {
    hide Certified, Hits, Single, Flip, NoneBelow;
    i, w := 0, 1;
    var ok := Check(state[0], parity);
    if ok {
      return;
    }
    for n := 0 to 4
      invariant state[..] == old(state[..])
      invariant forall k :: 0 <= k < n ==> Part(parity, k).bits == 0
    {
      var found, work := FindBit(Part(parity, n));
      if found {
        Repairs(state[0], parity, n, work);
        i, w := n, work;
        state[0] := SetPart(state[0], n, Flip(Part(state[0], n), work));
        return;
      }
    }
  }

  // ---- Seeding by one integer ----

  /** SFMT_PARITY1 to SFMT_PARITY4 of SFMT-params19937.h. */
  const PARITY := W128(U32(1), U32(0), U32(0), U32(0x13c9_e684))

  lemma ParityNonzero()
    ensures Nonzero(PARITY)
  {
    assert Part(PARITY, 0).bits != 0;
  }

  /** The seeding recurrence in integers: the number of word i from that of the word before it. */
  function NextNumber(w: nat, i: nat): nat
  {
    (1812433253 * Xor(w, w / 0x4000_0000) + i) % TWO_32
  }

  /** The integer that stands for word i of the initial state before certification. */
  function Initial(seed: nat, i: nat): nat
  {
    if i == 0 then seed % TWO_32 else NextNumber(Initial(seed, i - 1), i)
  }

  /** Word i of the initial state before certification. */
  ghost function InitialWord(seed: U32, i: nat): U32
  {
    U32(Word(Initial(Number(seed.bits), i)))
  }

  /** The word after w, as the code computes it: n is its index. */
  function Seeded(w: U32, n: bv32): U32
  {
    U32(Plus(Product(1812433253, Add(w.bits, TopTwo(w.bits))), n))
  }

  lemma Multiplier()
    ensures Number(1812433253) == 1812433253
  {
    assert Number(0x6c) == 0x6c;
    assert Number(0x6c07) == 0x6c07;
    assert Number(0x6c_0789) == 0x6c_0789;
    assert Number(0x6c07_8965) == 0x6c07_8965;
  }

  lemma SeededNumber(w: U32, n: bv32)
    ensures Number(Seeded(w, n).bits) == NextNumber(Number(w.bits), Number(n))
  {
    hide Number, Plus, Product, Add, TopTwo, Xor;
    Multiplier();
    var m := Add(w.bits, TopTwo(w.bits));
    NumberTopTwo(w.bits);
    NumberXor(w.bits, TopTwo(w.bits));
    NumberProduct(1812433253, m);
    NumberPlus(Product(1812433253, m), n);
    SumRemainder(1812433253 * Number(m), Number(n));
  }

  lemma SumRemainder(a: nat, b: nat)
    ensures (a % TWO_32 + b) % TWO_32 == (a + b) % TWO_32 == (a + b % TWO_32) % TWO_32
  {
  }

  /** The code's step computes the words that the integers stand for. */
  lemma SeededWord(seed: U32, i: nat)
    requires i > 0
    ensures Seeded(InitialWord(seed, i - 1), Word(i)) == InitialWord(seed, i)
  {
    hide Number, Word, Seeded, NextNumber;
    var k := Number(seed.bits);
    var w := InitialWord(seed, i - 1);
    InitialSmall(k, i - 1);
    Wrapped(Initial(k, i - 1));
    Wrapped(i);
    SeededNumber(w, Word(i));
    NextWrapped(Initial(k, i - 1), i);
    WordOfNumber(Seeded(w, Word(i)).bits);
  }

  lemma NextWrapped(w: nat, i: nat)
    ensures NextNumber(w, i % TWO_32) == NextNumber(w, i) < TWO_32
  {
    hide Xor;
    SumRemainder(1812433253 * Xor(w, w / 0x4000_0000), i);
  }

  lemma InitialSmall(seed: nat, i: nat)
    ensures Initial(seed, i) < TWO_32
  {
    hide NextNumber;
    if i > 0 {
      NextWrapped(Initial(seed, i - 1), i);
    }
  }

  lemma PartSet(v: W128, k: nat, x: U32, j: nat)
    requires k < 4 && j < 4
    ensures Part(SetPart(v, k, x), j) == if j == k then x else Part(v, j)
  {
  }

  /** Writing 32-bit word j of the state. */
  method SetWord(state: array<W128>, j: nat, x: U32)
    requires j < 4 * state.Length
    modifies state
    ensures forall k :: 0 <= k < 4 * state.Length ==>
              Part(state[k / 4], k % 4) == if k == j then x else old(Part(state[k / 4], k % 4))
  {
    ghost var v := state[j / 4];
    state[j / 4] := SetPart(state[j / 4], j % 4, x);
    forall k | 0 <= k < 4 * state.Length
      ensures Part(state[k / 4], k % 4) == if k == j then x else old(Part(state[k / 4], k % 4))
    {
      PartSet(v, j % 4, x, k % 4);
    }
  }

  /** The first four words of the initial state. */
  ghost function FirstFour(seed: U32): W128
  {
    W128(InitialWord(seed, 0), InitialWord(seed, 1), InitialWord(seed, 2), InitialWord(seed, 3))
  }

  lemma FirstParts(state: array<W128>, seed: U32)
    requires state.Length > 0
    requires forall k :: 0 <= k < 4 * state.Length ==> Part(state[k / 4], k % 4) == InitialWord(seed, k)
    ensures state[0] == FirstFour(seed)
  {
    hide InitialWord;
    assert Part(state[0 / 4], 0 % 4) == InitialWord(seed, 0);
    assert Part(state[1 / 4], 1 % 4) == InitialWord(seed, 1);
    assert Part(state[2 / 4], 2 % 4) == InitialWord(seed, 2);
    assert Part(state[3 / 4], 3 % 4) == InitialWord(seed, 3);
  }

  lemma FirstWord(seed: U32)
    ensures InitialWord(seed, 0) == seed
  {
    hide Number, Word;
    NumberBound(seed.bits);
    WordOfNumber(seed.bits);
  }

  /** The seeding loop; n is its index as a word. */
  method FillSeeds(state: array<W128>, seed: U32)
    requires state.Length > 0
    modifies state
    ensures forall k :: 0 <= k < 4 * state.Length ==> Part(state[k / 4], k % 4) == InitialWord(seed, k)
  {
    hide Seeded, SetPart, Part, InitialWord, Word, Next;
    SetWord(state, 0, seed);
    FirstWord(seed);
    var n := 0;
    WordStep(0);
    for j := 1 to 4 * state.Length
      invariant n == Word(j - 1)
      invariant forall k :: 0 <= k < j ==> Part(state[k / 4], k % 4) == InitialWord(seed, k)
    {
      n := Next(n);
      WordStep(j - 1);
      var x := Seeded(Part(state[(j - 1) / 4], (j - 1) % 4), n);
      SeededWord(seed, j);
      SetWord(state, j, x);
    }
  }

  /** The lowest bit of the parity vector is bit 0 of its first part. */
  lemma LowestOfParity(i: nat, w: bv32)
    requires i < 4 && LowestBit(PARITY, i, w)
    ensures i == 0 && w == 1
  {
    hide NoneBelow;
    assert Part(PARITY, 0).bits == 1;
    LowestOfOne(w);
  }

  lemma LowestOfOne(w: bv32)
    ensures Single(w) && Hits(U32(1), w) ==> w == 1
  {
  }

  /**
   * sfmt_init_gen_rand: the state holds the words of the seeding recurrence, but that bit 0 of the first one is flipped
   * if they are not certified without, and the whole state counts as read. The generator starts a sequence of its own.
   */
  method InitGenRand(g: Generator, seed: U32)
    requires g.state.Length >= 5 && 0 < g.pos1 < g.state.Length
    modifies g, g.state
    ensures g.Valid() && g.Position() == 4 * g.state.Length && g.seed == g.state[..]
    ensures Certified(g.state[0], PARITY)
    ensures forall j :: 4 <= j < 4 * g.state.Length ==> Part(g.state[j / 4], j % 4) == InitialWord(seed, j)
    ensures var v := FirstFour(seed);
            g.state[0] == if Certified(v, PARITY) then v else v.(u0 := Flip(v.u0, 1))
  {
    hide Certified, Flip, PARITY, X, InitialWord, LowestBit;
    FillSeeds(g.state, seed);
    FirstParts(g.state, seed);
    ghost var v := g.state[0];
    g.idx := 4 * g.state.Length;
    ParityNonzero();
    ghost var i, w := PeriodCertification(g.state, PARITY);
    if !Certified(v, PARITY) {
      LowestOfParity(i, w);
    }
    g.seed, g.first := g.state[..], 0;
    FirstWords(g.seed, g.pos1);
  }
}
