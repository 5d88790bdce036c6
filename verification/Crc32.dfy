/** crc32.c: the tables, the braided CRC over a buffer, and the combination of CRCs. Five braids of 64-bit words. */
module Crc32 {
  import opened Bits
  import opened BitVectors
  import opened CrcPoly
  import opened CrcOrder
  import opened CrcBytes
  import opened CrcWords

  // ---- The specification ----

  function Not(c: bv32): bv32
  {
    c ^ 0xffff_ffff
  }

  /** The CRC-32 of section 8 of RFC 1952, carried on from the CRC c of what came before. */
  function Crc32(c: bv32, s: seq<bv8>): bv32
  {
    Not(Crc(Not(c), s))
  }

  lemma NotNot(c: bv32)
    ensures Not(Not(c)) == c
  {
  }

  lemma NotAdds(c: bv32)
    ensures Not(c) == Add(c, 0xffff_ffff) && Not(0) == 0xffff_ffff
  {
  }

  /** A buffer may be fed in pieces. */
  lemma Streams(c: bv32, s: seq<bv8>, t: seq<bv8>)
    ensures Crc32(Crc32(c, s), t) == Crc32(c, s + t)
  {
    hide Not, CrcByte;
    NotNot(Crc(Not(c), s));
    CrcAppend(Not(c), s, t);
  }

  /** The CRC of a concatenation from the CRCs of its parts. */
  lemma Combines(c: bv32, s: seq<bv8>, t: seq<bv8>)
    ensures Crc32(c, s + t) == Add(Steps(Crc32(c, s), 8 * |t|), Crc32(0, t))
  {
    hide Not, Add, Crc, Steps;
    var a, ones := Crc(Not(c), s), Not(0);
    var d := Add(a, ones);
    NotAdds(a);
    NotAdds(c);
    CrcAppend(Not(c), s, t);
    AddLaws(ones, a, ones);
    AddLaws(a, ones, ones);
    AddLaws(a, 0, 0);
    CrcDifference(ones, d, t);
    var e, f := Crc(ones, t), Steps(d, 8 * |t|);
    NotAdds(Crc(a, t));
    NotAdds(e);
    AddLaws(e, f, ones);
    AddLaws(f, ones, e);
    AddLaws(e, ones, f);
    AddLaws(f, Not(e), 0);
  }

  // ---- Words in a byte string ----

  function WordAt(s: seq<bv8>): bv64
    requires |s| >= 8
  {
    Word(s[0], s[1], s[2], s[3], s[4], s[5], s[6], s[7])
  }

  function Words(s: seq<bv8>): (ws: seq<bv64>)
    ensures |ws| == |s| / 8
  {
    if |s| < 8 then [] else [WordAt(s)] + Words(s[8..])
  }

  lemma WordAtBytes(s: seq<bv8>)
    requires |s| >= 8
    ensures Bytes(WordAt(s), 8) == s[..8]
  {
    hide Word, Bytes;
    WordBytes(s[0], s[1], s[2], s[3], s[4], s[5], s[6], s[7]);
    assert s[..8] == [s[0], s[1], s[2], s[3], s[4], s[5], s[6], s[7]];
  }

  /** The register over whole words is the register over their bytes. */
  lemma {:induction false} CrcOfWords(c: bv32, s: seq<bv8>)
    requires |s| % 8 == 0
    ensures Crc(c, s) == Run(c, Words(s))
    decreases |s|
  {
    hide Crc, Bytes, WordCrc, Add64, Widen, WordAt;
    if |s| == 0 {
      CrcEmpty(c, s);
    } else {
      var c' := Crc(c, s[..8]);
      assert s == s[..8] + s[8..];
      CrcAppend(c, s[..8], s[8..]);
      WordAtBytes(s);
      Absorb(c, WordAt(s));
      CrcOfWords(c', s[8..]);
      RunCons(c, WordAt(s), Words(s[8..]));
    }
  }

  lemma CrcEmpty(c: bv32, s: seq<bv8>)
    requires |s| == 0
    ensures Crc(c, s) == c
  {
  }

  lemma RunCons(c: bv32, w: bv64, ws: seq<bv64>)
    ensures Run(c, [w] + ws) == Run(WordCrc(Add64(Widen(c), w)), ws)
  {
    hide WordCrc, Add64, Widen;
    assert ([w] + ws)[1..] == ws;
  }

  // ---- A block of five words ----

  /** A word string with a register added into each of its first five words. */
  function Joined(ws: seq<bv64>, c0: bv32, c1: bv32, c2: bv32, c3: bv32, c4: bv32): seq<bv64>
    requires |ws| >= 5
  {
    [Add64(Widen(c0), ws[0]), Add64(Widen(c1), ws[1]), Add64(Widen(c2), ws[2]), Add64(Widen(c3), ws[3]),
     Add64(Widen(c4), ws[4])] + ws[5..]
  }

  /** The register that word x leaves for the same braid of the next block. */
  function Braided(x: bv64): bv32
  {
    Steps(WordCrc(x), 256)
  }

  /** The braids start with the register in the first and zeros in the others. */
  lemma JoinedStart(c: bv32, ws: seq<bv64>)
    requires |ws| >= 5
    ensures Run(0, Joined(ws, c, 0, 0, 0, 0)) == Run(c, ws)
  {
    hide Add, Add64, Widen, WordCrc, Steps, Run;
    AddLaws(0, c, 0);
    AddLaws(c, 0, 0);
    StepsNone(c);
    Delay(0, c, ws, 0);
    WidenZero();
    Laws64(ws[1], 0, 0);
    Laws64(ws[2], 0, 0);
    Laws64(ws[3], 0, 0);
    Laws64(ws[4], 0, 0);
    assert Joined(ws, c, 0, 0, 0, 0) == Into(ws, 0, c);
  }

  /** One braid: the first word's CRC goes into the fifth word after it. */
  lemma BraidOne(x: bv64, a: bv64, b: bv64, c: bv64, d: bv64, e: bv64, tail: seq<bv64>)
    ensures Run(0, [x, a, b, c, d] + ([e] + tail)) == Run(0, [a, b, c, d, Add64(Widen(Braided(x)), e)] + tail)
  {
    hide Add64, Widen, WordCrc, Steps, Run;
    var ws := [a, b, c, d, e] + tail;
    Braid(x, ws);
    assert [x] + ws == [x, a, b, c, d] + ([e] + tail);
    assert Into(ws, 4, Braided(x)) == [a, b, c, d, Add64(Widen(Braided(x)), e)] + tail;
  }

  /** A whole block: five words turn into five registers for the next block. */
  lemma BraidBlock(w0: bv64, w1: bv64, w2: bv64, w3: bv64, w4: bv64, next: seq<bv64>)
    requires |next| >= 5
    ensures Run(0, [w0, w1, w2, w3, w4] + next) ==
            Run(0, Joined(next, Braided(w0), Braided(w1), Braided(w2), Braided(w3), Braided(w4)))
  {
    hide Add64, Widen, Braided, Run;
    var t4 := [next[4]] + next[5..];
    var t3 := [next[3]] + t4;
    var t2 := [next[2]] + t3;
    var t1 := [next[1]] + t2;
    var n0, n1 := Add64(Widen(Braided(w0)), next[0]), Add64(Widen(Braided(w1)), next[1]);
    var n2, n3 := Add64(Widen(Braided(w2)), next[2]), Add64(Widen(Braided(w3)), next[3]);
    FiveFirst(next);
    BraidOne(w0, w1, w2, w3, w4, next[0], t1);
    BraidOne(w1, w2, w3, w4, n0, next[1], t2);
    BraidOne(w2, w3, w4, n0, n1, next[2], t3);
    BraidOne(w3, w4, n0, n1, n2, next[3], t4);
    BraidOne(w4, n0, n1, n2, n3, next[4], next[5..]);
  }

  lemma FiveFirst<T>(s: seq<T>)
    requires |s| >= 5
    ensures s == [s[0]] + ([s[1]] + ([s[2]] + ([s[3]] + ([s[4]] + s[5..]))))
  {
  }

  /** The last block: each word absorbs the CRC of the words before it. */
  lemma LastBlock(x0: bv64, x1: bv64, x2: bv64, x3: bv64, x4: bv64, r0: bv32, r1: bv32, r2: bv32, r3: bv32, r4: bv32)
    requires r0 == WordCrc(x0) && r1 == WordCrc(Add64(x1, Widen(r0))) && r2 == WordCrc(Add64(x2, Widen(r1)))
    requires r3 == WordCrc(Add64(x3, Widen(r2))) && r4 == WordCrc(Add64(x4, Widen(r3)))
    ensures Run(0, [x0, x1, x2, x3, x4]) == r4
  {
    hide Add64, Widen, WordCrc, Run;
    WidenZero();
    Laws64(x0, 0, 0);
    Laws64(x1, Widen(r0), 0);
    Laws64(x2, Widen(r1), 0);
    Laws64(x3, Widen(r2), 0);
    Laws64(x4, Widen(r3), 0);
    RunCons(0, x0, [x1, x2, x3, x4]);
    RunCons(r0, x1, [x2, x3, x4]);
    RunCons(r1, x2, [x3, x4]);
    RunCons(r2, x3, [x4]);
    RunCons(r3, x4, []);
    RunEmpty(r4);
    assert [x0] + [x1, x2, x3, x4] == [x0, x1, x2, x3, x4] && [x1] + [x2, x3, x4] == [x1, x2, x3, x4];
    assert [x2] + [x3, x4] == [x2, x3, x4] && [x3] + [x4] == [x3, x4] && [x4] + [] == [x4];
  }

  lemma RunEmpty(c: bv32)
    ensures Run(c, []) == c
  {
  }

  /** The first five words of a byte string. */
  lemma FirstWords(s: seq<bv8>)
    requires |s| >= 40
    ensures Words(s) == [WordAt(s), WordAt(s[8..]), WordAt(s[16..]), WordAt(s[24..]), WordAt(s[32..])] + Words(s[40..])
  {
    hide WordAt, Words;
    WordsCons(s);
    WordsCons(s[8..]);
    WordsCons(s[16..]);
    WordsCons(s[24..]);
    WordsCons(s[32..]);
    assert s[8..][8..] == s[16..] && s[16..][8..] == s[24..] && s[24..][8..] == s[32..] && s[32..][8..] == s[40..];
    FiveJoined(WordAt(s), WordAt(s[8..]), WordAt(s[16..]), WordAt(s[24..]), WordAt(s[32..]), Words(s[40..]));
  }

  lemma FiveJoined<T>(a: T, b: T, c: T, d: T, e: T, t: seq<T>)
    ensures [a] + ([b] + ([c] + ([d] + ([e] + t)))) == [a, b, c, d, e] + t
  {
  }

  lemma WordsCons(s: seq<bv8>)
    requires |s| >= 8
    ensures Words(s) == [WordAt(s)] + Words(s[8..])
  {
    hide WordAt;
  }

  /** Five words, each with a register added in. */
  ghost predicate Loaded(s: seq<bv8>, c0: bv32, c1: bv32, c2: bv32, c3: bv32, c4: bv32,
                         w0: bv64, w1: bv64, w2: bv64, w3: bv64, w4: bv64)
    requires |s| >= 40
  {
    w0 == Add64(Widen(c0), WordAt(s)) && w1 == Add64(Widen(c1), WordAt(s[8..]))
    && w2 == Add64(Widen(c2), WordAt(s[16..]))
    && w3 == Add64(Widen(c3), WordAt(s[24..])) && w4 == Add64(Widen(c4), WordAt(s[32..]))
  }

  lemma JoinedIs(s: seq<bv8>, c0: bv32, c1: bv32, c2: bv32, c3: bv32, c4: bv32,
                 w0: bv64, w1: bv64, w2: bv64, w3: bv64, w4: bv64)
    requires |s| >= 40 && Loaded(s, c0, c1, c2, c3, c4, w0, w1, w2, w3, w4)
    ensures Joined(Words(s), c0, c1, c2, c3, c4) == [w0, w1, w2, w3, w4] + Words(s[40..])
  {
    hide Add64, Widen, WordAt, Words;
    FirstWords(s);
  }

  lemma BlockTurn(s: seq<bv8>, c0: bv32, c1: bv32, c2: bv32, c3: bv32, c4: bv32,
                  w0: bv64, w1: bv64, w2: bv64, w3: bv64, w4: bv64)
    requires |s| >= 80 && Loaded(s, c0, c1, c2, c3, c4, w0, w1, w2, w3, w4)
    ensures Run(0, Joined(Words(s), c0, c1, c2, c3, c4)) ==
            Run(0, Joined(Words(s[40..]), Braided(w0), Braided(w1), Braided(w2), Braided(w3), Braided(w4)))
  {
    hide Run, Joined, Loaded, Braided, Words;
    JoinedIs(s, c0, c1, c2, c3, c4, w0, w1, w2, w3, w4);
    BraidBlock(w0, w1, w2, w3, w4, Words(s[40..]));
  }

  lemma BlockEnd(s: seq<bv8>, c0: bv32, c1: bv32, c2: bv32, c3: bv32, c4: bv32,
                 w0: bv64, w1: bv64, w2: bv64, w3: bv64, w4: bv64)
    requires |s| == 40 && Loaded(s, c0, c1, c2, c3, c4, w0, w1, w2, w3, w4)
    ensures Run(0, Joined(Words(s), c0, c1, c2, c3, c4)) == Run(0, [w0, w1, w2, w3, w4])
  {
    hide Run, Joined, Loaded, Words;
    JoinedIs(s, c0, c1, c2, c3, c4, w0, w1, w2, w3, w4);
    assert Words(s[40..]) == [];
    assert [w0, w1, w2, w3, w4] + [] == [w0, w1, w2, w3, w4];
  }

  // ---- Sums of braid table entries ----

  function Index(b: bv8): (r: int)
    ensures 0 <= r < 256
  {
    b as int
  }

  function ByteOf(i: int): bv8
    requires 0 <= i < 256
  {
    i as bv8
  }

  lemma ByteIndex(b: bv8)
    ensures ByteOf(Index(b)) == b
  {
  }

  lemma ByteOfZero(i: int)
    requires 0 <= i < 256
    ensures ByteOf(0) == 0 && FromByte(ByteOf(0)) == 0 && (i != 0 ==> AtTop(ByteOf(i)) != 0)
  {
    if i != 0 {
      ByteOfNonzero(i);
      if AtTop(ByteOf(i)) == 0 {
        TopParts(ByteOf(i));
      }
    }
  }

  lemma ByteOfNonzero(i: int)
    requires 0 < i < 256
    ensures ByteOf(i) != 0
  {
  }

  /** What entry b of braid table k must hold: the byte b moved on to the same place in the next block's register. */
  function BraidEntry(k: nat, b: bv8): bv32
    requires k < 8
  {
    Steps(FromByte(b), 8 * (40 - k))
  }

  /** word >> (k << 3). */
  function ShiftBytes(x: bv64, k: nat): bv64
    requires k < 8
  {
    if k == 0 then x else if k == 1 then x >> 8 else if k == 2 then x >> 16 else if k == 3 then x >> 24
    else if k == 4 then x >> 32 else if k == 5 then x >> 40 else if k == 6 then x >> 48 else x >> 56
  }

  lemma ShiftMore(x: bv64)
    ensures Drop64(x) == x >> 8 && Drop64(x >> 8) == x >> 16 && Drop64(x >> 16) == x >> 24
    ensures Drop64(x >> 24) == x >> 32 && Drop64(x >> 32) == x >> 40 && Drop64(x >> 40) == x >> 48
    ensures Drop64(x >> 48) == x >> 56
  {
  }

  lemma ShiftDrops(x: bv64, k: nat)
    requires k < 7
    ensures ShiftBytes(x, k + 1) == Drop64(ShiftBytes(x, k))
  {
    hide Drop64;
    ShiftMore(x);
  }

  /** The sum s covers the first k bytes of word x. */
  ghost predicate Summed(s: bv32, x: bv64, k: nat)
    requires 1 <= k <= 8
  {
    if k == 8 then s == Braided(x)
    else Add(s, SumBytes(Bytes(ShiftBytes(x, k), 8 - k), 256)) == Braided(x)
  }

  lemma SumCons(b: bv8, t: seq<bv8>, n: nat)
    ensures SumBytes([b] + t, n) == Add(Steps(FromByte(b), 8 * (1 + |t|) + n), SumBytes(t, n))
  {
    hide Add, Steps, FromByte;
    assert ([b] + t)[1..] == t;
  }

  lemma SumStart(x: bv64)
    ensures Summed(BraidEntry(0, Low64(x)), x, 1)
  {
    hide Add, Steps, FromByte, Low64, Drop64, SumBytes, Bytes, Crc;
    BytesCons(x, 8);
    SumCons(Low64(x), Bytes(Drop64(x), 7), 256);
    CrcIsSum(0, Bytes(x, 8), 256);
    StepsZero(8 * 8 + 256);
    AddLaws(SumBytes(Bytes(x, 8), 256), 0, 0);
    ShiftDrops(x, 0);
  }

  lemma SumTurn(s: bv32, x: bv64, k: nat)
    requires 1 <= k < 8 && Summed(s, x, k)
    ensures Summed(Add(s, BraidEntry(k, Low64(ShiftBytes(x, k)))), x, k + 1)
  {
    hide Add, Steps, FromByte, Low64, Drop64, SumBytes, Bytes, ShiftBytes, Braided;
    var y := ShiftBytes(x, k);
    BytesCons(y, 8 - k);
    SumCons(Low64(y), Bytes(Drop64(y), 7 - k), 256);
    AddLaws(s, BraidEntry(k, Low64(y)), SumBytes(Bytes(Drop64(y), 7 - k), 256));
    if k < 7 {
      ShiftDrops(x, k);
    } else {
      BytesCons(Drop64(y), 0);
      SumNone(256);
      AddLaws(Add(s, BraidEntry(k, Low64(y))), 0, 0);
    }
  }

  lemma SumNone(n: nat)
    ensures SumBytes([], n) == 0
  {
  }

  // ---- The tables ----

  lemma Doubled(c: bv32, n: nat)
    ensures Steps(c, n + 1) == Step(Steps(c, n))
  {
    hide Step;
    StepsPlus(c, n, 1);
    assert Steps(Steps(c, n), 1) == Steps(Step(Steps(c, n)), 0);
  }

  lemma SquareUp(n: nat)
    ensures Mul(XPow(Pow2(n)), XPow(Pow2(n))) == XPow(Pow2(n + 1))
  {
    hide Mul, XPow;
    XPowAdd(Pow2(n), Pow2(n));
  }

  lemma XPowNonzero(n: nat)
    ensures XPow(n) != 0
  {
    hide Step;
    StepsNonzero(ONE, n);
  }

  /** The braid table entry as the builder computes it: the byte at the top, times a power of x. */
  lemma EntryIs(k: nat, b: bv8)
    requires k < 8
    ensures Mul(AtTop(b), XPow(8 * (43 - k))) == BraidEntry(k, b)
  {
    hide Mul, XPow, Steps, AtTop, FromByte;
    MulXPow(AtTop(b), 8 * (43 - k));
    TopByte(b);
    StepsPlus(AtTop(b), 24, 8 * (40 - k));
  }

  lemma EntryZero(k: nat)
    requires k < 8
    ensures BraidEntry(k, ByteOf(0)) == 0
  {
    hide FromByte, Steps, ByteOf;
    ByteOfZero(0);
    StepsZero(8 * (40 - k));
  }

  lemma HalveExponent(n: nat, k: nat)
    ensures Shl(n, k) == Shl(n / 2, k + 1) + if n % 2 == 1 then Pow2(k) else 0
    ensures Shl(0, k) == 0
  {
    var p, h := Pow2(k), n / 2;
    assert n == 2 * h + n % 2;
    if n % 2 == 1 {
      assert (2 * h + 1) * p == h * (2 * p) + p;
    } else {
      assert (2 * h) * p == h * (2 * p);
    }
  }

  lemma ShlOnce(n: nat)
    ensures Shl(n, 0) == n
  {
  }

  class Tables {
    /** crc_table, x2n_table and crc_braid_table. */
    const bytes: array<bv32>
    const powers: array<bv32>
    const braids: array2<bv32>

    constructor ()
      ensures Allocated() && fresh(bytes) && fresh(powers) && fresh(braids)
    {
      bytes, powers, braids := new bv32[256], new bv32[32], new bv32[8, 256];
    }

    ghost predicate Allocated()
    {
      bytes.Length == 256 && powers.Length == 32 && braids.Length0 == 8 && braids.Length1 == 256
    }

    /** The first n entries of the byte table are the CRCs of their indices. */
    ghost predicate BytesMade(n: int)
      requires Allocated() && 0 <= n <= 256
      reads bytes
    {
      forall i :: 0 <= i < n ==> bytes[i] == Steps(FromByte(ByteOf(i)), 8)
    }

    /** The first n entries of the power table are x^1, x^2, x^4 and so on. */
    ghost predicate PowersMade(n: int)
      requires Allocated() && 0 <= n <= 32
      reads powers
    {
      forall i :: 0 <= i < n ==> powers[i] == XPow(Pow2(i))
    }

    ghost predicate BraidMade(k: int, n: int)
      requires Allocated() && 0 <= k < 8 && 0 <= n <= 256
      reads braids
    {
      forall i :: 0 <= i < n ==> braids[k, i] == BraidEntry(k, ByteOf(i))
    }

    ghost predicate BraidsMade(n: int)
      requires Allocated() && 0 <= n <= 8
      reads braids
    {
      forall k :: 0 <= k < n ==> BraidMade(k, 256)
    }

    /** All tables are built. */
    ghost predicate Made()
      reads bytes, powers, braids
    {
      Allocated() && BytesMade(256) && PowersMade(32) && BraidsMade(8)
    }

    lemma MadePowers()
      requires Made()
      ensures Allocated() && PowersMade(32)
    {
    }

    method MakeBytes()
      requires Allocated()
      modifies bytes
      ensures BytesMade(256)
    {
      hide Step, Steps, FromByte, ByteOf;
      for i := 0 to 256
        invariant BytesMade(i)
      {
        var p := FromByte(ByteOf(i));
        StepsNone(p);
        for j := 0 to 8
          invariant p == Steps(FromByte(ByteOf(i)), j)
          invariant BytesMade(i)
        {
          Doubled(FromByte(ByteOf(i)), j);
          p := Step(p);
        }
        bytes[i] := p;
      }
    }

    method MakePowers()
      requires Allocated()
      modifies powers
      ensures PowersMade(32)
    {
      hide XPow, Mul, Pow2;
      FirstPower();
      var p: bv32 := 0x4000_0000;
      powers[0] := p;
      for n := 1 to 32
        invariant PowersMade(n) && p == XPow(Pow2(n - 1))
      {
        XPowNonzero(Pow2(n - 1));
        SquareUp(n - 1);
        p := Multmodp(p, p);
        powers[n] := p;
      }
    }

    /** x2nmodp: x^(n 2^k). */
    method X2nmodp(n: nat, k: nat) returns (p: bv32)
      requires Allocated() && PowersMade(32)
      ensures p == XPow(Shl(n, k))
    {
      hide XPow, Mul, Pow2, Shl;
      var left, j := n, k;
      ghost var e: nat := 0;
      StartPower();
      p := ONE;
      while left != 0
        invariant p == XPow(e) && e + Shl(left, j) == Shl(n, k)
      {
        HalveExponent(left, j);
        if left % 2 == 1 {
          Wraps(j);
          XPowNonzero(Pow2(j % 32));
          XPowAdd(Pow2(j), e);
          p := Multmodp(powers[j % 32], p);
          e := Pow2(j) + e;
        }
        left := left / 2;
        j := j + 1;
      }
      HalveExponent(0, j);
    }

    /** braid for one table. */
    method MakeBraid(k: nat)
      requires Allocated() && PowersMade(32) && k < 8
      modifies braids
      ensures BraidMade(k, 256)
      ensures forall j :: 0 <= j < 8 && j != k && old(BraidMade(j, 256)) ==> BraidMade(j, 256)
    {
      hide XPow, Mul, Shl, BraidEntry, ByteOf, AtTop, FromByte;
      var p := X2nmodp((5 * 8 + 3 - k) * 8, 0);
      ShlOnce((5 * 8 + 3 - k) * 8);
      EntryZero(k);
      braids[k, 0] := 0;
      for i := 1 to 256
        invariant BraidMade(k, i)
        invariant forall j, i :: 0 <= j < 8 && j != k && 0 <= i < 256 ==> braids[j, i] == old(braids[j, i])
      {
        ByteOfZero(i);
        EntryIs(k, ByteOf(i));
        var q := Multmodp(AtTop(ByteOf(i)), p);
        braids[k, i] := q;
      }
    }

    method MakeBraids()
      requires Allocated() && PowersMade(32)
      modifies braids
      ensures BraidsMade(8)
    {
      hide XPow, Pow2, BraidEntry, ByteOf;
      for k := 0 to 8
        invariant BraidsMade(k)
      {
        MakeBraid(k);
      }
    }

    method MakeCrcTable()
      requires Allocated()
      modifies bytes, powers, braids
      ensures Made()
    {
      hide XPow, Pow2, BraidEntry, ByteOf, Steps, FromByte;
      MakeBytes();
      MakePowers();
      MakeBraids();
    }

    // ---- The CRC of a buffer ----

    /** One byte through the table. */
    method ByteTurn(c: bv32, b: bv8) returns (r: bv32)
      requires Made()
      ensures r == CrcByte(c, b)
    {
      hide Steps, FromByte, ByteOf, Index, Low, Drop, Add, CrcByte, PowersMade, BraidsMade;
      var i := Low(Add(c, FromByte(b)));
      ByteIndex(i);
      TableByte(c, b);
      r := Add(Drop(c), bytes[Index(i)]);
    }

    /** crc_word. */
    method CrcWord(data: bv64) returns (r: bv32)
      requires Made()
      ensures r == WordCrc(data)
    {
      hide Steps, FromByte, ByteOf, Index, Low64, Drop64, Add64, Widen, Narrow, WordCrc, PowersMade, BraidsMade;
      var d := data;
      for k := 0 to 8
        invariant WordSteps(d, 8 - k) == WordSteps(data, 8)
      {
        ByteIndex(Low64(d));
        d := Add64(Drop64(d), Widen(bytes[Index(Low64(d))]));
      }
      WordLoop(data);
      NarrowWiden(WordCrc(data));
      r := Narrow(d);
    }

    method BraidLookup(k: nat, b: bv8) returns (r: bv32)
      requires Made() && k < 8
      ensures r == BraidEntry(k, b)
    {
      hide BraidEntry, ByteOf, Index, BytesMade, PowersMade;
      ByteIndex(b);
      assert BraidMade(k, 256);
      r := braids[k, Index(b)];
    }

    /** The braid tables applied to the eight bytes of each of five words. */
    method BraidSums(w0: bv64, w1: bv64, w2: bv64, w3: bv64, w4: bv64)
      returns (c0: bv32, c1: bv32, c2: bv32, c3: bv32, c4: bv32)
      requires Made()
      ensures c0 == Braided(w0) && c1 == Braided(w1) && c2 == Braided(w2) && c3 == Braided(w3) && c4 == Braided(w4)
    {
      hide *;
      c0 := BraidLookup(0, Low64(w0));
      c1 := BraidLookup(0, Low64(w1));
      c2 := BraidLookup(0, Low64(w2));
      c3 := BraidLookup(0, Low64(w3));
      c4 := BraidLookup(0, Low64(w4));
      SumStart(w0);
      SumStart(w1);
      SumStart(w2);
      SumStart(w3);
      SumStart(w4);
      for k := 1 to 8
        invariant Summed(c0, w0, k) && Summed(c1, w1, k) && Summed(c2, w2, k) && Summed(c3, w3, k) && Summed(c4, w4, k)
      {
        SumTurn(c0, w0, k);
        SumTurn(c1, w1, k);
        SumTurn(c2, w2, k);
        SumTurn(c3, w3, k);
        SumTurn(c4, w4, k);
        var t0 := BraidLookup(k, Low64(ShiftBytes(w0, k)));
        var t1 := BraidLookup(k, Low64(ShiftBytes(w1, k)));
        var t2 := BraidLookup(k, Low64(ShiftBytes(w2, k)));
        var t3 := BraidLookup(k, Low64(ShiftBytes(w3, k)));
        var t4 := BraidLookup(k, Low64(ShiftBytes(w4, k)));
        c0, c1, c2, c3, c4 := Add(c0, t0), Add(c1, t1), Add(c2, t2), Add(c3, t3), Add(c4, t4);
      }
      AllSummed(c0, w0);
      AllSummed(c1, w1);
      AllSummed(c2, w2);
      AllSummed(c3, w3);
      AllSummed(c4, w4);
    }

    /** The last block: five chained word CRCs. */
    method LastSums(w0: bv64, w1: bv64, w2: bv64, w3: bv64, w4: bv64) returns (r: bv32)
      requires Made()
      ensures r == Run(0, [w0, w1, w2, w3, w4])
    {
      hide *;
      var r0 := CrcWord(w0);
      var r1 := CrcWord(Add64(w1, Widen(r0)));
      var r2 := CrcWord(Add64(w2, Widen(r1)));
      var r3 := CrcWord(Add64(w3, Widen(r2)));
      r := CrcWord(Add64(w4, Widen(r3)));
      LastBlock(w0, w1, w2, w3, w4, r0, r1, r2, r3, r);
    }

    /** The five next words, each with its braid's register added in. */
    method LoadBlock(buf: array<bv8>, pos: nat, ghost end: nat, c0: bv32, c1: bv32, c2: bv32, c3: bv32, c4: bv32)
      returns (w0: bv64, w1: bv64, w2: bv64, w3: bv64, w4: bv64)
      requires pos + 40 <= end <= buf.Length
      ensures Loaded(buf[pos..end], c0, c1, c2, c3, c4, w0, w1, w2, w3, w4)
    {
      hide Word, Add64, Widen;
      w0 := Add64(Widen(c0), LoadWord(buf, pos));
      w1 := Add64(Widen(c1), LoadWord(buf, pos + 8));
      w2 := Add64(Widen(c2), LoadWord(buf, pos + 16));
      w3 := Add64(Widen(c3), LoadWord(buf, pos + 24));
      w4 := Add64(Widen(c4), LoadWord(buf, pos + 32));
      assert forall i :: 0 <= i < 40 ==> buf[pos..end][i] == buf[pos + i];
    }

    /** One block: its five words go into the registers of the five braids. */
    method BraidTurn(buf: array<bv8>, pos: nat, ghost end: nat, c0: bv32, c1: bv32, c2: bv32, c3: bv32, c4: bv32)
      returns (d0: bv32, d1: bv32, d2: bv32, d3: bv32, d4: bv32)
      requires Made() && pos + 80 <= end <= buf.Length
      ensures Ahead(buf, pos + 40, end, d0, d1, d2, d3, d4) == Ahead(buf, pos, end, c0, c1, c2, c3, c4)
    {
      hide Run, Joined, Words, Braided, Loaded, Made;
      var w0, w1, w2, w3, w4 := LoadBlock(buf, pos, end, c0, c1, c2, c3, c4);
      BlockTurn(buf[pos..end], c0, c1, c2, c3, c4, w0, w1, w2, w3, w4);
      d0, d1, d2, d3, d4 := BraidSums(w0, w1, w2, w3, w4);
      assert buf[pos..end][40..] == buf[pos + 40..end];
    }

    /** The last block, combining the braids. */
    method BraidEnd(buf: array<bv8>, pos: nat, ghost end: nat, c0: bv32, c1: bv32, c2: bv32, c3: bv32, c4: bv32)
      returns (r: bv32)
      requires Made() && pos + 40 == end <= buf.Length
      ensures r == Ahead(buf, pos, end, c0, c1, c2, c3, c4)
    {
      hide Run, Joined, Words, Loaded, Made;
      var w0, w1, w2, w3, w4 := LoadBlock(buf, pos, end, c0, c1, c2, c3, c4);
      BlockEnd(buf[pos..end], c0, c1, c2, c3, c4, w0, w1, w2, w3, w4);
      r := LastSums(w0, w1, w2, w3, w4);
    }

    /** The braided part: blks blocks of five words from pos on. */
    method BraidedCrc(crc: bv32, buf: array<bv8>, pos: nat, blks: nat) returns (r: bv32)
      requires Made() && blks >= 1 && pos + 40 * blks <= buf.Length
      ensures r == Crc(crc, buf[pos..pos + 40 * blks])
    {
      hide *;
      ghost var end := pos + 40 * blks;
      var c0, c1, c2, c3, c4 := crc, 0, 0, 0, 0;
      var at, left := pos, blks;
      AheadStart(crc, buf, pos, end);
      while left - 1 != 0
        invariant left >= 1 && at + 40 * left == end && pos <= at
        invariant Ahead(buf, at, end, c0, c1, c2, c3, c4) == Crc(crc, buf[pos..end])
      {
        c0, c1, c2, c3, c4 := BraidTurn(buf, at, end, c0, c1, c2, c3, c4);
        at, left := at + 40, left - 1;
      }
      r := BraidEnd(buf, at, end, c0, c1, c2, c3, c4);
    }

    /** The bytes before the first word boundary. */
    method ToBoundary(crc: bv32, buf: array<bv8>, addr: nat, len: nat) returns (r: bv32, pos: nat)
      requires Made() && len <= buf.Length
      ensures pos <= len && pos < 8 && (pos == len || (addr + pos) % 8 == 0)
      ensures r == Crc(crc, buf[..pos])
    {
      hide *;
      ghost var skip := Skip(addr);
      r, pos := crc, 0;
      CrcEmpty(crc, buf[..0]);
      while len - pos != 0 && (addr + pos) % 8 != 0
        invariant pos <= len && r == Crc(crc, buf[..pos])
        invariant pos <= skip
      {
        CrcMore(crc, buf[..pos], buf[pos]);
        assert buf[..pos + 1] == buf[..pos] + [buf[pos]];
        r := ByteTurn(r, buf[pos]);
        pos := pos + 1;
      }
    }

    /** The n bytes from pos on, one at a time. */
    method BytesCrc(crc: bv32, buf: array<bv8>, pos: nat, n: nat) returns (r: bv32)
      requires Made() && pos + n <= buf.Length
      ensures r == Crc(crc, buf[pos..pos + n])
    {
      hide *;
      r := crc;
      CrcEmpty(crc, buf[pos..pos]);
      for i := 0 to n
        invariant r == Crc(crc, buf[pos..pos + i])
      {
        CrcMore(crc, buf[pos..pos + i], buf[pos + i]);
        assert buf[pos..pos + i + 1] == buf[pos..pos + i] + [buf[pos + i]];
        r := ByteTurn(r, buf[pos + i]);
      }
    }

    /** The bytes after the last block: eight at a time, then one at a time. */
    method TailCrc(crc: bv32, buf: array<bv8>, pos: nat, end: nat) returns (r: bv32)
      requires Made() && pos <= end <= buf.Length
      ensures r == Crc(crc, buf[pos..end])
    {
      hide *;
      var at := pos;
      r := crc;
      CrcEmpty(crc, buf[pos..pos]);
      while end - at >= 8
        invariant pos <= at <= end && r == Crc(crc, buf[pos..at])
      {
        CrcOn(crc, buf[..], pos, at, at + 8);
        r := BytesCrc(r, buf, at, 8);
        at := at + 8;
      }
      CrcOn(crc, buf[..], pos, at, end);
      r := BytesCrc(r, buf, at, end - at);
    }

    /**
     * crc32_z: the CRC of the first len bytes of buf, carried on from crc; 0 for a null buffer.
     * addr is the address of the buffer, of which only the alignment to a word matters.
     */
    method Crc32Z(crc: bv32, buf: array?<bv8>, addr: nat, len: nat) returns (r: bv32)
      requires Made() && (buf != null ==> len <= buf.Length)
      ensures r == if buf == null then 0 else Crc32(crc, buf[..len])
    {
      hide *;
      if buf == null {
        return 0;
      }
      var c, pos := Not(crc), 0;
      CrcEmpty(c, buf[0..0]);
      if len >= 5 * 8 + 8 - 1 {
        c, pos := ToBoundary(c, buf, addr, len);
        var blks := (len - pos) / (5 * 8);
        CrcOn(Not(crc), buf[..], 0, pos, pos + 40 * blks);
        c := BraidedCrc(c, buf, pos, blks);
        pos := pos + 40 * blks;
      }
      CrcOn(Not(crc), buf[..], 0, pos, len);
      c := TailCrc(c, buf, pos, len);
      r := Not(c);
      CrcIs(crc, buf[..len]);
    }

    // ---- Combination ----

    /** crc32_combine64: the CRC of a concatenation from the CRCs of its parts. */
    method Combine64(crc1: bv32, crc2: bv32, len2: nat) returns (r: bv32)
      requires Made()
      ensures forall c, s, t ::
        |t| == len2 && crc1 == Crc32(c, s) && crc2 == Crc32(0, t) ==> r == Crc32(c, s + t)
    {
      hide *;
      MadePowers();
      XPowNonzero(Shl(len2, 3));
      var op := X2nmodp(len2, 3);
      r := Multmodp(op, crc1);
      r := Add(r, crc2);
      forall c, s, t | |t| == len2 && crc1 == Crc32(c, s) && crc2 == Crc32(0, t)
        ensures r == Crc32(c, s + t)
      {
        ProductCombines(op, crc1, c, s, t);
      }
    }

    /** crc32_combine_gen64: the operator for a second part of len2 bytes. */
    method CombineGen64(len2: nat) returns (op: bv32)
      requires Made()
      ensures op != 0 && op == XPow(8 * len2)
    {
      hide *;
      MadePowers();
      XPowNonzero(Shl(len2, 3));
      ShlThree(len2);
      op := X2nmodp(len2, 3);
    }

    /** crc32_combine_op: the operator for the length of the second part combines like crc32_combine64. */
    method CombineOp(crc1: bv32, crc2: bv32, op: bv32) returns (r: bv32)
      requires op != 0
      ensures forall c, s, t ::
        op == XPow(8 * |t|) && crc1 == Crc32(c, s) && crc2 == Crc32(0, t) ==> r == Crc32(c, s + t)
    {
      hide *;
      r := Multmodp(op, crc1);
      r := Add(r, crc2);
      forall c, s, t | op == XPow(8 * |t|) && crc1 == Crc32(c, s) && crc2 == Crc32(0, t)
        ensures r == Crc32(c, s + t)
      {
        ShlThree(|t|);
        ProductCombines(op, crc1, c, s, t);
      }
    }
  }

  /** The register that the braids' registers and the words from at to end will make. */
  ghost function Ahead(buf: array<bv8>, at: nat, end: nat, c0: bv32, c1: bv32, c2: bv32, c3: bv32, c4: bv32): bv32
    requires at + 40 <= end <= buf.Length
    reads buf
  {
    Run(0, Joined(Words(buf[at..end]), c0, c1, c2, c3, c4))
  }

  lemma AheadStart(crc: bv32, buf: array<bv8>, at: nat, end: nat)
    requires at + 40 <= end <= buf.Length && (end - at) % 8 == 0
    ensures Ahead(buf, at, end, crc, 0, 0, 0, 0) == Crc(crc, buf[at..end])
  {
    hide Run, Joined, Words, Crc;
    CrcOfWords(crc, buf[at..end]);
    JoinedStart(crc, Words(buf[at..end]));
  }

  /** The words of memory, as a little-endian machine loads them. */
  function LoadWord(buf: array<bv8>, i: nat): bv64
    requires i + 8 <= buf.Length
    reads buf
  {
    Word(buf[i], buf[i + 1], buf[i + 2], buf[i + 3], buf[i + 4], buf[i + 5], buf[i + 6], buf[i + 7])
  }

  /** The cast of a word to a CRC. */
  function Narrow(d: bv64): bv32
  {
    (d & 0xffff_ffff) as bv32
  }

  lemma NarrowWiden(c: bv32)
    ensures Narrow(Widen(c)) == c
  {
  }

  lemma AllSummed(s: bv32, x: bv64)
    requires Summed(s, x, 8)
    ensures s == Braided(x)
  {
  }

  lemma CrcIs(c: bv32, s: seq<bv8>)
    ensures Crc32(c, s) == Not(Crc(Not(c), s))
  {
  }

  /** How many bytes there are up to the next word boundary. */
  ghost function Skip(addr: nat): (n: nat)
    ensures n < 8 && (addr + n) % 8 == 0
  {
    (8 - addr % 8) % 8
  }

  /** The register over one stretch carries on to the next. */
  lemma CrcOn(c: bv32, s: seq<bv8>, i: nat, j: nat, k: nat)
    requires i <= j <= k <= |s|
    ensures Crc(Crc(c, s[i..j]), s[j..k]) == Crc(c, s[i..k])
  {
    hide Crc;
    CrcAppend(c, s[i..j], s[j..k]);
    assert s[i..j] + s[j..k] == s[i..k];
  }

  lemma CrcMore(c: bv32, s: seq<bv8>, b: bv8)
    ensures Crc(c, s + [b]) == CrcByte(Crc(c, s), b)
  {
    hide CrcByte;
    CrcAppend(c, s, [b]);
    assert [b][1..] == [];
  }

  lemma ShlThree(n: nat)
    ensures Shl(n, 3) == 8 * n
  {
    assert Pow2(3) == 8;
  }

  lemma ProductCombines(op: bv32, crc1: bv32, c: bv32, s: seq<bv8>, t: seq<bv8>)
    requires op == XPow(Shl(|t|, 3)) && crc1 == Crc32(c, s)
    ensures Add(Mul(op, crc1), Crc32(0, t)) == Crc32(c, s + t)
  {
    hide Mul, XPow, Add, Crc32, Steps, Shl;
    ShlThree(|t|);
    MulCommutes(op, crc1);
    MulXPow(crc1, 8 * |t|);
    Combines(c, s, t);
  }

  lemma StartPower()
    ensures XPow(0) == ONE
  {
  }
}
