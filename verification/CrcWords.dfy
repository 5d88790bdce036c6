/** The CRC register over little-endian 64-bit words: absorbing a word, and delaying a register by whole words. */
module CrcWords {
  import opened BitVectors
  import opened CrcPoly
  import opened CrcBytes

  // ---- 64-bit operations ----

  function Add64(a: bv64, b: bv64): bv64
  {
    a ^ b
  }

  function Widen(c: bv32): bv64
  {
    c as bv64
  }

  function Low64(d: bv64): bv8
  {
    (d & 0xff) as bv8
  }

  function Drop64(d: bv64): bv64
  {
    d >> 8
  }

  function AddByte(a: bv8, b: bv8): bv8
  {
    a ^ b
  }

  lemma Xor64(a: bv64, b: bv64, c: bv64)
    ensures a ^ b == b ^ a && (a ^ b) ^ c == a ^ (b ^ c) && a ^ 0 == a && 0 ^ a == a
  {
  }

  lemma LeftSum64(a: bv64, b: bv64, c: bv64)
    ensures Add64(a, b) == a ^ b && Add64(Add64(a, b), c) == (a ^ b) ^ c
  {
  }

  lemma RightSum64(a: bv64, b: bv64, c: bv64)
    ensures Add64(a, Add64(b, c)) == a ^ (b ^ c) && Add64(b, a) == b ^ a
  {
  }

  lemma Zero64(a: bv64)
    ensures Add64(a, 0) == a && Add64(0, a) == a
  {
  }

  lemma Laws64(a: bv64, b: bv64, c: bv64)
    ensures Add64(a, b) == Add64(b, a)
    ensures Add64(Add64(a, b), c) == Add64(a, Add64(b, c))
    ensures Add64(a, 0) == a && Add64(0, a) == a
  {
    hide *;
    LeftSum64(a, b, c);
    RightSum64(a, b, c);
    Zero64(a);
    Xor64(a, b, c);
  }

  lemma WidenAdd(a: bv32, b: bv32)
    ensures Widen(Add(a, b)) == Add64(Widen(a), Widen(b))
  {
  }

  lemma WidenZero()
    ensures Widen(0) == 0
  {
  }

  lemma WidenInjective(a: bv32, b: bv32)
    requires Widen(a) == Widen(b)
    ensures a == b
  {
  }

  /** How the low byte and the rest of a joined register and word look. */
  lemma JoinedParts(r: bv32, v: bv64)
    ensures Low64(Add64(Widen(r), v)) == Low(Add(r, FromByte(Low64(v))))
  {
    JoinedLow(r, v);
  }

  lemma JoinedLow(r: bv32, v: bv64)
    ensures ((((r as bv64) ^ v) & 0xff) as bv8) == (((r ^ (((v & 0xff) as bv8) as bv32)) & 0xff) as bv8)
  {
  }

  lemma JoinedDrop(r: bv32, v: bv64)
    ensures Drop64(Add64(Widen(r), v)) == Add64(Widen(Drop(r)), Drop64(v))
  {
    JoinedShift(r, v);
  }

  lemma JoinedShift(r: bv32, v: bv64)
    ensures ((r as bv64) ^ v) >> 8 == ((r >> 8) as bv64) ^ (v >> 8)
  {
  }

  lemma SumParts(d: bv64, e: bv64)
    ensures Low64(Add64(d, e)) == AddByte(Low64(d), Low64(e))
    ensures Drop64(Add64(d, e)) == Add64(Drop64(d), Drop64(e))
  {
  }

  lemma ByteSum(a: bv8, b: bv8)
    ensures FromByte(AddByte(a, b)) == Add(FromByte(a), FromByte(b))
  {
  }

  // ---- Words as byte strings ----

  /** The n lowest bytes of a word, lowest first. */
  function Bytes(d: bv64, n: nat): (s: seq<bv8>)
    ensures |s| == n
    decreases n
  {
    if n == 0 then [] else [Low64(d)] + Bytes(Drop64(d), n - 1)
  }

  function Drops(d: bv64, n: nat): bv64
    decreases n
  {
    if n == 0 then d else Drops(Drop64(d), n - 1)
  }

  /** The word that eight bytes in memory make on a little-endian machine. */
  function Word(b0: bv8, b1: bv8, b2: bv8, b3: bv8, b4: bv8, b5: bv8, b6: bv8, b7: bv8): bv64
  {
    (b0 as bv64) | ((b1 as bv64) << 8) | ((b2 as bv64) << 16) | ((b3 as bv64) << 24)
    | ((b4 as bv64) << 32) | ((b5 as bv64) << 40) | ((b6 as bv64) << 48) | ((b7 as bv64) << 56)
  }

  lemma WordParts(b0: bv8, b1: bv8, b2: bv8, b3: bv8, b4: bv8, b5: bv8, b6: bv8, b7: bv8)
    ensures Low64(Word(b0, b1, b2, b3, b4, b5, b6, b7)) == b0
    ensures Drop64(Word(b0, b1, b2, b3, b4, b5, b6, b7)) == Word(b1, b2, b3, b4, b5, b6, b7, 0)
  {
  }

  /** The word made of eight bytes has these bytes. */
  lemma WordBytes(b0: bv8, b1: bv8, b2: bv8, b3: bv8, b4: bv8, b5: bv8, b6: bv8, b7: bv8)
    ensures Bytes(Word(b0, b1, b2, b3, b4, b5, b6, b7), 8) == [b0, b1, b2, b3, b4, b5, b6, b7]
  {
    hide Word, Low64, Drop64, Bytes;
    var w1, w2 := Word(b1, b2, b3, b4, b5, b6, b7, 0), Word(b2, b3, b4, b5, b6, b7, 0, 0);
    var w3, w4 := Word(b3, b4, b5, b6, b7, 0, 0, 0), Word(b4, b5, b6, b7, 0, 0, 0, 0);
    var w5, w6 := Word(b5, b6, b7, 0, 0, 0, 0, 0), Word(b6, b7, 0, 0, 0, 0, 0, 0);
    var w7 := Word(b7, 0, 0, 0, 0, 0, 0, 0);
    WordParts(b0, b1, b2, b3, b4, b5, b6, b7); BytesCons(Word(b0, b1, b2, b3, b4, b5, b6, b7), 8);
    WordParts(b1, b2, b3, b4, b5, b6, b7, 0); BytesCons(w1, 7);
    WordParts(b2, b3, b4, b5, b6, b7, 0, 0); BytesCons(w2, 6);
    WordParts(b3, b4, b5, b6, b7, 0, 0, 0); BytesCons(w3, 5);
    WordParts(b4, b5, b6, b7, 0, 0, 0, 0); BytesCons(w4, 4);
    WordParts(b5, b6, b7, 0, 0, 0, 0, 0); BytesCons(w5, 3);
    WordParts(b6, b7, 0, 0, 0, 0, 0, 0); BytesCons(w6, 2);
    WordParts(b7, 0, 0, 0, 0, 0, 0, 0); BytesCons(w7, 1);
    BytesCons(Drop64(w7), 0);
    Nested(b0, b1, b2, b3, b4, b5, b6, b7);
  }

  lemma BytesCons(d: bv64, n: nat)
    ensures Bytes(d, n) == if n == 0 then [] else [Low64(d)] + Bytes(Drop64(d), n - 1)
  {
    hide Low64, Drop64;
  }

  lemma Nested<T>(a: T, b: T, c: T, d: T, e: T, f: T, g: T, h: T)
    ensures [a] + ([b] + ([c] + ([d] + ([e] + ([f] + ([g] + ([h] + []))))))) == [a, b, c, d, e, f, g, h]
  {
  }

  /** After eight drops nothing is left of a word. */
  lemma AllDropped(d: bv64)
    ensures Drops(d, 8) == 0
  {
    hide Drop64;
    assert Drops(d, 8) == Drops(Drop64(Drop64(d)), 6);
    assert Drops(d, 8) == Drops(Drop64(Drop64(Drop64(Drop64(d)))), 4);
    assert Drops(d, 8) == Drops(Drop64(Drop64(Drop64(Drop64(Drop64(Drop64(d)))))), 2);
    EightDrops(d);
  }

  lemma EightDrops(d: bv64)
    ensures Drop64(Drop64(Drop64(Drop64(Drop64(Drop64(Drop64(Drop64(d)))))))) == 0
  {
  }

  // ---- Absorbing a word ----

  /** One turn of the word loop: the low byte goes through the table. */
  function WordStep(d: bv64): bv64
  {
    Add64(Drop64(d), Widen(Steps(FromByte(Low64(d)), 8)))
  }

  function WordSteps(d: bv64, n: nat): bv64
    decreases n
  {
    if n == 0 then d else WordSteps(WordStep(d), n - 1)
  }

  lemma WordStepIs(r: bv32, v: bv64)
    ensures WordStep(Add64(Widen(r), v)) == Add64(Widen(CrcByte(r, Low64(v))), Drop64(v))
  {
    hide Add64, Widen, Low64, Drop64, Drop, Low, FromByte, Steps, Add, CrcByte;
    JoinedParts(r, v);
    JoinedDrop(r, v);
    TableByte(r, Low64(v));
    var t := Steps(FromByte(Low64(Add64(Widen(r), v))), 8);
    WidenAdd(Drop(r), t);
    Laws64(Widen(Drop(r)), Drop64(v), Widen(t));
    Laws64(Drop64(v), Widen(t), 0);
    Laws64(Widen(Drop(r)), Widen(t), Drop64(v));
  }

  lemma {:induction false} WordRun(r: bv32, v: bv64, n: nat)
    ensures WordSteps(Add64(Widen(r), v), n) == Add64(Widen(Crc(r, Bytes(v, n))), Drops(v, n))
    decreases n
  {
    hide Add64, Widen, Low64, Drop64, WordStep, CrcByte;
    if n == 0 {
    } else {
      WordStepIs(r, v);
      WordRun(CrcByte(r, Low64(v)), Drop64(v), n - 1);
      assert Bytes(v, n)[1..] == Bytes(Drop64(v), n - 1);
    }
  }

  /** The CRC of one word from a zero register. */
  function WordCrc(d: bv64): bv32
  {
    Crc(0, Bytes(d, 8))
  }

  /** Eight turns of the word loop. */
  lemma WordLoop(d: bv64)
    ensures WordSteps(d, 8) == Widen(WordCrc(d))
  {
    hide Add64, Widen, WordSteps, Crc, Bytes, Drops;
    WidenZero();
    Laws64(d, 0, 0);
    WordRun(0, d, 8);
    AllDropped(d);
    Laws64(Widen(WordCrc(d)), 0, 0);
  }

  /** A register absorbs a word by being added to it. */
  lemma Absorb(c: bv32, v: bv64)
    ensures WordCrc(Add64(Widen(c), v)) == Crc(c, Bytes(v, 8))
  {
    hide Add64, Widen, WordSteps, Crc, Bytes, Drops;
    WordLoop(Add64(Widen(c), v));
    WordRun(c, v, 8);
    AllDropped(v);
    Laws64(Widen(Crc(c, Bytes(v, 8))), 0, 0);
    WidenInjective(WordCrc(Add64(Widen(c), v)), Crc(c, Bytes(v, 8)));
  }

  // ---- Linearity over words ----

  lemma ByteLinear(c: bv32, c': bv32, a: bv8, b: bv8)
    ensures CrcByte(Add(c, c'), AddByte(a, b)) == Add(CrcByte(c, a), CrcByte(c', b))
  {
    hide Add, FromByte, AddByte, Steps;
    ByteSum(a, b);
    AddMiddle(c, c', FromByte(a), FromByte(b));
    StepsAdd(Add(c, FromByte(a)), Add(c', FromByte(b)), 8);
  }

  lemma {:induction false} BytesLinear(c: bv32, c': bv32, d: bv64, e: bv64, n: nat)
    ensures Crc(Add(c, c'), Bytes(Add64(d, e), n)) == Add(Crc(c, Bytes(d, n)), Crc(c', Bytes(e, n)))
    decreases n
  {
    hide Add, Add64, Low64, Drop64, AddByte, CrcByte;
    if n == 0 {
    } else {
      SumParts(d, e);
      ByteLinear(c, c', Low64(d), Low64(e));
      BytesLinear(CrcByte(c, Low64(d)), CrcByte(c', Low64(e)), Drop64(d), Drop64(e), n - 1);
      assert Bytes(Add64(d, e), n)[1..] == Bytes(Add64(Drop64(d), Drop64(e)), n - 1);
      assert Bytes(d, n)[1..] == Bytes(Drop64(d), n - 1);
      assert Bytes(e, n)[1..] == Bytes(Drop64(e), n - 1);
    }
  }

  lemma WordLinear(d: bv64, e: bv64)
    ensures WordCrc(Add64(d, e)) == Add(WordCrc(d), WordCrc(e))
  {
    hide Add, Add64, Crc, Bytes;
    AddLaws(0, 0, 0);
    BytesLinear(0, 0, d, e, 8);
  }

  /** A register alone, as a word, takes 64 steps. */
  lemma WordOfRegister(c: bv32)
    ensures WordCrc(Widen(c)) == Steps(c, 64)
  {
    hide Add, Add64, Widen, Crc, Bytes, Steps, WordCrc;
    Laws64(Widen(c), 0, 0);
    Absorb(c, 0);
    AddLaws(c, 0, 0);
    CrcDifference(0, c, Bytes(0, 8));
    ZeroWord();
    AddLaws(Steps(c, 64), 0, 0);
  }

  lemma ZeroWord()
    ensures Crc(0, Bytes(0, 8)) == 0
  {
    hide Add, Add64, Crc, Bytes;
    var w := Crc(0, Bytes(0, 8));
    AddLaws(0, 0, 0);
    Laws64(0, 0, 0);
    BytesLinear(0, 0, 0, 0, 8);
    AddLaws(w, 0, 0);
  }

  // ---- Word strings and delayed registers ----

  /** The register after a string of words. */
  function Run(c: bv32, ws: seq<bv64>): bv32
    decreases |ws|
  {
    if |ws| == 0 then c else Run(WordCrc(Add64(Widen(c), ws[0])), ws[1..])
  }

  /** Adding a register into a word string at position k. */
  function Into(ws: seq<bv64>, k: nat, c: bv32): seq<bv64>
    requires k < |ws|
  {
    ws[k := Add64(Widen(c), ws[k])]
  }

  /** A summand of the register may be taken out, moved on by k words, and added in there. */
  lemma {:induction false} Delay(d: bv32, c: bv32, ws: seq<bv64>, k: nat)
    requires k < |ws|
    ensures Run(Add(d, c), ws) == Run(d, Into(ws, k, Steps(c, 64 * k)))
    decreases k
  {
    hide Add, Add64, Widen, WordCrc, Steps;
    WidenAdd(d, c);
    Laws64(Widen(d), Widen(c), ws[0]);
    Laws64(Widen(c), Widen(d), ws[0]);
    Laws64(Widen(c), ws[0], 0);
    var moved := Into(ws, k, Steps(c, 64 * k));
    if k == 0 {
      StepsNone(c);
      assert moved[1..] == ws[1..];
    } else {
      var d' := WordCrc(Add64(Widen(d), ws[0]));
      WordLinear(Widen(c), Add64(Widen(d), ws[0]));
      WordOfRegister(c);
      AddLaws(Steps(c, 64), d', 0);
      Delay(d', Steps(c, 64), ws[1..], k - 1);
      StepsPlus(c, 64, 64 * (k - 1));
      assert moved[1..] == Into(ws[1..], k - 1, Steps(c, 64 * k));
    }
  }

  /** A word at the front may be replaced by its CRC, four words further on, added in after it. */
  lemma Braid(x: bv64, ws: seq<bv64>)
    requires |ws| >= 5
    ensures Run(0, [x] + ws) == Run(0, Into(ws, 4, Steps(WordCrc(x), 256)))
  {
    hide Add, Add64, Widen, WordCrc, Steps, Into;
    WidenZero();
    Laws64(x, 0, 0);
    assert ([x] + ws)[1..] == ws;
    AddLaws(WordCrc(x), 0, 0);
    Delay(0, WordCrc(x), ws, 4);
  }
}
