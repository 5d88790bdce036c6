/** 32-bit words as vectors of bits: addition, which is exclusive or, and words of a single bit. */
module BitVectors {

  function Add(a: bv32, b: bv32): bv32
  {
    a ^ b
  }

  lemma RawLaws(a: bv32, b: bv32, c: bv32)
    ensures a ^ b == b ^ a && (a ^ b) ^ c == a ^ (b ^ c)
  {
  }

  lemma LeftSum(a: bv32, b: bv32, c: bv32)
    ensures Add(a, b) == a ^ b && Add(Add(a, b), c) == (a ^ b) ^ c
  {
  }

  lemma RightSum(a: bv32, b: bv32, c: bv32)
    ensures Add(a, Add(b, c)) == a ^ (b ^ c) && Add(b, a) == b ^ a
  {
  }

  lemma AddZero(a: bv32)
    ensures Add(a, 0) == a && Add(0, a) == a && Add(a, a) == 0
  {
  }

  lemma AddLaws(a: bv32, b: bv32, c: bv32)
    ensures Add(a, b) == Add(b, a)
    ensures Add(Add(a, b), c) == Add(a, Add(b, c))
    ensures Add(a, 0) == a && Add(0, a) == a && Add(a, a) == 0
  {
    hide *;
    LeftSum(a, b, c);
    RightSum(a, b, c);
    AddZero(a);
    RawLaws(a, b, c);
  }

  /** Exchanging the middle terms of a sum of four. */
  lemma AddMiddle(a: bv32, b: bv32, c: bv32, d: bv32)
    ensures Add(Add(a, b), Add(c, d)) == Add(Add(a, c), Add(b, d))
  {
    hide Add;
    AddLaws(a, b, Add(c, d));
    AddLaws(b, c, d);
    AddLaws(c, b, d);
    AddLaws(a, c, Add(b, d));
  }

  /** Exactly one bit is set. */
  predicate Single(m: bv32)
  {
    m != 0 && m & (m - 1) == 0
  }
}
