/** The numbers that 32-bit words stand for, and what the operations on words do to them. */
module BitNumbers {
  import opened Bits
  import opened BitVectors

  const TWO_32: nat := 0x1_0000_0000

  function Half(x: bv32): bv32
  {
    x >> 1
  }

  function Odd(x: bv32): bool
  {
    x & 1 == 1
  }

  function Next(x: bv32): bv32
  {
    x + 1
  }

  function Plus(x: bv32, y: bv32): bv32
  {
    x + y
  }

  function Product(x: bv32, y: bv32): bv32
  {
    x * y
  }

  /** The number with the bits of x. */
  function Number(x: bv32): nat
  {
    if x == 0 then 0 else HalfBelow(x); 2 * Number(Half(x)) + if Odd(x) then 1 else 0
  }

  lemma HalfBelow(x: bv32)
    ensures x != 0 ==> Half(x) < x
    ensures x != 0 && !Odd(x) ==> Half(x) != 0
  {
  }

  /** The word of n modulo 2^32. */
  ghost function Word(n: nat): bv32
  {
    if n == 0 then 0 else Next(Word(n - 1))
  }

  // ---- Counting ----

  lemma NextHalves(x: bv32)
    ensures Odd(Next(x)) == !Odd(x)
    ensures Half(Next(x)) == if Odd(x) then if x == 0xffff_ffff then 0 else Next(Half(x)) else Half(x)
    ensures Next(x) == 0 <==> x == 0xffff_ffff
    ensures Half(x) != 0xffff_ffff && (x == 0 ==> !Odd(x) && Half(x) == 0)
  {
  }

  lemma {:induction false} NumberNext(x: bv32)
    ensures x != 0xffff_ffff ==> Number(Next(x)) == Number(x) + 1
  {
    hide Half, Odd, Next;
    NextHalves(x);
    if x == 0 {
      assert Number(Half(Next(x))) == 0;
    } else {
      HalfBelow(x);
      NumberNext(Half(x));
    }
  }

  lemma LargestNumber()
    ensures Number(0xffff_ffff) == TWO_32 - 1
  {
    assert Number(0xff) == 0xff;
    assert Number(0xffff) == 0xffff;
    assert Number(0xff_ffff) == 0xff_ffff;
  }

  function Above(x: bv32): bv32
  {
    0xffff_ffff - x
  }

  lemma Upwards(x: bv32)
    ensures x != 0xffff_ffff ==> Above(Next(x)) < Above(x)
  {
  }

  lemma {:induction false} NumberBound(x: bv32)
    ensures Number(x) < TWO_32
    decreases Above(x)
  {
    hide Number, Next, Above;
    if x == 0xffff_ffff {
      LargestNumber();
    } else {
      Upwards(x);
      NumberBound(Next(x));
      NumberNext(x);
    }
  }

  lemma HalvesMake(x: bv32, y: bv32)
    requires Half(x) == Half(y) && Odd(x) == Odd(y)
    ensures x == y
  {
  }

  lemma {:induction false} SameNumber(x: bv32, y: bv32)
    requires Number(x) == Number(y)
    ensures x == y
  {
    hide Half, Odd;
    NextHalves(x);
    NextHalves(y);
    if x == 0 {
      NotZero(y);
    } else if y == 0 {
      NotZero(x);
    } else {
      HalfBelow(x);
      SameNumber(Half(x), Half(y));
      HalvesMake(x, y);
    }
  }

  lemma {:induction false} NotZero(x: bv32)
    ensures Number(x) == 0 <==> x == 0
  {
    hide Half, Odd;
    if x == 0 {
    } else {
      HalfBelow(x);
      NotZero(Half(x));
    }
  }

  lemma {:induction false} NumberOfWord(n: nat)
    requires n < TWO_32
    ensures Number(Word(n)) == n
  {
    hide Number, Next;
    if n == 0 {
      NotZero(0);
    } else {
      NumberOfWord(n - 1);
      LargestNumber();
      NumberNext(Word(n - 1));
    }
  }

  /** Every word is the word of its number. */
  lemma WordOfNumber(x: bv32)
    ensures Word(Number(x)) == x
  {
    hide Number, Word;
    NumberBound(x);
    NumberOfWord(Number(x));
    SameNumber(Word(Number(x)), x);
  }

  lemma WordStep(n: nat)
    ensures Word(0) == 0 && Word(n + 1) == Next(Word(n))
  {
  }

  lemma {:induction false} WordTurns(n: nat)
    ensures Word(n + TWO_32) == Word(n)
  {
    hide Word, Number, Next;
    if n == 0 {
      LargestNumber();
      WordOfNumber(0xffff_ffff);
      WordStep(TWO_32 - 1);
      NextHalves(0xffff_ffff);
    } else {
      WordTurns(n - 1);
      WordStep(n - 1);
      WordStep(n - 1 + TWO_32);
    }
  }

  /** The number of a word is n modulo 2^32. */
  lemma {:induction false} Wrapped(n: nat)
    ensures Number(Word(n)) == n % TWO_32
  {
    hide Word, Number;
    if n < TWO_32 {
      NumberOfWord(n);
    } else {
      Wrapped(n - TWO_32);
      WordTurns(n - TWO_32);
    }
  }

  // ---- Arithmetic ----

  lemma PlusNext(x: bv32, y: bv32)
    ensures Plus(x, 0) == x && Plus(x, Next(y)) == Next(Plus(x, y))
  {
  }

  lemma {:induction false} WordPlus(m: nat, n: nat)
    ensures Word(m + n) == Plus(Word(m), Word(n))
  {
    hide Next, Plus;
    if n == 0 {
      PlusNext(Word(m), 0);
    } else {
      WordPlus(m, n - 1);
      PlusNext(Word(m), Word(n - 1));
    }
  }

  lemma RawProduct(x: bv32, y: bv32)
    ensures Product(x, y + 1) == x * y + x
  {
  }

  lemma RawPlus(x: bv32, y: bv32)
    ensures Plus(x * y, x) == x * y + x
  {
  }

  lemma ProductIs(x: bv32, y: bv32)
    ensures x * y == Product(x, y)
  {
  }

  lemma NextIs(y: bv32)
    ensures y + 1 == Next(y)
  {
  }

  lemma PlusProduct(x: bv32, y: bv32)
    ensures Product(x, y + 1) == Plus(x * y, x)
  {
    hide *;
    RawProduct(x, y);
    RawPlus(x, y);
  }

  lemma ProductNext(x: bv32, y: bv32)
    ensures Product(x, Next(y)) == Plus(Product(x, y), x)
  {
    hide *;
    PlusProduct(x, y);
    ProductIs(x, y);
    NextIs(y);
  }

  lemma ProductZero(x: bv32)
    ensures Product(x, 0) == 0
  {
  }

  lemma {:induction false} WordProduct(m: nat, n: nat)
    ensures m * n >= 0 && Word(m * n) == Product(Word(m), Word(n))
  {
    hide Word, Next, Plus, Product;
    WordStep(0);
    if n == 0 {
      ProductZero(Word(m));
    } else {
      WordProduct(m, n - 1);
      assert m * n == m * (n - 1) + m;
      WordPlus(m * (n - 1), m);
      WordStep(n - 1);
      ProductNext(Word(m), Word(n - 1));
    }
  }

  lemma NumberPlus(x: bv32, y: bv32)
    ensures Number(Plus(x, y)) == (Number(x) + Number(y)) % TWO_32
  {
    hide Number, Word, Plus;
    WordOfNumber(x);
    WordOfNumber(y);
    WordPlus(Number(x), Number(y));
    Wrapped(Number(x) + Number(y));
  }

  lemma NumberProduct(x: bv32, y: bv32)
    ensures Number(x) * Number(y) >= 0 && Number(Product(x, y)) == Number(x) * Number(y) % TWO_32
  {
    hide Number, Word, Product;
    WordOfNumber(x);
    WordOfNumber(y);
    WordProduct(Number(x), Number(y));
    Wrapped(Number(x) * Number(y));
  }

  // ---- Bits ----

  lemma AddHalves(x: bv32, y: bv32)
    ensures Half(Add(x, y)) == Add(Half(x), Half(y)) && Odd(Add(x, y)) == (Odd(x) != Odd(y))
  {
  }

  lemma NumberHalves(x: bv32)
    ensures Number(x) / 2 == Number(Half(x)) && Number(x) % 2 == if Odd(x) then 1 else 0
  {
    hide Half, Odd;
    NextHalves(x);
  }

  lemma {:induction false} NumberXor(x: bv32, y: bv32)
    ensures Number(Add(x, y)) == Xor(Number(x), Number(y))
    decreases x
  {
    hide Number, Half, Odd, Add, Xor;
    AddZero(x);
    AddZero(y);
    NotZero(0);
    XorZero(Number(x));
    XorZero(Number(y));
    XorCommutes(0, Number(y));
    if x == 0 || y == 0 {
    } else {
      HalfBelow(x);
      NumberXor(Half(x), Half(y));
      AddHalves(x, y);
      NumberHalves(x);
      NumberHalves(y);
      NumberHalves(Add(x, y));
      XorParts(Number(x), Number(y));
      SumParity(Number(x), Number(y));
      Recombine(Number(Add(x, y)), Xor(Number(x), Number(y)));
    }
  }

  lemma SumParity(a: nat, b: nat)
    ensures (a + b) % 2 == if a % 2 == b % 2 then 0 else 1
  {
  }

  function TopTwo(x: bv32): bv32
  {
    x >> 30
  }

  function Half5(x: bv32): bv32
  {
    Half(Half(Half(Half(Half(x)))))
  }

  lemma TopTwoHalves(x: bv32)
    ensures TopTwo(x) == Half5(Half5(Half5(Half5(Half5(Half5(x))))))
  {
  }

  lemma NumberHalf5(x: bv32)
    ensures Number(Half5(x)) == Number(x) / 32
  {
    hide Number, Half;
    NumberHalves(x);
    NumberHalves(Half(x));
    NumberHalves(Half(Half(x)));
    NumberHalves(Half(Half(Half(x))));
    NumberHalves(Half(Half(Half(Half(x)))));
  }

  lemma NumberTopTwo(x: bv32)
    ensures Number(TopTwo(x)) == Number(x) / 0x4000_0000
  {
    hide Number, TopTwo, Half5;
    TopTwoHalves(x);
    var x1, x2 := Half5(x), Half5(Half5(x));
    NumberHalf5(x);
    NumberHalf5(x1);
    NumberHalf5(x2);
    NumberHalf5(Half5(x2));
    NumberHalf5(Half5(Half5(x2)));
    NumberHalf5(Half5(Half5(Half5(x2))));
  }
}
