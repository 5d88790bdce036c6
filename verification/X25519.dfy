/** The X25519 function of section 5 of RFC 7748, and the library's constant-time ladder for it. */
module X25519Spec {
  import opened Bits
  import opened Field25519

  const T254: int := 28948022309329048855892746252171976963317496166410141009864396001978282409984

  /** The registers of the RFC's loop. */
  datatype Ladder = Ladder(x2: int, z2: int, x3: int, z3: int, swap: int)

  /** cswap of the RFC, on both pairs of registers. */
  function Swapped(s: Ladder, bit: int): Ladder
  {
    if bit == 1 then Ladder(s.x3, s.z3, s.x2, s.z2, s.swap) else s
  }

  /** The arithmetic of one turn of the RFC's loop, with a24 = 121665. */
  function Turn(x1: int, s: Ladder): Ladder
  {
    var a := FAdd(s.x2, s.z2);
    var aa := FSq(a);
    var b := FSub(s.x2, s.z2);
    var bb := FSq(b);
    var e := FSub(aa, bb);
    var c := FAdd(s.x3, s.z3);
    var d := FSub(s.x3, s.z3);
    var da := FMul(d, a);
    var cb := FMul(c, b);
    Ladder(FMul(aa, bb), FMul(e, FAdd(aa, FMul(121665, e))),
           FSq(FAdd(da, cb)), FMul(x1, FSq(FSub(da, cb))), s.swap)
  }

  function Bit(k: nat, t: nat): int
  {
    k / Pow2(t) % 2
  }

  /** The registers after the bits 254 down to t of k have been processed. */
  function Registers(k: nat, x1: int, t: nat): Ladder
    requires t <= 255
    decreases 255 - t
  {
    if t == 255 then Ladder(1, 0, x1, 1, 0) else
    var s := Registers(k, x1, t + 1);
    var turned := Turn(x1, Swapped(s, (s.swap + Bit(k, t)) % 2));
    turned.(swap := Bit(k, t))
  }

  /** decodeScalar25519: clears the three low bits and bit 255, sets bit 254. */
  function Clamped(k: nat): nat
  {
    T254 + k % T254 / 8 * 8
  }

  /** X25519(k, u) on the integers that the scalar and the coordinate bytes stand for. */
  ghost function X25519(k: nat, u: nat): int
  {
    var s := Registers(Clamped(k), F(u % T255), 0);
    var r := Swapped(s, s.swap);
    FMul(r.x2, FPow(r.z2, P - 2))
  }
}

module X25519 {
  import opened MachineInts
  import opened Bits
  import opened LittleEndian
  import opened Field25519
  import opened Fe51
  import opened Fe51Ops
  import opened Fe51Bytes
  import opened Fe51Invert
  import opened X25519Spec

  /** BB + 121666 E and the RFC's AA + 121665 E are the same field element. */
  lemma SmallConstant(aa: int, bb: int)
    ensures FAdd(bb, FMul(121666, FSub(aa, bb))) == FAdd(aa, FMul(121665, FSub(aa, bb)))
  {
    hide F, FMul;
    var e := FSub(aa, bb);
    var k := Quotient(aa - bb);
    var m := Quotient(121666 * e);
    var n := Quotient(121665 * e);
    MulIs(121666, e);
    MulIs(121665, e);
    Congruent(bb + FMul(121666, e), aa + FMul(121665, e), n - m - k);
  }

  /** The registers after the conditional swap of one turn, and the arithmetic that follows it. */
  method LadderTurn(x1: array<u64>, x2: array<u64>, z2: array<u64>, x3: array<u64>, z3: array<u64>,
                    tmp0: array<u64>, tmp1: array<u64>, ghost s: Ladder)
    requires x1.Length == 5 && x2.Length == 5 && z2.Length == 5 && x3.Length == 5 && z3.Length == 5
    requires tmp0.Length == 5 && tmp1.Length == 5
    requires x1 !in {x2, z2, x3, z3, tmp0, tmp1} && x2 !in {z2, x3, z3, tmp0, tmp1} && z2 !in {x3, z3, tmp0, tmp1}
    requires x3 !in {z3, tmp0, tmp1} && z3 !in {tmp0, tmp1} && tmp0 != tmp1
    requires Below(x1[..], T54)
    requires Below(x2[..], TIGHT) && Below(z2[..], TIGHT) && Below(x3[..], TIGHT) && Below(z3[..], TIGHT)
    requires Fval(x2[..]) == s.x2 && Fval(z2[..]) == s.z2 && Fval(x3[..]) == s.x3 && Fval(z3[..]) == s.z3
    modifies x2, z2, x3, z3, tmp0, tmp1
    ensures Below(x2[..], TIGHT) && Below(z2[..], TIGHT) && Below(x3[..], TIGHT) && Below(z3[..], TIGHT)
    ensures Fval(x2[..]) == Turn(Fval(x1[..]), s).x2 && Fval(z2[..]) == Turn(Fval(x1[..]), s).z2
    ensures Fval(x3[..]) == Turn(Fval(x1[..]), s).x3 && Fval(z3[..]) == Turn(Fval(x1[..]), s).z3
  {
    hide Fval, Val, Below, F, FMul, FAdd, FSub, FSq, Product, Carried, Columns;
    Sub(tmp0, x3, z3);
    Sub(tmp1, x2, z2);
    Add(x2, x2, z2);
    Add(z2, x3, z3);
    Mul(z3, tmp0, x2);
    Mul(z2, z2, tmp1);
    Sq(tmp0, tmp1);
    Sq(tmp1, x2);
    SmallConstant(Fval(tmp1[..]), Fval(tmp0[..]));
    Add(x3, z3, z2);
    Sub(z2, z3, z2);
    Mul(x2, tmp1, tmp0);
    Sub(tmp1, tmp1, tmp0);
    Sq(z2, z2);
    Mul121666(z3, tmp1);
    Sq(x3, x3);
    Add(tmp0, tmp0, z3);
    Mul(z3, x1, z2);
    Mul(z2, tmp1, tmp0);
  }

  /** The clamping of the scalar bytes, in place on the local copy. */
  method Clamp(e: array<byte>)
    requires e.Length == 32
    modifies e
    ensures old(LE(e[..])) >= 0 && LE(e[..]) == Clamped(old(LE(e[..])))
  {
    ghost var b := e[..];
    ByteMasks(e[0]);
    ByteMasks(e[31]);
    hide And, Or, LE;
    e[0] := And(e[0], 0xf8);
    e[31] := And(e[31], 0x7f);
    e[31] := Or(e[31], 0x40);
    ClampedBytes(b, e[..]);
  }

  lemma {:induction false} ByteMasks(x: nat)
    requires x < 256
    ensures And(x, 0xf8) == x / 8 * 8 && And(x, 0x7f) == x % 128
    ensures Or(x % 128, 0x40) == x % 64 + 64
  {
    hide And, Or, Pow2;
    LowSeven(x);
    LowThreeCleared(x);
    TopBit(x % 128);
  }

  lemma {:induction false} LowSeven(x: nat)
    ensures And(x, 0x7f) == x % 128
  {
    hide And, Pow2;
    SmallPowers();
    Pow2At(5, 2, 32, 4);
    AndMask(x, 7);
  }

  lemma {:induction false} LowThreeCleared(x: nat)
    requires x < 256
    ensures And(x, 0xf8) == x / 8 * 8
  {
    hide And, Pow2;
    SmallPowers();
    AndMask(x / 8, 5);
    AndDouble(x, 0x7c);
    AndDouble(x / 2, 0x3e);
    AndDouble(x / 4, 0x1f);
  }

  lemma TopBit(y: nat)
    requires y < 128
    ensures Or(y, 0x40) == y % 64 + 64
  {
    hide Or, Pow2;
    SmallPowers();
    Pow2At(5, 1, 32, 2);
    if y < 64 {
      OrDisjoint(y, 1, 6);
    } else {
      OrSame(y - 64, 6);
    }
  }

  /** Or-ing in a bit that is already set changes nothing. */
  lemma {:induction false} OrSame(y: nat, k: nat)
    requires y < Pow2(k)
    ensures Or(y + Pow2(k), Pow2(k)) == y + Pow2(k)
  {
    if k == 0 {
    } else {
      OrSame(y / 2, k - 1);
    }
  }

  /** First byte, middle and last byte of a 32-byte string. */
  lemma {:induction false} ThreeParts(s: seq<int>)
    requires |s| == 32 && IsBytes(s)
    ensures LE(s) == s[0] + 256 * LE(s[1..31]) + T248 * s[31]
    ensures 0 <= LE(s[1..31]) < T240
  {
    hide Pow2;
    Pow2Of255();
    LEBound(s[1..31]);
    LEPiece(s, 1, 31, T240);
    Pow2Of64();
    LEPiece(s, 0, 1, 256);
    var top := s[31..];
    assert |top| == 1 && top[0] == s[31];
    assert top == [s[31]] && s[0..1] == [s[0]] && s[0..] == s;
    LEOne(s[31]);
    LEOne(s[0]);
  }

  const T240: int := 0x1_0000_0000_0000_0000_0000_0000_0000_0000_0000_0000_0000_0000_0000_0000_0000
  const T248: int := 0x100_0000_0000_0000_0000_0000_0000_0000_0000_0000_0000_0000_0000_0000_0000_0000

  lemma {:induction false} ClampedBytes(b: seq<int>, e: seq<int>)
    requires |b| == 32 && |e| == 32 && IsBytes(b) && IsBytes(e)
    requires e[0] == b[0] / 8 * 8 && e[31] == b[31] % 64 + 64 && e[1..31] == b[1..31]
    ensures LE(b) >= 0 && LE(e) == Clamped(LE(b))
  {
    hide LE;
    ThreeParts(b);
    ThreeParts(e);
    var m := LE(b[1..31]);
    var low := b[0] + 256 * m + T248 * (b[31] % 64);
    DivModUnique(LE(b), T254, b[31] / 64, low);
    DivModUnique(low, 8, b[0] / 8 + 32 * m + T245 * (b[31] % 64), b[0] % 8);
  }

  const T245: int := 0x20_0000_0000_0000_0000_0000_0000_0000_0000_0000_0000_0000_0000_0000_0000_0000

  lemma BelowMonotonic(h: seq<int>, lo: int, hi: int)
    requires Below(h, lo) && lo <= hi
    ensures Below(h, hi)
  {
  }

  /** Clamping leaves bit 0 clear, so the RFC's final conditional swap never happens. */
  lemma NoFinalSwap(k: nat, x1: int)
    ensures Registers(Clamped(k), x1, 0).swap == 0
  {
    hide Turn, Swapped, Clamped;
    assert Pow2(0) == 1;
    ClampedEven(k);
  }

  lemma ClampedEven(k: nat)
    ensures Clamped(k) % 2 == 0
  {
    var q := k % T254 / 8;
    assert Clamped(k) == 2 * (T254 / 2 + 4 * q);
  }

  lemma BitXor(a: nat, b: nat)
    requires a < 2 && b < 2
    ensures Xor(a, b) == (a + b) % 2
  {
  }

  /** One turn for bit b: the conditional swap with what the turn before left, then the arithmetic. */
  method BitTurn(x1: array<u64>, x2: array<u64>, z2: array<u64>, x3: array<u64>, z3: array<u64>,
                 tmp0: array<u64>, tmp1: array<u64>, b: u64, swap: u64) returns (swap': u64)
    requires x1.Length == 5 && x2.Length == 5 && z2.Length == 5 && x3.Length == 5 && z3.Length == 5
    requires tmp0.Length == 5 && tmp1.Length == 5
    requires x1 !in {x2, z2, x3, z3, tmp0, tmp1} && x2 !in {z2, x3, z3, tmp0, tmp1} && z2 !in {x3, z3, tmp0, tmp1}
    requires x3 !in {z3, tmp0, tmp1} && z3 !in {tmp0, tmp1} && tmp0 != tmp1
    requires Below(x1[..], T54) && b < 2 && swap < 2
    requires Below(x2[..], TIGHT) && Below(z2[..], TIGHT) && Below(x3[..], TIGHT) && Below(z3[..], TIGHT)
    modifies x2, z2, x3, z3, tmp0, tmp1
    ensures Below(x2[..], TIGHT) && Below(z2[..], TIGHT) && Below(x3[..], TIGHT) && Below(z3[..], TIGHT)
    ensures swap' == b
    ensures var s := old(Ladder(Fval(x2[..]), Fval(z2[..]), Fval(x3[..]), Fval(z3[..]), swap));
            var t := Turn(Fval(x1[..]), Swapped(s, (swap + b) % 2));
            Fval(x2[..]) == t.x2 && Fval(z2[..]) == t.z2 && Fval(x3[..]) == t.x3 && Fval(z3[..]) == t.z3
  {
    hide Fval, Val, Below, F, FMul, FAdd, FSub, FSq, LE, Xor, Pow2, Turn;
    ghost var s := Ladder(Fval(x2[..]), Fval(z2[..]), Fval(x3[..]), Fval(z3[..]), swap);
    BitXor(swap, b);
    swap' := Xor(swap, b);
    CSwap(x2, x3, swap');
    CSwap(z2, z3, swap');
    LadderTurn(x1, x2, z2, x3, z3, tmp0, tmp1, Swapped(s, swap'));
    swap' := b;
  }

  /** The 255 turns of the ladder: the limbs stay within the multiplication bound throughout. */
  method Climb(e: array<byte>, x1: array<u64>, x2: array<u64>, z2: array<u64>, x3: array<u64>, z3: array<u64>)
      returns (swap: u64)
    requires e.Length == 32
    requires x1.Length == 5 && x2.Length == 5 && z2.Length == 5 && x3.Length == 5 && z3.Length == 5
    requires x1 !in {x2, z2, x3, z3} && x2 !in {z2, x3, z3} && z2 !in {x3, z3} && x3 != z3
    requires Below(x1[..], T54)
    requires Below(x2[..], TIGHT) && Below(z2[..], TIGHT) && Below(x3[..], TIGHT) && Below(z3[..], TIGHT)
    requires Fval(x2[..]) == 1 && Fval(z2[..]) == 0 && Fval(x3[..]) == Fval(x1[..]) && Fval(z3[..]) == 1
    requires LE(e[..]) >= 0
    modifies x2, z2, x3, z3
    ensures Below(x2[..], TIGHT) && Below(z2[..], TIGHT)
    ensures var s := Registers(old(LE(e[..])), old(Fval(x1[..])), 0);
            Fval(x2[..]) == s.x2 && Fval(z2[..]) == s.z2 && swap == s.swap
  {
    hide Fval, Val, Below, F, FMul, FAdd, FSub, FSq, LE, Xor, Pow2, Turn, Swapped;
    var tmp0, tmp1 := new u64[5], new u64[5];
    ghost var k, u := LE(e[..]), Fval(x1[..]);
    var pos := 254;
    swap := 0;
    while pos >= 0
      invariant -1 <= pos <= 254
      invariant e[..] == old(e[..]) && x1[..] == old(x1[..])
      invariant Below(x2[..], TIGHT) && Below(z2[..], TIGHT) && Below(x3[..], TIGHT) && Below(z3[..], TIGHT)
      invariant Registers(k, u, pos + 1) == Ladder(Fval(x2[..]), Fval(z2[..]), Fval(x3[..]), Fval(z3[..]), swap)
      invariant swap < 2
    {
      var b: u64 := e[pos / 8] / Pow2(pos % 8) % 2;
      BitOfByte(e[..], pos);
      swap := BitTurn(x1, x2, z2, x3, z3, tmp0, tmp1, b, swap);
      pos := pos - 1;
    }
  }

  /** The division and the encoding that end the computation. */
  method Descend(out: array<byte>, x2: array<u64>, z2: array<u64>)
    requires out.Length == 32 && x2.Length == 5 && z2.Length == 5 && x2 != z2
    requires Below(x2[..], TIGHT) && Below(z2[..], TIGHT)
    modifies out, x2, z2
    ensures LE(out[..]) == FMul(old(Fval(x2[..])), FPow(old(Fval(z2[..])), P - 2))
  {
    hide Fval, Val, Below, F, FMul, FPow, LE, Product;
    BelowMonotonic(x2[..], TIGHT, T54);
    BelowMonotonic(z2[..], TIGHT, T54);
    Invert(z2, z2);
    Mul(x2, x2, z2);
    TightBelowTwice(x2[..]);
    BelowMonotonic(x2[..], TIGHT, TWO_63);
    ToBytes(out, x2);
  }

  /** Decodes the u-coordinate into both x1 and x3. */
  method LoadPoint(x1: array<u64>, x3: array<u64>, point: array<byte>)
    requires x1.Length == 5 && x3.Length == 5 && point.Length == 32 && x1 != x3
    modifies x1, x3
    ensures Below(x1[..], T54) && Below(x3[..], TIGHT)
    ensures Fval(x1[..]) == F(old(LE(point[..])) % T255) && Fval(x3[..]) == Fval(x1[..])
  {
    hide Fval, Val, Below, F, LE;
    FromBytes(x1, point);
    BelowMonotonic(x1[..], T51, TIGHT);
    BelowMonotonic(x1[..], T51, T54);
    Copy(x3, x1);
  }

  /** The local, clamped copy of the scalar. */
  method ClampedCopy(scalar: array<byte>) returns (e: array<byte>)
    requires scalar.Length == 32
    ensures fresh(e) && e.Length == 32
    ensures LE(scalar[..]) >= 0 && LE(e[..]) == Clamped(LE(scalar[..]))
  {
    hide LE, Clamped;
    ghost var s := scalar[..];
    e := new byte[32];
    forall i | 0 <= i < 32 { e[i] := scalar[i]; }
    assert e[..] == s && scalar[..] == s;
    Clamp(e);
  }

  /** The five elements that the ladder starts with. */
  method Prepare(point: array<byte>)
      returns (x1: array<u64>, x2: array<u64>, z2: array<u64>, x3: array<u64>, z3: array<u64>)
    requires point.Length == 32
    ensures fresh(x1) && fresh(x2) && fresh(z2) && fresh(x3) && fresh(z3)
    ensures x1.Length == 5 && x2.Length == 5 && z2.Length == 5 && x3.Length == 5 && z3.Length == 5
    ensures x1 !in {x2, z2, x3, z3} && x2 !in {z2, x3, z3} && z2 !in {x3, z3} && x3 != z3
    ensures Below(x1[..], T54)
    ensures Below(x2[..], TIGHT) && Below(z2[..], TIGHT) && Below(x3[..], TIGHT) && Below(z3[..], TIGHT)
    ensures Fval(x1[..]) == F(LE(point[..]) % T255) && Fval(x3[..]) == Fval(x1[..])
    ensures Fval(x2[..]) == 1 && Fval(z2[..]) == 0 && Fval(z3[..]) == 1
  {
    hide Fval, Val, Below, F, LE;
    x1, x2, z2, x3, z3 := new u64[5], new u64[5], new u64[5], new u64[5], new u64[5];
    LoadPoint(x1, x3, point);
    Set(x2, 1);
    Set(z2, 0);
    Set(z3, 1);
  }

  /** The library's ladder computes the X25519 function of RFC 7748 for every scalar and every point. */
  method ScalarMult(out: array<byte>, scalar: array<byte>, point: array<byte>)
    requires out.Length == 32 && scalar.Length == 32 && point.Length == 32
    modifies out
    ensures old(LE(scalar[..])) >= 0 && old(LE(point[..])) >= 0
    ensures LE(out[..]) == X25519Spec.X25519(old(LE(scalar[..])), old(LE(point[..])))
  {
    hide *;
    ghost var k, u := LE(scalar[..]), LE(point[..]);
    NonNegative(scalar[..]);
    NonNegative(point[..]);
    var e := ClampedCopy(scalar);
    var x1, x2, z2, x3, z3 := Prepare(point);
    var swap := Climb(e, x1, x2, z2, x3, z3);
    Unswapped(k, u);
    Descend(out, x2, z2);
  }

  lemma NonNegative(s: seq<byte>)
    ensures LE(s) >= 0
  {
    LENonNegative(s);
  }

  /** The RFC's result without its final conditional swap. */
  lemma Unswapped(k: nat, u: nat)
    ensures var s := Registers(Clamped(k), F(u % T255), 0); X25519Spec.X25519(k, u) == FMul(s.x2, FPow(s.z2, P - 2))
  {
    hide F, FMul, FPow, Registers, Clamped, Turn;
    NoFinalSwap(k, F(u % T255));
  }
}
