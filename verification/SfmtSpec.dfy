/** The SFMT recurrence of SFMT-common.h, with the parameters of SFMT-params19937.h; N and POS1 stay open. */
module SfmtSpec {
  import opened BitVectors

  /** An unsigned 32-bit integer. */
  datatype U32 = U32(bits: bv32)

  /** A 128-bit word: four 32-bit lanes, lowest first. */
  datatype W128 = W128(u0: U32, u1: U32, u2: U32, u3: U32)

  function Four(u0: bv32, u1: bv32, u2: bv32, u3: bv32): W128
  {
    W128(U32(u0), U32(u1), U32(u2), U32(u3))
  }

  // ---- 128-bit shifts by whole bytes ----

  function Join(high: bv32, low: bv32): bv64
  {
    ((high as bv64) << 32) | (low as bv64)
  }

  function LowHalf(d: bv64): bv32
  {
    (d & 0xffff_ffff) as bv32
  }

  function HighHalf(d: bv64): bv32
  {
    (d >> 32) as bv32
  }

  /** Shifts by 0 or by 8 bytes and more are undefined in C, a half being shifted by 64 - 8 s bits. */
  predicate Few(s: bv7)
  {
    0 < s < 8
  }

  /** 8 s, the number of bits in s bytes. */
  function BitsIn(s: bv7): bv7
  {
    s << 3
  }

  function Up(d: bv64, s: bv7): bv64
    requires Few(s)
  {
    d << BitsIn(s)
  }

  function Down(d: bv64, s: bv7): bv64
    requires Few(s)
  {
    d >> BitsIn(s)
  }

  /** The high half of a left shift: the top bytes of the low half come in. */
  function UpInto(high: bv64, low: bv64, s: bv7): bv64
    requires Few(s)
  {
    (high << BitsIn(s)) | (low >> (64 - BitsIn(s)))
  }

  /** The low half of a right shift: the bottom bytes of the high half come in. */
  function DownInto(high: bv64, low: bv64, s: bv7): bv64
    requires Few(s)
  {
    (low >> BitsIn(s)) | (high << (64 - BitsIn(s)))
  }

  /** lshift128 by s bytes. */
  function ShiftLeft(w: W128, s: bv7): W128
    requires Few(s)
  {
    var th, tl := Join(w.u3.bits, w.u2.bits), Join(w.u1.bits, w.u0.bits);
    var oh, ol := UpInto(th, tl, s), Up(tl, s);
    Four(LowHalf(ol), HighHalf(ol), LowHalf(oh), HighHalf(oh))
  }

  /** rshift128 by s bytes. */
  function ShiftRight(w: W128, s: bv7): W128
    requires Few(s)
  {
    var th, tl := Join(w.u3.bits, w.u2.bits), Join(w.u1.bits, w.u0.bits);
    var oh, ol := Down(th, s), DownInto(th, tl, s);
    Four(LowHalf(ol), HighHalf(ol), LowHalf(oh), HighHalf(oh))
  }

  /** The 128-bit integer with the given halves. */
  function Halves(high: bv64, low: bv64): bv128
  {
    ((high as bv128) << 64) | (low as bv128)
  }

  /** The four lanes as one 128-bit integer. */
  function Whole(w: W128): bv128
  {
    Halves(Join(w.u3.bits, w.u2.bits), Join(w.u1.bits, w.u0.bits))
  }

  function WholeUp(w: bv128, s: bv7): bv128
    requires Few(s)
  {
    w << BitsIn(s)
  }

  function WholeDown(w: bv128, s: bv7): bv128
    requires Few(s)
  {
    w >> BitsIn(s)
  }

  lemma Rejoined(d: bv64)
    ensures Join(HighHalf(d), LowHalf(d)) == d
  {
  }

  function High64(w: bv128): bv64
  {
    (w >> 64) as bv64
  }

  function Low64(w: bv128): bv64
  {
    (w & 0xffff_ffff_ffff_ffff) as bv64
  }

  lemma FromHalves(w: bv128)
    ensures Halves(High64(w), Low64(w)) == w
  {
  }

  lemma HighUp(high: bv64, low: bv64, s: bv7)
    requires Few(s)
    ensures UpInto(high, low, s) == High64(WholeUp(Halves(high, low), s))
  {
  }

  lemma LowUp(high: bv64, low: bv64, s: bv7)
    requires Few(s)
    ensures Up(low, s) == Low64(WholeUp(Halves(high, low), s))
  {
  }

  lemma HighDown(high: bv64, low: bv64, s: bv7)
    requires Few(s)
    ensures Down(high, s) == High64(WholeDown(Halves(high, low), s))
  {
  }

  lemma LowDown(high: bv64, low: bv64, s: bv7)
    requires Few(s)
    ensures DownInto(high, low, s) == Low64(WholeDown(Halves(high, low), s))
  {
  }

  /** The shifts on 64-bit halves shift the 128-bit integer, by any number of bytes that C defines. */
  lemma ShiftsWhole(w: W128, s: bv7)
    requires Few(s)
    ensures Whole(ShiftLeft(w, s)) == WholeUp(Whole(w), s)
    ensures Whole(ShiftRight(w, s)) == WholeDown(Whole(w), s)
  {
    hide Join, LowHalf, HighHalf, Halves, High64, Low64, Up, Down, UpInto, DownInto, WholeUp, WholeDown;
    var th, tl := Join(w.u3.bits, w.u2.bits), Join(w.u1.bits, w.u0.bits);
    HighUp(th, tl, s);
    LowUp(th, tl, s);
    HighDown(th, tl, s);
    LowDown(th, tl, s);
    FromHalves(WholeUp(Whole(w), s));
    FromHalves(WholeDown(Whole(w), s));
    Rejoined(UpInto(th, tl, s));
    Rejoined(Up(tl, s));
    Rejoined(Down(th, s));
    Rejoined(DownInto(th, tl, s));
  }

  // ---- The recurrence ----

  const SL2: bv7 := 1
  const SR2: bv7 := 1
  const MASK1: bv32 := 0xdfff_ffef
  const MASK2: bv32 := 0xddfe_cb7f
  const MASK3: bv32 := 0xbffa_ffff
  const MASK4: bv32 := 0xbfff_fff6

  function Lowered(b: bv32, mask: bv32): bv32
  {
    (b >> 11) & mask
  }

  function Lifted(d: bv32): bv32
  {
    d << 18
  }

  /** One lane of the recurrence. */
  function Lane(a: U32, x: U32, b: U32, mask: bv32, y: U32, d: U32): U32
  {
    U32(Add(Add(Add(Add(a.bits, x.bits), Lowered(b.bits, mask)), y.bits), Lifted(d.bits)))
  }

  /** The recurrence: the next word from the words N, N - POS1, 2 and 1 before it. */
  function Rec(a: W128, b: W128, c: W128, d: W128): W128
  {
    var x, y := ShiftLeft(a, SL2), ShiftRight(c, SR2);
    W128(Lane(a.u0, x.u0, b.u0, MASK1, y.u0, d.u0), Lane(a.u1, x.u1, b.u1, MASK2, y.u1, d.u1),
         Lane(a.u2, x.u2, b.u2, MASK3, y.u2, d.u2), Lane(a.u3, x.u3, b.u3, MASK4, y.u3, d.u3))
  }

  // ---- The recurrence on 128-bit integers ----

  /** The masks of the four lanes, without the bits that a shift by 11 brings in from the lane above. */
  const MASK: bv128 := 0x001f_fff6_001a_ffff_001e_cb7f_001f_ffef

  /** All bits but the 18 lowest of every lane. */
  const LANE_TOPS: bv128 := 0xfffc_0000_fffc_0000_fffc_0000_fffc_0000

  function Lanes(u0: bv32, u1: bv32, u2: bv32, u3: bv32): bv128
  {
    Halves(Join(u3, u2), Join(u1, u0))
  }

  function Sum128(x: bv128, y: bv128): bv128
  {
    x ^ y
  }

  function Masked(b: bv128): bv128
  {
    (b >> 11) & MASK
  }

  function Raised(d: bv128): bv128
  {
    (d << 18) & LANE_TOPS
  }

  /** The recurrence as one formula on 128-bit integers. */
  function WholeRec(a: bv128, b: bv128, c: bv128, d: bv128): bv128
  {
    Sum128(Sum128(Sum128(Sum128(a, a << 8), Masked(b)), c >> 8), Raised(d))
  }

  function Add64(x: bv64, y: bv64): bv64
  {
    x ^ y
  }

  lemma JoinAdd(x: bv32, x': bv32, y: bv32, y': bv32)
    ensures Join(Add(x, y), Add(x', y')) == Add64(Join(x, x'), Join(y, y'))
  {
  }

  lemma HalvesAdd(x: bv64, x': bv64, y: bv64, y': bv64)
    ensures Halves(Add64(x, y), Add64(x', y')) == Sum128(Halves(x, x'), Halves(y, y'))
  {
  }

  lemma LanesAdd(x0: bv32, x1: bv32, x2: bv32, x3: bv32, y0: bv32, y1: bv32, y2: bv32, y3: bv32)
    ensures Lanes(Add(x0, y0), Add(x1, y1), Add(x2, y2), Add(x3, y3)) ==
            Sum128(Lanes(x0, x1, x2, x3), Lanes(y0, y1, y2, y3))
  {
    hide Join, Halves, Add, Add64, Sum128;
    JoinAdd(x1, x0, y1, y0);
    JoinAdd(x3, x2, y3, y2);
    HalvesAdd(Join(x3, x2), Join(x1, x0), Join(y3, y2), Join(y1, y0));
  }

  lemma LanesMasked(b0: bv32, b1: bv32, b2: bv32, b3: bv32)
    ensures Lanes(Lowered(b0, MASK1), Lowered(b1, MASK2), Lowered(b2, MASK3), Lowered(b3, MASK4)) ==
            Masked(Lanes(b0, b1, b2, b3))
  {
  }

  lemma LanesRaised(d0: bv32, d1: bv32, d2: bv32, d3: bv32)
    ensures Lanes(Lifted(d0), Lifted(d1), Lifted(d2), Lifted(d3)) == Raised(Lanes(d0, d1, d2, d3))
  {
  }

  lemma WholeIs(w: W128)
    ensures Whole(w) == Lanes(w.u0.bits, w.u1.bits, w.u2.bits, w.u3.bits)
  {
    hide Join, Halves;
  }

  lemma ByOneByte(w: bv128)
    ensures WholeUp(w, 1) == w << 8 && WholeDown(w, 1) == w >> 8
  {
  }

  lemma WholeRecIs(a: bv128, b: bv128, c: bv128, d: bv128)
    ensures WholeRec(a, b, c, d) ==
            Sum128(Sum128(Sum128(Sum128(a, WholeUp(a, 1)), Masked(b)), WholeDown(c, 1)), Raised(d))
  {
    hide Sum128, Masked, Raised, WholeUp, WholeDown;
    ByOneByte(a);
    ByOneByte(c);
  }

  /** The recurrence of the four lanes is the formula on the whole words. */
  lemma RecWhole(a: W128, b: W128, c: W128, d: W128)
    ensures Whole(Rec(a, b, c, d)) == WholeRec(Whole(a), Whole(b), Whole(c), Whole(d))
  {
    hide Add, Sum128, Lowered, Lifted, Masked, Raised, Lanes, Whole, WholeRec, WholeUp, WholeDown;
    hide ShiftLeft, ShiftRight;
    var x, y := ShiftLeft(a, SL2), ShiftRight(c, SR2);
    ShiftsWhole(a, SL2);
    ShiftsWhole(c, SR2);
    WholeRecIs(Whole(a), Whole(b), Whole(c), Whole(d));
    WholeIs(a); WholeIs(b); WholeIs(d); WholeIs(x); WholeIs(y);
    WholeIs(Rec(a, b, c, d));
    var (l0, l1) := (Lowered(b.u0.bits, MASK1), Lowered(b.u1.bits, MASK2));
    var (l2, l3) := (Lowered(b.u2.bits, MASK3), Lowered(b.u3.bits, MASK4));
    LanesMasked(b.u0.bits, b.u1.bits, b.u2.bits, b.u3.bits);
    LanesRaised(d.u0.bits, d.u1.bits, d.u2.bits, d.u3.bits);
    var (s0, s1, s2, s3) := (Add(a.u0.bits, x.u0.bits), Add(a.u1.bits, x.u1.bits),
                             Add(a.u2.bits, x.u2.bits), Add(a.u3.bits, x.u3.bits));
    LanesAdd(a.u0.bits, a.u1.bits, a.u2.bits, a.u3.bits, x.u0.bits, x.u1.bits, x.u2.bits, x.u3.bits);
    LanesAdd(s0, s1, s2, s3, l0, l1, l2, l3);
    var (t0, t1, t2, t3) := (Add(s0, l0), Add(s1, l1), Add(s2, l2), Add(s3, l3));
    LanesAdd(t0, t1, t2, t3, y.u0.bits, y.u1.bits, y.u2.bits, y.u3.bits);
    LanesAdd(Add(t0, y.u0.bits), Add(t1, y.u1.bits), Add(t2, y.u2.bits), Add(t3, y.u3.bits),
             Lifted(d.u0.bits), Lifted(d.u1.bits), Lifted(d.u2.bits), Lifted(d.u3.bits));
  }

  // ---- The sequence ----

  /** A seed of N words and the pick-up position POS1. */
  predicate Legal(seed: seq<W128>, pos1: nat)
  {
    |seed| >= 5 && 0 < pos1 < |seed|
  }

  /** Word i of the sequence that starts with the seed. */
  function X(seed: seq<W128>, pos1: nat, i: nat): W128
    requires Legal(seed, pos1)
  {
    var n := |seed|;
    if i < n then seed[i]
    else Rec(X(seed, pos1, i - n), X(seed, pos1, i - n + pos1), X(seed, pos1, i - 2), X(seed, pos1, i - 1))
  }

  /** Every word from N on is made of those N, N - POS1, 2 and 1 before it. */
  lemma Recurs(seed: seq<W128>, pos1: nat, i: nat)
    requires Legal(seed, pos1) && i >= |seed|
    ensures Whole(X(seed, pos1, i)) ==
            WholeRec(Whole(X(seed, pos1, i - |seed|)), Whole(X(seed, pos1, i - |seed| + pos1)),
                     Whole(X(seed, pos1, i - 2)), Whole(X(seed, pos1, i - 1)))
  {
    hide Rec, Whole, WholeRec;
    var n := |seed|;
    RecWhole(X(seed, pos1, i - n), X(seed, pos1, i - n + pos1), X(seed, pos1, i - 2), X(seed, pos1, i - 1));
  }

  /** N words of the sequence from word m on. */
  function Window(seed: seq<W128>, pos1: nat, m: nat): (r: seq<W128>)
    requires Legal(seed, pos1)
    ensures |r| == |seed|
  {
    seq(|seed|, i requires 0 <= i < |seed| => X(seed, pos1, m + i))
  }

  /** Any N consecutive words carry the sequence on. */
  lemma {:induction false} CarriesOn(seed: seq<W128>, pos1: nat, m: nat, i: nat)
    requires Legal(seed, pos1)
    ensures X(Window(seed, pos1, m), pos1, i) == X(seed, pos1, m + i)
    decreases i
  {
    hide Rec;
    var n := |seed|;
    if i >= n {
      CarriesOn(seed, pos1, m, i - n);
      CarriesOn(seed, pos1, m, i - n + pos1);
      CarriesOn(seed, pos1, m, i - 2);
      CarriesOn(seed, pos1, m, i - 1);
    }
  }

  function Part(w: W128, k: nat): U32
    requires k < 4
  {
    if k == 0 then w.u0 else if k == 1 then w.u1 else if k == 2 then w.u2 else w.u3
  }

  /** The sequence as a stream of 32-bit words. */
  function Stream(seed: seq<W128>, pos1: nat, j: nat): U32
    requires Legal(seed, pos1)
  {
    Part(X(seed, pos1, j / 4), j % 4)
  }
}
