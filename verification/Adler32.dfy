/** adler32.c: the Adler-32 checksum with deferred reduction, division-free remainders, and combination. */
module Adler32 {
  import opened MachineInts
  import opened Bits

  const BASE: int := 65521
  const NMAX: int := 5552

  // ---- The specification: section 2.2 of RFC 1950 ----

  /** The two running sums. */
  datatype Sums = Sums(a: nat, b: nat)

  function Reduced(s: Sums): Sums
  {
    Sums(s.a % BASE, s.b % BASE)
  }

  /** The sums after a byte string, each byte and each sum reduced at once. */
  function Run(s: Sums, bytes: seq<byte>): Sums
    decreases |bytes|
  {
    if |bytes| == 0 then s
    else var a := (s.a + bytes[0]) % BASE; Run(Sums(a, (s.b + a) % BASE), bytes[1..])
  }

  /** The halves of a checksum. */
  function Unpack(v: nat): Sums
  {
    Sums(v % 0x1_0000, v / 0x1_0000 % 0x1_0000)
  }

  function Pack(s: Sums): nat
  {
    s.a + 0x1_0000 * s.b
  }

  /** The checksum of a byte string, carried on from the checksum v. */
  function Adler(v: nat, bytes: seq<byte>): nat
  {
    Pack(Run(Reduced(Unpack(v)), bytes))
  }

  predicate Valid(s: Sums)
  {
    s.a < BASE && s.b < BASE
  }

  lemma {:induction false} RunValid(s: Sums, bytes: seq<byte>)
    requires Valid(s)
    ensures Valid(Run(s, bytes))
    decreases |bytes|
  {
    if |bytes| == 0 {
    } else {
      var a := (s.a + bytes[0]) % BASE;
      RunValid(Sums(a, (s.b + a) % BASE), bytes[1..]);
    }
  }

  lemma {:induction false} RunAppend(s: Sums, x: seq<byte>, y: seq<byte>)
    ensures Run(s, x + y) == Run(Run(s, x), y)
    decreases |x|
  {
    if |x| == 0 {
      assert x + y == y;
    } else {
      var a := (s.a + x[0]) % BASE;
      assert (x + y)[1..] == x[1..] + y;
      RunAppend(Sums(a, (s.b + a) % BASE), x[1..], y);
    }
  }

  lemma UnpackPack(s: Sums)
    requires Valid(s)
    ensures Unpack(Pack(s)) == s && Reduced(s) == s && Pack(s) < TWO_32
  {
  }

  /** A checksum may be carried on piece by piece. */
  lemma Streams(v: nat, x: seq<byte>, y: seq<byte>)
    ensures Adler(Adler(v, x), y) == Adler(v, x + y)
  {
    var s := Reduced(Unpack(v));
    RunValid(s, x);
    UnpackPack(Run(s, x));
    RunAppend(s, x, y);
  }

  // ---- Deferred reduction ----

  /** The sums without any reduction. */
  function Raw(s: Sums, bytes: seq<byte>): Sums
    decreases |bytes|
  {
    if |bytes| == 0 then s else Raw(Sums(s.a + bytes[0], s.b + s.a + bytes[0]), bytes[1..])
  }

  lemma {:induction false} RawAppend(s: Sums, x: seq<byte>, y: seq<byte>)
    ensures Raw(s, x + y) == Raw(Raw(s, x), y)
    decreases |x|
  {
    if |x| == 0 {
      assert x + y == y;
    } else {
      assert (x + y)[1..] == x[1..] + y;
      RawAppend(Sums(s.a + x[0], s.b + s.a + x[0]), x[1..], y);
    }
  }

  /** Reducing at the end is reducing all along. */
  lemma {:induction false} Deferred(s: Sums, bytes: seq<byte>)
    ensures Reduced(Raw(s, bytes)) == Run(Reduced(s), bytes)
    decreases |bytes|
  {
    if |bytes| == 0 {
    } else {
      var x := bytes[0];
      var a, r := s.a + x, (s.a % BASE + x) % BASE;
      AddResidues(s.a, x);
      AddResidues(s.b, a);
      AddResidues(s.b, r);
      AddResiduesRight(s.b % BASE, a);
      Deferred(Sums(a, s.b + a), bytes[1..]);
    }
  }

  lemma AddResidues(x: nat, y: nat)
    ensures (x % BASE + y) % BASE == (x + y) % BASE
  {
    var q := x / BASE;
    assert x + y == (x % BASE + y) + q * BASE;
    AddMultiple(x % BASE + y, q);
  }

  lemma AddResiduesRight(x: nat, y: nat)
    ensures (x + y % BASE) % BASE == (x + y) % BASE
  {
    AddResidues(y, x);
  }

  lemma AddMultiple(x: int, q: int)
    ensures (x + q * BASE) % BASE == x % BASE
  {
    DivModUnique(x + q * BASE, BASE, x / BASE + q, x % BASE);
  }

  // ---- How many bytes reduction can be deferred ----

  /** The largest second sum after n bytes when both sums start at most at m. */
  function Largest(m: nat, n: nat): nat
  {
    MulNonNegative(n + 1, m);
    255 * Triangle(n) + (n + 1) * m
  }

  /** n (n + 1) / 2. */
  function Triangle(n: nat): nat
  {
    if n == 0 then 0 else n + Triangle(n - 1)
  }

  lemma {:induction false} TriangleIs(n: nat)
    ensures 2 * Triangle(n) == n * (n + 1)
  {
    if n == 0 {
    } else {
      TriangleIs(n - 1);
    }
  }

  lemma LargestNext(m: nat, n: nat)
    ensures Largest(m, n + 1) == Largest(m, n) + m + 255 * (n + 1)
  {
    assert (n + 2) * m == (n + 1) * m + m;
  }

  lemma {:induction false} LargestGrows(m: nat, n: nat, k: nat)
    requires n <= k
    ensures Largest(m, n) <= Largest(m, k)
    decreases k
  {
    if n < k {
      LargestGrows(m, n, k - 1);
      LargestNext(m, k - 1);
    }
  }

  /** Sums within the bounds that n bytes allow. */
  predicate Within(s: Sums, m: nat, n: nat)
  {
    s.a <= m + 255 * n && s.b <= Largest(m, n)
  }

  lemma WithinStart(s: Sums, m: nat)
    ensures Within(s, m, 0) <==> s.a <= m && s.b <= m
  {
  }

  lemma WithinNext(s: Sums, m: nat, n: nat, x: byte)
    requires Within(s, m, n)
    ensures Within(Sums(s.a + x, s.b + s.a + x), m, n + 1)
  {
    LargestNext(m, n);
  }

  lemma {:induction false} RawWithin(s: Sums, m: nat, n: nat, bytes: seq<byte>)
    requires Within(s, m, n)
    ensures Within(Raw(s, bytes), m, n + |bytes|)
    decreases |bytes|
  {
    if |bytes| == 0 {
    } else {
      WithinNext(s, m, n, bytes[0]);
      RawWithin(Sums(s.a + bytes[0], s.b + s.a + bytes[0]), m, n + 1, bytes[1..]);
    }
  }

  /** n bytes of 255. */
  function Worst(n: nat): (r: seq<byte>)
    ensures |r| == n
  {
    if n == 0 then [] else [255] + Worst(n - 1)
  }

  /** The bound is reached. */
  lemma {:induction false} WorstReaches(s: Sums, m: nat, k: nat, n: nat)
    requires s == Sums(m + 255 * k, Largest(m, k))
    ensures Raw(s, Worst(n)).b == Largest(m, k + n)
    decreases n
  {
    if n == 0 {
    } else {
      LargestNext(m, k);
      assert Worst(n)[1..] == Worst(n - 1);
      WorstReaches(Sums(m + 255 * (k + 1), Largest(m, k + 1)), m, k + 1, n - 1);
    }
  }

  lemma LargestAt(n: nat)
    ensures n <= NMAX <==> Largest(BASE - 1, n) < TWO_32
    ensures Largest(0xffff, NMAX) < TWO_32
  {
    TriangleIs(NMAX);
    TriangleIs(NMAX + 1);
    if n <= NMAX {
      LargestGrows(BASE - 1, n, NMAX);
    } else {
      LargestGrows(BASE - 1, NMAX + 1, n);
    }
  }

  /** NMAX is exactly how many bytes reduction can be deferred, from any valid sums, without exceeding 32 bits. */
  lemma NmaxIsTight(n: nat)
    ensures n <= NMAX <==>
            forall s: Sums, bytes: seq<byte> :: Valid(s) && |bytes| == n ==> Raw(s, bytes).b < TWO_32
  {
    LargestAt(n);
    if n <= NMAX {
      forall s: Sums, bytes: seq<byte> | Valid(s) && |bytes| == n ensures Raw(s, bytes).b < TWO_32 {
        WithinStart(s, BASE - 1);
        RawWithin(s, BASE - 1, 0, bytes);
      }
    } else {
      var s := Sums(BASE - 1, BASE - 1);
      assert Largest(BASE - 1, 0) == BASE - 1;
      WorstReaches(s, BASE - 1, 0, n);
      assert Valid(s) && |Worst(n)| == n && Raw(s, Worst(n)).b >= TWO_32;
    }
  }

  // ---- Remainders without division ----

  /** CHOP: 65536 is 15 modulo BASE. */
  method Chop(a: u64) returns (r: u64)
    ensures r % BASE == a % BASE
    ensures r == a % 0x1_0000 + 15 * (a / 0x1_0000)
  {
    var tmp: u64 := a / 0x1_0000;
    r := a % 0x1_0000;
    r := r + (tmp * 16 - tmp);
    AddMultiple(r, tmp);
    assert a == r + tmp * BASE;
  }

  /** MOD28: the remainder exactly as long as one subtraction is enough, which takes in all values below 2^28. */
  method Mod28(a: u64) returns (r: u64)
    ensures r == a % BASE <==> a % 0x1_0000 + 15 * (a / 0x1_0000) < 2 * BASE
    ensures a < 0x1000_0000 ==> r == a % BASE
  {
    r := Chop(a);
    if r >= BASE {
      r := r - BASE;
      AddMultiple(r, 1);
    }
  }

  /** MOD: the remainder of every 32-bit value. */
  method Mod(a: u32) returns (r: u32)
    ensures r == a % BASE
  {
    var c := Chop(a);
    r := Mod28(c);
  }

  /** MOD63: the remainder of every value below 2^63; 2^32 is 225 modulo BASE. */
  method Mod63(a: i64) returns (r: i64)
    requires a >= 0
    ensures r == a % BASE
  {
    var tmp: i64 := a / 0x1_0000_0000;
    r := a % 0x1_0000_0000;
    r := r + (tmp * 256 - tmp * 32 + tmp);
    AddMultiple(r, tmp * 65551);
    r := ChopSigned(r, 0x100_0000_0000);
    r := ChopSigned(r, 0x1000_0000);
    if r >= BASE {
      r := r - BASE;
      AddMultiple(r, 1);
    }
  }

  /** The later steps of MOD63. */
  method ChopSigned(a: i64, ghost bound: nat) returns (r: i64)
    requires 0 <= a < bound && bound % 0x1_0000 == 0
    ensures r % BASE == a % BASE
    ensures 0 <= r < 0x1_0000 + 15 * (bound / 0x1_0000)
    ensures r <= 0xffff + 15 * (a / 0x1_0000)
  {
    var tmp: i64 := a / 0x1_0000;
    r := a % 0x1_0000;
    r := r + (tmp * 16 - tmp);
    AddMultiple(r, tmp);
  }

  // ---- The checksum of a buffer ----

  lemma RawOne(s: Sums, bytes: seq<byte>)
    requires |bytes| == 1
    ensures Raw(s, bytes) == Sums(s.a + bytes[0], s.b + s.a + bytes[0])
  {
    assert bytes[1..] == [];
  }

  lemma RawEmpty(s: Sums, bytes: seq<byte>)
    requires |bytes| == 0
    ensures Raw(s, bytes) == s
  {
  }

  lemma WithinFits(s: Sums, n: nat)
    requires Within(s, 0xffff, n) && n <= NMAX
    ensures s.a < TWO_32 && s.b < TWO_32
  {
    LargestAt(0);
    LargestGrows(0xffff, n, NMAX);
  }

  /** DO1. */
  method Do1(buf: array<byte>, pos: nat, adler: u32, sum2: u32, ghost n: nat) returns (a: u32, b: u32)
    requires pos < buf.Length && n < NMAX && Within(Sums(adler, sum2), 0xffff, n)
    ensures Sums(a, b) == Raw(Sums(adler, sum2), buf[pos..pos + 1]) && Within(Sums(a, b), 0xffff, n + 1)
  {
    hide Raw, Within;
    RawOne(Sums(adler, sum2), buf[pos..pos + 1]);
    WithinNext(Sums(adler, sum2), 0xffff, n, buf[pos]);
    WithinFits(Sums(adler + buf[pos], sum2 + adler + buf[pos]), n + 1);
    a := adler + buf[pos];
    b := sum2 + a;
  }

  lemma RawTwice(s: Sums, buf: array<byte>, pos: nat, mid: nat, end: nat)
    requires pos <= mid <= end <= buf.Length
    ensures Raw(Raw(s, buf[pos..mid]), buf[mid..end]) == Raw(s, buf[pos..end])
  {
    RawAppend(s, buf[pos..mid], buf[mid..end]);
    assert buf[pos..mid] + buf[mid..end] == buf[pos..end];
  }

  /** DO2. */
  method Do2(buf: array<byte>, pos: nat, adler: u32, sum2: u32, ghost n: nat) returns (a: u32, b: u32)
    requires pos + 2 <= buf.Length && n + 2 <= NMAX && Within(Sums(adler, sum2), 0xffff, n)
    ensures Sums(a, b) == Raw(Sums(adler, sum2), buf[pos..pos + 2]) && Within(Sums(a, b), 0xffff, n + 2)
  {
    hide Raw, Within;
    a, b := Do1(buf, pos, adler, sum2, n);
    a, b := Do1(buf, pos + 1, a, b, n + 1);
    RawTwice(Sums(adler, sum2), buf, pos, pos + 1, pos + 2);
  }

  /** DO4. */
  method Do4(buf: array<byte>, pos: nat, adler: u32, sum2: u32, ghost n: nat) returns (a: u32, b: u32)
    requires pos + 4 <= buf.Length && n + 4 <= NMAX && Within(Sums(adler, sum2), 0xffff, n)
    ensures Sums(a, b) == Raw(Sums(adler, sum2), buf[pos..pos + 4]) && Within(Sums(a, b), 0xffff, n + 4)
  {
    hide Raw, Within;
    a, b := Do2(buf, pos, adler, sum2, n);
    a, b := Do2(buf, pos + 2, a, b, n + 2);
    RawTwice(Sums(adler, sum2), buf, pos, pos + 2, pos + 4);
  }

  /** DO8. */
  method Do8(buf: array<byte>, pos: nat, adler: u32, sum2: u32, ghost n: nat) returns (a: u32, b: u32)
    requires pos + 8 <= buf.Length && n + 8 <= NMAX && Within(Sums(adler, sum2), 0xffff, n)
    ensures Sums(a, b) == Raw(Sums(adler, sum2), buf[pos..pos + 8]) && Within(Sums(a, b), 0xffff, n + 8)
  {
    hide Raw, Within;
    a, b := Do4(buf, pos, adler, sum2, n);
    a, b := Do4(buf, pos + 4, a, b, n + 4);
    RawTwice(Sums(adler, sum2), buf, pos, pos + 4, pos + 8);
  }

  /** DO16. */
  method Do16(buf: array<byte>, pos: nat, adler: u32, sum2: u32, ghost n: nat) returns (a: u32, b: u32)
    requires pos + 16 <= buf.Length && n + 16 <= NMAX && Within(Sums(adler, sum2), 0xffff, n)
    ensures Sums(a, b) == Raw(Sums(adler, sum2), buf[pos..pos + 16]) && Within(Sums(a, b), 0xffff, n + 16)
  {
    hide Raw, Within;
    a, b := Do8(buf, pos, adler, sum2, n);
    a, b := Do8(buf, pos + 8, a, b, n + 8);
    RawTwice(Sums(adler, sum2), buf, pos, pos + 8, pos + 16);
  }

  /** Bytes one at a time from pos to end, n bytes having been added since the last reduction. */
  method ByteSums(buf: array<byte>, pos: nat, end: nat, adler: u32, sum2: u32, ghost n: nat) returns (a: u32, b: u32)
    requires pos <= end <= buf.Length && n + (end - pos) <= NMAX && Within(Sums(adler, sum2), 0xffff, n)
    ensures Sums(a, b) == Raw(Sums(adler, sum2), buf[pos..end]) && Within(Sums(a, b), 0xffff, n + (end - pos))
  {
    hide Raw, Within;
    a, b := adler, sum2;
    RawEmpty(Sums(a, b), buf[pos..pos]);
    var at := pos;
    while at < end
      invariant pos <= at <= end && Within(Sums(a, b), 0xffff, n + (at - pos))
      invariant Sums(a, b) == Raw(Sums(adler, sum2), buf[pos..at])
    {
      RawTwice(Sums(adler, sum2), buf, pos, at, at + 1);
      a, b := Do1(buf, at, a, b, n + (at - pos));
      at := at + 1;
    }
  }

  /** count times DO16. */
  method Sixteens(buf: array<byte>, pos: nat, count: nat, adler: u32, sum2: u32) returns (a: u32, b: u32)
    requires pos + 16 * count <= buf.Length && 16 * count <= NMAX && adler <= 0xffff && sum2 <= 0xffff
    ensures Sums(a, b) == Raw(Sums(adler, sum2), buf[pos..pos + 16 * count])
    ensures Within(Sums(a, b), 0xffff, 16 * count)
  {
    hide Raw, Within;
    a, b := adler, sum2;
    WithinStart(Sums(a, b), 0xffff);
    RawEmpty(Sums(a, b), buf[pos..pos]);
    var n := 0;
    while n < count
      invariant 0 <= n <= count && Within(Sums(a, b), 0xffff, 16 * n)
      invariant Sums(a, b) == Raw(Sums(adler, sum2), buf[pos..pos + 16 * n])
    {
      RawTwice(Sums(adler, sum2), buf, pos, pos + 16 * n, pos + 16 * n + 16);
      a, b := Do16(buf, pos + 16 * n, a, b, 16 * n);
      n := n + 1;
    }
  }

  /** The sums of a longer buffer: blocks of NMAX bytes, then the rest. */
  method LongSums(buf: array<byte>, len: nat, adler: u32, sum2: u32) returns (a: u32, b: u32)
    requires 16 <= len <= buf.Length && adler <= 0xffff && sum2 <= 0xffff
    ensures Sums(a, b) == Run(Reduced(Sums(adler, sum2)), buf[..len])
  {
    hide Raw, Within, Run, Reduced;
    a, b := adler, sum2;
    ghost var s := Reduced(Sums(adler, sum2));
    var pos := 0;
    RunEmpty(s, buf[..0]);
    while len - pos >= NMAX
      invariant 0 <= pos <= len && a <= 0xffff && b <= 0xffff
      invariant Reduced(Sums(a, b)) == Run(s, buf[..pos])
      invariant pos != 0 ==> Reduced(Sums(a, b)) == Sums(a, b)
    {
      RunOn(s, Sums(a, b), buf, pos, pos + NMAX);
      a, b := Sixteens(buf, pos, NMAX / 16, a, b);
      ReducedIs(Sums(a, b));
      a := Mod(a);
      b := Mod(b);
      pos := pos + NMAX;
    }
    if len - pos != 0 {
      RunOn(s, Sums(a, b), buf, pos, len);
      RawTwice(Sums(a, b), buf, pos, pos + 16 * ((len - pos) / 16), len);
      a, b := Sixteens(buf, pos, (len - pos) / 16, a, b);
      a, b := ByteSums(buf, pos + 16 * ((len - pos) / 16), len, a, b, 16 * ((len - pos) / 16));
      ReducedIs(Sums(a, b));
      a := Mod(a);
      b := Mod(b);
    }
  }

  lemma RunEmpty(s: Sums, bytes: seq<byte>)
    requires |bytes| == 0
    ensures Run(s, bytes) == s
  {
  }

  lemma ReducedIs(s: Sums)
    ensures Reduced(s) == Sums(s.a % BASE, s.b % BASE)
    ensures Reduced(Reduced(s)) == Reduced(s)
    ensures s.a % BASE <= 0xffff && s.b % BASE <= 0xffff
  {
  }

  /** One more stretch, summed without reduction from unreduced sums t. */
  lemma RunOn(s: Sums, t: Sums, buf: array<byte>, pos: nat, end: nat)
    requires pos <= end <= buf.Length && Reduced(t) == Run(s, buf[..pos])
    ensures Reduced(Raw(t, buf[pos..end])) == Run(s, buf[..end])
  {
    hide Raw, Run, Reduced;
    Deferred(t, buf[pos..end]);
    RunAppend(s, buf[..pos], buf[pos..end]);
    assert buf[..pos] + buf[pos..end] == buf[..end];
  }

  /** Joining two reduced sums. */
  method Join(a: u32, b: u32) returns (r: u32)
    requires a < 0x1_0000 && b < 0x1_0000
    ensures r == Pack(Sums(a, b))
  {
    Pow2Of64();
    OrDisjoint(a, b, 16);
    r := Or(a, b * 0x1_0000);
  }

  /**
   * adler32_z: the checksum of the first len bytes of buf, carried on from any adler; 1 for a null buffer. With
   * one byte, where each sum is reduced by at most one subtraction, this holds exactly if one subtraction is enough
   * for the second sum, as it is for every adler whose halves are below BASE.
   */
  method Adler32Z(adler: u64, buf: array?<byte>, len: nat) returns (r: u32)
    requires buf == null ==> len != 1
    requires buf != null ==> len <= buf.Length
    ensures buf == null ==> r == 1
    ensures buf != null && len != 1 ==> r == Adler(adler, buf[..len])
    ensures buf != null && len == 1 ==>
              (r == Adler(adler, buf[..1]) <==> Unpack(adler).b + (Unpack(adler).a + buf[0]) % BASE < 2 * BASE)
    ensures buf != null && Valid(Unpack(adler)) ==> r == Adler(adler, buf[..len])
  {
    hide Run, Raw, Within;
    var a: u32, b: u32 := adler % 0x1_0000, adler / 0x1_0000 % 0x1_0000;
    ghost var s := Sums(a, b);
    if len == 1 {
      OneByte(s, buf[0]);
      assert buf[..1] == [buf[0]];
      a := a + buf[0];
      if a >= BASE {
        a := a - BASE;
      }
      b := b + a;
      if b >= BASE {
        b := b - BASE;
      }
      r := Join(a, b);
      return;
    }
    if buf == null {
      return 1;
    }
    if len < 16 {
      WithinStart(s, 0xffff);
      a, b := ByteSums(buf, 0, len, a, b, 0);
      assert buf[0..len] == buf[..len];
      Deferred(s, buf[..len]);
      ShortSums(Sums(a, b), len);
      if a >= BASE {
        a := a - BASE;
      }
      b := Mod28(b);
      r := Join(a, b);
      return;
    }
    a, b := LongSums(buf, len, a, b);
    ReducedIs(s);
    RunValid(Reduced(s), buf[..len]);
    r := Join(a, b);
  }

  /** One subtraction is not always enough: adler = 0xfffffff0, which is no checksum, with a zero byte. */
  method OneByteFails() returns (r: u32)
    ensures r != Adler(0xffff_fff0, [0])
  {
    hide Run, Unpack, Adler;
    var buf := new byte[1];
    buf[0] := 0;
    LargeHalves();
    r := Adler32Z(0xffff_fff0, buf, 1);
    assert buf[..1] == [0];
  }

  lemma LargeHalves()
    ensures Unpack(0xffff_fff0) == Sums(65520, 65535)
  {
  }

  /** Subtracting BASE once if possible. */
  function Once(x: nat): (r: nat)
    ensures r % BASE == x % BASE
    ensures x < 2 * BASE <==> r == x % BASE
  {
    if x >= BASE then OnceDown(x); x - BASE else x
  }

  lemma OnceDown(x: nat)
    requires x >= BASE
    ensures (x - BASE) % BASE == x % BASE
  {
    AddMultiple(x, -1);
  }

  /** The one-byte path. */
  lemma OneByte(s: Sums, x: byte)
    requires s.a <= 0xffff && s.b <= 0xffff
    ensures var a := Once(s.a + x);
            var b := Once(s.b + a);
            && a < 0x1_0000 && b < 0x1_0000 && a == (s.a + x) % BASE
            && (Pack(Sums(a, b)) == Pack(Run(Reduced(s), [x])) <==> s.b + (s.a + x) % BASE < 2 * BASE)
            && (Valid(s) ==> Pack(Sums(a, b)) == Pack(Run(Reduced(s), [x])))
  {
    var a := Once(s.a + x);
    assert a == (s.a + x) % BASE;
    RunOne(s, x);
    assert Run(Reduced(s), [x]) == Sums(a, (s.b + a) % BASE);
    hide Run, Reduced;
    assert Once(s.b + a) < 0x1_0000;
  }

  lemma RunOne(s: Sums, x: byte)
    ensures Run(Reduced(s), [x]) == Sums((s.a + x) % BASE, (s.b + (s.a + x) % BASE) % BASE)
  {
    var t := Reduced(s);
    var a := (t.a + x) % BASE;
    assert [x][1..] == [];
    assert Run(t, [x]) == Run(Sums(a, (t.b + a) % BASE), []);
    AddResidues(s.a, x);
    AddResidues(s.b, a);
  }

  /** Fewer than 16 bytes leave the first sum within one subtraction and the second within 28 bits. */
  lemma ShortSums(s: Sums, n: nat)
    requires n < 16 && Within(s, 0xffff, n)
    ensures s.a < 2 * BASE && s.b < 0x1000_0000
    ensures s.a % BASE == if s.a >= BASE then s.a - BASE else s.a
  {
    LargestGrows(0xffff, n, 15);
    TriangleIs(15);
  }

  // ---- Combination ----

  /** What a change of the starting sums becomes. */
  lemma {:induction false} RawShift(s: Sums, t: Sums, y: seq<byte>)
    ensures Raw(Sums(s.a + t.a, s.b + t.b), y).a == Raw(s, y).a + t.a
    ensures Raw(Sums(s.a + t.a, s.b + t.b), y).b == Raw(s, y).b + t.b + |y| * t.a
    decreases |y|
  {
    if |y| == 0 {
    } else {
      var s' := Sums(s.a + y[0], s.b + s.a + y[0]);
      var t' := Sums(t.a, t.b + t.a);
      RawShift(s', t', y[1..]);
      assert |y| * t.a == |y[1..]| * t.a + t.a;
    }
  }

  /** The arithmetic of the combination formula. */
  lemma Formula(a1: nat, b1: nat, n: nat, za: nat, zb: nat, a2: nat, b2: nat, rem: nat)
    requires a2 == (1 + za) % BASE && b2 == (n + zb) % BASE && rem == n % BASE
    requires n * a1 >= 0 && rem * a1 >= 0
    ensures (a1 + za) % BASE == (a1 + a2 + BASE - 1) % BASE
    ensures (b1 + n * a1 + zb) % BASE == (rem * a1 % BASE + b1 + b2 + BASE - rem) % BASE
  {
    var q1, q2, q3, q4 := (1 + za) / BASE, (n + zb) / BASE, n / BASE, rem * a1 / BASE;
    AddMultiple(a1 + a2 + BASE - 1, q1 - 1);
    assert n * a1 == rem * a1 + BASE * (q3 * a1) by {
      assert n * a1 == (rem + BASE * q3) * a1;
    }
    AddMultiple(rem * a1 % BASE + b1 + b2 + BASE - rem, q4 + q3 * a1 + q2 - q3 - 1);
  }

  /** The combination formula on the sums of two checksums, the second of n bytes. */
  function Combined(s: Sums, t: Sums, n: nat): Sums
  {
    var rem := n % BASE;
    MulNonNegative(rem, s.a);
    Sums((s.a + t.a + BASE - 1) % BASE, (rem * s.a % BASE + s.b + t.b + BASE - rem) % BASE)
  }

  /** Sums reduced at the end, from starting sums s and from none. */
  lemma RunOfRaw(s: Sums, y: seq<byte>)
    requires Valid(s)
    ensures var z := Raw(Sums(0, 0), y);
            |y| * s.a >= 0 && Run(s, y) == Sums((s.a + z.a) % BASE, (s.b + |y| * s.a + z.b) % BASE)
  {
    hide Raw, Run;
    MulNonNegative(|y|, s.a);
    RawShift(Sums(0, 0), s, y);
    Deferred(s, y);
    assert Reduced(s) == s;
  }

  /** The formula gives the sums of a continuation from those of the continuation alone. */
  lemma Continued(s: Sums, y: seq<byte>)
    requires Valid(s)
    ensures Run(s, y) == Combined(s, Run(Sums(1, 0), y), |y|)
  {
    hide Raw, Run;
    var z, t := Raw(Sums(0, 0), y), Run(Sums(1, 0), y);
    RunOfRaw(s, y);
    RunOfRaw(Sums(1, 0), y);
    MulNonNegative(|y| % BASE, s.a);
    Formula(s.a, s.b, |y|, z.a, z.b, t.a, t.b, |y| % BASE);
  }

  lemma UnpackAdler(v: nat, x: seq<byte>)
    ensures Unpack(Adler(v, x)) == Run(Reduced(Unpack(v)), x) && Valid(Run(Reduced(Unpack(v)), x))
  {
    RunValid(Reduced(Unpack(v)), x);
    UnpackPack(Run(Reduced(Unpack(v)), x));
  }

  lemma StartSums()
    ensures Reduced(Unpack(1)) == Sums(1, 0)
  {
  }

  lemma {:induction false} OrAtMost(a: nat, b: nat)
    ensures Or(a, b) <= a + b
    decreases a + b
  {
    if a != 0 && b != 0 {
      OrAtMost(a / 2, b / 2);
    }
  }

  /** The conditional subtractions of the first sum and of the second. */
  method Subtractions(sum1: u32, sum2: u32) returns (r1: u32, r2: u32)
    ensures sum1 < 3 * BASE ==> r1 == sum1 % BASE
    ensures sum2 < 4 * BASE ==> r2 == sum2 % BASE
    ensures r1 <= sum1 && r2 <= sum2
  {
    r1, r2 := sum1, sum2;
    if r1 >= BASE {
      r1 := r1 - BASE;
    }
    if r1 >= BASE {
      r1 := r1 - BASE;
    }
    if r2 >= 2 * BASE {
      r2 := r2 - 2 * BASE;
    }
    if r2 >= BASE {
      r2 := r2 - BASE;
    }
  }

  /**
   * adler32_combine_: all ones for a negative length; otherwise the formula, whose conditional subtractions are
   * enough for valid checksums, and so the checksum of a concatenation from those of its parts.
   */
  method Combine(adler1: u64, adler2: u64, len2: i64) returns (r: u64)
    ensures len2 < 0 ==> r == 0xffff_ffff
    ensures len2 >= 0 && Valid(Unpack(adler1)) && Valid(Unpack(adler2)) ==>
              r == Pack(Combined(Unpack(adler1), Unpack(adler2), len2))
    ensures forall v: nat, x: seq<byte>, y: seq<byte> ::
              |y| == len2 && adler1 == Adler(v, x) && adler2 == Adler(1, y) ==> r == Adler(v, x + y)
  {
    if len2 < 0 {
      return 0xffff_ffff;
    }
    r := CombineSums(adler1, adler2, len2);
    hide Run, Adler, Combined, Unpack, Valid;
    forall v: nat, x: seq<byte>, y: seq<byte> | |y| == len2 && adler1 == Adler(v, x) && adler2 == Adler(1, y)
      ensures r == Adler(v, x + y)
    {
      CombineParts(v, x, y);
    }
  }

  /** The formula of adler32_combine_, for a length that is not negative. */
  method CombineSums(adler1: u64, adler2: u64, len2: i64) returns (r: u64)
    requires len2 >= 0
    ensures Valid(Unpack(adler1)) && Valid(Unpack(adler2)) ==>
              r == Pack(Combined(Unpack(adler1), Unpack(adler2), len2))
  {
    hide Or, Pow2;
    var rem: u32 := Mod63(len2);
    var sum1: u32 := adler1 % 0x1_0000;
    RemTimes(rem, sum1);
    var sum2: u32 := Mod(rem * sum1);
    sum1 := sum1 + (adler2 % 0x1_0000 + BASE - 1);
    sum2 := sum2 + (adler1 / 0x1_0000 % 0x1_0000 + adler2 / 0x1_0000 % 0x1_0000 + BASE - rem);
    sum1, sum2 := Subtractions(sum1, sum2);
    OrAtMost(sum1, sum2 * 0x1_0000);
    r := Or(sum1, sum2 * 0x1_0000);
    if Valid(Unpack(adler1)) && Valid(Unpack(adler2)) {
      Pow2Of64();
      OrDisjoint(sum1, sum2, 16);
    }
  }

  lemma RemTimes(rem: nat, a: nat)
    requires rem < BASE && a < 0x1_0000
    ensures 0 <= rem * a < TWO_32
  {
    assert rem * a <= BASE * a;
  }

  lemma CombineParts(v: nat, x: seq<byte>, y: seq<byte>)
    ensures Valid(Unpack(Adler(v, x))) && Valid(Unpack(Adler(1, y)))
    ensures Pack(Combined(Unpack(Adler(v, x)), Unpack(Adler(1, y)), |y|)) == Adler(v, x + y)
  {
    hide Run, Combined, Unpack, Reduced;
    UnpackAdler(v, x);
    UnpackAdler(1, y);
    StartSums();
    var s := Reduced(Unpack(v));
    Continued(Run(s, x), y);
    RunAppend(s, x, y);
  }
}
