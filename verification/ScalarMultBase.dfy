/** The fixed-base multiplication a*B from a table of multiples, over any abelian group. */
module ScalarMultBase {
  import opened MachineInts
  import opened Radix
  import opened LittleEndian
  import opened Group

  // ---- Radix-16 digits ----

  /** Every second digit, starting with the first. */
  function Evens(e: seq<int>): (r: seq<int>)
    ensures |r| == (|e| + 1) / 2
  {
    seq((|e| + 1) / 2, j requires 0 <= j < (|e| + 1) / 2 => e[2 * j])
  }

  function Odds(e: seq<int>): (r: seq<int>)
    ensures |r| == |e| / 2
  {
    seq(|e| / 2, j requires 0 <= j < |e| / 2 => e[2 * j + 1])
  }

  /** A radix-16 string is two interleaved radix-256 strings. */
  lemma {:induction false} Interleaved(e: seq<int>)
    requires |e| % 2 == 0
    ensures Eval(e, 16) == Eval(Evens(e), 256) + 16 * Eval(Odds(e), 256)
  {
    if |e| == 0 {
    } else {
      var t := e[2..];
      Interleaved(t);
      assert e[1..][1..] == t;
      assert Evens(e)[1..] == Evens(t) && Odds(e)[1..] == Odds(t);
      assert Eval(e, 16) == e[0] + 16 * Eval(e[1..], 16);
      assert Eval(e[1..], 16) == e[1] + 16 * Eval(t, 16);
    }
  }

  lemma {:induction false} PairsAdd(x: seq<int>, y: seq<int>, s: seq<int>)
    requires |x| == |y| == |s| && forall j :: 0 <= j < |s| ==> s[j] == x[j] + 16 * y[j]
    ensures Eval(s, 256) == Eval(x, 256) + 16 * Eval(y, 256)
  {
    if |s| == 0 {
    } else {
      PairsAdd(x[1..], y[1..], s[1..]);
    }
  }

  /** The two nibbles of every byte, low nibble first. */
  method Nibbles(e: array<i8>, a: array<byte>)
    requires e.Length == 64 && a.Length == 32
    modifies e
    ensures forall j :: 0 <= j < 64 ==> 0 <= e[j] < 16
    ensures e[63] == old(a[31]) / 16
    ensures Eval(e[..], 16) == old(LE(a[..]))
  {
    hide Eval, LE;
    ghost var s := a[..];
    var i := 0;
    while i < 32
      invariant 0 <= i <= 32 && a[..] == s
      invariant forall j :: 0 <= j < i ==> e[2 * j] == s[j] % 16 && e[2 * j + 1] == s[j] / 16 % 16
      invariant forall j :: 0 <= j < 2 * i ==> 0 <= e[j] < 16
    {
      e[2 * i] := a[i] % 16;
      e[2 * i + 1] := a[i] / 16 % 16;
      i := i + 1;
    }
    NibbleSum(e[..], s);
  }

  lemma NibbleSum(e: seq<int>, s: seq<byte>)
    requires |e| == 64 && |s| == 32
    requires forall j :: 0 <= j < 32 ==> e[2 * j] == s[j] % 16 && e[2 * j + 1] == s[j] / 16 % 16
    ensures Eval(e, 16) == LE(s)
  {
    hide Eval;
    Interleaved(e);
    PairsAdd(Evens(e), Odds(e), s);
  }

  /** One turn of the carry loop: digit i becomes a digit between -8 and 7. */
  method CarryDigit(e: array<i8>, i: nat, carry: i8) returns (next: i8)
    requires i < 63 && e.Length == 64 && 0 <= carry <= 1 && 0 <= e[i] < 16
    modifies e
    ensures 0 <= next <= 1 && -8 <= e[i] <= 8
    ensures forall j :: 0 <= j < 64 && j != i ==> e[j] == old(e[j])
    ensures Eval(e[..], 16) + Weight(16, i + 1) * next == old(Eval(e[..], 16)) + Weight(16, i) * carry
  {
    hide Eval;
    ghost var before := e[..];
    e[i] := e[i] + carry;
    next := e[i] + 8;
    next := next / 16;
    e[i] := e[i] - next * 16;
    assert e[..] == before[i := e[i]];
    EvalUpdate(before, i, e[i], 16);
    CarryMoves(Weight(16, i), carry, next, e[i] - before[i]);
  }

  /** Carrying to digits between -8 and 8; the value is unchanged. */
  method Recode(e: array<i8>, a: array<byte>)
    requires e.Length == 64 && a.Length == 32 && a[31] <= 127
    modifies e
    ensures forall j :: 0 <= j < 64 ==> -8 <= e[j] <= 8
    ensures Eval(e[..], 16) == old(LE(a[..]))
  {
    hide Eval, LE, Weight;
    ghost var n := LE(a[..]);
    Nibbles(e, a);
    var carry: i8 := 0;
    var i := 0;
    while i < 63
      invariant 0 <= i <= 63 && 0 <= carry <= 1
      invariant forall j :: 0 <= j < i ==> -8 <= e[j] <= 8
      invariant forall j :: i <= j < 64 ==> 0 <= e[j] < 16
      invariant e[63] <= 7
      invariant Eval(e[..], 16) + Weight(16, i) * carry == n
    {
      carry := CarryDigit(e, i, carry);
      i := i + 1;
    }
    ghost var before := e[..];
    e[63] := e[63] + carry;
    assert e[..] == before[63 := e[63]];
    EvalUpdate(before, 63, e[63], 16);
  }

  lemma CarryMoves(w: int, c: int, c': int, delta: int)
    requires delta == c - 16 * c'
    ensures w * delta == w * c - (16 * w) * c'
  {
  }

  // ---- The table and its constant-time lookup ----

  /** table[i][j] holds (j + 1) * 256^i * B. */
  ghost predicate BaseTable<G>(g: Group<G>, table: seq<seq<G>>, B: G)
  {
    |table| == 32 && forall i :: 0 <= i < 32 ==> TableRow(g, table[i], i, B)
  }

  ghost predicate TableRow<G>(g: Group<G>, row: seq<G>, i: nat, B: G)
  {
    |row| == 8 && forall j :: 0 <= j < 8 ==> row[j] == Times(g, (j + 1) * Weight(256, i), B)
  }

  /** 1 for a negative digit, 0 otherwise: the sign bit of the digit extended to 32 bits. */
  function Negative(b: i8): (r: byte)
    ensures r == if b < 0 then 1 else 0
  {
    (b % TWO_32) / TWO_31
  }

  /** The eight conditional moves: entry babs - 1 of the row, or the neutral element for 0. */
  method Lookup<G(!new)>(g: Group<G>, row: seq<G>, pos: nat, babs: byte, ghost B: G) returns (t: G)
    requires Abelian(g) && TableRow(g, row, pos, B) && babs <= 8
    ensures t == Times(g, babs * Weight(256, pos), B)
  {
    hide Abelian, Weight, Times;
    t := g.zero;
    var j := 0;
    while j < 8
      invariant 0 <= j <= 8
      invariant t == if 1 <= babs <= j then Times(g, babs * Weight(256, pos), B) else g.zero
    {
      if babs == j + 1 {
        t := row[j];
      }
      j := j + 1;
    }
    TimesZero(g, B);
    assert 0 * Weight(256, pos) == 0;
  }

  /** The lookup: b times the table's power of the base, for any digit between -8 and 8. */
  method Select<G(!new)>(g: Group<G>, table: seq<seq<G>>, pos: nat, b: i8, ghost B: G) returns (t: G)
    requires Abelian(g) && BaseTable(g, table, B) && pos < 32 && -8 <= b <= 8
    ensures t == Times(g, b * Weight(256, pos), B)
  {
    hide Abelian, Weight, Times, TableRow, Evens, Odds;
    var bnegative := Negative(b);
    var masked: byte := if bnegative == 1 then b % 256 else 0;
    var babs: byte := (b - masked * 2) % 256;
    AbsoluteByte(b);
    t := Lookup(g, table[pos], pos, babs, B);
    var minust := g.neg(t);
    if bnegative == 1 {
      TimesNeg(g, babs * Weight(256, pos), B);
      Negated(babs, b, Weight(256, pos));
      t := minust;
    }
  }

  /** The masked subtraction takes the absolute value. */
  lemma AbsoluteByte(b: i8)
    requires -8 <= b <= 8
    ensures (b - (if b < 0 then b % 256 else 0) * 2) % 256 == if b < 0 then -b else b
  {
  }

  lemma Negated(a: int, b: int, w: int)
    requires a == -b
    ensures -(a * w) == b * w
  {
  }

  lemma TimesZero<G(!new)>(g: Group<G>, p: G)
    ensures Times(g, 0, p) == g.zero
  {
  }

  /** The digits one pass goes over: the odd positions first, the even ones in the second pass. */
  function Strand(e: seq<int>, first: nat): seq<int>
  {
    if first == 0 then Evens(e) else Odds(e)
  }

  lemma StrandAt(e: seq<int>, first: nat)
    requires |e| == 64 && first < 2
    ensures |Strand(e, first)| == 32
    ensures forall i {:trigger e[i]} :: first <= i < 64 && i % 2 == first ==> Strand(e, first)[i / 2] == e[i]
  {
  }

  /** One table entry added onto the sum so far. */
  method PassStep<G(!new)>(g: Group<G>, h: G, table: seq<seq<G>>, k: nat, b: i8,
                           ghost d: seq<int>, ghost m: int, ghost B: G)
      returns (h': G)
    requires Abelian(g) && BaseTable(g, table, B) && k < 32 && -8 <= b <= 8
    requires |d| == 32 && d[k] == b && h == Times(g, m + Eval(d[..k], 256), B)
    ensures h' == Times(g, m + Eval(d[..k + 1], 256), B)
  {
    hide Abelian, Weight, Times, BaseTable, Eval;
    var t := Select(g, table, k, b, B);
    TimesAdd(g, m + Eval(d[..k], 256), b * Weight(256, k), B);
    h' := g.add(h, t);
    EvalNext(d, k);
  }

  /** One pass over every second digit, from position first, added onto h. */
  method Pass<G(!new)>(g: Group<G>, h: G, table: seq<seq<G>>, e: array<i8>, first: nat,
                       ghost m: int, ghost B: G) returns (h': G)
    requires Abelian(g) && BaseTable(g, table, B) && e.Length == 64 && first < 2
    requires forall j :: 0 <= j < 64 ==> -8 <= e[j] <= 8
    requires h == Times(g, m, B)
    ensures h' == Times(g, m + Eval(Strand(e[..], first), 256), B)
  {
    hide Abelian, Weight, Times, BaseTable, Eval, Strand;
    ghost var d := Strand(e[..], first);
    StrandAt(e[..], first);
    h' := h;
    var i := first;
    EvalEmpty(d);
    while i < 64
      invariant first <= i <= 64 + first && i % 2 == first
      invariant h' == Times(g, m + Eval(d[..i / 2], 256), B)
    {
      assert e[..][i] == e[i];
      h' := PassStep(g, h', table, i / 2, e[i], d, m, B);
      i := i + 2;
    }
    assert d[..i / 2] == d;
  }

  lemma EvalEmpty(d: seq<int>)
    ensures Eval(d[..0], 256) == 0
  {
  }

  lemma EvalNext(d: seq<int>, k: nat)
    requires k < |d|
    ensures Eval(d[..k + 1], 256) == Eval(d[..k], 256) + d[k] * Weight(256, k)
  {
    assert d[..k + 1] == d[..k] + [d[k]];
    EvalAppend(d[..k], [d[k]], 256);
    LEOne(d[k]);
  }

  /** Doubling is doubling of the multiple. */
  method Double<G(!new)>(g: Group<G>, h: G, ghost m: int, ghost B: G) returns (h': G)
    requires Abelian(g) && h == Times(g, m, B)
    ensures h' == Times(g, 2 * m, B)
  {
    hide Abelian, Times;
    TimesAdd(g, m, m, B);
    h' := g.add(h, h);
  }

  /** h = a*B for every scalar whose last byte is at most 127. */
  method ScalarMultBase<G(!new)>(g: Group<G>, table: seq<seq<G>>, a: array<byte>, ghost B: G) returns (h: G)
    requires Abelian(g) && BaseTable(g, table, B)
    requires a.Length == 32 && a[31] <= 127
    ensures h == Times(g, LE(a[..]), B)
  {
    hide Abelian, Times, BaseTable, LE, Eval, Evens, Odds;
    var e := new i8[64];
    Recode(e, a);
    ghost var od := Eval(Odds(e[..]), 256);
    Interleaved(e[..]);
    TimesZero(g, B);
    h := Pass(g, g.zero, table, e, 1, 0, B);
    h := Double(g, h, od, B);
    h := Double(g, h, 2 * od, B);
    h := Double(g, h, 4 * od, B);
    h := Double(g, h, 8 * od, B);
    h := Pass(g, h, table, e, 0, 16 * od, B);
  }
}
