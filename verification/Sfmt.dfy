/** SFMT.c and SFMT.h: the in-place refill, the bulk fill and the word-at-a-time reader. */
module Sfmt {
  import opened SfmtSpec

  /**
   * do_recursion: word i of r becomes the recurrence of four words, lane by lane. Any of the four may be the
   * word written.
   */
  method DoRecursion(r: array<W128>, i: nat, a: array<W128>, ai: nat, b: array<W128>, bi: nat,
                     c: array<W128>, ci: nat, d: array<W128>, di: nat)
    requires i < r.Length && ai < a.Length && bi < b.Length && ci < c.Length && di < d.Length
    modifies r
    ensures r[i] == Rec(old(a[ai]), old(b[bi]), old(c[ci]), old(d[di]))
    ensures forall k :: 0 <= k < r.Length && k != i ==> r[k] == old(r[k])
  {
    hide ShiftLeft, ShiftRight, Lane;
    var x, y := ShiftLeft(a[ai], SL2), ShiftRight(c[ci], SR2);
    r[i] := r[i].(u0 := Lane(a[ai].u0, x.u0, b[bi].u0, MASK1, y.u0, d[di].u0));
    r[i] := r[i].(u1 := Lane(a[ai].u1, x.u1, b[bi].u1, MASK2, y.u1, d[di].u1));
    r[i] := r[i].(u2 := Lane(a[ai].u2, x.u2, b[bi].u2, MASK3, y.u2, d[di].u2));
    r[i] := r[i].(u3 := Lane(a[ai].u3, x.u3, b[bi].u3, MASK4, y.u3, d[di].u3));
  }

  /** Word n + i of the sequence. */
  lemma NextWord(seed: seq<W128>, pos1: nat, i: nat)
    requires Legal(seed, pos1)
    ensures X(seed, pos1, |seed| + i) ==
            Rec(X(seed, pos1, i), X(seed, pos1, i + pos1), X(seed, pos1, |seed| + i - 2), X(seed, pos1, |seed| + i - 1))
  {
    hide Rec;
  }

  lemma FirstWords(seed: seq<W128>, pos1: nat)
    requires Legal(seed, pos1)
    ensures forall i :: 0 <= i < |seed| ==> X(seed, pos1, i) == seed[i]
  {
  }

  // ---- The in-place refill ----

  /** sfmt_gen_rand_all: the state moves on by N words, in place. */
  method GenRandAll(state: array<W128>, pos1: nat)
    requires Legal(state[..], pos1)
    modifies state
    ensures forall k :: 0 <= k < state.Length ==> state[k] == X(old(state[..]), pos1, state.Length + k)
  {
    hide Rec, X;
    var n := state.Length;
    ghost var was := state[..];
    FirstWords(was, pos1);
    var r1, r2 := n - 2, n - 1;
    var i := 0;
    while i < n - pos1
      invariant 0 <= i <= n - pos1
      invariant r1 == if i < 2 then n + i - 2 else i - 2
      invariant r2 == if i < 1 then n - 1 else i - 1
      invariant forall k :: 0 <= k < i ==> state[k] == X(was, pos1, n + k)
      invariant forall k :: i <= k < n ==> state[k] == X(was, pos1, k)
    {
      NextWord(was, pos1, i);
      DoRecursion(state, i, state, i, state, i + pos1, state, r1, state, r2);
      r1 := r2;
      r2 := i;
      i := i + 1;
    }
    while i < n
      invariant n - pos1 <= i <= n
      invariant r1 == if i < 2 then n + i - 2 else i - 2
      invariant r2 == if i < 1 then n - 1 else i - 1
      invariant forall k :: 0 <= k < i ==> state[k] == X(was, pos1, n + k)
      invariant forall k :: i <= k < n ==> state[k] == X(was, pos1, k)
    {
      NextWord(was, pos1, i);
      DoRecursion(state, i, state, i, state, i + pos1 - n, state, r1, state, r2);
      r1 := r2;
      r2 := i;
      i := i + 1;
    }
  }

  // ---- The bulk fill ----

  /** The first n words of buf carry the sequence of the state on. */
  ghost predicate Filled(was: seq<W128>, pos1: nat, buf: array<W128>, n: nat)
    requires Legal(was, pos1) && n <= buf.Length
    reads buf
  {
    forall k :: 0 <= k < n ==> buf[k] == X(was, pos1, |was| + k)
  }

  /** gen_rand_array, first two loops: N words with the state as their words N before. */
  method FillFromState(state: array<W128>, pos1: nat, buf: array<W128>) returns (r1: nat, r2: nat)
    requires Legal(state[..], pos1) && buf.Length >= state.Length && buf != state
    modifies buf
    ensures r1 == state.Length - 2 && r2 == state.Length - 1
    ensures Filled(state[..], pos1, buf, state.Length)
  {
    hide Rec, X;
    var n := state.Length;
    ghost var was := state[..];
    FirstWords(was, pos1);
    var p1, p2 := state, state;
    r1, r2 := n - 2, n - 1;
    var i := 0;
    while i < n - pos1
      invariant 0 <= i <= n - pos1
      invariant if i < 2 then p1 == state && r1 == n + i - 2 else p1 == buf && r1 == i - 2
      invariant if i < 1 then p2 == state && r2 == n - 1 else p2 == buf && r2 == i - 1
      invariant Filled(was, pos1, buf, i)
    {
      NextWord(was, pos1, i);
      DoRecursion(buf, i, state, i, state, i + pos1, p1, r1, p2, r2);
      p1, r1 := p2, r2;
      p2, r2 := buf, i;
      i := i + 1;
    }
    while i < n
      invariant n - pos1 <= i <= n
      invariant if i < 2 then p1 == state && r1 == n + i - 2 else p1 == buf && r1 == i - 2
      invariant if i < 1 then p2 == state && r2 == n - 1 else p2 == buf && r2 == i - 1
      invariant Filled(was, pos1, buf, i)
    {
      NextWord(was, pos1, i);
      DoRecursion(buf, i, state, i, buf, i + pos1 - n, p1, r1, p2, r2);
      p1, r1 := p2, r2;
      p2, r2 := buf, i;
      i := i + 1;
    }
  }

  /** One turn of the later loops, with the words N before in the buffer itself. */
  method FillOne(ghost was: seq<W128>, n: nat, pos1: nat, buf: array<W128>, i: nat, r1: nat, r2: nat)
    requires Legal(was, pos1) && n == |was| <= i < buf.Length && Filled(was, pos1, buf, i)
    requires r1 == i - 2 && r2 == i - 1
    modifies buf
    ensures Filled(was, pos1, buf, i + 1)
  {
    hide Rec, X;
    NextWord(was, pos1, i);
    DoRecursion(buf, i, buf, i - n, buf, i + pos1 - n, buf, r1, buf, r2);
  }

  /**
   * gen_rand_array: the next size words of the sequence go to the buffer, and the last N of them become the state.
   */
  method GenRandArray(state: array<W128>, pos1: nat, buf: array<W128>, size: nat)
    requires Legal(state[..], pos1) && state.Length <= size <= buf.Length && buf != state
    modifies state, buf
    ensures Filled(old(state[..]), pos1, buf, size)
    ensures forall k :: 0 <= k < state.Length ==> state[k] == X(old(state[..]), pos1, size + k)
  {
    hide X;
    var n := state.Length;
    ghost var was := state[..];
    var r1, r2 := FillFromState(state, pos1, buf);
    var i := n;
    while i < size - n
      invariant n <= i && (i <= size - n || i == n) && r1 == i - 2 && r2 == i - 1
      invariant Filled(was, pos1, buf, i)
    {
      FillOne(was, n, pos1, buf, i, r1, r2);
      r1 := r2;
      r2 := i;
      i := i + 1;
    }
    var j := 0;
    while j < 2 * n - size
      invariant 0 <= j && (j <= 2 * n - size || j == 0)
      invariant forall k :: 0 <= k < j ==> state[k] == X(was, pos1, size + k)
      invariant Filled(was, pos1, buf, i)
    {
      state[j] := buf[j + size - n];
      j := j + 1;
    }
    while i < size
      invariant n <= i <= size && j == i + n - size && r1 == i - 2 && r2 == i - 1
      invariant forall k :: 0 <= k < j ==> state[k] == X(was, pos1, size + k)
      invariant Filled(was, pos1, buf, i)
    {
      FillOne(was, n, pos1, buf, i, r1, r2);
      r1 := r2;
      r2 := i;
      state[j] := buf[i];
      i := i + 1;
      j := j + 1;
    }
  }

  // ---- The generator ----

  class Generator {
    /** The parameters and the state array; N is its length. */
    const pos1: nat
    const state: array<W128>
    /** How many 32-bit words of the state have been read. */
    var idx: nat

    /** The sequence that the state comes from, and the position of the state in it. */
    ghost var seed: seq<W128>
    ghost var first: nat

    /** A generator with a state of n words, still to be seeded. */
    constructor (n: nat, pos1: nat)
      ensures state.Length == n && fresh(state) && this.pos1 == pos1
    {
      this.pos1 := pos1;
      state := new W128[n];
      idx := 4 * n;
      seed, first := [], 0;
    }

    ghost predicate Valid()
      reads this, state
    {
      && Legal(seed, pos1) && state.Length == |seed| && idx <= 4 * |seed|
      && forall k :: 0 <= k < state.Length ==> state[k] == X(seed, pos1, first + k)
    }

    /** The position in the stream of 32-bit words of the next one to be read. */
    ghost function Position(): nat
      reads this
    {
      4 * first + idx
    }

    /** sfmt_gen_rand_all as the reader calls it: on to the next N words of the same sequence. */
    method Refill()
      requires Valid() && idx == 4 * state.Length
      modifies this, state
      ensures Valid() && idx == 0 && seed == old(seed) && Position() == old(Position())
    {
      hide X;
      ghost var was := state[..];
      assert was == Window(seed, pos1, first);
      GenRandAll(state, pos1);
      forall k | 0 <= k < state.Length ensures state[k] == X(seed, pos1, first + state.Length + k) {
        CarriesOn(seed, pos1, first, state.Length + k);
      }
      first := first + state.Length;
      idx := 0;
    }

    /** sfmt_genrand_uint32: the next word of the stream. */
    method GenrandUint32() returns (r: U32)
      requires Valid()
      modifies this, state
      ensures Valid() && seed == old(seed) && Position() == old(Position()) + 1
      ensures r == Stream(seed, pos1, old(Position()))
      ensures idx == (if old(idx) == 4 * state.Length then 0 else old(idx)) + 1
    {
      hide X;
      if idx >= 4 * state.Length {
        Refill();
      }
      WordIndex(first, idx);
      r := Part(state[idx / 4], idx % 4);
      idx := idx + 1;
    }

    /** sfmt_genrand_uint64, for an even index: the next two words of the stream, the first one low. */
    method GenrandUint64() returns (low: U32, high: U32)
      requires Valid() && idx % 2 == 0
      modifies this, state
      ensures Valid() && idx % 2 == 0 && seed == old(seed) && Position() == old(Position()) + 2
      ensures idx == (if old(idx) == 4 * state.Length then 0 else old(idx)) + 2
      ensures low == Stream(seed, pos1, old(Position())) && high == Stream(seed, pos1, old(Position()) + 1)
    {
      hide X;
      if idx >= 4 * state.Length {
        Refill();
      }
      WordIndex(first, idx);
      WordIndex(first, idx + 1);
      low, high := Part(state[idx / 4], idx % 4), Part(state[(idx + 1) / 4], (idx + 1) % 4);
      idx := idx + 2;
    }

    /** sfmt_fill_array32, at a multiple of N words only: the next size words of the stream, four to a 128-bit word. */
    method FillArray32(buf: array<W128>, size: nat)
      requires Valid() && idx == 4 * state.Length && size % 4 == 0 && size >= 4 * state.Length
      requires size <= 4 * buf.Length && buf != state
      modifies this, state, buf
      ensures Valid() && idx == old(idx) && seed == old(seed) && Position() == old(Position()) + size
      ensures forall j :: 0 <= j < size ==> Part(buf[j / 4], j % 4) == Stream(seed, pos1, old(Position()) + j)
    {
      hide X;
      ghost var was := state[..];
      assert was == Window(seed, pos1, first);
      GenRandArray(state, pos1, buf, size / 4);
      forall k | 0 <= k < size / 4 ensures buf[k] == X(seed, pos1, first + state.Length + k) {
        CarriesOn(seed, pos1, first, state.Length + k);
      }
      forall k | 0 <= k < state.Length ensures state[k] == X(seed, pos1, first + size / 4 + k) {
        CarriesOn(seed, pos1, first, size / 4 + k);
      }
      forall j | 0 <= j < size ensures Part(buf[j / 4], j % 4) == Stream(seed, pos1, old(Position()) + j) {
        WordIndex(first + state.Length, j);
      }
      first := first + size / 4;
      idx := 4 * state.Length;
    }
  }

  // ---- Runs of calls ----

  /** A call that reads one word, two words, or an array of size words. */
  datatype Call = One | Two | Fill(size: nat)

  /** Every call is made where the source's assertions allow it; n32 is 4 N, and idx the reader's index before. */
  predicate Allowed(calls: seq<Call>, n32: nat, idx: nat)
    decreases |calls|
  {
    if |calls| == 0 then true else
    var at := if idx == n32 then 0 else idx;
    match calls[0]
    case One => Allowed(calls[1..], n32, at + 1)
    case Two => idx % 2 == 0 && Allowed(calls[1..], n32, at + 2)
    case Fill(size) => idx == n32 && size % 4 == 0 && size >= n32 && Allowed(calls[1..], n32, n32)
  }

  /** The next n words of the stream from position j on. */
  ghost function Section(seed: seq<W128>, pos1: nat, j: nat, n: nat): (r: seq<U32>)
    requires Legal(seed, pos1)
    ensures |r| == n
  {
    seq(n, i requires 0 <= i < n => Stream(seed, pos1, j + i))
  }

  /** Everything that a run of allowed calls returns, in order, is one stretch of the stream. */
  method ReadAll(g: Generator, calls: seq<Call>) returns (out: seq<U32>)
    requires g.Valid() && Allowed(calls, 4 * g.state.Length, g.idx)
    modifies g, g.state
    ensures g.Valid() && g.seed == old(g.seed) && g.Position() == old(g.Position()) + |out|
    ensures out == Section(g.seed, g.pos1, old(g.Position()), |out|)
  {
    hide Stream;
    out := [];
    var left := calls;
    while |left| > 0
      invariant g.Valid() && g.seed == old(g.seed) && g.Position() == old(g.Position()) + |out|
      invariant Allowed(left, 4 * g.state.Length, g.idx)
      invariant out == Section(g.seed, g.pos1, old(g.Position()), |out|)
    {
      var more := ReadOne(g, left[0]);
      out := out + more;
      left := left[1..];
    }
  }

  /** One call, with its result as a sequence of words. */
  method ReadOne(g: Generator, call: Call) returns (out: seq<U32>)
    requires g.Valid() && Allowed([call], 4 * g.state.Length, g.idx)
    modifies g, g.state
    ensures g.Valid() && g.seed == old(g.seed) && g.Position() == old(g.Position()) + |out|
    ensures out == Section(g.seed, g.pos1, old(g.Position()), |out|)
    ensures g.idx == match call
                     case One => (if old(g.idx) == 4 * g.state.Length then 0 else old(g.idx)) + 1
                     case Two => (if old(g.idx) == 4 * g.state.Length then 0 else old(g.idx)) + 2
                     case Fill(_) => 4 * g.state.Length
  {
    hide Stream;
    match call
    case One =>
      var r := g.GenrandUint32();
      out := [r];
    case Two =>
      var low, high := g.GenrandUint64();
      out := [low, high];
    case Fill(size) =>
      var buf := new W128[size / 4];
      g.FillArray32(buf, size);
      out := seq(size, j requires 0 <= j < size reads buf => Part(buf[j / 4], j % 4));
  }

  lemma WordIndex(first: nat, j: nat)
    ensures (4 * first + j) / 4 == first + j / 4 && (4 * first + j) % 4 == j % 4
  {
  }
}
