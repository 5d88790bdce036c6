/** Inversion by exponentiation in radix 2^51. */
module Fe51Invert {
  import opened MachineInts
  import opened Bits
  import opened Field25519
  import opened Fe51
  import opened Fe51Ops
  import PrimeField

  /** A run of n squarings, the first from f into h and the rest in place. */
  method SqTimes(h: array<u64>, f: array<u64>, n: nat)
    requires h.Length == 5 && f.Length == 5 && n >= 1
    requires Below(f[..], T54)
    modifies h
    ensures Below(h[..], TIGHT) && Below(h[..], T54)
    ensures Fval(h[..]) == FPow(old(Fval(f[..])), Pow2(n))
  {
    hide *;
    ghost var x := Fval(f[..]);
    Sq(h, f);
    PowTwo(x);
    var i := 1;
    while i < n
      invariant 1 <= i <= n
      invariant Below(h[..], TIGHT) && Below(h[..], T54)
      invariant Fval(h[..]) == FPow(x, Pow2(i))
    {
      PowDouble(x, i);
      Sq(h, h);
      i := i + 1;
    }
  }

  /** One link of the chain: n squarings of f into tmp, times g, into h. From a ones and n ones it makes a + n ones. */
  method Link(h: array<u64>, tmp: array<u64>, f: array<u64>, n: nat, g: array<u64>, ghost x: int, ghost a: nat)
    requires h.Length == 5 && tmp.Length == 5 && f.Length == 5 && g.Length == 5 && tmp != g && n >= 1
    requires Below(f[..], T54) && Below(g[..], T54)
    requires Fval(f[..]) == Ones(x, a) && Fval(g[..]) == Ones(x, n)
    modifies h, tmp
    ensures Below(h[..], T54) && Fval(h[..]) == Ones(x, a + n)
  {
    hide *;
    SqTimes(tmp, f, n);
    Mul(h, tmp, g);
    OnesConcat(x, a, n);
  }

  /** The start of the chain: z^11 into t0 and five ones into t1. */
  method Start(t0: array<u64>, t1: array<u64>, t2: array<u64>, z: array<u64>)
    requires t0.Length == 5 && t1.Length == 5 && t2.Length == 5 && z.Length == 5
    requires t0 != t1 && t0 != t2 && t1 != t2 && z != t0 && z != t1
    requires Below(z[..], T54)
    modifies t0, t1, t2
    ensures Below(t0[..], T54) && Below(t1[..], T54)
    ensures Fval(t0[..]) == FPow(old(Fval(z[..])), 11)
    ensures Fval(t1[..]) == Ones(old(Fval(z[..])), 5)
  {
    hide *;
    ghost var x := Fval(z[..]);
    Sq(t0, z);
    SqTimes(t1, t0, 2);
    ghost var z8 := Fval(t1[..]);
    Mul(t1, z, t1);
    ghost var z9 := Fval(t1[..]);
    Mul(t0, t0, t1);
    Sq(t2, t0);
    ghost var z22 := Fval(t2[..]);
    Mul(t1, t1, t2);
    ChainStart(x, z8, z9, Fval(t0[..]), z22, Fval(t1[..]));
  }

  /** z raised to 2^255 - 21, that is P - 2, by the chain of the source; out may alias z. */
  method Invert(out: array<u64>, z: array<u64>)
    requires out.Length == 5 && z.Length == 5
    requires Below(z[..], T54)
    modifies out
    ensures Below(out[..], TIGHT) && Below(out[..], T54)
    ensures Fval(out[..]) == FPow(old(Fval(z[..])), P - 2)
    ensures old(Fval(z[..])) != 0 ==> FMul(old(Fval(z[..])), Fval(out[..])) == 1
  {
    hide *;
    ghost var x := Fval(z[..]);
    var t0, t1, t2, t3 := new u64[5], new u64[5], new u64[5], new u64[5];

    Start(t0, t1, t2, z);
    Link(t1, t2, t1, 5, t1, x, 5);
    Link(t2, t2, t1, 10, t1, x, 10);
    Link(t2, t3, t2, 20, t2, x, 20);
    Link(t1, t2, t2, 10, t1, x, 40);
    Link(t2, t2, t1, 50, t1, x, 50);
    Link(t2, t3, t2, 100, t2, x, 100);
    Link(t1, t2, t2, 50, t1, x, 200);

    SqTimes(t1, t1, 5);
    OnesFinish(x, 250, 5, 11);
    Pow2Of255();
    SmallPowers();
    Mul(out, t1, t0);
    if x != 0 {
      FvalIsResidue(old(z[..]));
      PrimeField.Inverts(x);
    }
  }

  lemma FvalIsResidue(h: seq<int>)
    requires |h| == 5
    ensures F(Fval(h)) == Fval(h)
  {
    FIdempotent(Val(h));
  }
}
