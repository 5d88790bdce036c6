/** The points of edwards25519, the curve of the library's Ed25519 code, as an abelian group. */
module Edwards25519 {
  import opened Field25519
  import opened QuadraticResidues
  import opened Groups = Group
  import Edwards
  import Decompress

  type EdPoint = p: Edwards.Point | Edwards.On(D, p) ghost witness (Edwards.ZeroOn(D); Edwards.ZERO)

  ghost function Sum(p: EdPoint, q: EdPoint): EdPoint
  {
    BothTwisted();
    Edwards.Closed(D, I, p, q);
    Edwards.Add(D, p, q)
  }

  ghost function Opposite(p: EdPoint): EdPoint
  {
    Edwards.NegOn(D, p);
    Edwards.Neg(p)
  }

  ghost function Zero(): EdPoint
  {
    Edwards.ZeroOn(D);
    Edwards.ZERO
  }

  ghost function EdGroup(): Group<EdPoint>
  {
    Group(Zero(), Sum, Opposite)
  }

  /** The points of edwards25519 form an abelian group, so that what holds over every abelian group holds over it. */
  lemma EdAbelian()
    ensures Abelian(EdGroup())
  {
    hide Edwards.On, Edwards.Add, Edwards.Neg, Edwards.Twisted;
    BothTwisted();
    var g := EdGroup();
    forall a: EdPoint, b: EdPoint
      ensures g.add(a, b) == g.add(b, a)
    {
      Edwards.Commutes(D, a, b);
    }
    forall a: EdPoint, b: EdPoint, c: EdPoint
      ensures g.add(g.add(a, b), c) == g.add(a, g.add(b, c))
    {
      Edwards.Associates(D, I, a, b, c);
    }
    forall a: EdPoint
      ensures g.add(a, g.zero) == a && g.add(a, g.neg(a)) == g.zero
    {
      Edwards.AddZero(D, I, a);
      Edwards.AddNeg(D, I, a);
    }
  }

  /** The curve is the one of decompression. */
  lemma SameCurve(x: int, y: int)
    requires 0 <= x < P && 0 <= y < P
    ensures Decompress.OnCurve(x, y) <==> Edwards.On(D, Edwards.Point(x, y))
  {
    hide F, FMul, Decompress.D;
  }
}
