/** Polynomial arithmetic of dilithium.rs: the pointwise loops, and multiplication through the transform. */
module DilithiumPoly {
  import opened Congruence
  import opened QuotientRing
  import opened TransformTree
  import opened DilithiumTables
  import opened DilithiumMontgomery
  import opened DilithiumNtt

  /** x is, modulo Q, the transform of c. */
  ghost predicate Represents(x: seq<int>, c: Poly) {
    |x| == |c| == DEGREE && IsTransform(S, 256, 1, c, x, Q)
  }

  /** The residue of c at leaf i. */
  function Leaf(c: Poly, i: nat): (v: int)
    requires |c| == DEGREE && i < DEGREE
  {
    ResidueWidth(S, 256, 1, i, c);
    Residue(S, 256 + i, c)[0]
  }

  /** Representing a polynomial is holding its leaf residues. */
  lemma RepresentsLeaf(x: seq<int>, c: Poly)
    requires |x| == |c| == DEGREE
    ensures Represents(x, c) <==> forall i :: 0 <= i < DEGREE ==> Cong(x[i], Leaf(c, i), Q)
  {
    hide Cong, Residue, S;
    forall i: nat | i < DEGREE
      ensures BlockIs(x, Start(i, 1), Residue(S, 256 + i, c), Q) <==> Cong(x[i], Leaf(c, i), Q)
    {
      ResidueWidth(S, 256, 1, i, c);
    }
  }

  lemma LeafProduct(a: Poly, b: Poly, i: nat)
    requires |a| == |b| == DEGREE && i < DEGREE
    ensures Cong(Leaf(MulMod(-1, a, b), i), Leaf(a, i) * Leaf(b, i), Q)
  {
    hide Cong, Residue, S, NodeZ;
    TablesOk();
    ResidueOfProduct(S, 256, 256 + i, a, b, Q);
    ResidueWidth(S, 256, 1, i, a);
    ResidueWidth(S, 256, 1, i, b);
    SingleProduct(NodeZ(S, 256 + i), Residue(S, 256 + i, a), Residue(S, 256 + i, b));
  }

  lemma SingleProduct(z: int, a: Poly, b: Poly)
    requires |a| == |b| == 1
    ensures MulMod(z, a, b) == [a[0] * b[0]]
  {
    HornerStep(z, a, b, 0);
    MulModEmpty(z, b);
    assert a[1..] == [];
  }

  /** Pointwise Montgomery products represent the product divided by R. */
  lemma ProductRepresents(x: seq<int>, a: Poly, y: seq<int>, b: Poly, z: seq<int>)
    requires Represents(x, a) && Represents(y, b) && |z| == DEGREE
    requires forall i :: 0 <= i < DEGREE ==> Cong(z[i], (x[i] * y[i]) * RINV, Q)
    ensures Represents(z, Scale(RINV, MulMod(-1, a, b)))
  {
    hide Cong, Leaf, Represents, MulMod, Scale;
    RepresentsShape(x, a);
    RepresentsShape(y, b);
    RepresentsLeaf(x, a);
    RepresentsLeaf(y, b);
    var c := MulMod(-1, a, b);
    forall i | 0 <= i < DEGREE ensures Cong(z[i], Leaf(Scale(RINV, c), i), Q) {
      LeafProduct(a, b, i);
      LeafScale(RINV, c, i);
      CongMul(x[i], Leaf(a, i), y[i], Leaf(b, i), Q);
      CongSym(Leaf(c, i), Leaf(a, i) * Leaf(b, i), Q);
      CongTrans(x[i] * y[i], Leaf(a, i) * Leaf(b, i), Leaf(c, i), Q);
      CongScale(RINV, x[i] * y[i], Leaf(c, i), Q);
      CongTrans(z[i], RINV * (x[i] * y[i]), RINV * Leaf(c, i), Q);
    }
    RepresentsLeaf(z, Scale(RINV, c));
  }

  lemma RepresentsShape(x: seq<int>, c: Poly)
    requires Represents(x, c)
    ensures |x| == |c| == DEGREE
  {
  }

  lemma LeafScale(f: int, c: Poly, i: nat)
    requires |c| == DEGREE && i < DEGREE
    ensures Leaf(Scale(f, c), i) == f * Leaf(c, i)
  {
    hide Residue, S;
    ResidueScale(S, 256 + i, f, c);
    ResidueWidth(S, 256, 1, i, c);
  }

  /** Sums represent sums. */
  lemma SumRepresents(x: seq<int>, a: Poly, y: seq<int>, b: Poly, z: seq<int>)
    requires Represents(x, a) && Represents(y, b) && |z| == DEGREE
    requires forall i :: 0 <= i < DEGREE ==> Cong(z[i], x[i] + y[i], Q)
    ensures |a| == |b| == DEGREE && Represents(z, Add(a, b))
  {
    hide Cong, IsTransform, Add;
    TransformSum(S, 256, 1, a, x, b, y, z, Q);
  }

  /** f times a representation represents f times the polynomial. */
  lemma ScaleRepresents(x: seq<int>, a: Poly, f: int, z: seq<int>)
    requires Represents(x, a) && |z| == DEGREE
    requires forall i :: 0 <= i < DEGREE ==> Cong(z[i], x[i] * f, Q)
    ensures Represents(z, Scale(f, a))
  {
    hide Cong, IsTransform, Scale;
    TransformScale(S, 256, 1, a, x, f, z, Q);
  }

  /** What is represented may be replaced by anything congruent, on either side. */
  lemma RepresentsCong(x: seq<int>, y: seq<int>, a: Poly, b: Poly)
    requires Represents(x, a) && |b| == DEGREE && SeqCong(x, y, Q) && SeqCong(a, b, Q)
    ensures Represents(y, b)
  {
    hide Cong, IsTransform;
    TransformCong(S, 256, 1, a, x, b, y, Q);
  }

  lemma ZeroRepresents()
    ensures Represents(Zero(DEGREE), Zero(DEGREE))
  {
    hide Cong, IsTransform;
    TransformZero(S, 256, 1, Q);
  }

  /** Canonical residues of all coefficients. */
  function ModQ(p: Poly): (r: Poly)
    ensures |r| == |p|
  {
    seq(|p|, i requires 0 <= i < |p| => p[i] % Q)
  }

  /** What intt returns on a representation of c: R * c, canonical. */
  lemma InttValue(x: seq<int>, c: Poly, y: seq<int>)
    requires Represents(x, c) && |y| == DEGREE
    requires forall j :: 0 <= j < DEGREE ==> y[j] == (R * InverseTransform(x)[j]) % Q
    ensures y == ModQ(Scale(R, c))
  {
    hide Cong, InverseTransform, IsTransform;
    InverseOfTransform(c, x);
    var d := InverseTransform(x);
    forall j | 0 <= j < DEGREE ensures y[j] == (R * c[j]) % Q {
      CongScale(R, d[j], c[j], Q);
      CongMod(R * d[j], Q);
      CongTrans(y[j], R * d[j], R * c[j], Q);
      CongCanonical(y[j], R * c[j], Q);
    }
  }

  /** The factor R of intt undoes the factor 1/R of the pointwise product. */
  lemma ScalesCancel(c: Poly)
    ensures ModQ(Scale(R, Scale(RINV, c))) == ModQ(c)
  {
    hide Cong;
    forall j | 0 <= j < |c| ensures (R * (RINV * c[j])) % Q == c[j] % Q {
      CongIntro(R * RINV, 1, Q, (R * RINV - 1) / Q);
      CongScale(c[j], R * RINV, 1, Q);
      assert R * (RINV * c[j]) == c[j] * (R * RINV);
      SameResidue(R * (RINV * c[j]), c[j]);
    }
  }

  lemma SameResidue(a: int, b: int)
    requires Cong(a, b, Q)
    ensures a % Q == b % Q
  {
    hide Cong;
    CongMod(a, Q);
    CongTrans(a % Q, a, b, Q);
    CongCanonical(a % Q, b, Q);
  }

  lemma ModQCong(a: Poly, b: Poly)
    requires SeqCong(a, b, Q)
    ensures ModQ(a) == ModQ(b)
  {
    hide Cong;
    forall j | 0 <= j < |a| ensures a[j] % Q == b[j] % Q {
      SameResidue(a[j], b[j]);
    }
  }

  lemma ModQIsCong(a: Poly)
    ensures SeqCong(ModQ(a), a, Q)
  {
    hide Cong;
    forall j | 0 <= j < |a| ensures Cong(ModQ(a)[j], a[j], Q) {
      CongMod(a[j], Q);
    }
  }

  // ----- the pointwise loops -----

  method PolyMul(p1: array<I32>, p3: array<I32>)
    requires p1.Length == p3.Length == DEGREE && p1 != p3 && InBound(p1[..], 18) && InBound(p3[..], 18)
    modifies p1
    ensures InBound(p1[..], 2) && forall i :: 0 <= i < DEGREE ==> 1000 * (p1[i] as int) < 1633 * Q
    ensures forall i :: 0 <= i < DEGREE ==> Cong(p1[i], (old(p1[i]) * p3[i]) * RINV, Q)
    ensures forall i :: 0 <= i < DEGREE ==> p1[i] == RedcValue(old(p1[i]) as int * p3[i] as int)
  {
    hide Cong, Modmul, RedcValue;
    for i := 0 to DEGREE
      invariant forall j :: 0 <= j < i ==> 0 <= p1[j] < 2 * Q && Cong(p1[j], (old(p1[j]) * p3[j]) * RINV, Q)
      invariant forall j :: 0 <= j < i ==> 1000 * (p1[j] as int) < 1633 * Q
      invariant forall j :: 0 <= j < i ==> p1[j] == RedcValue(old(p1[j]) as int * p3[j] as int)
      invariant forall j :: i <= j < DEGREE ==> p1[j] == old(p1[j])
    {
      assert p1[i] == old(p1[..])[i] && p3[i] == p3[..][i];
      ModmulLazy(p1[i], p3[i]);
      ModmulHasValue(p1[i], p3[i]);
      p1[i] := Modmul(p1[i], p3[i]);
    }
  }

  method PolyAdd(p1: array<I32>, p3: array<I32>, ghost bound: int, ghost more: int)
    requires p1.Length == p3.Length == DEGREE && p1 != p3 && 0 <= bound && 0 <= more && bound + more <= 256
    requires InBound(p1[..], bound) && InBound(p3[..], more)
    modifies p1
    ensures InBound(p1[..], bound + more) && p1[..] == Add(old(p1[..]), p3[..])
  {
    for i := 0 to DEGREE
      invariant forall j :: 0 <= j < i ==> p1[j] == old(p1[j]) + p3[j] && 0 <= p1[j] < (bound + more) * Q
      invariant forall j :: i <= j < DEGREE ==> p1[j] == old(p1[j])
    {
      assert p1[i] == old(p1[..])[i] && p3[i] == p3[..][i];
      assert bound * Q + more * Q == (bound + more) * Q <= 256 * Q;
      p1[i] := p1[i] + p3[i];
    }
  }

  /** Fully reduces by one Montgomery multiplication with R mod Q. */
  method PolyHardReduce(p: array<I32>)
    requires p.Length == DEGREE && InBound(p[..], 256)
    modifies p
    ensures p[..] == ModQ(old(p[..]))
  {
    hide Cong, Modmul, RedcValue;
    for i := 0 to DEGREE
      invariant forall j :: 0 <= j < i ==> p[j] == old(p[j]) % Q
      invariant forall j :: i <= j < DEGREE ==> p[j] == old(p[j])
    {
      assert p[i] == old(p[..])[i];
      ReduceOnce(p[i]);
      ModmulHasValue(p[i], ONE);
      var e := Modmul(p[i], ONE);
      ghost var v := e;
      e := e - Q;
      p[i] := e + SignMask(e);
      CongIntro(p[i], v, Q, if p[i] == v then 0 else -1);
      CongTrans(p[i], v, old(p[i]), Q);
      CongCanonical(p[i], old(p[i]), Q);
    }
  }

  /** Reduces inputs below 2Q. */
  method PolySoftReduce(p: array<I32>)
    requires p.Length == DEGREE && InBound(p[..], 2)
    modifies p
    ensures p[..] == ModQ(old(p[..]))
  {
    for i := 0 to DEGREE
      invariant forall j :: 0 <= j < i ==> p[j] == old(p[j]) % Q
      invariant forall j :: i <= j < DEGREE ==> p[j] == old(p[j])
    {
      assert p[i] == old(p[..])[i];
      var e := p[i] - Q;
      p[i] := e + SignMask(e);
    }
  }

  /** p1 - p3 plus Q: not negative for p3 up to Q, above -Q for a product below 2Q. */
  method PolySub(p1: array<I32>, p3: array<I32>)
    requires p1.Length == p3.Length == DEGREE && p1 != p3 && InBound(p1[..], 1)
    requires forall j :: 0 <= j < DEGREE ==> 0 <= p3[j] < 2 * Q
    modifies p1
    ensures Wide(p1[..]) && ((forall j :: 0 <= j < DEGREE ==> p3[j] <= Q) ==> InBound(p1[..], 2))
    ensures forall j :: 0 <= j < DEGREE ==> p1[j] == old(p1[j]) + (Q - p3[j])
  {
    for i := 0 to DEGREE
      invariant forall j :: 0 <= j < i ==> p1[j] == old(p1[j]) + (Q - p3[j]) && -Q < p1[j] < 2 * Q
      invariant forall j :: 0 <= j < i && p3[j] <= Q ==> p1[j] >= 0
      invariant forall j :: i <= j < DEGREE ==> p1[j] == old(p1[j])
    {
      assert p1[i] == old(p1[..])[i];
      p1[i] := p1[i] + (Q - p3[i]);
    }
  }

  method PolyNegate(p1: array<I32>, p3: array<I32>)
    requires p1.Length == p3.Length == DEGREE && p1 != p3 && InBound(p3[..], 1)
    modifies p1
    ensures forall j :: 0 <= j < DEGREE ==> p1[j] == Q - p3[j]
  {
    for i := 0 to DEGREE
      invariant forall j :: 0 <= j < i ==> p1[j] == Q - p3[j]
    {
      assert p3[i] == p3[..][i];
      p1[i] := Q - p3[i];
    }
  }

  method NresIt(p: array<I32>)
    requires p.Length == DEGREE && InBound(p[..], 2)
    modifies p
    ensures InBound(p[..], 2) && forall i :: 0 <= i < DEGREE ==> Cong(p[i], old(p[i]) * R, Q)
  {
    hide Cong;
    for i := 0 to DEGREE
      invariant forall j :: 0 <= j < i ==> 0 <= p[j] < 2 * Q && Cong(p[j], old(p[j]) * R, Q)
      invariant forall j :: i <= j < DEGREE ==> p[j] == old(p[j])
    {
      assert p[i] == old(p[..])[i];
      NresSpec(p[i]);
      p[i] := Nres(p[i]);
    }
  }

  method RedcIt(p: array<I32>)
    requires p.Length == DEGREE && InBound(p[..], 256)
    modifies p
    ensures InBound(p[..], 2) && forall i :: 0 <= i < DEGREE ==> Cong(p[i], old(p[i]) * RINV, Q)
  {
    hide Cong, Redc;
    for i := 0 to DEGREE
      invariant forall j :: 0 <= j < i ==> 0 <= p[j] < 2 * Q && Cong(p[j], old(p[j]) * RINV, Q)
      invariant forall j :: i <= j < DEGREE ==> p[j] == old(p[j])
    {
      assert p[i] == old(p[..])[i];
      RedcSpec(p[i]);
      p[i] := Redc(p[i]);
    }
  }

  /** The distance of a canonical residue, or of Q itself, from the nearest multiple of Q. */
  function Magnitude(v: int): (a: int) { if v > Q / 2 then Q - v else v }

  method InfinityNorm(w: array<I32>) returns (n: I32)
    requires w.Length == DEGREE && forall j :: 0 <= j < DEGREE ==> 0 <= w[j] <= Q
    ensures forall j :: 0 <= j < DEGREE ==> Magnitude(w[j]) <= n
    ensures n == 0 || exists j :: 0 <= j < DEGREE && Magnitude(w[j]) == n
  {
    n := 0;
    for m := 0 to DEGREE
      invariant 0 <= n <= Q
      invariant forall j :: 0 <= j < m ==> Magnitude(w[j]) <= n
      invariant n == 0 || exists j :: 0 <= j < m && Magnitude(w[j]) == n
    {
      var az := w[m];
      if az > Q / 2 {
        az := Q - az;
      }
      assert az == Magnitude(w[m]);
      if az > n {
        n := az;
      }
    }
  }

  // ----- multiplication in Z_Q[x]/(x^256 + 1) -----

  /** The product of a and b in Z_Q[x]/(x^256 + 1), canonical. */
  function RingMul(a: Poly, b: Poly): (c: Poly)
    requires |a| == |b| == DEGREE
    ensures |c| == DEGREE
  {
    ModQ(MulMod(-1, a, b))
  }

  /** intt(poly_mul(ntt(a), ntt(b))) is the fully reduced ring product, out of Montgomery form. */
  method Multiply(a: array<I32>, b: array<I32>)
    requires a.Length == b.Length == DEGREE && a != b
    requires forall j :: 0 <= j < DEGREE ==> -Q <= a[j] < 2 * Q && -Q <= b[j] < 2 * Q
    modifies a, b
    ensures a[..] == RingMul(old(a[..]), old(b[..]))
  {
    hide Cong, IsTransform, MulMod, InverseTransform, Scale;
    ghost var a0, b0 := a[..], b[..];
    Ntt(a);
    Ntt(b);
    ghost var x := a[..];
    PolyMul(a, b);
    ProductRepresents(x, a0, b[..], b0, a[..]);
    ghost var y := a[..];
    Intt(a);
    InttValue(y, Scale(RINV, MulMod(-1, a0, b0)), a[..]);
    ScalesCancel(MulMod(-1, a0, b0));
  }

  /** z is what intt leaves of y. */
  ghost predicate IsIntt(y: seq<int>, z: seq<int>)
    requires |y| == DEGREE
  {
    hide InverseTransform;
    |z| == DEGREE && forall j :: 0 <= j < DEGREE ==> z[j] == (R * InverseTransform(y)[j]) % Q
  }

  /** intt after ntt multiplies by 2^32: the two are not mutually inverse. */
  lemma InttOfNtt(x: seq<int>, y: seq<int>, z: seq<int>)
    requires |x| == |y| == DEGREE && IsTransform(S, 256, 1, x, y, Q) && IsIntt(y, z)
    ensures forall j :: 0 <= j < DEGREE ==> z[j] == (0x1_0000_0000 * x[j]) % Q
  {
    hide Cong, IsTransform, InverseTransform;
    InttValue(y, x, z);
  }
}
