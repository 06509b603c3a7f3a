/** Polynomial arithmetic of kyber.rs: pointwise loops, products of transforms, and their i16 headroom. */
module KyberPoly {
  import opened Congruence
  import opened QuotientRing
  import opened TransformTree
  import opened KyberTables
  import opened KyberArith
  import opened KyberNtt

  /** x is, modulo Q, the transform of c. */
  ghost predicate Represents(x: seq<int>, c: Poly) {
    |x| == |c| == DEGREE && IsTransform(S, 128, 2, c, x, Q)
  }

  lemma RepresentsShape(x: seq<int>, c: Poly)
    requires Represents(x, c)
    ensures |x| == |c| == DEGREE
  {
  }

  // ----- products -----

  lemma PairProduct(z: int, a: Poly, b: Poly)
    requires |a| == |b| == 2
    ensures MulMod(z, a, b) == [a[0] * b[0] + z * (a[1] * b[1]), a[0] * b[1] + a[1] * b[0]]
  {
    HornerStep(z, a, b, 0);
    HornerStep(z, a, b, 1);
    HornerStep(z, a[1..], b, 0);
    HornerStep(z, a[1..], b, 1);
    assert a[1..][1..] == [];
    MulModEmpty(z, b);
  }

  /** The residues of a product at leaf i are the product of the residues modulo x^2 - z. */
  lemma LeafProduct(a: Poly, b: Poly, i: nat)
    requires |a| == |b| == DEGREE && i < 128
    ensures |Residue(S, 128 + i, a)| == |Residue(S, 128 + i, b)| == |Residue(S, 128 + i, MulMod(-1, a, b))| == 2
    ensures var ra, rb, z := Residue(S, 128 + i, a), Residue(S, 128 + i, b), NodeZ(S, 128 + i);
      && Cong(Residue(S, 128 + i, MulMod(-1, a, b))[0], ra[0] * rb[0] + z * (ra[1] * rb[1]), Q)
      && Cong(Residue(S, 128 + i, MulMod(-1, a, b))[1], ra[0] * rb[1] + ra[1] * rb[0], Q)
  {
    hide Cong, Residue, S, NodeZ;
    TablesOk();
    ResidueOfProduct(S, 128, 128 + i, a, b, Q);
    ResidueWidth(S, 128, 2, i, a);
    ResidueWidth(S, 128, 2, i, b);
    ResidueWidth(S, 128, 2, i, MulMod(-1, a, b));
    PairProduct(NodeZ(S, 128 + i), Residue(S, 128 + i, a), Residue(S, 128 + i, b));
  }

  /** The constant that poly_mul passes to basemul for leaf i: plus or minus ZETAS[64 + i/2]. */
  function LeafZeta(i: nat): (z: int)
    requires i < 128
  {
    if i % 2 == 0 then Zeta(64 + i / 2) else -Zeta(64 + i / 2)
  }

  lemma LeafZetaSpec(i: nat)
    requires i < 128
    ensures Within(LeafZeta(i), 1664) && Cong(LeafZeta(i) * RINV, NodeZ(S, 128 + i), Q)
  {
    hide Zeta, Cong;
    var k := 64 + i / 2;
    assert (128 + i) / 2 == k && (128 + i) % 2 == i % 2;
    MirrorsOk(k);
    CongMod(Zeta(k) * RINV, Q);
    CongScale(-1, Zeta(k) * RINV, S(k), Q);
    assert (-Zeta(k)) * RINV == -1 * (Zeta(k) * RINV);
  }

  /** basemul: the product of two residues modulo x^2 - z, divided by R. */
  function BaseMul0(a0: I16, a1: I16, b0: I16, b1: I16, zeta: I16): (r: int) { Fqmul(Fqmul(a1, b1), zeta) + Fqmul(a0, b0) }

  function BaseMul1(a0: I16, a1: I16, b0: I16, b1: I16): (r: int) { Fqmul(a0, b1) + Fqmul(a1, b0) }

  /** Operand sizes: one factor decoded from 12 bits, the other Barrett-reduced. */
  predicate Sizes(ma: int, mb: int) { (ma == 4095 && mb == 1664) || (ma == 1664 && mb == 4095) }

  lemma OneProduct(a: I16, b: I16, ma: int, mb: int)
    requires Sizes(ma, mb) && Within(a, ma) && Within(b, mb)
    ensures Within(Fqmul(a, b), 1768) && Cong(Fqmul(a, b), (a * b) * RINV, Q)
  {
    hide Cong, Fqmul;
    FqmulSpec(a, b, ma, mb);
  }

  lemma BaseMulSpec(a0: I16, a1: I16, b0: I16, b1: I16, zeta: I16, ma: int, mb: int)
    requires Sizes(ma, mb) && Within(a0, ma) && Within(a1, ma) && Within(b0, mb) && Within(b1, mb) && Within(zeta, 1664)
    ensures Within(BaseMul0(a0, a1, b0, b1, zeta), 3536) && Within(BaseMul1(a0, a1, b0, b1), 3536)
    ensures Cong(BaseMul0(a0, a1, b0, b1, zeta), (a0 * b0 + (zeta * RINV) * (a1 * b1)) * RINV, Q)
    ensures Cong(BaseMul1(a0, a1, b0, b1), (a0 * b1 + a1 * b0) * RINV, Q)
  {
    hide Cong, Fqmul;
    OneProduct(a0, b0, ma, mb);
    OneProduct(a1, b1, ma, mb);
    OneProduct(a0, b1, ma, mb);
    OneProduct(a1, b0, ma, mb);
    CongAdd(Fqmul(a0, b1), (a0 * b1) * RINV, Fqmul(a1, b0), (a1 * b0) * RINV, Q);
    assert (a0 * b1) * RINV + (a1 * b0) * RINV == (a0 * b1 + a1 * b0) * RINV;
    var h := Fqmul(a1, b1);
    FqmulSpec(h, zeta, 1768, 1664);
    var p := a1 * b1;
    CongScale(zeta * RINV, h, p * RINV, Q);
    assert (h * zeta) * RINV == (zeta * RINV) * h;
    CongTrans(Fqmul(h, zeta), (zeta * RINV) * h, (zeta * RINV) * (p * RINV), Q);
    CongAdd(Fqmul(h, zeta), (zeta * RINV) * (p * RINV), Fqmul(a0, b0), (a0 * b0) * RINV, Q);
    assert (zeta * RINV) * (p * RINV) + (a0 * b0) * RINV == (a0 * b0 + (zeta * RINV) * p) * RINV;
  }

  /** r holds, leaf by leaf, the basemul products of a and b. */
  ghost predicate Products(r: seq<int>, a: seq<int>, b: seq<int>) {
    && |r| == |a| == |b| == DEGREE
    && forall i: nat :: i < 128 ==>
         && Cong(r[2 * i], (a[2 * i] * b[2 * i] + (LeafZeta(i) * RINV) * (a[2 * i + 1] * b[2 * i + 1])) * RINV, Q)
         && Cong(r[2 * i + 1], (a[2 * i] * b[2 * i + 1] + a[2 * i + 1] * b[2 * i]) * RINV, Q)
  }

  lemma PairOf(x: seq<int>, c: Poly, i: nat)
    requires Represents(x, c) && i < 128
    ensures |Residue(S, 128 + i, c)| == 2
    ensures Cong(x[2 * i], Residue(S, 128 + i, c)[0], Q) && Cong(x[2 * i + 1], Residue(S, 128 + i, c)[1], Q)
  {
    hide Cong, Residue, S;
    ResidueWidth(S, 128, 2, i, c);
    var p := Residue(S, 128 + i, c);
    assert BlockIs(x, Start(i, 2), p, Q);
    assert x[Start(i, 2) + 0] == x[2 * i] && x[Start(i, 2) + 1] == x[2 * i + 1];
  }

  lemma PairIs(x: seq<int>, c: Poly, i: nat)
    requires |x| == |c| == DEGREE && i < 128 && |Residue(S, 128 + i, c)| == 2
    requires Cong(x[2 * i], Residue(S, 128 + i, c)[0], Q) && Cong(x[2 * i + 1], Residue(S, 128 + i, c)[1], Q)
    ensures BlockIs(x, Start(i, 2), Residue(S, 128 + i, c), Q)
  {
    hide Cong, Residue, S;
  }

  lemma PairCong(x0: int, x1: int, y0: int, y1: int, p0: int, p1: int, r0: int, r1: int, z: int, z': int, d: int, e: int)
    requires Cong(x0, p0, Q) && Cong(x1, p1, Q) && Cong(y0, r0, Q) && Cong(y1, r1, Q) && Cong(z, z', Q)
    requires Cong(d, p0 * r0 + z' * (p1 * r1), Q) && Cong(e, p0 * r1 + p1 * r0, Q)
    ensures Cong((x0 * y0 + z * (x1 * y1)) * RINV, RINV * d, Q)
    ensures Cong((x0 * y1 + x1 * y0) * RINV, RINV * e, Q)
  {
    hide Cong;
    CongMul(x0, p0, y0, r0, Q);
    CongMul(x1, p1, y1, r1, Q);
    CongMul(z, z', x1 * y1, p1 * r1, Q);
    CongAdd(x0 * y0, p0 * r0, z * (x1 * y1), z' * (p1 * r1), Q);
    CongSym(d, p0 * r0 + z' * (p1 * r1), Q);
    CongTrans(x0 * y0 + z * (x1 * y1), p0 * r0 + z' * (p1 * r1), d, Q);
    CongScale(RINV, x0 * y0 + z * (x1 * y1), d, Q);
    CongMul(x0, p0, y1, r1, Q);
    CongMul(x1, p1, y0, r0, Q);
    CongAdd(x0 * y1, p0 * r1, x1 * y0, p1 * r0, Q);
    CongSym(e, p0 * r1 + p1 * r0, Q);
    CongTrans(x0 * y1 + x1 * y0, p0 * r1 + p1 * r0, e, Q);
    CongScale(RINV, x0 * y1 + x1 * y0, e, Q);
  }

  /** poly_mul of transforms represents the ring product divided by R. */
  lemma ProductRepresents(x: seq<int>, a: Poly, y: seq<int>, b: Poly, r: seq<int>)
    requires Represents(x, a) && Represents(y, b) && Products(r, x, y)
    ensures |a| == |b| == DEGREE && Represents(r, Scale(RINV, MulMod(-1, a, b)))
  {
    hide Cong, Residue, MulMod, BlockIs, Scale, NodeZ, LeafZeta;
    var c := MulMod(-1, a, b);
    forall i: nat | i < 128 ensures BlockIs(r, Start(i, 2), Residue(S, 128 + i, Scale(RINV, c)), Q) {
      ProductLeaf(x, a, y, b, r, i);
    }
  }

  lemma ProductLeaf(x: seq<int>, a: Poly, y: seq<int>, b: Poly, r: seq<int>, i: nat)
    requires Represents(x, a) && Represents(y, b) && Products(r, x, y) && i < 128
    ensures BlockIs(r, Start(i, 2), Residue(S, 128 + i, Scale(RINV, MulMod(-1, a, b))), Q)
  {
    hide Cong, Residue, MulMod, BlockIs, Represents, NodeZ, LeafZeta, S;
    RepresentsShape(x, a);
    RepresentsShape(y, b);
    var c := MulMod(-1, a, b);
    PairOf(x, a, i);
    PairOf(y, b, i);
    LeafProduct(a, b, i);
    LeafZetaSpec(i);
    var ra, rb, rc := Residue(S, 128 + i, a), Residue(S, 128 + i, b), Residue(S, 128 + i, c);
    PairCong(x[2 * i], x[2 * i + 1], y[2 * i], y[2 * i + 1], ra[0], ra[1], rb[0], rb[1],
             LeafZeta(i) * RINV, NodeZ(S, 128 + i), rc[0], rc[1]);
    ResidueScale(S, 128 + i, RINV, c);
    CongTrans(r[2 * i], (x[2 * i] * y[2 * i] + (LeafZeta(i) * RINV) * (x[2 * i + 1] * y[2 * i + 1])) * RINV, RINV * rc[0], Q);
    CongTrans(r[2 * i + 1], (x[2 * i] * y[2 * i + 1] + x[2 * i + 1] * y[2 * i]) * RINV, RINV * rc[1], Q);
    PairIs(r, Scale(RINV, c), i);
  }

  /** One leaf of poly_mul. */
  method BaseMulAt(r: array<I16>, a: array<I16>, b: array<I16>, x: nat, zeta: I16, ghost ma: int, ghost mb: int)
    requires r.Length == a.Length == b.Length == DEGREE && r != a && r != b && x % 2 == 0 && x < DEGREE
    requires Sizes(ma, mb) && InRange(a[..], ma) && InRange(b[..], mb) && Within(zeta, 1664)
    modifies r
    ensures r[..] == old(r[..])[x := BaseMul0(a[x], a[x + 1], b[x], b[x + 1], zeta)][x + 1 := BaseMul1(a[x], a[x + 1], b[x], b[x + 1])]
  {
    hide Fqmul;
    assert a[x] == a[..][x] && a[x + 1] == a[..][x + 1] && b[x] == b[..][x] && b[x + 1] == b[..][x + 1];
    BaseMulSpec(a[x], a[x + 1], b[x], b[x + 1], zeta, ma, mb);
    r[x] := Fqmul(a[x + 1], b[x + 1]);
    r[x] := Fqmul(r[x], zeta);
    r[x] := r[x] + Fqmul(a[x], b[x]);
    OneProduct(a[x], b[x + 1], ma, mb);
    r[x + 1] := Fqmul(a[x], b[x + 1]);
    r[x + 1] := r[x + 1] + Fqmul(a[x + 1], b[x]);
  }

  ghost predicate PartProducts(r: seq<int>, a: seq<int>, b: seq<int>, n: nat) {
    && |r| == |a| == |b| == DEGREE && n <= 128
    && forall i: nat :: i < n ==>
         && Within(r[2 * i], 3536) && Within(r[2 * i + 1], 3536)
         && Cong(r[2 * i], (a[2 * i] * b[2 * i] + (LeafZeta(i) * RINV) * (a[2 * i + 1] * b[2 * i + 1])) * RINV, Q)
         && Cong(r[2 * i + 1], (a[2 * i] * b[2 * i + 1] + a[2 * i + 1] * b[2 * i]) * RINV, Q)
  }

  /** r after the basemul of leaf n. */
  ghost function AfterLeaf(r: seq<int>, a: seq<I16>, b: seq<I16>, n: nat): (t: seq<int>)
    requires |r| == |a| == |b| == DEGREE && n < 128 && Within(LeafZeta(n), 1664)
  {
    var x := 2 * n;
    r[x := BaseMul0(a[x], a[x + 1], b[x], b[x + 1], LeafZeta(n))][x + 1 := BaseMul1(a[x], a[x + 1], b[x], b[x + 1])]
  }

  lemma PartProductsStep(r: seq<int>, a: seq<int>, b: seq<int>, n: nat, ma: int, mb: int)
    requires PartProducts(r, a, b, n) && n < 128 && Sizes(ma, mb) && InRange(a, ma) && InRange(b, mb)
    ensures Within(LeafZeta(n), 1664) && PartProducts(AfterLeaf(r, a, b, n), a, b, n + 1)
  {
    hide Cong, LeafZeta, BaseMul0, BaseMul1;
    var x := 2 * n;
    LeafZetaSpec(n);
    BaseMulSpec(a[x], a[x + 1], b[x], b[x + 1], LeafZeta(n), ma, mb);
  }

  /** poly_mul. */
  method PolyMul(r: array<I16>, a: array<I16>, b: array<I16>, ghost ma: int, ghost mb: int)
    requires r.Length == a.Length == b.Length == DEGREE && r != a && r != b
    requires Sizes(ma, mb) && InRange(a[..], ma) && InRange(b[..], mb)
    modifies r
    ensures InRange(r[..], 3536) && Products(r[..], a[..], b[..])
  {
    hide Cong, Zeta, BaseMul0, BaseMul1, PartProducts;
    NoProducts(r[..], a[..], b[..]);
    for i := 0 to 64
      invariant PartProducts(r[..], a[..], b[..], 2 * i)
    {
      var x := 4 * i;
      var y := x + 2;
      MirrorsOk(64 + i);
      ghost var rs := r[..];
      LeafZetaIs(i);
      PartProductsStep(rs, a[..], b[..], 2 * i, ma, mb);
      BaseMulAt(r, a, b, x, Zeta(64 + i), ma, mb);
      PartProductsStep(r[..], a[..], b[..], 2 * i + 1, ma, mb);
      BaseMulAt(r, a, b, y, -Zeta(64 + i), ma, mb);
    }
    AllProducts(r[..], a[..], b[..]);
  }

  lemma LeafZetaIs(i: nat)
    requires i < 64
    ensures LeafZeta(2 * i) == Zeta(64 + i) && LeafZeta(2 * i + 1) == -Zeta(64 + i)
  {
    hide Zeta;
    assert (2 * i) / 2 == i && (2 * i + 1) / 2 == i;
  }

  lemma NoProducts(r: seq<int>, a: seq<int>, b: seq<int>)
    requires |r| == |a| == |b| == DEGREE
    ensures PartProducts(r, a, b, 0)
  {
  }

  lemma AllProducts(r: seq<int>, a: seq<int>, b: seq<int>)
    requires PartProducts(r, a, b, 128)
    ensures InRange(r, 3536) && Products(r, a, b)
  {
    hide Cong, LeafZeta;
    forall j | 0 <= j < DEGREE ensures Within(r[j], 3536) {
      assert j == 2 * (j / 2) || j == 2 * (j / 2) + 1;
      assert Within(r[2 * (j / 2)], 3536) && Within(r[2 * (j / 2) + 1], 3536);
    }
  }

  // ----- pointwise loops -----

  method PolyReduce(r: array<I16>)
    requires r.Length == DEGREE && InRange(r[..], 31625)
    modifies r
    ensures InRange(r[..], 1664) && SeqCong(r[..], old(r[..]), Q)
  {
    hide Cong, BarrettReduce;
    for i := 0 to DEGREE
      invariant forall j :: 0 <= j < i ==> Within(r[j], 1664) && Cong(r[j], old(r[j]), Q)
      invariant forall j :: i <= j < DEGREE ==> r[j] == old(r[j])
    {
      assert r[i] == old(r[..])[i];
      BarrettSpec(r[i]);
      r[i] := BarrettReduce(r[i]);
    }
  }

  /** poly_ntt: the transform, Barrett-reduced. */
  method PolyNtt(r: array<I16>)
    requires r.Length == DEGREE && InRange(r[..], Q)
    modifies r
    ensures InRange(r[..], 1664) && Represents(r[..], old(r[..]))
  {
    hide Cong, IsTransform, SeqCong;
    ghost var c: seq<int> := r[..];
    Ntt(r);
    ghost var x := r[..];
    PolyReduce(r);
    SeqCongSym(r[..], x, Q);
    SeqCongRefl(c, Q);
    TransformCong(S, 128, 2, c, x, c, r[..], Q);
  }

  /** poly_tomont: multiplication by R modulo Q. */
  method PolyToMont(r: array<I16>)
    requires r.Length == DEGREE && InRange(r[..], 1664)
    modifies r
    ensures InRange(r[..], 1698) && forall i :: 0 <= i < DEGREE ==> Cong(r[i], old(r[i]) * R, Q)
  {
    hide Cong, MontgomeryReduce;
    for i := 0 to DEGREE
      invariant forall j :: 0 <= j < i ==> Within(r[j], 1698) && Cong(r[j], old(r[j]) * R, Q)
      invariant forall j :: i <= j < DEGREE ==> r[j] == old(r[j])
    {
      assert r[i] == old(r[..])[i];
      ProductSize(r[i], ONE, 1664, ONE);
      MontgomerySpec(r[i] * ONE, 1664 * ONE);
      ToMontCong(r[i]);
      CongTrans(MontgomeryReduce(r[i] * ONE), (r[i] * ONE) * RINV, r[i] * R, Q);
      r[i] := MontgomeryReduce(r[i] * ONE);
    }
  }

  lemma ToMontCong(v: int)
    ensures Cong((v * ONE) * RINV, v * R, Q)
  {
    hide Cong;
    CongIntro(ONE * RINV, R, Q, (ONE * RINV - R) / Q);
    CongScale(v, ONE * RINV, R, Q);
    assert (v * ONE) * RINV == v * (ONE * RINV);
  }

  /** poly_acc. */
  method PolyAcc(p1: array<I16>, p3: array<I16>, ghost m1: int, ghost m3: int)
    requires p1.Length == p3.Length == DEGREE && p1 != p3 && 0 <= m1 && 0 <= m3 && m1 + m3 <= 32767
    requires InRange(p1[..], m1) && InRange(p3[..], m3)
    modifies p1
    ensures InRange(p1[..], m1 + m3) && p1[..] == Add(old(p1[..]), p3[..])
  {
    for i := 0 to DEGREE
      invariant forall j :: 0 <= j < i ==> p1[j] == old(p1[j]) + p3[j] && Within(p1[j], m1 + m3)
      invariant forall j :: i <= j < DEGREE ==> p1[j] == old(p1[j])
    {
      assert p1[i] == old(p1[..])[i] && p3[i] == p3[..][i];
      p1[i] := p1[i] + p3[i];
    }
  }

  /** poly_add. */
  method PolyAdd(p1: array<I16>, p2: array<I16>, p3: array<I16>, ghost m2: int, ghost m3: int)
    requires p1.Length == p2.Length == p3.Length == DEGREE && p1 != p2 && p1 != p3 && 0 <= m2 && 0 <= m3 && m2 + m3 <= 32767
    requires InRange(p2[..], m2) && InRange(p3[..], m3)
    modifies p1
    ensures InRange(p1[..], m2 + m3) && p1[..] == Add(p2[..], p3[..])
  {
    for i := 0 to DEGREE
      invariant forall j :: 0 <= j < i ==> p1[j] == p2[j] + p3[j] && Within(p1[j], m2 + m3)
    {
      assert p2[i] == p2[..][i] && p3[i] == p3[..][i];
      p1[i] := p2[i] + p3[i];
    }
  }

  /** poly_dec. */
  method PolyDec(p1: array<I16>, p3: array<I16>, ghost m1: int, ghost m3: int)
    requires p1.Length == p3.Length == DEGREE && p1 != p3 && 0 <= m1 && 0 <= m3 && m1 + m3 <= 32767
    requires InRange(p1[..], m1) && InRange(p3[..], m3)
    modifies p1
    ensures p1[..] == Sub(old(p1[..]), p3[..])
  {
    for i := 0 to DEGREE
      invariant forall j :: 0 <= j < i ==> p1[j] == old(p1[j]) - p3[j]
      invariant forall j :: i <= j < DEGREE ==> p1[j] == old(p1[j])
    {
      assert p1[i] == old(p1[..])[i] && p3[i] == p3[..][i];
      p1[i] := p1[i] - p3[i];
    }
  }

  // ----- sums and multiples of transforms -----

  lemma SumRepresents(x: seq<int>, a: Poly, y: seq<int>, b: Poly)
    requires Represents(x, a) && Represents(y, b)
    ensures |x| == |y| == |a| == |b| == DEGREE && Represents(Add(x, y), Add(a, b))
  {
    hide Cong, IsTransform;
    forall i | 0 <= i < DEGREE ensures Cong(Add(x, y)[i], x[i] + y[i], Q) {
      CongIntro(Add(x, y)[i], x[i] + y[i], Q, 0);
    }
    TransformSum(S, 128, 2, a, x, b, y, Add(x, y), Q);
  }

  lemma RepresentsCong(x: seq<int>, y: seq<int>, a: Poly, b: Poly)
    requires Represents(x, a) && |b| == DEGREE && SeqCong(x, y, Q) && SeqCong(a, b, Q)
    ensures Represents(y, b)
  {
    hide Cong, IsTransform;
    TransformCong(S, 128, 2, a, x, b, y, Q);
  }

  lemma RepresentsReduced(x: seq<int>, y: seq<int>, a: Poly)
    requires Represents(x, a) && SeqCong(y, x, Q)
    ensures Represents(y, a)
  {
    hide SeqCong, IsTransform, Represents;
    RepresentsShape(x, a);
    SeqCongSym(y, x, Q);
    SeqCongRefl(a, Q);
    RepresentsCong(x, y, a, a);
  }

  /** poly_tomont takes the 1 / R of a product away. */
  lemma ToMontRepresents(x: seq<int>, y: seq<int>, c: Poly)
    requires Represents(x, Scale(RINV, c)) && |y| == DEGREE && forall i :: 0 <= i < DEGREE ==> Cong(y[i], x[i] * R, Q)
    ensures Represents(y, c)
  {
    hide Cong, IsTransform, SeqCong, Scale;
    RepresentsShape(x, Scale(RINV, c));
    TransformScale(S, 128, 2, Scale(RINV, c), x, R, y, Q);
    ScaleScale(R, RINV, c);
    UnitScale(c);
    SeqCongRefl(y, Q);
    RepresentsCong(y, y, Scale(R * RINV, c), c);
  }

  lemma UnitScale(c: Poly)
    ensures SeqCong(Scale(R * RINV, c), c, Q)
  {
    hide Cong;
    forall i | 0 <= i < |c| ensures Cong(Scale(R * RINV, c)[i], c[i], Q) {
      CongIntro(R * RINV, 1, Q, (R * RINV - 1) / Q);
      CongScale(c[i], R * RINV, 1, Q);
    }
  }

  // ----- what invntt returns -----

  lemma InvNttValue(x: seq<int>, c: Poly, y: seq<int>)
    requires |y| == DEGREE && |c| == DEGREE && Represents(x, Scale(RINV, c))
    requires forall j :: 0 <= j < DEGREE ==> Cong(y[j], R * InverseTransform(x)[j], Q)
    ensures SeqCong(y, c, Q)
  {
    hide Cong, InverseTransform, IsTransform;
    InverseOfTransform(Scale(RINV, c), x);
    var d := InverseTransform(x);
    forall j | 0 <= j < DEGREE ensures Cong(y[j], c[j], Q) {
      CongScale(R, d[j], RINV * c[j], Q);
      CongIntro(R * RINV, 1, Q, (R * RINV - 1) / Q);
      CongScale(c[j], R * RINV, 1, Q);
      assert R * (RINV * c[j]) == c[j] * (R * RINV);
      CongTrans(y[j], R * d[j], R * (RINV * c[j]), Q);
      CongTrans(y[j], c[j] * (R * RINV), c[j], Q);
    }
  }

  /** invntt(poly_mul(poly_ntt(a), poly_ntt(b))) is the product in Z_Q[x]/(x^256 + 1). */
  method Multiply(r: array<I16>, a: array<I16>, b: array<I16>)
    requires r.Length == a.Length == b.Length == DEGREE && r != a && r != b && a != b
    requires InRange(a[..], Q) && InRange(b[..], Q)
    modifies r, a, b
    ensures SeqCong(r[..], MulMod(-1, old(a[..]), old(b[..])), Q) && InRange(r[..], 1976)
  {
    hide Cong, IsTransform, MulMod, InverseTransform, Scale, Products, SeqCong;
    ghost var a0, b0 := a[..], b[..];
    PolyNtt(a);
    PolyNtt(b);
    PolyMul(r, a, b, 4095, 1664);
    ProductRepresents(a[..], a0, b[..], b0, r[..]);
    ghost var x := r[..];
    InvNtt(r);
    InvNttValue(x, MulMod(-1, a0, b0), r[..]);
  }
}
