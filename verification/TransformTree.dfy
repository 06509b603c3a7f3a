/**
 The residue tree behind a number-theoretic transform. The root is Z_q[x]/(x^256 + 1). Node k is
 Z_q[x]/(x^n - z_k) with z_k = s(k)^2, and splits into node 2k, modulo x^(n/2) - s(k), and node
 2k + 1, modulo x^(n/2) + s(k). A transform stores, at leaf k, the residue of its input at that leaf.
 Stated for any modulus and any table s of roots, so that both lattice schemes use it.
 */
module TransformTree {
  import opened Congruence
  import opened QuotientRing

  const DEGREE: nat := 256

  /** m nodes on a level, each of width n. */
  predicate Level(m: nat, n: nat) {
    || (m == 1 && n == 256) || (m == 2 && n == 128) || (m == 4 && n == 64) || (m == 8 && n == 32)
    || (m == 16 && n == 16) || (m == 32 && n == 8) || (m == 64 && n == 4) || (m == 128 && n == 2)
    || (m == 256 && n == 1)
  }

  /** The constant z of node k's modulus x^n - z. */
  function NodeZ(s: nat -> int, k: nat): (z: int)
    requires k >= 1
  {
    if k == 1 then -1 else if k % 2 == 0 then s(k / 2) else -s(k / 2)
  }

  /** s(k) squares to z_k at every inner node k < inner. */
  ghost predicate Roots(s: nat -> int, inner: nat, q: int)
    requires q > 0
  {
    forall k: nat :: 1 <= k < inner ==> Cong(NodeZ(s, k), s(k) * s(k), q)
  }

  /** si(k) inverts s(k) at every inner node. */
  ghost predicate InverseRoots(s: nat -> int, si: nat -> int, inner: nat, q: int)
    requires q > 0
  {
    forall k: nat :: 1 <= k < inner ==> Cong(s(k) * si(k), 1, q)
  }

  /** The residue of the polynomial a at node k. */
  function Residue(s: nat -> int, k: nat, a: Poly): (r: Poly)
    requires k >= 1
  {
    if k == 1 then a
    else Red(if k % 2 == 0 then s(k / 2) else -s(k / 2), Residue(s, k / 2, a))
  }

  lemma {:induction false} ResidueWidth(s: nat -> int, m: nat, n: nat, i: nat, a: Poly)
    requires Level(m, n) && i < m && |a| == DEGREE
    ensures |Residue(s, m + i, a)| == n
  {
    if m > 1 {
      ResidueWidth(s, m / 2, 2 * n, i / 2, a);
    }
  }

  lemma LevelOf(k: nat) returns (m: nat, n: nat)
    requires 1 <= k < 2 * DEGREE
    ensures Level(m, n) && m <= k < 2 * m
  {
    m, n := if k < 2 then 1 else if k < 4 then 2 else if k < 8 then 4 else if k < 16 then 8
            else if k < 32 then 16 else if k < 64 then 32 else if k < 128 then 64
            else if k < 256 then 128 else 256,
         if k < 2 then 256 else if k < 4 then 128 else if k < 8 then 64 else if k < 16 then 32
         else if k < 32 then 16 else if k < 64 then 8 else if k < 128 then 4
         else if k < 256 then 2 else 1;
  }

  lemma InnerWidth(s: nat -> int, k: nat, a: Poly)
    requires 1 <= k < DEGREE && |a| == DEGREE
    ensures |Residue(s, k, a)| > 0 && |Residue(s, k, a)| % 2 == 0
  {
    var m, n := LevelOf(k);
    ResidueWidth(s, m, n, k - m, a);
  }

  /** Congruent polynomials have congruent residues. */
  lemma {:induction false} ResidueCong(s: nat -> int, k: nat, a: Poly, b: Poly, q: int)
    requires q > 0 && 1 <= k < 2 * DEGREE && |a| == |b| == DEGREE && SeqCong(a, b, q)
    ensures SeqCong(Residue(s, k, a), Residue(s, k, b), q)
  {
    if k > 1 {
      ResidueCong(s, k / 2, a, b, q);
      InnerWidth(s, k / 2, a);
      var r := if k % 2 == 0 then s(k / 2) else -s(k / 2);
      CongIntro(r, r, q, 0);
      RedCong(r, r, Residue(s, k / 2, a), Residue(s, k / 2, b), q);
    }
  }

  lemma {:induction false} ResidueAdd(s: nat -> int, k: nat, a: Poly, b: Poly)
    requires 1 <= k < 2 * DEGREE && |a| == |b| == DEGREE
    ensures |Residue(s, k, a)| == |Residue(s, k, b)|
    ensures Residue(s, k, Add(a, b)) == Add(Residue(s, k, a), Residue(s, k, b))
  {
    if k > 1 {
      ResidueAdd(s, k / 2, a, b);
      InnerWidth(s, k / 2, a);
      RedAdd(if k % 2 == 0 then s(k / 2) else -s(k / 2), Residue(s, k / 2, a), Residue(s, k / 2, b));
    }
  }

  lemma {:induction false} ResidueScale(s: nat -> int, k: nat, c: int, a: Poly)
    requires 1 <= k < 2 * DEGREE && |a| == DEGREE
    ensures Residue(s, k, Scale(c, a)) == Scale(c, Residue(s, k, a))
  {
    if k > 1 {
      ResidueScale(s, k / 2, c, a);
      InnerWidth(s, k / 2, a);
      RedScale(if k % 2 == 0 then s(k / 2) else -s(k / 2), c, Residue(s, k / 2, a));
    }
  }

  /** Taking residues turns the product of the root ring into the product of each node's ring. */
  lemma {:induction false} ResidueOfProduct(s: nat -> int, inner: nat, k: nat, a: Poly, b: Poly, q: int)
    requires q > 0 && Roots(s, inner, q) && inner <= DEGREE
    requires 1 <= k < 2 * inner && |a| == |b| == DEGREE
    ensures |Residue(s, k, b)| > 0
    ensures SeqCong(Residue(s, k, MulMod(-1, a, b)),
                    MulMod(NodeZ(s, k), Residue(s, k, a), Residue(s, k, b)), q)
  {
    hide Cong, SeqCong, MulMod, Red;
    if k == 1 {
      SeqCongRefl(MulMod(-1, a, b), q);
    } else {
      var j := k / 2;
      var r := if k % 2 == 0 then s(j) else -s(j);
      ResidueOfProduct(s, inner, j, a, b, q);
      InnerWidth(s, j, b);
      SameWidth(s, j, a, b);
      assert r * r == s(j) * s(j);
      ProductStep(r, NodeZ(s, j), Residue(s, j, a), Residue(s, j, b), Residue(s, j, MulMod(-1, a, b)), q);
    }
  }

  lemma SameWidth(s: nat -> int, k: nat, a: Poly, b: Poly)
    requires 1 <= k < 2 * DEGREE && |a| == |b| == DEGREE
    ensures |Residue(s, k, a)| == |Residue(s, k, b)|
  {
    var m, n := LevelOf(k);
    ResidueWidth(s, m, n, k - m, a);
    ResidueWidth(s, m, n, k - m, b);
  }

  lemma ProductStep(r: int, z: int, a: Poly, b: Poly, c: Poly, q: int)
    requires q > 0 && |a| == |b| > 0 && |b| % 2 == 0 && Cong(z, r * r, q)
    requires SeqCong(c, MulMod(z, a, b), q)
    ensures SeqCong(Red(r, c), MulMod(r, Red(r, a), Red(r, b)), q)
  {
    hide Cong, SeqCong, MulMod, Red;
    SeqCongWidth(c, MulMod(z, a, b), q);
    SeqCongRefl(a, q);
    SeqCongRefl(b, q);
    MulModCong(z, r * r, a, a, b, b, q);
    SeqCongTrans(c, MulMod(z, a, b), MulMod(r * r, a, b), q);
    CongIntro(r, r, q, 0);
    RedCong(r, r, c, MulMod(r * r, a, b), q);
    RedIsHomomorphism(r, a, b);
  }

  // ----- the inverse direction -----

  /** The polynomial modulo x^2t - s^2 with residues p and r, given h = 1/2 and si = 1/s. */
  function Join(h: int, si: int, p: Poly, r: Poly): (c: Poly)
    requires |p| == |r|
    ensures |c| == 2 * |p|
  {
    seq(2 * |p|, j requires 0 <= j < 2 * |p| =>
      if j < |p| then h * (p[j] + r[j]) else h * (si * (p[j - |p|] - r[j - |p|])))
  }

  /** Node i of level (m, n) rebuilt from the values x of the lm leaves, each a block of x. */
  function Rebuild(si: nat -> int, h: int, lm: nat, m: nat, n: nat, i: nat, x: Poly): (c: Poly)
    requires Level(m, n) && i < m && lm <= 256 && |x| == DEGREE
    ensures |c| == n
    decreases n
  {
    if m >= lm then
      BlockInRange(m, n, i);
      x[Start(i, n)..Start(i, n) + n]
    else
      LevelBelow(m, n);
      Join(h, si(m + i), Rebuild(si, h, lm, 2 * m, n / 2, 2 * i, x),
           Rebuild(si, h, lm, 2 * m, n / 2, 2 * i + 1, x))
  }

  lemma LevelBelow(m: nat, n: nat)
    requires Level(m, n) && m < 256
    ensures Level(2 * m, n / 2) && n % 2 == 0 && n > 0
  {
  }

  lemma LevelsDouble(lm: nat, w: nat, m: nat, n: nat)
    requires Level(lm, w) && Level(m, n) && m < lm
    ensures 2 * m <= lm <= 256
  {
  }

  lemma LevelAbove(m: nat, n: nat)
    requires Level(m, n) && m > 1
    ensures Level(m / 2, 2 * n) && m % 2 == 0 && n <= 128
  {
  }

  lemma RebuildInner(si: nat -> int, h: int, lm: nat, m: nat, n: nat, i: nat, x: Poly)
    requires Level(m, n) && i < m < lm <= 256 && |x| == DEGREE
    ensures Level(2 * m, n / 2) && n % 2 == 0 && n > 0
    ensures Rebuild(si, h, lm, m, n, i, x)
         == Join(h, si(m + i), Rebuild(si, h, lm, 2 * m, n / 2, 2 * i, x),
                 Rebuild(si, h, lm, 2 * m, n / 2, 2 * i + 1, x))
  {
    hide Level, Join;
    LevelBelow(m, n);
  }

  /** Where block i starts, for blocks of width n. */
  function Start(i: nat, n: nat): (o: nat) { i * n }

  lemma BlockInRange(m: nat, n: nat, i: nat)
    requires Level(m, n) && i < m
    ensures Start(i, n) + n <= DEGREE
  {
  }

  /** The two halves of block i, and the block after it. */
  lemma Starts(i: nat, t: nat)
    ensures Start(2 * i, t) == Start(i, 2 * t) && Start(2 * i + 1, t) == Start(i, 2 * t) + t
    ensures Start(i + 1, 2 * t) == Start(i, 2 * t) + 2 * t
  {
  }

  lemma StartsInOrder(i: nat, b: nat, w: nat)
    requires i < b
    ensures Start(i, w) + w <= Start(b, w)
  {
    assert (i + 1) * w <= b * w;
  }

  /** h and si halve and divide by s, whatever they multiply. */
  lemma Divides(s: int, si: int, d: int, q: int)
    requires q > 0 && Cong(s * si, 1, q)
    ensures Cong(s * (si * d), d, q)
  {
    hide Cong;
    CongIntro(d, d, q, 0);
    CongMul(s * si, 1, d, d, q);
    assert s * (si * d) == (s * si) * d;
  }

  lemma HalvesCombine(s: int, si: int, h: int, a: int, b: int, q: int)
    requires q > 0 && Cong(s * si, 1, q) && Cong(2 * h, 1, q)
    ensures Cong(h * (a + b) + s * (h * (si * (a - b))), a, q)
  {
    hide Cong;
    var d := a - b;
    Divides(s, si, h * d, q);
    assert s * (si * (h * d)) == s * (h * (si * d)) by {
      assert si * (h * d) == h * (si * d);
    }
    CongIntro(h * (a + b), h * (a + b), q, 0);
    CongAdd(h * (a + b), h * (a + b), s * (h * (si * d)), h * d, q);
    assert h * (a + b) + h * d == 2 * (h * a);
    Divides(2, h, a, q);
    CongTrans(h * (a + b) + s * (h * (si * d)), 2 * (h * a), a, q);
  }

  lemma RedOfJoinLow(s: int, si: int, h: int, p: Poly, r: Poly, q: int)
    requires q > 0 && |p| == |r| && Cong(s * si, 1, q) && Cong(2 * h, 1, q)
    ensures SeqCong(Red(s, Join(h, si, p, r)), p, q)
  {
    forall j | 0 <= j < |p| ensures Cong(Red(s, Join(h, si, p, r))[j], p[j], q) {
      HalvesCombine(s, si, h, p[j], r[j], q);
    }
  }

  lemma RedOfJoin(s: int, si: int, h: int, p: Poly, r: Poly, q: int)
    requires q > 0 && |p| == |r| && Cong(s * si, 1, q) && Cong(2 * h, 1, q)
    ensures SeqCong(Red(s, Join(h, si, p, r)), p, q)
    ensures SeqCong(Red(-s, Join(h, si, p, r)), r, q)
  {
    RedOfJoinLow(s, si, h, p, r, q);
    assert (-s) * (-si) == s * si;
    RedOfJoinLow(-s, -si, h, r, p, q);
    JoinFlip(h, si, p, r);
  }

  lemma JoinFlip(h: int, si: int, p: Poly, r: Poly)
    requires |p| == |r|
    ensures Join(h, -si, r, p) == Join(h, si, p, r)
  {
    forall j | 0 <= j < |p| ensures (-si) * (r[j] - p[j]) == si * (p[j] - r[j]) {
    }
  }

  lemma HalvesSplit(s: int, si: int, h: int, a: int, b: int, q: int)
    requires q > 0 && Cong(s * si, 1, q) && Cong(2 * h, 1, q)
    ensures Cong(h * ((a + s * b) + (a + (-s) * b)), a, q)
    ensures Cong(h * (si * ((a + s * b) - (a + (-s) * b))), b, q)
  {
    hide Cong;
    var sb := s * b;
    assert (-s) * b == -sb;
    assert h * ((a + sb) + (a - sb)) == 2 * (h * a);
    Divides(2, h, a, q);
    var d := si * sb;
    assert d == s * (si * b);
    Divides(s, si, b, q);
    assert h * (si * ((a + sb) - (a - sb))) == 2 * (h * d) by {
      assert si * (2 * sb) == 2 * d;
    }
    Divides(2, h, d, q);
    CongTrans(2 * (h * d), d, b, q);
  }

  lemma JoinOfRedAt(s: int, si: int, h: int, c: Poly, j: nat, q: int)
    requires q > 0 && |c| % 2 == 0 && Cong(s * si, 1, q) && Cong(2 * h, 1, q) && j < |c|
    ensures Cong(Join(h, si, Red(s, c), Red(-s, c))[j], c[j], q)
  {
    hide Cong;
    var t := |c| / 2;
    var i := if j < t then j else j - t;
    HalvesSplit(s, si, h, c[i], c[i + t], q);
  }

  lemma JoinOfRed(s: int, si: int, h: int, c: Poly, q: int)
    requires q > 0 && |c| % 2 == 0 && Cong(s * si, 1, q) && Cong(2 * h, 1, q)
    ensures SeqCong(Join(h, si, Red(s, c), Red(-s, c)), c, q)
  {
    hide Cong, Join, Red;
    forall j | 0 <= j < |c| ensures Cong(Join(h, si, Red(s, c), Red(-s, c))[j], c[j], q) {
      JoinOfRedAt(s, si, h, c, j, q);
    }
  }

  lemma JoinCong(h: int, si: int, p: Poly, p': Poly, r: Poly, r': Poly, q: int)
    requires q > 0 && |p| == |r| && SeqCong(p, p', q) && SeqCong(r, r', q)
    ensures SeqCong(Join(h, si, p, r), Join(h, si, p', r'), q)
  {
    var t := |p|;
    forall j | 0 <= j < 2 * t
      ensures Cong(Join(h, si, p, r)[j], Join(h, si, p', r')[j], q)
    {
      var i := if j < t then j else j - t;
      CongAdd(p[i], p'[i], r[i], r'[i], q);
      CongScale(h, p[i] + r[i], p'[i] + r'[i], q);
      CongSub(p[i], p'[i], r[i], r'[i], q);
      CongScale(si, p[i] - r[i], p'[i] - r'[i], q);
      CongScale(h, si * (p[i] - r[i]), si * (p'[i] - r'[i]), q);
    }
  }

  /** Any leaf values are the residues of the polynomial rebuilt from them. */
  lemma {:induction false} ResidueOfRebuild(s: nat -> int, si: nat -> int, h: int, lm: nat,
                                            m: nat, n: nat, i: nat, x: Poly, q: int)
    requires q > 0 && Level(m, n) && i < m <= lm <= 256 && |x| == DEGREE
    requires InverseRoots(s, si, lm, q) && Cong(2 * h, 1, q)
    ensures SeqCong(Residue(s, m + i, Rebuild(si, h, lm, 1, 256, 0, x)),
                    Rebuild(si, h, lm, m, n, i, x), q)
  {
    hide Cong, SeqCong, Red, Join, Level, Rebuild, Residue;
    LevelTop();
    var top := Rebuild(si, h, lm, 1, 256, 0, x);
    if m == 1 {
      LevelFunctional(1, n, 256);
      ResidueAtRoot(s, top);
      SeqCongRefl(top, q);
    } else {
      LevelAbove(m, n);
      var j := i / 2;
      var k := m / 2 + j;
      assert m / 2 < lm && j < m / 2;
      ResidueOfRebuild(s, si, h, lm, m / 2, 2 * n, j, x, q);
      RebuildInner(si, h, lm, m / 2, 2 * n, j, x);
      var p, r := Rebuild(si, h, lm, m, n, 2 * j, x), Rebuild(si, h, lm, m, n, 2 * j + 1, x);
      ChildResidues(s, m / 2, j, top);
      RebuildStep(s(k), si(k), h, Residue(s, k, top), p, r, q);
      assert i == 2 * j || i == 2 * j + 1;
    }
  }

  lemma LevelTop()
    ensures Level(1, 256)
  {
  }

  lemma LevelMax(m: nat, n: nat)
    requires Level(m, n)
    ensures m <= 256
  {
  }

  lemma LevelFunctional(m: nat, n: nat, n': nat)
    requires Level(m, n) && Level(m, n')
    ensures n == n'
  {
  }

  lemma ResidueAtRoot(s: nat -> int, a: Poly)
    ensures Residue(s, 1, a) == a
  {
  }

  lemma RebuildStep(s: int, si: int, h: int, c: Poly, p: Poly, r: Poly, q: int)
    requires q > 0 && |p| == |r| && Cong(s * si, 1, q) && Cong(2 * h, 1, q)
    requires SeqCong(c, Join(h, si, p, r), q)
    ensures SeqCong(Red(s, c), p, q)
    ensures SeqCong(Red(-s, c), r, q)
  {
    hide Cong, SeqCong, Red, Join;
    SeqCongWidth(c, Join(h, si, p, r), q);
    assert |c| == 2 * |p|;
    RedOfJoin(s, si, h, p, r, q);
    CongIntro(s, s, q, 0);
    RedCong(s, s, c, Join(h, si, p, r), q);
    SeqCongTrans(Red(s, c), Red(s, Join(h, si, p, r)), p, q);
    CongIntro(-s, -s, q, 0);
    RedCong(-s, -s, c, Join(h, si, p, r), q);
    SeqCongTrans(Red(-s, c), Red(-s, Join(h, si, p, r)), r, q);
  }

  /** x holds p from index off on. */
  predicate BlockIs(x: Poly, off: int, p: Poly, q: int)
    requires q > 0
  {
    0 <= off && off + |p| <= |x| && forall j :: 0 <= j < |p| ==> Cong(x[off + j], p[j], q)
  }

  /** x holds, node by node of level (m, n), the residues of c. */
  ghost predicate IsTransform(s: nat -> int, m: nat, n: nat, c: Poly, x: Poly, q: int)
    requires q > 0 && Level(m, n)
  {
    |x| == DEGREE && forall i: nat :: i < m ==> BlockIs(x, Start(i, n), Residue(s, m + i, c), q)
  }

  /** Rebuilding from the residues of c gives c back. */
  lemma {:induction false} RebuildOfResidues(s: nat -> int, si: nat -> int, h: int, lm: nat, w: nat,
                                             m: nat, n: nat, i: nat, c: Poly, x: Poly, q: int)
    requires q > 0 && Level(lm, w) && Level(m, n) && i < m <= lm && |c| == DEGREE
    requires InverseRoots(s, si, lm, q) && Cong(2 * h, 1, q) && IsTransform(s, lm, w, c, x, q)
    ensures lm <= 256 && SeqCong(Rebuild(si, h, lm, m, n, i, x), Residue(s, m + i, c), q)
    decreases n
  {
    hide Cong, SeqCong, Red, Join, Residue, Level, Rebuild, BlockIs;
    var node := Residue(s, m + i, c);
    ResidueWidth(s, m, n, i, c);
    if m == lm {
      LevelMax(lm, w);
      RebuildAtLeaf(s, si, h, m, n, w, i, c, x, q);
    } else {
      LevelsDouble(lm, w, m, n);
      RebuildInner(si, h, lm, m, n, i, x);
      var p := Rebuild(si, h, lm, 2 * m, n / 2, 2 * i, x);
      var r := Rebuild(si, h, lm, 2 * m, n / 2, 2 * i + 1, x);
      var k := m + i;
      RebuildOfResidues(s, si, h, lm, w, 2 * m, n / 2, 2 * i, c, x, q);
      RebuildOfResidues(s, si, h, lm, w, 2 * m, n / 2, 2 * i + 1, c, x, q);
      ChildResidues(s, m, i, c);
      JoinStep(s(k), si(k), h, node, p, r, q);
    }
  }

  lemma RebuildAtLeaf(s: nat -> int, si: nat -> int, h: int, m: nat, n: nat, w: nat, i: nat, c: Poly, x: Poly, q: int)
    requires q > 0 && Level(m, w) && Level(m, n) && i < m && |c| == DEGREE
    requires |Residue(s, m + i, c)| == n && IsTransform(s, m, w, c, x, q)
    ensures m <= 256 && SeqCong(Rebuild(si, h, m, m, n, i, x), Residue(s, m + i, c), q)
  {
    hide Cong, SeqCong, Residue, BlockIs;
    assert n == w;
    BlockInRange(m, n, i);
    LeafBlock(x, Start(i, n), Residue(s, m + i, c), q);
  }

  lemma JoinStep(s: int, si: int, h: int, c: Poly, p: Poly, r: Poly, q: int)
    requires q > 0 && |c| % 2 == 0 && Cong(s * si, 1, q) && Cong(2 * h, 1, q)
    requires SeqCong(p, Red(s, c), q) && SeqCong(r, Red(-s, c), q)
    ensures |p| == |r| && SeqCong(Join(h, si, p, r), c, q)
  {
    hide Cong, SeqCong, Red, Join;
    SeqCongWidth(p, Red(s, c), q);
    SeqCongWidth(r, Red(-s, c), q);
    JoinCong(h, si, p, Red(s, c), r, Red(-s, c), q);
    JoinOfRed(s, si, h, c, q);
    SeqCongTrans(Join(h, si, p, r), Join(h, si, Red(s, c), Red(-s, c)), c, q);
  }

  lemma ChildResidues(s: nat -> int, m: nat, i: nat, c: Poly)
    requires m + i >= 1
    ensures Residue(s, 2 * m + 2 * i, c) == Red(s(m + i), Residue(s, m + i, c))
    ensures Residue(s, 2 * m + (2 * i + 1), c) == Red(-s(m + i), Residue(s, m + i, c))
  {
    hide Red;
    assert (2 * m + 2 * i) / 2 == m + i && (2 * m + (2 * i + 1)) / 2 == m + i;
  }

  lemma LeafBlock(x: Poly, off: nat, p: Poly, q: int)
    requires q > 0 && BlockIs(x, off, p, q)
    ensures SeqCong(x[off..off + |p|], p, q)
  {
    forall j | 0 <= j < |p| ensures Cong(x[off..off + |p|][j], p[j], q) {
      assert x[off..off + |p|][j] == x[off + j];
    }
  }

  // ----- arithmetic on transforms -----

  lemma BlockSum(x: Poly, y: Poly, z: Poly, off: int, p: Poly, r: Poly, q: int)
    requires q > 0 && |x| == |y| == |z| && |p| == |r| && BlockIs(x, off, p, q) && BlockIs(y, off, r, q)
    requires forall i :: 0 <= i < |z| ==> Cong(z[i], x[i] + y[i], q)
    ensures BlockIs(z, off, Add(p, r), q)
  {
    hide Cong;
    forall j | 0 <= j < |p| ensures Cong(z[off + j], Add(p, r)[j], q) {
      CongAdd(x[off + j], p[j], y[off + j], r[j], q);
      CongTrans(z[off + j], x[off + j] + y[off + j], p[j] + r[j], q);
    }
  }

  /** Sums of transforms are transforms of sums. */
  lemma TransformSum(s: nat -> int, m: nat, n: nat, a: Poly, x: Poly, b: Poly, y: Poly, z: Poly, q: int)
    requires q > 0 && Level(m, n) && |a| == |b| == |z| == DEGREE
    requires IsTransform(s, m, n, a, x, q) && IsTransform(s, m, n, b, y, q)
    requires forall i :: 0 <= i < DEGREE ==> Cong(z[i], x[i] + y[i], q)
    ensures IsTransform(s, m, n, Add(a, b), z, q)
  {
    hide Cong, Residue, BlockIs, Add, Start;
    forall i: nat | i < m ensures BlockIs(z, Start(i, n), Residue(s, m + i, Add(a, b)), q) {
      LevelMax(m, n);
      ResidueAdd(s, m + i, a, b);
      BlockSum(x, y, z, Start(i, n), Residue(s, m + i, a), Residue(s, m + i, b), q);
    }
  }

  lemma BlockScale(x: Poly, z: Poly, off: int, p: Poly, f: int, q: int)
    requires q > 0 && |x| == |z| && BlockIs(x, off, p, q)
    requires forall i :: 0 <= i < |z| ==> Cong(z[i], x[i] * f, q)
    ensures BlockIs(z, off, Scale(f, p), q)
  {
    hide Cong;
    forall j | 0 <= j < |p| ensures Cong(z[off + j], Scale(f, p)[j], q) {
      CongScale(f, x[off + j], p[j], q);
      CongTrans(z[off + j], f * x[off + j], f * p[j], q);
    }
  }

  /** f times a transform is the transform of f times the polynomial. */
  lemma TransformScale(s: nat -> int, m: nat, n: nat, a: Poly, x: Poly, f: int, z: Poly, q: int)
    requires q > 0 && Level(m, n) && |a| == |z| == DEGREE && IsTransform(s, m, n, a, x, q)
    requires forall i :: 0 <= i < DEGREE ==> Cong(z[i], x[i] * f, q)
    ensures IsTransform(s, m, n, Scale(f, a), z, q)
  {
    hide Cong, Residue, BlockIs, Scale, Start;
    forall i: nat | i < m ensures BlockIs(z, Start(i, n), Residue(s, m + i, Scale(f, a)), q) {
      LevelMax(m, n);
      ResidueScale(s, m + i, f, a);
      BlockScale(x, z, Start(i, n), Residue(s, m + i, a), f, q);
    }
  }

  lemma BlockCong(x: Poly, y: Poly, off: int, p: Poly, r: Poly, q: int)
    requires q > 0 && BlockIs(x, off, p, q) && SeqCong(x, y, q) && SeqCong(p, r, q)
    ensures BlockIs(y, off, r, q)
  {
    hide Cong;
    forall j | 0 <= j < |r| ensures Cong(y[off + j], r[j], q) {
      CongSym(x[off + j], y[off + j], q);
      CongTrans(y[off + j], x[off + j], p[j], q);
      CongTrans(y[off + j], p[j], r[j], q);
    }
  }

  /** Both sides of a transform may be replaced by anything congruent. */
  lemma TransformCong(s: nat -> int, m: nat, n: nat, a: Poly, x: Poly, b: Poly, y: Poly, q: int)
    requires q > 0 && Level(m, n) && |a| == |b| == DEGREE && IsTransform(s, m, n, a, x, q)
    requires SeqCong(x, y, q) && SeqCong(a, b, q)
    ensures IsTransform(s, m, n, b, y, q)
  {
    hide Cong, Residue, BlockIs, SeqCong, Start;
    SeqCongWidth(x, y, q);
    forall i: nat | i < m ensures BlockIs(y, Start(i, n), Residue(s, m + i, b), q) {
      LevelMax(m, n);
      ResidueCong(s, m + i, a, b, q);
      BlockCong(x, y, Start(i, n), Residue(s, m + i, a), Residue(s, m + i, b), q);
    }
  }

  lemma {:induction false} ResidueOfZero(s: nat -> int, k: nat, n: nat)
    requires k >= 1
    ensures exists w: nat :: Residue(s, k, Zero(n)) == Zero(w)
  {
    if k > 1 {
      ResidueOfZero(s, k / 2, n);
      var w: nat :| Residue(s, k / 2, Zero(n)) == Zero(w);
      RedOfZero(if k % 2 == 0 then s(k / 2) else -s(k / 2), w);
    } else {
      assert Residue(s, 1, Zero(n)) == Zero(n);
    }
  }

  lemma RedOfZero(s: int, w: nat)
    ensures Red(s, Zero(w)) == Zero(w / 2)
  {
  }

  lemma TransformZero(s: nat -> int, m: nat, n: nat, q: int)
    requires q > 0 && Level(m, n)
    ensures IsTransform(s, m, n, Zero(DEGREE), Zero(DEGREE), q)
  {
    hide Cong, Residue;
    var z := Zero(DEGREE);
    forall i: nat | i < m ensures BlockIs(z, Start(i, n), Residue(s, m + i, z), q) {
      ResidueOfZero(s, m + i, DEGREE);
      ResidueWidth(s, m, n, i, z);
      BlockInRange(m, n, i);
      CongIntro(0, 0, q, 0);
    }
  }
}
