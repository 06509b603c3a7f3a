/**
 The transforms of kyber.rs, which stop at 128 blocks of width 2. Array elements are i16 values: the subset
 type makes every store a proof that nothing overflows.
 */
module KyberNtt {
  import opened Congruence
  import opened QuotientRing
  import opened TransformTree
  import opened TransformLoops
  import opened KyberTables
  import opened KyberArith

  const HALF: int := 1665  // 1/2 mod Q

  /** Every element at most m in size. */
  predicate InRange(x: seq<int>, m: int) { forall j :: 0 <= j < |x| ==> Within(x[j], m) }

  // ----- forward -----

  /** Elements of blocks of width n are at most this many Q in size: every layer adds less than Q. */
  function SplitBound(n: nat): (b: int) {
    if n >= 256 then 1 else if n >= 128 then 2 else if n >= 64 then 3 else if n >= 32 then 4
    else if n >= 16 then 5 else if n >= 8 then 6 else if n >= 4 then 7 else 8
  }

  predicate ForwardOk(n: nat, r: nat, v: int) { Within(v, SplitBound(n) * Q) }

  lemma ButterflyCong(u: int, xv: int, t: int, a: int, b: int, k: nat)
    requires 1 <= k < 128 && Cong(u, a, Q) && Cong(xv, b, Q) && Cong(t, (Zeta(k) * xv) * RINV, Q)
    ensures Cong(u + t, a + S(k) * b, Q)
    ensures Cong(u - t, a + (-S(k)) * b, Q)
  {
    hide Cong, Zeta;
    var s := Zeta(k);
    CongMod(s * RINV, Q);
    CongMul(s * RINV, S(k), xv, b, Q);
    assert (s * xv) * RINV == (s * RINV) * xv;
    CongTrans(t, (s * RINV) * xv, S(k) * b, Q);
    CongAdd(u, a, t, S(k) * b, Q);
    CongSub(u, a, t, S(k) * b, Q);
    assert (-S(k)) * b == -(S(k) * b);
  }

  /** A product by a root is below Q in size. */
  lemma RootProduct(k: nat, v: I16)
    requires 1 <= k < 128
    ensures Within(Zeta(k), 1664) && Within(Fqmul(Zeta(k), v), Q - 1) && Cong(Fqmul(Zeta(k), v), (Zeta(k) * v) * RINV, Q)
  {
    hide Cong, Zeta, Fqmul;
    MirrorsOk(k);
    FqmulSpec(Zeta(k), v, 1664, 0x8000);
  }

  /** One round of the innermost loop of `ntt`. */
  method SplitElement(x: array<I16>, ghost x0: seq<int>, ghost o: nat, t: nat, j: nat, ghost m: nat, ghost k: nat,
                      zeta: I16, ghost p: Poly)
    requires x.Length == DEGREE && 1 <= k < 128 && zeta == Zeta(k) && j < o + t && Level(m, 2 * t) && m <= 64
    requires PartSplit(S, Q, ForwardOk, x[..], x0, o, t, j, k, p) && Block(Q, ForwardOk, x0, o, p)
    modifies x
    ensures PartSplit(S, Q, ForwardOk, x[..], x0, o, t, j + 1, k, p)
  {
    hide Cong, Zeta, S, PartSplit, Block, Red, Fqmul;
    ghost var xs: seq<int> := x[..];
    SplitOperands(S, Q, ForwardOk, xs, x0, o, t, j, k, p);
    assert 1 <= SplitBound(2 * t) <= 7 && SplitBound(t) == SplitBound(2 * t) + 1;
    RootProduct(k, x[j + t]);
    var u := x[j];
    var v := Fqmul(zeta, x[j + t]);
    ButterflyCong(u, x[j + t], v, p[j - o], p[j - o + t], k);
    x[j + t] := u - v;
    x[j] := u + v;
    SplitStep(S, Q, ForwardOk, xs, x0, o, t, j, k, p, u + v, u - v);
    assert x[..] == xs[j := u + v][j + t := u - v];
  }

  /** The innermost loop of `ntt`: splits the node-k block p at offset o into its two child blocks. */
  method SplitBlock(x: array<I16>, o: nat, t: nat, ghost m: nat, k: nat, ghost p: Poly)
    requires x.Length == DEGREE && o + 2 * t <= DEGREE && 1 <= k < 128 && |p| == 2 * t && Level(m, 2 * t) && m <= 64
    requires Block(Q, ForwardOk, x[..], o, p)
    modifies x
    ensures PartSplit(S, Q, ForwardOk, x[..], old(x[..]), o, t, o + t, k, p)
  {
    hide Cong, Zeta, S, PartSplit, Block, Red, Level;
    SplitNothing(S, Q, ForwardOk, x[..], o, t, k, p);
    MirrorsOk(k);
    var zeta := Zeta(k);
    var j := o;
    while j < o + t
      invariant o <= j <= o + t && PartSplit(S, Q, ForwardOk, x[..], old(x[..]), o, t, j, k, p)
    {
      SplitElement(x, old(x[..]), o, t, j, m, k, zeta, p);
      j := j + 1;
    }
  }

  /** The middle loop of `ntt`: one layer; k is the source's running root index. */
  method SplitLayer(x: array<I16>, ghost m: nat, len: nat, k0: nat, ghost a: Poly) returns (k: nat)
    requires x.Length == DEGREE && Level(m, 2 * len) && m <= 64 && k0 == m && SplitState(S, Q, ForwardOk, x[..], m, len, 0, a)
    modifies x
    ensures SplitState(S, Q, ForwardOk, x[..], m, len, m, a) && k == 2 * m
  {
    hide Cong, S, PartSplit, Block, Residue, SplitState, Start, Level;
    k := k0;
    var start := 0;
    ghost var i := 0;
    StartOfFirst(2 * len);
    LayerEnd(m, 2 * len);
    while start < 256
      invariant 0 <= i <= m && start == Start(i, 2 * len) && k == m + i && SplitState(S, Q, ForwardOk, x[..], m, len, i, a)
      decreases m - i
    {
      ghost var xs := x[..];
      BlocksLeft(m, 2 * len, i);
      SplitBlockAt(S, Q, ForwardOk, xs, m, len, i, a);
      SplitBlock(x, start, len, m, k, Residue(S, m + i, a));
      SplitStateStep(S, Q, ForwardOk, xs, x[..], m, len, i, a);
      Starts(i, len);
      k := k + 1;
      i := i + 1;
      start := start + 2 * len;
    }
    BlocksLeft(m, 2 * len, i);
  }

  lemma LayerEnd(m: nat, n: nat)
    requires Level(m, n)
    ensures Start(m, n) == 256
  {
  }

  lemma BlocksLeft(m: nat, n: nat, i: nat)
    requires Level(m, n) && i <= m
    ensures Start(i, n) < 256 <==> i < m
  {
    if i < m {
      assert Start(i, n) + n <= Start(m, n) by {
        StartsInOrder(i, m, n);
      }
    }
  }

  /** ntt: for coefficients of size at most Q nothing overflows i16 and the result holds the 128 residues. */
  method Ntt(x: array<I16>)
    requires x.Length == DEGREE && InRange(x[..], Q)
    modifies x
    ensures InRange(x[..], 8 * Q) && IsTransform(S, 128, 2, old(x[..]), x[..], Q)
  {
    hide Cong, S, Residue, SplitState, IsTransform, SeqCong, Transformed;
    ghost var a: seq<int> := x[..];
    SeqCongRefl(a, Q);
    FirstSplit(S, Q, ForwardOk, x[..], a);
    var k := 1;
    var len: nat := 128;
    ghost var m: nat := 1;
    while len >= 2
      invariant (len >= 2 && Level(m, 2 * len) && m <= 64) || (len == 1 && m == 128)
      invariant k == m
      invariant len >= 2 ==> SplitState(S, Q, ForwardOk, x[..], m, len, 0, a)
      invariant len == 1 ==> Transformed(S, Q, ForwardOk, 128, 2, a, x[..])
    {
      k := SplitLayer(x, m, len, k, a);
      NextSplit(S, Q, ForwardOk, x[..], m, len, a);
      len := len / 2;
      m := 2 * m;
    }
    LeavesWithin(x[..], a);
  }

  lemma LeavesWithin(x: seq<int>, a: Poly)
    requires Transformed(S, Q, ForwardOk, 128, 2, a, x)
    ensures InRange(x, 8 * Q) && IsTransform(S, 128, 2, a, x, Q)
  {
    hide Transformed, S, IsTransform;
    TransformedIs(S, Q, ForwardOk, 128, 2, a, x);
    TransformedShape(S, Q, ForwardOk, 128, 2, a, x);
    forall j | 0 <= j < |x| ensures Within(x[j], 8 * Q) {
      TransformedAllowed(S, Q, ForwardOk, 128, 2, a, x, j / 2, j % 2);
      assert Start(j / 2, 2) + j % 2 == j;
    }
  }

  // ----- inverse -----

  /** The largest size invntt is fed: four unreduced products. */
  const INV_MAX: int := 14144

  predicate InverseOk(n: nat, r: nat, v: int) { Within(v, INV_MAX) }

  lemma MergeCong(u: int, v: int, sum: int, w: int, a: int, b: int, k: nat, f: int)
    requires 1 <= k < 128
    requires Cong(u, f * (a + S(k) * b), Q) && Cong(v, f * (a + (-S(k)) * b), Q)
    requires Cong(sum, u + v, Q) && Cong(w, (Zeta(Mirror(k)) * (v - u)) * RINV, Q)
    ensures Cong(sum, (2 * f) * a, Q)
    ensures Cong(w, (2 * f) * b, Q)
  {
    hide Cong, S, SI, Zeta, NodeZ, Mirror;
    var sb := S(k) * b;
    var z := Zeta(Mirror(k));
    assert (-S(k)) * b == -sb;
    CongAdd(u, f * (a + sb), v, f * (a - sb), Q);
    assert f * (a + sb) + f * (a - sb) == (2 * f) * a;
    CongTrans(sum, u + v, (2 * f) * a, Q);
    CongSub(u, f * (a + sb), v, f * (a - sb), Q);
    assert f * (a + sb) - f * (a - sb) == S(k) * ((2 * f) * b);
    MirrorOut(k);
    CongMul(-z * RINV, SI(k), u - v, S(k) * ((2 * f) * b), Q);
    assert (z * (v - u)) * RINV == (-z * RINV) * (u - v);
    CongTrans(w, (-z * RINV) * (u - v), SI(k) * (S(k) * ((2 * f) * b)), Q);
    RootInverts(k);
    Divides(S(k), SI(k), (2 * f) * b, Q);
    assert SI(k) * (S(k) * ((2 * f) * b)) == S(k) * (SI(k) * ((2 * f) * b));
    CongTrans(w, S(k) * (SI(k) * ((2 * f) * b)), (2 * f) * b, Q);
  }

  lemma MirrorOut(k: nat)
    requires 1 <= k < 128
    ensures Cong(-Zeta(Mirror(k)) * RINV, SI(k), Q)
  {
    hide Zeta;
    CongMod(-Zeta(Mirror(k)) * RINV, Q);
  }

  /** One round of the innermost loop of `invntt`. */
  method MergeElement(x: array<I16>, ghost x0: seq<int>, ghost o: nat, t: nat, j: nat, ghost k: nat, zeta: I16,
                      ghost f: int, ghost p: Poly)
    requires x.Length == DEGREE && 1 <= k < 128 && zeta == Zeta(Mirror(k)) && j < o + t
    requires PartMerge(Q, InverseOk, x[..], x0, o, t, j, f, p) && Children(S, Q, InverseOk, x0, o, t, k, f, p)
    modifies x
    ensures PartMerge(Q, InverseOk, x[..], x0, o, t, j + 1, f, p)
  {
    hide Cong, Zeta, S, PartMerge, Children, Red, Fqmul, Mirror, BarrettReduce;
    ghost var xs: seq<int> := x[..];
    MergeOperands(S, Q, InverseOk, xs, x0, o, t, j, k, f, p);
    var u := x[j];
    ghost var v := x[j + t];
    BarrettSpec(u + v);
    x[j] := BarrettReduce(u + x[j + t]);
    x[j + t] := x[j + t] - u;
    RootProduct(Mirror(k), v - u);
    x[j + t] := Fqmul(zeta, x[j + t]);
    MergeCong(u, v, x[j], x[j + t], p[j - o], p[j - o + t], k, f);
    MergeStep(Q, InverseOk, xs, x0, o, t, j, f, p, x[j], x[j + t]);
    assert x[..] == xs[j := x[j]][j + t := x[j + t]];
  }

  /** The innermost loop of `invntt`: merges the two child blocks at o into the node-k block. */
  method MergeBlock(x: array<I16>, o: nat, t: nat, ghost k: nat, kz: nat, ghost f: int, ghost p: Poly)
    requires x.Length == DEGREE && 1 <= k < 128 && kz == Mirror(k) && o + 2 * t <= DEGREE
    requires Children(S, Q, InverseOk, x[..], o, t, k, f, p)
    modifies x
    ensures PartMerge(Q, InverseOk, x[..], old(x[..]), o, t, o + t, f, p)
  {
    hide Cong, Zeta, S, PartMerge, Children, Mirror;
    MergeNothing(S, Q, InverseOk, x[..], o, t, k, f, p);
    MirrorsOk(kz);
    var zeta := Zeta(kz);
    var j := o;
    while j < o + t
      invariant o <= j <= o + t && PartMerge(Q, InverseOk, x[..], old(x[..]), o, t, j, f, p)
    {
      MergeElement(x, old(x[..]), o, t, j, k, zeta, f, p);
      j := j + 1;
    }
  }

  lemma MirrorOnLevel(m: nat, n: nat, i: nat)
    requires Level(m, n) && m <= 64 && i < m
    ensures 1 <= m + i < 128 && Mirror(m + i) == 2 * m - 1 - i
  {
  }

  /** The middle loop of `invntt`: one layer; k runs down from 2m - 1. */
  method MergeLayer(x: array<I16>, ghost m: nat, len: nat, k0: nat, ghost c: Poly, ghost f: int) returns (k: nat)
    requires x.Length == DEGREE && m <= 64 && k0 == 2 * m - 1 && MergeState(S, Q, InverseOk, x[..], m, len, 0, c, f)
    modifies x
    ensures MergeState(S, Q, InverseOk, x[..], m, len, m, c, f) && k == m - 1
  {
    hide Cong, S, Residue, Start, PartMerge, Children, MergeState, Level, Mirror;
    k := k0;
    var start := 0;
    ghost var i := 0;
    StartOfFirst(2 * len);
    MergeLevels(x[..], m, len, 0, c, f);
    while start < 256
      invariant 0 <= i <= m && start == Start(i, 2 * len) && k == 2 * m - 1 - i && MergeState(S, Q, InverseOk, x[..], m, len, i, c, f)
      decreases m - i
    {
      ghost var xs := x[..];
      BlocksLeft(m, 2 * len, i);
      MergeChildren(S, Q, InverseOk, xs, m, len, i, c, f);
      MirrorOnLevel(m, 2 * len, i);
      MergeBlock(x, start, len, m + i, k, f, Residue(S, m + i, c));
      MergeStateStep(S, Q, InverseOk, xs, x[..], m, len, i, c, f);
      Starts(i, len);
      k := k - 1;
      i := i + 1;
      start := start + 2 * len;
    }
    BlocksLeft(m, 2 * len, i);
  }

  lemma MergeLevels(x: seq<int>, m: nat, t: nat, i: nat, c: Poly, f: int)
    requires MergeState(S, Q, InverseOk, x, m, t, i, c, f)
    ensures Level(m, 2 * t) && Level(2 * m, t)
  {
    hide Block;
  }

  /** The polynomial whose residues at the 128 leaves are x. */
  function InverseTransform(x: seq<int>): (c: Poly)
    requires |x| == DEGREE
    ensures |c| == DEGREE
  {
    Rebuild(SI, HALF, 128, 1, 256, 0, x)
  }

  lemma TransformOfInverse(x: seq<int>)
    requires |x| == DEGREE
    ensures IsTransform(S, 128, 2, InverseTransform(x), x, Q)
  {
    hide Cong, S, SI, SeqCong, Residue, Rebuild, BlockIs;
    TablesOk();
    var c := InverseTransform(x);
    CongIntro(2 * HALF, 1, Q, 1);
    forall i: nat | i < 128 ensures BlockIs(x, Start(i, 2), Residue(S, 128 + i, c), Q) {
      ResidueOfRebuild(S, SI, HALF, 128, 128, 2, i, x, Q);
      PairLeaf(x, i, Residue(S, 128 + i, c));
    }
  }

  lemma PairLeaf(x: seq<int>, i: nat, p: Poly)
    requires |x| == DEGREE && i < 128 && SeqCong(p, Rebuild(SI, HALF, 128, 128, 2, i, x), Q)
    ensures BlockIs(x, Start(i, 2), p, Q)
  {
    hide Cong, SI;
    assert Rebuild(SI, HALF, 128, 128, 2, i, x) == x[2 * i..2 * i + 2];
    CongSym(p[0], x[2 * i], Q);
    CongSym(p[1], x[2 * i + 1], Q);
  }

  lemma InverseOfTransform(c: Poly, x: seq<int>)
    requires |c| == DEGREE && IsTransform(S, 128, 2, c, x, Q)
    ensures |x| == DEGREE && SeqCong(InverseTransform(x), c, Q)
  {
    hide Cong, S, SI, SeqCong, BlockIs, Residue, Rebuild, Start;
    TablesOk();
    CongIntro(2 * HALF, 1, Q, 1);
    RebuildOfResidues(S, SI, HALF, 128, 2, 1, 256, 0, c, x, Q);
    ResidueAtRoot(S, c);
  }

  lemma LeavesReady(x: seq<int>, c: Poly)
    requires |x| == |c| == DEGREE && InRange(x, INV_MAX) && IsTransform(S, 128, 2, c, x, Q)
    ensures MergeState(S, Q, InverseOk, x, 64, 2, 0, c, 1)
  {
    hide Cong, S, Residue, MergeState;
    forall b: nat | b < 128 ensures Block(Q, InverseOk, x, Start(b, 2), Residue(S, 128 + b, c)) {
      ResidueWidth(S, 128, 2, b, c);
      assert BlockIs(x, Start(b, 2), Residue(S, 128 + b, c), Q);
    }
    FirstMerge(S, Q, InverseOk, x, 64, 2, c);
  }

  lemma FullBlock(x: seq<int>, c: Poly)
    requires |x| == |c| == DEGREE && Block(Q, InverseOk, x, 0, Scale(128, c))
    ensures forall j :: 0 <= j < DEGREE ==> Within(x[j], INV_MAX) && Cong(x[j], 128 * c[j], Q)
  {
    hide Cong;
    forall j | 0 <= j < DEGREE ensures Within(x[j], INV_MAX) && Cong(x[j], 128 * c[j], Q) {
      assert x[0 + j] == x[j] && Scale(128, c)[j] == 128 * c[j];
    }
  }

  /** The last factor, R^2 / 128. */
  const F: int := 1441

  lemma FinalScale(x: I16, c: int)
    requires Within(x, INV_MAX) && Cong(x, 128 * c, Q)
    ensures Within(Fqmul(x, F), 1976) && Cong(Fqmul(x, F), R * c, Q)
  {
    hide Cong, Fqmul;
    FqmulSpec(x, F, INV_MAX, F);
    CongScale(F * RINV, x, 128 * c, Q);
    assert (x * F) * RINV == F * RINV * x;
    CongIntro(128 * (F * RINV), R, Q, (128 * (F * RINV) - R) / Q);
    CongScale(c, 128 * (F * RINV), R, Q);
    assert F * RINV * (128 * c) == c * (128 * (F * RINV));
    CongTrans(Fqmul(x, F), F * RINV * x, F * RINV * (128 * c), Q);
    CongTrans(Fqmul(x, F), c * (128 * (F * RINV)), c * R, Q);
  }

  /**
   invntt: for elements of size at most 14144 nothing overflows i16, every barrett_reduce argument is in its
   domain, and the result is R times the inverse transform, of size at most 1976.
   */
  method InvNtt(x: array<I16>)
    requires x.Length == DEGREE && InRange(x[..], INV_MAX)
    modifies x
    ensures InRange(x[..], 1976)
    ensures forall j :: 0 <= j < DEGREE ==> Cong(x[j], R * InverseTransform(old(x[..]))[j], Q)
  {
    hide Cong, S, SI, MergeState, IsTransform, Level, InverseTransform, Block, Fqmul;
    ghost var c := InverseTransform(x[..]);
    TransformOfInverse(x[..]);
    LeavesReady(x[..], c);
    var k := 127;
    var len := 2;
    ghost var m, f := 64, 1;
    while len <= 128
      invariant m >= 1 ==> MergeState(S, Q, InverseOk, x[..], m, len, 0, c, f) && InvRound(m, len) && m * f == 64 && k == 2 * m - 1
      invariant m == 0 ==> len == 256 && Block(Q, InverseOk, x[..], 0, Scale(128, c))
      invariant m >= 0
      decreases 256 - len
    {
      k := MergeLayer(x, m, len, k, c, f);
      NextMerge(S, Q, InverseOk, x[..], m, len, c, f);
      len := 2 * len;
      m := m / 2;
      f := 2 * f;
    }
    FullBlock(x[..], c);
    ghost var y := x[..];
    for j := 0 to 256
      invariant forall i :: 0 <= i < j ==> Within(x[i], 1976) && Cong(x[i], R * c[i], Q)
      invariant forall i :: j <= i < DEGREE ==> x[i] == y[i]
    {
      FinalScale(x[j], c[j]);
      x[j] := Fqmul(x[j], F);
    }
  }

  predicate InvRound(m: nat, len: nat) {
    || (m == 64 && len == 2) || (m == 32 && len == 4) || (m == 16 && len == 8) || (m == 8 && len == 16)
    || (m == 4 && len == 32) || (m == 2 && len == 64) || (m == 1 && len == 128)
  }
}
