/**
 The lazily reduced transforms of dilithium.rs. Array elements are i32 values: the subset type makes
 every store a proof that nothing overflows.
 */
module DilithiumNtt {
  import opened Congruence
  import opened QuotientRing
  import opened TransformTree
  import opened TransformLoops
  import opened DilithiumTables
  import opened DilithiumMontgomery

  const NTTL: int := 2
  const HALF: int := 4190209  // 1/2 mod Q

  /** Every element in [0, bound * Q). */
  predicate InBound(x: seq<int>, bound: int) { forall j :: 0 <= j < |x| ==> 0 <= x[j] < bound * Q }

  // ----- the exact values of the forward transform -----

  /** The two halves into which ntt splits a block of node k, not reduced. */
  function LeftValues(k: nat, p: seq<int>): (r: seq<int>)
    requires k < 256
    ensures |r| == |p| / 2
  {
    seq(|p| / 2, i requires 0 <= i < |p| / 2 => p[i] + RedcValue(p[i + |p| / 2] * RootTable(k)))
  }

  function RightValues(k: nat, p: seq<int>): (r: seq<int>)
    requires k < 256
    ensures |r| == |p| / 2
  {
    seq(|p| / 2, i requires 0 <= i < |p| / 2 => p[i] + 2 * Q - RedcValue(p[i + |p| / 2] * RootTable(k)))
  }

  /** What ntt makes of a block of node k. */
  function NodeValues(k: nat, p: seq<int>): (r: seq<int>)
    decreases |p|
  {
    if |p| < 2 || k >= 256 then p else NodeValues(2 * k, LeftValues(k, p)) + NodeValues(2 * k + 1, RightValues(k, p))
  }

  /** What ntt makes of x. */
  function NttValues(x: seq<int>): (r: seq<int>)
    requires |x| == DEGREE
    ensures |r| == DEGREE
  {
    hide NodeValues;
    var p := seq(DEGREE, j requires 0 <= j < DEGREE => if x[j] < 0 then x[j] + Q else x[j]);
    NodeWidth(1, 256, 0, p);
    NodeValues(1, p)
  }

  lemma {:induction false} NodeWidth(m: nat, n: nat, i: nat, p: seq<int>)
    requires Level(m, n) && i < m && |p| == n
    ensures |NodeValues(m + i, p)| == n
    decreases n
  {
    hide RootTable;
    if n > 1 {
      assert Level(2 * m, n / 2);
      NodeWidth(2 * m, n / 2, 2 * i, LeftValues(m + i, p));
      NodeWidth(2 * m, n / 2, 2 * i + 1, RightValues(m + i, p));
    }
  }

  /** From o on, v holds what becomes of the n elements of x there, a block of node k. */
  ghost predicate Becomes(v: seq<int>, x: seq<int>, k: nat, o: nat, n: nat) {
    o + n <= |x| == |v| && v[o..o + n] == NodeValues(k, x[o..o + n])
  }

  /** In the layer splitting m blocks of width 2t, with i blocks split. */
  ghost predicate Becoming(v: seq<int>, x: seq<int>, m: nat, t: nat, i: nat) {
    && |v| == |x| == DEGREE && Level(m, 2 * t) && Level(2 * m, t)
    && (forall b: nat :: b < 2 * i ==> Becomes(v, x, 2 * m + b, Start(b, t), t))
    && (forall b: nat :: i <= b < m ==> Becomes(v, x, m + b, Start(b, 2 * t), 2 * t))
  }

  /** x' is x with the elements up to j of the block at o split as ntt does. */
  ghost predicate SplitUpTo(x: seq<int>, x': seq<int>, k: nat, o: nat, t: nat, j: nat) {
    && |x| == |x'| == DEGREE && o <= j <= o + t && o + 2 * t <= DEGREE && k < 256
    && (forall i :: o <= i < j ==> x'[i] == x[i] + RedcValue(x[i + t] * RootTable(k)))
    && (forall i :: o <= i < j ==> x'[i + t] == x[i] + 2 * Q - RedcValue(x[i + t] * RootTable(k)))
    && (forall i :: 0 <= i < DEGREE && !(o <= i < j) && !(o + t <= i < j + t) ==> x'[i] == x[i])
  }

  ghost predicate SplitTo(x: seq<int>, x': seq<int>, k: nat, o: nat, t: nat) { SplitUpTo(x, x', k, o, t, o + t) }

  lemma SplitNone(x: seq<int>, k: nat, o: nat, t: nat)
    requires |x| == DEGREE && o + 2 * t <= DEGREE && k < 256
    ensures SplitUpTo(x, x, k, o, t, o)
  {
    hide RootTable, RedcValue;
  }

  lemma SplitOne(x: seq<int>, a: seq<int>, b: seq<int>, k: nat, o: nat, t: nat, j: nat)
    requires SplitUpTo(x, a, k, o, t, j) && j < o + t && |b| == DEGREE
    requires b[j] == a[j] + RedcValue(a[j + t] * RootTable(k)) && b[j + t] == a[j] + 2 * Q - RedcValue(a[j + t] * RootTable(k))
    requires forall i :: 0 <= i < DEGREE && i != j && i != j + t ==> b[i] == a[i]
    ensures SplitUpTo(x, b, k, o, t, j + 1)
  {
    hide RootTable, RedcValue;
    assert a[j] == x[j] && a[j + t] == x[j + t];
  }

  lemma SplitHalves(x: seq<int>, x': seq<int>, k: nat, o: nat, t: nat)
    requires SplitTo(x, x', k, o, t)
    ensures x'[o..o + t] == LeftValues(k, x[o..o + 2 * t]) && x'[o + t..o + 2 * t] == RightValues(k, x[o..o + 2 * t])
  {
    hide RootTable, RedcValue;
    var p := x[o..o + 2 * t];
    assert |p| / 2 == t;
    forall i | 0 <= i < t
      ensures x'[o..o + t][i] == LeftValues(k, p)[i] && x'[o + t..o + 2 * t][i] == RightValues(k, p)[i]
    {
      assert p[i] == x[o + i] && p[i + t] == x[o + i + t];
      assert x'[o + i] == x[o + i] + RedcValue(x[o + i + t] * RootTable(k));
      assert x'[(o + i) + t] == x[o + i] + 2 * Q - RedcValue(x[o + i + t] * RootTable(k));
    }
  }

  lemma SplitBecomes(v: seq<int>, x: seq<int>, x': seq<int>, m: nat, t: nat, i: nat)
    requires Becoming(v, x, m, t, i) && i < m && SplitTo(x, x', m + i, Start(i, 2 * t), t)
    ensures Becomes(v, x', 2 * m + 2 * i, Start(2 * i, t), t) && Becomes(v, x', 2 * m + (2 * i + 1), Start(2 * i + 1, t), t)
  {
    hide RootTable, RedcValue, Start, SplitTo, LeftValues, RightValues, NodeValues, Level;
    var o, k := Start(i, 2 * t), m + i;
    assert Becomes(v, x, k, o, 2 * t);
    WidthAtLeastOne(2 * m, t);
    SplitShape(x, x', k, o, t);
    SplitHalves(x, x', k, o, t);
    Starts(i, t);
    var l, r := x'[o..o + t], x'[o + t..o + 2 * t];
    assert 2 * k == 2 * m + 2 * i && 2 * k + 1 == 2 * m + (2 * i + 1);
    NodeSplits(k, x[o..o + 2 * t]);
    NodeWidth(2 * m, t, 2 * i, l);
    NodeWidth(2 * m, t, 2 * i + 1, r);
    SlicesSplit(v, o, t, NodeValues(2 * k, l), NodeValues(2 * k + 1, r));
  }

  lemma WidthAtLeastOne(m: nat, n: nat)
    requires Level(m, n)
    ensures n >= 1
  {
  }

  lemma NodeSplits(k: nat, p: seq<int>)
    requires |p| >= 2 && k < 256
    ensures NodeValues(k, p) == NodeValues(2 * k, LeftValues(k, p)) + NodeValues(2 * k + 1, RightValues(k, p))
  {
    hide LeftValues, RightValues;
  }

  lemma SlicesSplit(v: seq<int>, o: nat, t: nat, a: seq<int>, b: seq<int>)
    requires o + 2 * t <= |v| && v[o..o + 2 * t] == a + b && |a| == |b| == t
    ensures v[o..o + t] == a && v[o + t..o + 2 * t] == b
  {
    assert v[o..o + t] == v[o..o + 2 * t][..t] && v[o + t..o + 2 * t] == v[o..o + 2 * t][t..];
  }

  lemma SplitShape(x: seq<int>, x': seq<int>, k: nat, o: nat, t: nat)
    requires SplitTo(x, x', k, o, t)
    ensures |x| == |x'| == DEGREE && o + 2 * t <= DEGREE && k < 256
    ensures forall j :: 0 <= j < DEGREE && !(o <= j < o + 2 * t) ==> x'[j] == x[j]
  {
    hide RootTable, RedcValue;
  }

  lemma BecomesElsewhere(v: seq<int>, x: seq<int>, x': seq<int>, k: nat, o: nat, n: nat)
    requires Becomes(v, x, k, o, n) && |x'| == |x| && forall j :: 0 <= j < |x| && o <= j < o + n ==> x'[j] == x[j]
    ensures Becomes(v, x', k, o, n)
  {
    assert x'[o..o + n] == x[o..o + n];
  }

  lemma BecomingStep(v: seq<int>, x: seq<int>, x': seq<int>, m: nat, t: nat, i: nat)
    requires Becoming(v, x, m, t, i) && i < m && SplitTo(x, x', m + i, Start(i, 2 * t), t)
    ensures Becoming(v, x', m, t, i + 1)
  {
    hide RootTable, RedcValue, Start, Becomes, SplitTo, Level;
    SplitShape(x, x', m + i, Start(i, 2 * t), t);
    SplitBecomes(v, x, x', m, t, i);
    Starts(i, t);
    forall b: nat | b < 2 * (i + 1) ensures Becomes(v, x', 2 * m + b, Start(b, t), t) {
      if b < 2 * i {
        StartsInOrder(b, 2 * i, t);
        BecomesElsewhere(v, x, x', 2 * m + b, Start(b, t), t);
      } else {
        assert b == 2 * i || b == 2 * i + 1;
      }
    }
    forall b: nat | i + 1 <= b < m ensures Becomes(v, x', m + b, Start(b, 2 * t), 2 * t) {
      StartsInOrder(i, b, 2 * t);
      BecomesElsewhere(v, x, x', m + b, Start(b, 2 * t), 2 * t);
    }
  }

  lemma FirstBecoming(x: seq<int>)
    requires |x| == DEGREE
    ensures Becoming(NodeValues(1, x), x, 1, 128, 0)
  {
    hide NodeValues, Becomes;
    NodeWidth(1, 256, 0, x);
    RootBecomes(x);
    assert Level(1, 2 * 128) && Level(2, 128);
  }

  lemma RootBecomes(x: seq<int>)
    requires |x| == DEGREE && |NodeValues(1, x)| == DEGREE
    ensures Becomes(NodeValues(1, x), x, 1 + 0, Start(0, 2 * 128), 2 * 128)
  {
    hide NodeValues;
    var v := NodeValues(1, x);
    assert Start(0, 256) == 0 && x[0..256] == x && v[0..256] == v;
  }

  lemma NextBecoming(v: seq<int>, x: seq<int>, m: nat, t: nat)
    requires Becoming(v, x, m, t, m)
    ensures m < 128 ==> Becoming(v, x, 2 * m, t / 2, 0)
    ensures m == 128 ==> x == v
  {
    hide Start, Becomes;
    if m == 128 {
      forall j: nat | j < DEGREE ensures x[j] == v[j] {
        assert Becomes(v, x, 2 * m + j, Start(j, t), t);
        LeafBecomes(v, x, j);
      }
    } else {
      assert 2 * (t / 2) == t;
      forall b: nat | b < 2 * m ensures Becomes(v, x, 2 * m + b, Start(b, t), t) {
      }
    }
  }

  lemma LeafBecomes(v: seq<int>, x: seq<int>, j: nat)
    requires |x| == |v| == DEGREE && j < DEGREE && Becomes(v, x, 256 + j, Start(j, 1), 1)
    ensures x[j] == v[j]
  {
    assert Start(j, 1) == j;
    assert v[j..j + 1][0] == v[j] && x[j..j + 1][0] == x[j];
  }

  // ----- forward -----

  /** Elements of blocks of width n are below this many Q: every layer adds 2 Q. */
  function SplitBound(n: nat): (b: int) {
    if n >= 256 then 2 else if n >= 128 then 4 else if n >= 64 then 6 else if n >= 32 then 8
    else if n >= 16 then 10 else if n >= 8 then 12 else if n >= 4 then 14 else if n >= 2 then 16 else 18
  }

  predicate SplitOk(n: nat, r: nat, v: int) { 0 <= v < SplitBound(n) * Q }

  lemma ButterflyCong(u: int, xv: int, v: int, a: int, b: int, k: nat)
    requires 1 <= k < 256 && Cong(u, a, Q) && Cong(xv, b, Q) && Cong(v, (xv * RootTable(k)) * RINV, Q)
    ensures Cong(u + v, a + S(k) * b, Q)
    ensures Cong(u + 2 * Q - v, a + (-S(k)) * b, Q)
  {
    hide Cong, RootTable;
    var s := RootTable(k);
    CongMod(s * RINV, Q);
    CongMul(xv, b, s * RINV, S(k), Q);
    assert (xv * s) * RINV == xv * (s * RINV);
    CongTrans(v, xv * (s * RINV), b * S(k), Q);
    CongAdd(u, a, v, b * S(k), Q);
    CongIntro(u + 2 * Q, u, Q, 2);
    CongTrans(u + 2 * Q, u, a, Q);
    CongSub(u + 2 * Q, a, v, b * S(k), Q);
    assert (-S(k)) * b == -(b * S(k));
  }

  /** One round of the innermost loop of `ntt`. */
  method SplitElement(x: array<I32>, ghost x0: seq<int>, ghost o: nat, t: nat, j: nat, ghost m: nat, ghost k: nat,
                      s: int, ghost p: Poly)
    requires x.Length == DEGREE && 1 <= k < 256 && s == RootTable(k) && j < o + t && Level(m, 2 * t)
    requires PartSplit(S, Q, SplitOk, x[..], x0, o, t, j, k, p) && Block(Q, SplitOk, x0, o, p)
    requires o <= j && o + 2 * t <= DEGREE
    modifies x
    ensures PartSplit(S, Q, SplitOk, x[..], x0, o, t, j + 1, k, p)
    ensures x[j] as int == old(x[j]) as int + RedcValue(old(x[j + t]) * s)
    ensures x[j + t] as int == old(x[j]) as int + 2 * Q - RedcValue(old(x[j + t]) * s)
    ensures forall i :: 0 <= i < DEGREE && i != j && i != j + t ==> x[i] == old(x[i])
  {
    hide Cong, RootTable, S, PartSplit, Block, Red, Modmul;
    ghost var xs: seq<int> := x[..];
    SplitOperands(S, Q, SplitOk, xs, x0, o, t, j, k, p);
    InversesOk(k);
    assert 2 <= SplitBound(2 * t) <= 16 && SplitBound(t) == SplitBound(2 * t) + 2;
    var u, w := x[j], x[j + t];
    ModmulSpec(w, s);
    ModmulHasValue(w, s);
    var v := Modmul(w, s);
    ButterflyCong(u, w, v, p[j - o], p[j - o + t], k);
    x[j] := u + v;
    x[j + t] := u + 2 * Q - v;
    SplitStep(S, Q, SplitOk, xs, x0, o, t, j, k, p, u + v, u + 2 * Q - v);
    assert x[..] == xs[j := u + v][j + t := u + 2 * Q - v];
  }

  /** The innermost loop of `ntt`: splits the node-k block p at offset o into its two child blocks. */
  method SplitBlock(x: array<I32>, o: nat, t: nat, ghost m: nat, k: nat, ghost p: Poly)
    requires x.Length == DEGREE && o + 2 * t <= DEGREE && 1 <= k < 256 && |p| == 2 * t && Level(m, 2 * t)
    requires Block(Q, SplitOk, x[..], o, p)
    modifies x
    ensures PartSplit(S, Q, SplitOk, x[..], old(x[..]), o, t, o + t, k, p) && SplitTo(old(x[..]), x[..], k, o, t)
  {
    hide Cong, RootTable, S, PartSplit, Block, Red, Level, RedcValue, SplitUpTo;
    SplitNone(x[..], k, o, t);
    SplitNothing(S, Q, SplitOk, x[..], o, t, k, p);
    var s := RootTable(k);
    for j := o to o + t
      invariant PartSplit(S, Q, SplitOk, x[..], old(x[..]), o, t, j, k, p)
      invariant SplitUpTo(old(x[..]), x[..], k, o, t, j)
    {
      ghost var xs: seq<int> := x[..];
      SplitElement(x, old(x[..]), o, t, j, m, k, s, p);
      SplitOne(old(x[..]), xs, x[..], k, o, t, j);
    }
  }

  /** The middle loop of `ntt`: one layer, from blocks of width 2t to blocks of width t. */
  method SplitLayer(x: array<I32>, m: nat, t: nat, ghost a: Poly, ghost v: seq<int>)
    requires x.Length == DEGREE && Level(m, 2 * t) && SplitState(S, Q, SplitOk, x[..], m, t, 0, a)
    requires Becoming(v, x[..], m, t, 0)
    modifies x
    ensures SplitState(S, Q, SplitOk, x[..], m, t, m, a) && Becoming(v, x[..], m, t, m)
  {
    hide Cong, RootTable, S, PartSplit, Block, Residue, SplitState, Start, Level, Becoming, SplitTo;
    var k := 0;
    StartOfFirst(2 * t);
    for i := 0 to m
      invariant k == Start(i, 2 * t) && SplitState(S, Q, SplitOk, x[..], m, t, i, a) && Becoming(v, x[..], m, t, i)
    {
      ghost var xs: seq<int> := x[..];
      SplitBlockAt(S, Q, SplitOk, xs, m, t, i, a);
      SplitBlock(x, k, t, m, m + i, Residue(S, m + i, a));
      SplitStateStep(S, Q, SplitOk, xs, x[..], m, t, i, a);
      BecomingStep(v, xs, x[..], m, t, i);
      Starts(i, t);
      k := k + 2 * t;
    }
  }

  /** poly_pos: adds Q to the negative elements. */
  method PolyPos(p: array<I32>)
    requires p.Length == DEGREE && forall j :: 0 <= j < DEGREE ==> -Q <= p[j] < 2 * Q
    modifies p
    ensures InBound(p[..], 2) && SeqCong(p[..], old(p[..]), Q)
    ensures forall j :: 0 <= j < DEGREE ==> p[j] == old(p[j]) + SignMask(old(p[j]))
  {
    hide Cong;
    for j := 0 to DEGREE
      invariant forall i :: 0 <= i < j ==> 0 <= p[i] < 2 * Q && Cong(p[i], old(p[i]), Q)
      invariant forall i :: 0 <= i < j ==> p[i] == old(p[i]) + SignMask(old(p[i]))
      invariant forall i :: j <= i < DEGREE ==> p[i] == old(p[i])
    {
      CongIntro(p[j] + SignMask(p[j]), p[j], Q, SignMask(p[j]) / Q);
      p[j] := p[j] + SignMask(p[j]);
    }
  }

  /**
   ntt: for coefficients in [-Q, 2Q) nothing overflows, the result is in [0, 18Q), and element i is
   the residue of the input at leaf i.
   */
  method Ntt(x: array<I32>)
    requires x.Length == DEGREE && forall j :: 0 <= j < DEGREE ==> -Q <= x[j] < 2 * Q
    modifies x
    ensures InBound(x[..], 18) && IsTransform(S, 256, 1, old(x[..]), x[..], Q) && x[..] == NttValues(old(x[..]))
  {
    hide Cong, RootTable, S, Residue, SplitState, IsTransform, SeqCong, Transformed, Becoming, NodeValues;
    ghost var a: seq<int> := x[..];
    var t: nat := DEGREE / 2;
    PolyPos(x);
    ghost var v := NttValues(a);
    assert x[..] == seq(DEGREE, j requires 0 <= j < DEGREE => if a[j] < 0 then a[j] + Q else a[j]);
    FirstBecoming(x[..]);
    var m := 1;
    FirstSplit(S, Q, SplitOk, x[..], a);
    while m < DEGREE
      invariant Level(m, 2 * t) || (m == 256 && t == 0)
      invariant m < 256 ==> SplitState(S, Q, SplitOk, x[..], m, t, 0, a) && Becoming(v, x[..], m, t, 0)
      invariant m == 256 ==> Transformed(S, Q, SplitOk, 256, 1, a, x[..]) && x[..] == v
      decreases DEGREE - m
    {
      SplitLayer(x, m, t, a, v);
      NextBecoming(v, x[..], m, t);
      NextSplit(S, Q, SplitOk, x[..], m, t, a);
      t := t / 2;
      m := m * 2;
    }
    LeavesBelow(x[..], a);
  }

  lemma LeavesBelow(x: seq<int>, a: Poly)
    requires Transformed(S, Q, SplitOk, 256, 1, a, x)
    ensures InBound(x, 18) && IsTransform(S, 256, 1, a, x, Q)
  {
    hide Transformed, S, IsTransform;
    TransformedIs(S, Q, SplitOk, 256, 1, a, x);
    TransformedShape(S, Q, SplitOk, 256, 1, a, x);
    forall j | 0 <= j < |x| ensures 0 <= x[j] < 18 * Q {
      TransformedAllowed(S, Q, SplitOk, 256, 1, a, x, j, 0);
    }
  }

  // ----- inverse -----

  /** Before being merged further, element r of a block of width n is below this many Q. */
  function Growth(n: nat, r: nat): (g: int)
    ensures g >= 2
  {
    if n <= 1 || r >= n / 2 then 2 else 2 * Growth(n / 2, r)
  }

  /** Only element 0 of a block reaches the full growth 2n. */
  lemma {:induction false} GrowthLimit(m: nat, n: nat, r: nat)
    requires Level(m, n) && r < n
    ensures Growth(n, r) <= 2 * n
    ensures r >= 1 ==> Growth(n, r) <= n
    decreases n
  {
    if n > 1 && r < n / 2 {
      assert Level(2 * m, n / 2);
      GrowthLimit(2 * m, n / 2, r);
    }
  }

  /** Until the last layer, element 0 of a block is a plain sum of inputs in (-Q, 2Q). */
  predicate MergeOk(n: nat, r: nat, v: int)
  {
    if r == 0 && n <= 128 then -(n * Q) < v < 2 * n * Q else 0 <= v < Growth(n, r) * Q
  }

  /** The same with negative operands let through: four elements may end up slightly negative. */
  predicate SignedOk(n: nat, r: nat, v: int)
  {
    if r == 0 && n <= 128 then -(n * Q) < v < 2 * n * Q
    else if (n == 128 && r == 64) || (n == 256 && (r == 0 || r == 64)) then -(n / 128 * Q) < 8 * v && v < Growth(n, r) * Q
    else 0 <= v < Growth(n, r) * Q
  }

  function OkFor(exact: bool): (ok: Allowed) { if exact then MergeOk else SignedOk }

  lemma ExactIsMergeOk()
    ensures OkFor(true) == MergeOk
  {
  }

  lemma SignedIsWeaker(n: nat, r: nat, v: int)
    ensures MergeOk(n, r, v) ==> SignedOk(n, r, v)
  {
    hide Growth;
  }

  lemma SignedBlock(x: seq<int>, off: nat, p: Poly)
    requires Block(Q, MergeOk, x, off, p)
    ensures Block(Q, SignedOk, x, off, p)
  {
    hide MergeOk, SignedOk, Cong;
    forall i | off <= i < off + |p| ensures SignedOk(|p|, i - off, x[i]) {
      SignedIsWeaker(|p|, i - off, x[i]);
    }
  }

  lemma SignedPart(x: seq<int>, x0: seq<int>, o: nat, t: nat, j: nat, f: int, p: Poly)
    requires PartMerge(Q, MergeOk, x, x0, o, t, j, f, p)
    ensures PartMerge(Q, SignedOk, x, x0, o, t, j, f, p)
  {
    hide MergeOk, SignedOk, Cong;
    forall i | o <= i < j || o + t <= i < j + t ensures SignedOk(2 * t, i - o, x[i]) {
      SignedIsWeaker(2 * t, i - o, x[i]);
    }
  }

  lemma SignedChildren(x0: seq<int>, o: nat, t: nat, k: nat, f: int, p: Poly)
    requires Children(S, Q, MergeOk, x0, o, t, k, f, p)
    ensures Children(S, Q, SignedOk, x0, o, t, k, f, p)
  {
    hide Block, Red, Scale, S;
    SignedBlock(x0, o, Scale(f, Red(S(k), p)));
    SignedBlock(x0, o + t, Scale(f, Red(-S(k), p)));
  }

  lemma SignedState(x: seq<int>, m: nat, t: nat, i: nat, c: Poly, f: int)
    requires MergeState(S, Q, MergeOk, x, m, t, i, c, f)
    ensures MergeState(S, Q, SignedOk, x, m, t, i, c, f)
  {
    hide Block, Residue, Scale, S, Start;
    forall b: nat | b < i ensures Block(Q, SignedOk, x, Start(b, 2 * t), Scale(2 * f, Residue(S, m + b, c))) {
      SignedBlock(x, Start(b, 2 * t), Scale(2 * f, Residue(S, m + b, c)));
    }
    forall b: nat | 2 * i <= b < 2 * m ensures Block(Q, SignedOk, x, Start(b, t), Scale(f, Residue(S, 2 * m + b, c))) {
      SignedBlock(x, Start(b, t), Scale(f, Residue(S, 2 * m + b, c)));
    }
  }

  // ----- the sums at position 0 -----

  predicate Wide(x: seq<int>) { forall j :: 0 <= j < |x| ==> -Q < x[j] < 2 * Q }

  function SumOf(y: seq<int>, o: nat, n: nat): (s: int)
    requires o + n <= |y|
  {
    if n == 0 then 0 else SumOf(y, o, n - 1) + y[o + n - 1]
  }

  lemma {:induction false} SumSplit(y: seq<int>, o: nat, a: nat, b: nat)
    requires o + a + b <= |y|
    ensures SumOf(y, o, a + b) == SumOf(y, o, a) + SumOf(y, o + a, b)
  {
    if b > 0 {
      SumSplit(y, o, a, b - 1);
    }
  }

  lemma {:induction false} SumBounds(y: seq<int>, o: nat, n: nat)
    requires o + n <= |y| && InBound(y, 2)
    ensures 0 <= SumOf(y, o, n) <= n * (2 * Q - 1)
  {
    if n > 0 {
      SumBounds(y, o, n - 1);
      assert y[o + n - 1] < 2 * Q;
    }
  }

  /** The difference at position 0 of two blocks of width t is below 2^31. */
  predicate NoWrapAt(t: nat, u: int, v: int) { t == 64 ==> u + 128 * Q - v < 0x8000_0000 }

  /** Nothing at position 0 that modmul takes, be it the difference or the sums to be reduced, is negative. */
  predicate NotNegativeAt(t: nat, u: int, v: int) { (t == 64 ==> u + 128 * Q - v >= 0) && (t == 128 ==> u >= 0 && v >= 0) }

  /** What any build needs of values in (-Q, 2Q): in both halves the first quarter exceeds the second by less than about 128 Q. */
  predicate NoWrap(y: seq<int>)
    requires |y| == DEGREE
  {
    NoWrapAt(64, SumOf(y, 0, 64), SumOf(y, 64, 64)) && NoWrapAt(64, SumOf(y, 128, 64), SumOf(y, 192, 64))
  }

  predicate NotNegative(y: seq<int>)
    requires |y| == DEGREE
  {
    && NotNegativeAt(64, SumOf(y, 0, 64), SumOf(y, 64, 64)) && NotNegativeAt(64, SumOf(y, 128, 64), SumOf(y, 192, 64))
    && NotNegativeAt(128, SumOf(y, 0, 128), SumOf(y, 128, 128))
  }

  /** What a build with overflow checks needs. */
  predicate Headroom(y: seq<int>)
    requires |y| == DEGREE
  {
    NoWrap(y) && NotNegative(y)
  }

  /** What a build needs, with or without overflow checks. */
  predicate EnoughFor(checks: bool, y: seq<int>)
    requires |y| == DEGREE
  {
    if checks then Headroom(y) else NoWrap(y)
  }

  /** On the documented domain there is always enough. */
  lemma ReducedHeadroom(y: seq<int>)
    requires |y| == DEGREE && InBound(y, 2)
    ensures Headroom(y)
  {
    hide SumOf;
    SumBounds(y, 0, 64);
    SumBounds(y, 64, 64);
    SumBounds(y, 128, 64);
    SumBounds(y, 192, 64);
    SumBounds(y, 0, 128);
    SumBounds(y, 128, 128);
  }

  /** The range of the values that verify passes: its products stay below 1.633 Q. */
  predicate RowLike(x: seq<int>) { forall j :: 0 <= j < |x| ==> -(633 * Q) < 1000 * x[j] && x[j] < 2 * Q }

  /** In that range there is not always enough, in any build: 64 values close to 2Q before 64 values close to -Q/2. */
  lemma WideRunsOut()
    ensures var y := seq(DEGREE, j => if j < 64 then 2 * Q - 1 else -(Q / 2)); RowLike(y) && !NoWrap(y)
  {
    var y := seq(DEGREE, j => if j < 64 then 2 * Q - 1 else -(Q / 2));
    hide SumOf;
    SumOfEqual(y, 0, 64, 2 * Q - 1);
    SumOfEqual(y, 64, 64, -(Q / 2));
  }

  /** And a build with overflow checks also fails where another is right: all values close to -Q/2. */
  lemma NegativeSums()
    ensures var y := seq(DEGREE, j => -(Q / 2)); RowLike(y) && NoWrap(y) && !Headroom(y)
  {
    var y := seq(DEGREE, j => -(Q / 2));
    hide SumOf;
    SumOfEqual(y, 0, 64, -(Q / 2));
    SumOfEqual(y, 64, 64, -(Q / 2));
    SumOfEqual(y, 128, 64, -(Q / 2));
    SumOfEqual(y, 192, 64, -(Q / 2));
    SumOfEqual(y, 0, 128, -(Q / 2));
  }

  lemma {:induction false} SumOfEqual(y: seq<int>, o: nat, n: nat, v: int)
    requires o + n <= |y| && forall j :: o <= j < o + n ==> y[j] == v
    ensures SumOf(y, o, n) == n * v
  {
    if n > 0 {
      SumOfEqual(y, o, n - 1, v);
    }
  }

  /** In the layer from width t to 2t with i blocks merged, x holds at the start of every block the sum of that block of y. */
  ghost predicate Sums(x: seq<int>, y: seq<int>, t: nat, i: nat) {
    && |x| == |y| == DEGREE
    && (forall b: nat :: b < i && Start(b, 2 * t) + 2 * t <= DEGREE && t > 0 ==> x[Start(b, 2 * t)] == SumOf(y, Start(b, 2 * t), 2 * t))
    && (forall b: nat :: b >= 2 * i && Start(b, t) + t <= DEGREE && t > 0 ==> x[Start(b, t)] == SumOf(y, Start(b, t), t))
  }

  lemma FirstSums(y: seq<int>)
    requires |y| == DEGREE
    ensures Sums(y, y, 1, 0)
  {
    hide SumOf;
    forall b: nat | Start(b, 1) + 1 <= DEGREE ensures y[Start(b, 1)] == SumOf(y, Start(b, 1), 1) {
      SingleSum(y, Start(b, 1));
    }
  }

  lemma SingleSum(y: seq<int>, o: nat)
    requires o < |y|
    ensures SumOf(y, o, 1) == y[o]
  {
    assert SumOf(y, o, 0) == 0;
  }

  /** The operands at position 0 of block i. */
  lemma SumOperands(x: seq<int>, y: seq<int>, t: nat, i: nat)
    requires Sums(x, y, t, i) && t > 0 && Start(i, 2 * t) + 2 * t <= DEGREE
    ensures x[Start(i, 2 * t)] == SumOf(y, Start(i, 2 * t), t) && x[Start(i, 2 * t) + t] == SumOf(y, Start(i, 2 * t) + t, t)
  {
    hide SumOf, Start;
    Starts(i, t);
    assert x[Start(2 * i, t)] == SumOf(y, Start(2 * i, t), t);
    assert x[Start(2 * i + 1, t)] == SumOf(y, Start(2 * i + 1, t), t);
  }

  lemma SumsStep(x0: seq<int>, x: seq<int>, y: seq<int>, t: nat, i: nat)
    requires Sums(x0, y, t, i) && t > 0 && Start(i, 2 * t) + 2 * t <= DEGREE == |x|
    requires x[Start(i, 2 * t)] == x0[Start(i, 2 * t)] + x0[Start(i, 2 * t) + t]
    requires forall j :: 0 <= j < DEGREE && !(Start(i, 2 * t) <= j < Start(i, 2 * t) + 2 * t) ==> x[j] == x0[j]
    ensures Sums(x, y, t, i + 1)
  {
    hide SumOf, Start;
    SumOperands(x0, y, t, i);
    SumSplit(y, Start(i, 2 * t), t, t);
    assert t + t == 2 * t;
    forall b: nat | b < i + 1 && Start(b, 2 * t) + 2 * t <= DEGREE
      ensures x[Start(b, 2 * t)] == SumOf(y, Start(b, 2 * t), 2 * t)
    {
      if b < i {
        StartsInOrder(b, i, 2 * t);
      }
    }
    forall b: nat | b >= 2 * (i + 1) && Start(b, t) + t <= DEGREE ensures x[Start(b, t)] == SumOf(y, Start(b, t), t) {
      Starts(i, t);
      StartsInOrder(2 * i + 1, b, t);
    }
  }

  lemma NextSums(x: seq<int>, y: seq<int>, m: nat, t: nat)
    requires Sums(x, y, t, m) && Level(m, 2 * t) && t > 0
    ensures Sums(x, y, 2 * t, 0)
  {
    hide SumOf;
    forall b: nat | Start(b, 2 * t) + 2 * t <= DEGREE ensures x[Start(b, 2 * t)] == SumOf(y, Start(b, 2 * t), 2 * t) {
      if b >= m {
        LastStart(m, 2 * t, b);
        assert false;
      }
    }
  }

  lemma LastStart(m: nat, n: nat, b: nat)
    requires Level(m, n) && b >= m
    ensures Start(b, n) >= DEGREE
  {
    assert b * n >= m * n;
  }

  type Fit = (nat, int, int) -> bool

  /** The first i blocks of the layer from width t satisfy a condition on the sums of their halves. */
  ghost predicate LayerFits(fit: Fit, y: seq<int>, t: nat, i: nat)
    requires |y| == DEGREE
  {
    forall b: nat :: b < i && Start(b, 2 * t) + 2 * t <= DEGREE ==>
      fit(t, SumOf(y, Start(b, 2 * t), t), SumOf(y, Start(b, 2 * t) + t, t))
  }

  lemma ByLayers(fit: Fit, y: seq<int>)
    requires |y| == DEGREE
    ensures LayerFits(fit, y, 64, 2) && LayerFits(fit, y, 128, 1) <==>
      fit(64, SumOf(y, 0, 64), SumOf(y, 64, 64)) && fit(64, SumOf(y, 128, 64), SumOf(y, 192, 64))
      && fit(128, SumOf(y, 0, 128), SumOf(y, 128, 128))
  {
    hide SumOf;
    assert Start(0, 128) == 0 && Start(1, 128) == 128 && Start(0, 256) == 0;
    if LayerFits(fit, y, 64, 2) && LayerFits(fit, y, 128, 1) {
      assert fit(64, SumOf(y, Start(0, 2 * 64), 64), SumOf(y, Start(0, 2 * 64) + 64, 64));
      assert fit(64, SumOf(y, Start(1, 2 * 64), 64), SumOf(y, Start(1, 2 * 64) + 64, 64));
      assert fit(128, SumOf(y, Start(0, 2 * 128), 128), SumOf(y, Start(0, 2 * 128) + 128, 128));
    }
    forall b: nat | b < 2 && Start(b, 128) + 128 <= DEGREE ensures b == 0 || b == 1 {
    }
  }

  lemma HeadroomByLayers(y: seq<int>)
    requires |y| == DEGREE
    ensures NoWrap(y) <==> LayerFits(NoWrapAt, y, 64, 2) && LayerFits(NoWrapAt, y, 128, 1)
    ensures NotNegative(y) <==> LayerFits(NotNegativeAt, y, 64, 2) && LayerFits(NotNegativeAt, y, 128, 1)
  {
    hide SumOf, LayerFits;
    ByLayers(NoWrapAt, y);
    ByLayers(NotNegativeAt, y);
  }

  lemma WidthsThatFit(y: seq<int>, m: nat, t: nat)
    requires |y| == DEGREE && Level(m, 2 * t)
    ensures t != 64 && t != 128 ==> LayerFits(NoWrapAt, y, t, m) && LayerFits(NotNegativeAt, y, t, m)
    ensures t == 64 ==> m == 2
    ensures t == 128 ==> m == 1
  {
    hide SumOf;
  }

  lemma MergeCong(u: int, v: int, w: int, a: int, b: int, k: nat, f: int)
    requires 1 <= k < 256
    requires Cong(u, f * (a + S(k) * b), Q) && Cong(v, f * (a + (-S(k)) * b), Q)
    requires Cong(w, ((u + 128 * Q - v) * InverseRootTable(k)) * RINV, Q)
    ensures Cong(u + v, (2 * f) * a, Q)
    ensures Cong(w, (2 * f) * b, Q)
  {
    hide Cong, S, SI, RootTable, InverseRootTable, NodeZ;
    var sb := S(k) * b;
    assert (-S(k)) * b == -sb;
    CongAdd(u, f * (a + sb), v, f * (a - sb), Q);
    assert f * (a + sb) + f * (a - sb) == (2 * f) * a;
    CongSub(u, f * (a + sb), v, f * (a - sb), Q);
    assert f * (a + sb) - f * (a - sb) == S(k) * ((2 * f) * b);
    CongIntro(u + 128 * Q - v, u - v, Q, 128);
    CongTrans(u + 128 * Q - v, u - v, S(k) * ((2 * f) * b), Q);
    InverseRootOut(k);
    CongMul(u + 128 * Q - v, S(k) * ((2 * f) * b), InverseRootTable(k) * RINV, SI(k), Q);
    assert ((u + 128 * Q - v) * InverseRootTable(k)) * RINV == (u + 128 * Q - v) * (InverseRootTable(k) * RINV);
    CongTrans(w, (u + 128 * Q - v) * (InverseRootTable(k) * RINV), (S(k) * ((2 * f) * b)) * SI(k), Q);
    RootInverts(k);
    Divides(S(k), SI(k), (2 * f) * b, Q);
    assert (S(k) * ((2 * f) * b)) * SI(k) == S(k) * (SI(k) * ((2 * f) * b));
    CongTrans(w, S(k) * (SI(k) * ((2 * f) * b)), (2 * f) * b, Q);
  }

  lemma InverseRootOut(k: nat)
    requires 1 <= k < 256
    ensures Cong(InverseRootTable(k) * RINV, SI(k), Q)
  {
    hide InverseRootTable;
    CongMod(InverseRootTable(k) * RINV, Q);
  }

  /** Montgomery multiplication by R mod Q keeps the residue class and brings a value below 2 Q. */
  lemma ReduceOnce(a: int)
    requires -(128 * Q) < a < 512 * Q
    ensures var r := RedcValue(a * ONE); -Q < 8 * r && r < 2 * Q && Cong(r, a, Q) && (a >= 0 ==> r >= 0)
  {
    hide Cong, RedcValue;
    RedcValueSpec(a * ONE);
    CongIntro(ONE * RINV, 1, Q, (ONE * RINV - 1) / Q);
    CongScale(a, ONE * RINV, 1, Q);
    assert (a * ONE) * RINV == a * (ONE * RINV);
    CongTrans(RedcValue(a * ONE), a * (ONE * RINV), a, Q);
  }

  /** The product with a root, of a difference that may be negative. */
  lemma SignedProduct(w: int, s: int)
    requires -(64 * Q) < w < 512 * Q && 0 <= s < Q
    ensures var r := RedcValue(w * s); -Q < 8 * r && r < 2 * Q && Cong(r, (w * s) * RINV, Q) && (w >= 0 ==> r >= 0)
  {
    hide Cong, RedcValue;
    RedcValueSpec(w * s);
    ProductRange(w, s);
  }

  lemma ProductRange(w: int, s: int)
    requires -(64 * Q) < w < 512 * Q && 0 <= s < Q
    ensures -(Q * R) < 8 * (w * s) && w * s < Q * R && (w >= 0 ==> w * s >= 0)
  {
    if w >= 0 {
      ProductBelow(w, s, 512 * Q);
    } else {
      ProductBelow(-w, s, 64 * Q);
      assert w * s == -((-w) * s);
    }
  }

  lemma ProductBelow(a: int, b: int, limit: int)
    requires 0 <= a <= limit && 0 <= b < Q
    ensures 0 <= a * b <= limit * Q
  {
  }

  /**
   One round of the innermost loop of `intt`; lim is NTTL >> n of the source. The first flag is false where the difference leaves
   i32. The second stays true while modmul is given nothing negative, which as a u64 would make its product overflow; without
   overflow checks the product wraps and is still right. Only position 0 can clear a flag.
   */
  method MergeElement(x: array<I32>, ghost x0: seq<int>, o: nat, t: nat, j: nat, m: nat, lim: nat, ghost k: nat, s: int,
                      ghost f: int, ghost p: Poly, exact: bool) returns (ok: bool, still: bool)
    requires x.Length == DEGREE && 1 <= k < 256 && s == InverseRootTable(k) && o <= j < o + t && o + 2 * t <= DEGREE
    requires Level(2 * m, t) && (m == 1 ==> lim == 1)
    requires PartMerge(Q, OkFor(exact), x[..], x0, o, t, j, f, p) && Children(S, Q, OkFor(exact), x0, o, t, k, f, p)
    modifies x
    ensures ok <==> (j == o ==> NoWrapAt(t, old(x[j]), old(x[j + t])))
    ensures ok ==> (still <==> exact && (j == o ==> NotNegativeAt(t, old(x[j]), old(x[j + t]))))
    ensures ok ==> PartMerge(Q, OkFor(still), x[..], x0, o, t, j + 1, f, p)
    ensures ok && m > 1 ==> x[j] as int == old(x[j]) as int + old(x[j + t]) as int
    ensures forall i :: 0 <= i < DEGREE && i != j && i != j + t ==> x[i] == old(x[i])
  {
    hide Cong, InverseRootTable, RootTable, S, PartMerge, Children, Red, RedcValue, Growth, MergeOk, SignedOk;
    ghost var xs: seq<int> := x[..];
    MergeOperands(S, Q, OkFor(exact), xs, x0, o, t, j, k, f, p);
    InversesOk(k);
    SignedIsWeaker(t, j - o, x[j]);
    SignedIsWeaker(t, j - o, x[j + t]);
    ghost var a, b := x[j], x[j + t];
    still := exact;
    var u: I32, v: I32;
    if m < NTTL && j < o + lim {
      SumOperandsRange(m, t, x[j], x[j + t]);
      ReduceOnce(x[j]);
      ReduceOnce(x[j + t]);
      still := still && x[j] >= 0 && x[j + t] >= 0;
      u := RedcValue(x[j] * ONE);
      v := RedcValue(x[j + t] * ONE);
      CongTrans(u, x[j], f * (p[j - o] + S(k) * p[j - o + t]), Q);
      CongTrans(v, x[j + t], f * (p[j - o] + (-S(k)) * p[j - o + t]), Q);
    } else {
      u := x[j];
      v := x[j + t];
    }
    SignedSizes(m, t, j - o, a, b, u, v);
    x[j] := u + v;
    var w := u + 128 * Q - v;
    if w >= 0x8000_0000 {
      return false, false;
    }
    still := still && w >= 0;
    SignedProduct(w, s);
    x[j + t] := RedcValue(w * s);
    MergeCong(u, v, x[j + t], p[j - o], p[j - o + t], k, f);
    if still {
      ExactSizes(m, t, j - o, a, b, u, v, x[j + t]);
    } else {
      SignedResult(m, t, j - o, w, x[j + t]);
      if exact {
        SignedPart(xs, x0, o, t, j, f, p);
      }
    }
    MergeStep(Q, OkFor(still), xs, x0, o, t, j, f, p, u + v, x[j + t]);
    assert x[..] == xs[j := u + v][j + t := x[j + t]];
    ok := true;
  }

  /** The sums that the last layer reduces. */
  lemma SumOperandsRange(m: nat, t: nat, a: int, b: int)
    requires Level(2 * m, t) && m == 1 && SignedOk(t, 0, a) && SignedOk(t, 0, b)
    ensures -(128 * Q) < a < 512 * Q && -(128 * Q) < b < 512 * Q
  {
  }

  /** The operands of the merge at position r: as they are, or reduced in the last layer. */
  predicate Operands(m: nat, r: nat, a: int, b: int, u: int, v: int) {
    if m == 1 && r == 0 then -Q < 8 * u && u < 2 * Q && -Q < 8 * v && v < 2 * Q else u == a && v == b
  }

  /** The sizes of what is merged at position r of two blocks of width t. */
  lemma SignedSizes(m: nat, t: nat, r: nat, a: int, b: int, u: int, v: int)
    requires Level(2 * m, t) && r < t && SignedOk(t, r, a) && SignedOk(t, r, b) && Operands(m, r, a, b, u, v)
    ensures -0x8000_0000 <= u + v < 0x8000_0000 && SignedOk(2 * t, r, u + v)
    ensures var w := u + 128 * Q - v;
      && -(64 * Q) < w < 512 * Q && (t != 64 || r != 0 ==> 0 <= w < 0x8000_0000)
      && (r == 0 ==> (w < 0x8000_0000 <==> NoWrapAt(t, a, b)))
      && (r == 0 && t == 64 ==> (w >= 0 <==> NotNegativeAt(t, a, b)))
  {
    hide Growth;
    GrowthDoubles(t, r);
    if r > 0 {
      OtherSizes(m, t, r, a, b);
    }
  }

  /** Away from position 0 the operands are not negative, but for position 64 of the last layer, where they are small. */
  lemma OtherSizes(m: nat, t: nat, r: nat, a: int, b: int)
    requires Level(2 * m, t) && 0 < r < t && SignedOk(t, r, a) && SignedOk(t, r, b)
    ensures -Q < 8 * a && a < 128 * Q && -Q < 8 * b && b < 128 * Q && 0 <= a + 128 * Q - b
    ensures t != 128 || r != 64 ==> a >= 0 && b >= 0
  {
    GrowthLimit(2 * m, t, r);
    if t == 128 && r == 64 {
      assert Growth(128, 64) == 2;
    }
  }

  lemma SignedResult(m: nat, t: nat, r: nat, w: int, y: int)
    requires Level(2 * m, t) && r < t && -Q < 8 * y && y < 2 * Q && (w >= 0 ==> y >= 0) && (t != 64 || r != 0 ==> w >= 0)
    ensures SignedOk(2 * t, r + t, y)
  {
    hide Growth;
    GrowthDoubles(t, r);
  }

  lemma ExactSizes(m: nat, t: nat, r: nat, a: int, b: int, u: int, v: int, y: int)
    requires Level(2 * m, t) && r < t && MergeOk(t, r, a) && MergeOk(t, r, b) && Operands(m, r, a, b, u, v)
    requires m == 1 && r == 0 ==> u >= 0 && v >= 0
    requires 0 <= y < 2 * Q
    ensures MergeOk(2 * t, r, u + v) && MergeOk(2 * t, r + t, y)
  {
    hide Growth;
    GrowthLimit(2 * m, t, r);
    GrowthDoubles(t, r);
  }

  lemma GrowthDoubles(t: nat, r: nat)
    requires r < t
    ensures Growth(2 * t, r) == 2 * Growth(t, r) && Growth(2 * t, r + t) == 2
  {
    assert (2 * t) / 2 == t;
  }

  /** The innermost loop of `intt`: merges the two child blocks at o into the node-k block. */
  method MergeBlock(x: array<I32>, o: nat, t: nat, m: nat, lim: nat, k: nat, ghost f: int, ghost p: Poly,
                    exact: bool) returns (ok: bool, still: bool)
    requires x.Length == DEGREE && 1 <= k < 256 && o + 2 * t <= DEGREE
    requires Level(2 * m, t) && (m == 1 ==> lim == 1) && Children(S, Q, OkFor(exact), x[..], o, t, k, f, p)
    modifies x
    ensures ok <==> NoWrapAt(t, old(x[o]), old(x[o + t]))
    ensures ok ==> (still <==> exact && NotNegativeAt(t, old(x[o]), old(x[o + t])))
    ensures ok ==> PartMerge(Q, OkFor(still), x[..], old(x[..]), o, t, o + t, f, p)
    ensures ok && m > 1 ==> x[o] as int == old(x[o]) as int + old(x[o + t]) as int
  {
    hide Cong, InverseRootTable, RootTable, S, PartMerge, Children, NoWrapAt, NotNegativeAt, OkFor;
    MergeNothing(S, Q, OkFor(exact), x[..], o, t, k, f, p);
    var s := InverseRootTable(k);
    still := exact;
    for j := o to o + t
      invariant PartMerge(Q, OkFor(still), x[..], old(x[..]), o, t, j, f, p) && Children(S, Q, OkFor(still), old(x[..]), o, t, k, f, p)
      invariant j == o ==> x[..] == old(x[..]) && still == exact
      invariant j > o ==> NoWrapAt(t, old(x[o]), old(x[o + t])) && (still <==> exact && NotNegativeAt(t, old(x[o]), old(x[o + t])))
      invariant j > o && m > 1 ==> x[o] as int == old(x[o]) as int + old(x[o + t]) as int
    {
      var before := still;
      ok, still := MergeElement(x, old(x[..]), o, t, j, m, lim, k, s, f, p, still);
      if !ok {
        return;
      }
      OkForNext(old(x[..]), o, t, k, f, p, before, still);
    }
    ok := true;
  }

  lemma OkForNext(x0: seq<int>, o: nat, t: nat, k: nat, f: int, p: Poly, before: bool, still: bool)
    requires Children(S, Q, OkFor(before), x0, o, t, k, f, p) && (still ==> before)
    ensures Children(S, Q, OkFor(still), x0, o, t, k, f, p)
  {
    hide Children, S;
    if before && !still {
      SignedChildren(x0, o, t, k, f, p);
    }
  }

  /** The middle loop of `intt`: one layer, from blocks of width t to blocks of width 2t; y is the input of the first layer. */
  method MergeLayer(x: array<I32>, m: nat, t: nat, lim: nat, ghost y: seq<int>, ghost c: Poly, ghost f: int,
                    exact: bool) returns (ok: bool, still: bool)
    requires x.Length == DEGREE && MergeState(S, Q, OkFor(exact), x[..], m, t, 0, c, f) && (m == 1 ==> lim == 1)
    requires Sums(x[..], y, t, 0)
    modifies x
    ensures ok <==> LayerFits(NoWrapAt, y, t, m)
    ensures ok ==> (still <==> exact && LayerFits(NotNegativeAt, y, t, m))
    ensures ok ==> MergeState(S, Q, OkFor(still), x[..], m, t, m, c, f)
    ensures ok && m > 1 ==> Sums(x[..], y, t, m)
  {
    hide Cong, S, Residue, Start, PartMerge, Children, MergeState, Level, Sums, NoWrapAt, NotNegativeAt, SumOf, LayerFits, OkFor;
    var k := 0;
    StartOfFirst(2 * t);
    NoneFits(x[..], y, t);
    still := exact;
    for i := 0 to m
      invariant k == Start(i, 2 * t) && MergeState(S, Q, OkFor(still), x[..], m, t, i, c, f)
      invariant LayerFits(NoWrapAt, y, t, i) && (still <==> exact && LayerFits(NotNegativeAt, y, t, i))
      invariant i < m || m > 1 ==> Sums(x[..], y, t, i)
    {
      ghost var xs: seq<int> := x[..];
      MergeChildren(S, Q, OkFor(still), xs, m, t, i, c, f);
      WidthPositive(m, t);
      SumOperands(xs, y, t, i);
      FitsStep(NoWrapAt, y, m, t, i);
      FitsStep(NotNegativeAt, y, m, t, i);
      var before := still;
      ok, still := MergeBlock(x, k, t, m, lim, m + i, f, Residue(S, m + i, c), still);
      if !ok {
        return;
      }
      StateForNext(xs, m, t, i, c, f, before, still);
      MergeStateStep(S, Q, OkFor(still), xs, x[..], m, t, i, c, f);
      MergeDone(Q, OkFor(still), x[..], xs, k, t, f, Residue(S, m + i, c));
      if m > 1 {
        SumsStep(xs, x[..], y, t, i);
      }
      Starts(i, t);
      k := k + 2 * t;
    }
    ok := true;
  }

  lemma StateForNext(x: seq<int>, m: nat, t: nat, i: nat, c: Poly, f: int, before: bool, still: bool)
    requires MergeState(S, Q, OkFor(before), x, m, t, i, c, f) && (still ==> before)
    ensures MergeState(S, Q, OkFor(still), x, m, t, i, c, f)
  {
    hide MergeState, S;
    if before && !still {
      SignedState(x, m, t, i, c, f);
    }
  }

  lemma WidthPositive(m: nat, t: nat)
    requires Level(2 * m, t)
    ensures t > 0
  {
  }

  lemma NoneFits(x: seq<int>, y: seq<int>, t: nat)
    requires Sums(x, y, t, 0)
    ensures |y| == DEGREE && LayerFits(NoWrapAt, y, t, 0) && LayerFits(NotNegativeAt, y, t, 0)
  {
  }

  lemma FitsStep(fit: Fit, y: seq<int>, m: nat, t: nat, i: nat)
    requires |y| == DEGREE && i < m && Start(i, 2 * t) + 2 * t <= DEGREE
    ensures LayerFits(fit, y, t, i + 1) <==>
      LayerFits(fit, y, t, i) && fit(t, SumOf(y, Start(i, 2 * t), t), SumOf(y, Start(i, 2 * t) + t, t))
    ensures !LayerFits(fit, y, t, i + 1) ==> !LayerFits(fit, y, t, m)
  {
    hide SumOf, Start;
  }

  /** The polynomial whose residues at the leaves are x. */
  function InverseTransform(x: seq<int>): (c: Poly)
    requires |x| == DEGREE
    ensures |c| == DEGREE
  {
    Rebuild(SI, HALF, 256, 1, 256, 0, x)
  }

  /** InverseTransform inverts the transform modulo Q, in both directions. */
  lemma TransformOfInverse(x: seq<int>)
    requires |x| == DEGREE
    ensures IsTransform(S, 256, 1, InverseTransform(x), x, Q)
  {
    hide Cong, S, SI, SeqCong, Residue, Rebuild, BlockIs;
    TablesOk();
    var c := InverseTransform(x);
    CongIntro(2 * HALF, 1, Q, 1);
    forall i: nat | i < 256 ensures BlockIs(x, Start(i, 1), Residue(S, 256 + i, c), Q) {
      ResidueOfRebuild(S, SI, HALF, 256, 256, 1, i, x, Q);
      SingleLeaf(x, i, Residue(S, 256 + i, c));
    }
  }

  lemma SingleLeaf(x: seq<int>, i: nat, p: Poly)
    requires |x| == DEGREE && i < 256 && SeqCong(p, Rebuild(SI, HALF, 256, 256, 1, i, x), Q)
    ensures BlockIs(x, Start(i, 1), p, Q)
  {
    hide Cong, SI;
    assert Rebuild(SI, HALF, 256, 256, 1, i, x) == x[i..i + 1];
    CongSym(p[0], x[i], Q);
  }

  lemma InverseOfTransform(c: Poly, x: seq<int>)
    requires |c| == DEGREE && IsTransform(S, 256, 1, c, x, Q)
    ensures |x| == DEGREE && SeqCong(InverseTransform(x), c, Q)
  {
    hide Cong, S, SI, SeqCong, BlockIs, Residue, Rebuild, Start;
    TablesOk();
    CongIntro(2 * HALF, 1, Q, 1);
    RebuildOfResidues(S, SI, HALF, 256, 1, 1, 256, 0, c, x, Q);
    ResidueAtRoot(S, c);
  }

  lemma LeavesReady(x: seq<int>, c: Poly)
    requires |x| == |c| == DEGREE && Wide(x) && IsTransform(S, 256, 1, c, x, Q)
    ensures MergeState(S, Q, MergeOk, x, 128, 1, 0, c, 1)
  {
    hide Cong, S, Residue, MergeState;
    forall b: nat | b < 256 ensures Block(Q, MergeOk, x, Start(b, 1), Residue(S, 256 + b, c)) {
      ResidueWidth(S, 256, 1, b, c);
      assert BlockIs(x, Start(b, 1), Residue(S, 256 + b, c), Q);
    }
    FirstMerge(S, Q, MergeOk, x, 128, 1, c);
  }

  lemma FullGrowth(x: seq<int>, c: Poly, exact: bool)
    requires |x| == |c| == DEGREE && Block(Q, OkFor(exact), x, 0, Scale(256, c))
    ensures forall j :: 0 <= j < DEGREE ==> -Q < 4 * x[j] && x[j] < 512 * Q && (exact ==> x[j] >= 0) && Cong(x[j], 256 * c[j], Q)
  {
    hide Cong, Growth;
    forall j | 0 <= j < DEGREE
      ensures -Q < 4 * x[j] && x[j] < 512 * Q && (exact ==> x[j] >= 0) && Cong(x[j], 256 * c[j], Q)
    {
      GrowthLimit(1, 256, j);
      assert x[0 + j] == x[j] && Scale(256, c)[j] == 256 * c[j];
    }
  }

  lemma FinalScale(x: int, c: int)
    requires -Q < 4 * x && x < 512 * Q && Cong(x, 256 * c, Q)
    ensures var r := RedcValue(x * COMBO); -21 < r < 2 * Q && (x >= 0 ==> r >= 0) && Cong(r, R * c, Q)
  {
    hide Cong, RedcValue;
    RedcValueSpec(x * COMBO);
    CongScale(COMBO * RINV, x, 256 * c, Q);
    assert (x * COMBO) * RINV == COMBO * RINV * x;
    CongIntro(256 * (COMBO * RINV), R, Q, (256 * (COMBO * RINV) - R) / Q);
    CongScale(c, 256 * (COMBO * RINV), R, Q);
    assert COMBO * RINV * (256 * c) == c * (256 * (COMBO * RINV));
    CongTrans(RedcValue(x * COMBO), COMBO * RINV * x, COMBO * RINV * (256 * c), Q);
    CongTrans(RedcValue(x * COMBO), c * (256 * (COMBO * RINV)), c * R, Q);
  }

  /** The source's counter n in the layer merging into m blocks: m = 2^(n-1). */
  predicate InttRound(m: nat, n: nat) {
    || (m == 128 && n == 8) || (m == 64 && n == 7) || (m == 32 && n == 6) || (m == 16 && n == 5)
    || (m == 8 && n == 4) || (m == 4 && n == 3) || (m == 2 && n == 2) || (m == 1 && n == 1)
  }

  /** NTTL >> n. */
  function NttlShift(n: nat): (lim: nat) { if n == 0 then NTTL else if n == 1 then NTTL / 2 else 0 }

  /** How the arithmetic of a call went: nothing left its type; modmul got negative values; a difference left i32. */
  datatype Arithmetic = Exact | Negative | Wrapped

  /**
   intt on values in (-Q, 2Q), as verify calls it. A build with overflow checks fails unless the arithmetic is Exact, which is so
   exactly if the input has the headroom. A build without them is right unless it is Wrapped, which is so exactly if a difference
   reaches 2^31: the result is R times the inverse transform modulo Q, and reduced but for at most 20 below zero.
   */
  method InttSigned(x: array<I32>) returns (a: Arithmetic)
    requires x.Length == DEGREE && Wide(x[..])
    modifies x
    ensures a.Wrapped? <==> !NoWrap(old(x[..]))
    ensures a.Exact? <==> Headroom(old(x[..]))
    ensures !a.Wrapped? ==> forall j :: 0 <= j < DEGREE ==> -21 < x[j] < Q && x[j] % Q == (R * InverseTransform(old(x[..]))[j]) % Q
    ensures a.Exact? ==> forall j :: 0 <= j < DEGREE ==> x[j] == (R * InverseTransform(old(x[..]))[j]) % Q
  {
    hide Cong, S, SI, MergeState, IsTransform, InverseTransform, Block, Sums, LayerFits, SumOf, NoWrap, NotNegative, OkFor;
    ExactIsMergeOk();
    ghost var y: seq<int> := x[..];
    ghost var c := InverseTransform(x[..]);
    TransformOfInverse(x[..]);
    LeavesReady(x[..], c);
    FirstSums(y);
    HeadroomByLayers(y);
    var t: nat := 1;
    var m: nat := DEGREE / 2;
    var n: nat := 8;
    var exact := true;
    ghost var f := 1;
    while m >= 1
      invariant m >= 1 ==> MergeState(S, Q, OkFor(exact), x[..], m, t, 0, c, f) && Sums(x[..], y, t, 0)
      invariant m >= 1 ==> m * f == 128 && m * t == 128 && InttRound(m, n)
      invariant m > 1 ==> exact
      invariant m <= 1 ==> LayerFits(NoWrapAt, y, 64, 2)
      invariant m == 1 ==> (exact <==> LayerFits(NotNegativeAt, y, 64, 2))
      invariant m == 0 ==> LayerFits(NoWrapAt, y, 128, 1)
      invariant m == 0 ==> (exact <==> LayerFits(NotNegativeAt, y, 64, 2) && LayerFits(NotNegativeAt, y, 128, 1))
      invariant m == 0 ==> Block(Q, OkFor(exact), x[..], 0, Scale(256, c))
      decreases m
    {
      var lim := NttlShift(n);
      n := n - 1;
      WidthsThatFit(y, m, t);
      var ok;
      ok, exact := MergeLayer(x, m, t, lim, y, c, f, exact);
      if !ok {
        return Wrapped;
      }
      NextMerge(S, Q, OkFor(exact), x[..], m, t, c, f);
      if m > 1 {
        NextSums(x[..], y, m, t);
      }
      t := t * 2;
      m := m / 2;
      f := 2 * f;
    }
    FullGrowth(x[..], c, exact);
    Finish(x, c, exact);
    a := if exact then Exact else Negative;
    CanonicalOf(x[..], c, exact);
  }

  lemma CanonicalOf(x: seq<int>, c: Poly, exact: bool)
    requires |x| == |c| == DEGREE && forall j :: 0 <= j < DEGREE ==> -21 < x[j] < Q && (exact ==> x[j] >= 0) && Cong(x[j], R * c[j], Q)
    ensures forall j :: 0 <= j < DEGREE ==> x[j] % Q == (R * c[j]) % Q
    ensures exact ==> forall j :: 0 <= j < DEGREE ==> x[j] == (R * c[j]) % Q
  {
    hide Cong;
    forall j | 0 <= j < DEGREE ensures x[j] % Q == (R * c[j]) % Q && (exact ==> x[j] == (R * c[j]) % Q) {
      var v := if x[j] < 0 then x[j] + Q else x[j];
      CongIntro(v, x[j], Q, if x[j] < 0 then 1 else 0);
      CongTrans(v, x[j], R * c[j], Q);
      CongCanonical(v, R * c[j], Q);
      SignedResidue(x[j]);
    }
  }

  lemma SignedResidue(x: int)
    requires -Q <= x < Q
    ensures x % Q == if x < 0 then x + Q else x
  {
  }

  /** The last loop of intt: scale and reduce. */
  method Finish(x: array<I32>, ghost c: Poly, ghost exact: bool)
    requires x.Length == DEGREE == |c|
    requires forall j :: 0 <= j < DEGREE ==>
      -Q < 4 * (x[j] as int) && x[j] < 512 * Q && (exact ==> x[j] >= 0) && Cong(x[j], 256 * c[j], Q)
    modifies x
    ensures forall j :: 0 <= j < DEGREE ==> -21 < x[j] < Q && (exact ==> x[j] >= 0) && Cong(x[j], R * c[j], Q)
  {
    hide Cong, RedcValue;
    ghost var y := x[..];
    for j := 0 to DEGREE
      invariant forall i :: 0 <= i < j ==> -21 < x[i] < Q && (exact ==> x[i] >= 0) && Cong(x[i], R * c[i], Q)
      invariant forall i :: j <= i < DEGREE ==> x[i] == y[i]
    {
      FinalScale(x[j], c[j]);
      x[j] := RedcValue(x[j] * COMBO);
      ghost var v := x[j];
      x[j] := x[j] - Q;
      x[j] := x[j] + SignMask(x[j]);
      CongIntro(x[j], v, Q, if x[j] == v then 0 else -1);
      CongTrans(x[j], v, R * c[j], Q);
    }
  }

  /**
   intt on its documented domain: for elements in [0, 2Q) nothing overflows or turns negative, and the result is R times the
   inverse transform, fully reduced.
   */
  method Intt(x: array<I32>)
    requires x.Length == DEGREE && InBound(x[..], 2)
    modifies x
    ensures forall j :: 0 <= j < DEGREE ==> x[j] == (R * InverseTransform(old(x[..]))[j]) % Q
  {
    hide Headroom, NoWrap, InverseTransform;
    ReducedHeadroom(x[..]);
    var a := InttSigned(x);
  }
}
