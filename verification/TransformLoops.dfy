/**
 The loop states of in-place transforms: what an array holds between two rounds of the layer, block and
 element loops of ntt and intt. Generic in the modulus q, the roots s, and the values `ok` allows at a
 position of a block of a given width, by which each scheme states its own headroom.
 */
module TransformLoops {
  import opened Congruence
  import opened QuotientRing
  import opened TransformTree

  type Allowed = (nat, nat, int) -> bool

  /** x holds p from off on, within what ok allows in a block of p's width. */
  ghost predicate Block(q: int, ok: Allowed, x: seq<int>, off: nat, p: Poly)
    requires q > 0
  {
    BlockIs(x, off, p, q) && forall i :: off <= i < off + |p| ==> ok(|p|, i - off, x[i])
  }

  /** A block away from [o, o + w) survives a change confined to [o, o + w). */
  lemma BlockFrame(q: int, ok: Allowed, x: seq<int>, x': seq<int>, o: nat, w: nat, off: nat, p: Poly)
    requires q > 0 && |x| == |x'| && Block(q, ok, x, off, p) && (off + |p| <= o || o + w <= off)
    requires forall j :: 0 <= j < |x| && !(o <= j < o + w) ==> x'[j] == x[j]
    ensures Block(q, ok, x', off, p)
  {
    hide Cong;
    forall j | 0 <= j < |p| ensures Cong(x'[off + j], p[j], q) {
      assert x[off + j] == x'[off + j];
    }
  }

  // ----- splitting one block -----

  /** x is x0 with elements [o, j) and [o + t, j + t) replaced by those of the two children of block p. */
  ghost predicate PartSplit(s: nat -> int, q: int, ok: Allowed, x: seq<int>, x0: seq<int>, o: nat, t: nat, j: nat,
                            k: nat, p: Poly)
    requires q > 0
  {
    && |x| == |x0| == DEGREE && o <= j <= o + t && o + 2 * t <= DEGREE && |p| == 2 * t
    && (forall i :: o <= i < j ==> Cong(x[i], Red(s(k), p)[i - o], q) && ok(t, i - o, x[i]))
    && (forall i :: o + t <= i < j + t ==> Cong(x[i], Red(-s(k), p)[i - o - t], q) && ok(t, i - o - t, x[i]))
    && (forall i :: 0 <= i < DEGREE && !(o <= i < j) && !(o + t <= i < j + t) ==> x[i] == x0[i])
  }

  lemma SplitNothing(s: nat -> int, q: int, ok: Allowed, x: seq<int>, o: nat, t: nat, k: nat, p: Poly)
    requires q > 0 && |x| == DEGREE && o + 2 * t <= DEGREE && |p| == 2 * t
    ensures PartSplit(s, q, ok, x, x, o, t, o, k, p)
  {
  }

  /** The operands of the next round are still those of the unsplit block. */
  lemma SplitOperands(s: nat -> int, q: int, ok: Allowed, x: seq<int>, x0: seq<int>, o: nat, t: nat, j: nat, k: nat, p: Poly)
    requires q > 0 && PartSplit(s, q, ok, x, x0, o, t, j, k, p) && j < o + t && Block(q, ok, x0, o, p)
    ensures o <= j && o + 2 * t <= DEGREE == |x| && |p| == 2 * t
    ensures ok(2 * t, j - o, x[j]) && ok(2 * t, j - o + t, x[j + t])
    ensures Cong(x[j], p[j - o], q) && Cong(x[j + t], p[j - o + t], q)
  {
    hide Cong, Red;
    assert x[j] == x0[j] == x0[o + (j - o)];
    assert x[j + t] == x0[j + t] == x0[o + (j - o + t)];
  }

  lemma SplitStep(s: nat -> int, q: int, ok: Allowed, x: seq<int>, x0: seq<int>, o: nat, t: nat, j: nat, k: nat,
                  p: Poly, a: int, b: int)
    requires q > 0 && PartSplit(s, q, ok, x, x0, o, t, j, k, p) && j < o + t
    requires ok(t, j - o, a) && ok(t, j - o, b)
    requires Cong(a, p[j - o] + s(k) * p[j - o + t], q) && Cong(b, p[j - o] + (-s(k)) * p[j - o + t], q)
    ensures PartSplit(s, q, ok, x[j := a][j + t := b], x0, o, t, j + 1, k, p)
  {
    hide Cong;
    assert Red(s(k), p)[j - o] == p[j - o] + s(k) * p[j - o + t];
    assert Red(-s(k), p)[j - o] == p[j - o] + (-s(k)) * p[j - o + t];
  }

  lemma SplitDone(s: nat -> int, q: int, ok: Allowed, x: seq<int>, x0: seq<int>, o: nat, t: nat, k: nat, p: Poly)
    requires q > 0 && PartSplit(s, q, ok, x, x0, o, t, o + t, k, p)
    ensures |x| == |x0| == DEGREE && o + 2 * t <= DEGREE
    ensures Block(q, ok, x, o, Red(s(k), p)) && Block(q, ok, x, o + t, Red(-s(k), p))
    ensures forall j :: 0 <= j < DEGREE && !(o <= j < o + 2 * t) ==> x[j] == x0[j]
  {
    hide Cong;
  }

  // ----- splitting one layer -----

  /** In the layer splitting m blocks of width 2t: the first i are split, the others not yet. */
  ghost predicate SplitState(s: nat -> int, q: int, ok: Allowed, x: seq<int>, m: nat, t: nat, i: nat, a: Poly)
    requires q > 0
  {
    && |x| == |a| == DEGREE && Level(m, 2 * t) && m < 256 && i <= m
    && (forall b: nat :: b < 2 * i ==> Block(q, ok, x, Start(b, t), Residue(s, 2 * m + b, a)))
    && (forall b: nat :: i <= b < m ==> Block(q, ok, x, Start(b, 2 * t), Residue(s, m + b, a)))
  }

  lemma SplitBlockAt(s: nat -> int, q: int, ok: Allowed, x: seq<int>, m: nat, t: nat, i: nat, a: Poly)
    requires q > 0 && SplitState(s, q, ok, x, m, t, i, a) && i < m
    ensures 1 <= m + i < 256 && Start(i, 2 * t) + 2 * t <= DEGREE && |Residue(s, m + i, a)| == 2 * t
    ensures Block(q, ok, x, Start(i, 2 * t), Residue(s, m + i, a))
  {
    hide Cong, Residue, Block;
    BlockInRange(m, 2 * t, i);
    ResidueWidth(s, m, 2 * t, i, a);
    assert m <= 128;
  }

  lemma SplitBlocksKept(s: nat -> int, q: int, ok: Allowed, x0: seq<int>, x: seq<int>, m: nat, t: nat, i: nat, a: Poly, b: nat)
    requires q > 0 && SplitState(s, q, ok, x0, m, t, i, a) && i < m && b < 2 * i && |x| == DEGREE
    requires forall j :: 0 <= j < DEGREE && !(Start(i, 2 * t) <= j < Start(i, 2 * t) + 2 * t) ==> x[j] == x0[j]
    ensures Block(q, ok, x, Start(b, t), Residue(s, 2 * m + b, a))
  {
    hide Cong, Residue, Block, Start, Level;
    LevelBelow(m, 2 * t);
    ResidueWidth(s, 2 * m, t, b, a);
    StartsInOrder(b, 2 * i, t);
    Starts(i, t);
    BlockFrame(q, ok, x0, x, Start(i, 2 * t), 2 * t, Start(b, t), Residue(s, 2 * m + b, a));
  }

  lemma UnsplitBlocksKept(s: nat -> int, q: int, ok: Allowed, x0: seq<int>, x: seq<int>, m: nat, t: nat, i: nat, a: Poly, b: nat)
    requires q > 0 && SplitState(s, q, ok, x0, m, t, i, a) && i < b < m && |x| == DEGREE
    requires forall j :: 0 <= j < DEGREE && !(Start(i, 2 * t) <= j < Start(i, 2 * t) + 2 * t) ==> x[j] == x0[j]
    ensures Block(q, ok, x, Start(b, 2 * t), Residue(s, m + b, a))
  {
    hide Cong, Residue, Block, Level, Start;
    StartsInOrder(i, b, 2 * t);
    BlockFrame(q, ok, x0, x, Start(i, 2 * t), 2 * t, Start(b, 2 * t), Residue(s, m + b, a));
  }

  lemma SplitStateStep(s: nat -> int, q: int, ok: Allowed, x0: seq<int>, x: seq<int>, m: nat, t: nat, i: nat, a: Poly)
    requires q > 0 && SplitState(s, q, ok, x0, m, t, i, a) && i < m && m + i >= 1
    requires PartSplit(s, q, ok, x, x0, Start(i, 2 * t), t, Start(i, 2 * t) + t, m + i, Residue(s, m + i, a))
    ensures SplitState(s, q, ok, x, m, t, i + 1, a)
  {
    hide Cong, Residue, Block, PartSplit, Red, Level, Start;
    SplitDone(s, q, ok, x, x0, Start(i, 2 * t), t, m + i, Residue(s, m + i, a));
    ChildResidues(s, m, i, a);
    Starts(i, t);
    forall b: nat | b < 2 * (i + 1) ensures Block(q, ok, x, Start(b, t), Residue(s, 2 * m + b, a)) {
      if b < 2 * i {
        SplitBlocksKept(s, q, ok, x0, x, m, t, i, a, b);
      } else {
        assert b == 2 * i || b == 2 * i + 1;
      }
    }
    forall b: nat | i + 1 <= b < m ensures Block(q, ok, x, Start(b, 2 * t), Residue(s, m + b, a)) {
      UnsplitBlocksKept(s, q, ok, x0, x, m, t, i, a, b);
    }
  }

  lemma StartOfFirst(w: nat)
    ensures Start(0, w) == 0
  {
  }

  /** x is, node by node of level (m, n), the residues of c, within what ok allows. */
  ghost predicate Transformed(s: nat -> int, q: int, ok: Allowed, m: nat, n: nat, c: Poly, x: seq<int>)
    requires q > 0 && Level(m, n)
  {
    |x| == |c| == DEGREE && forall b: nat :: b < m ==> Block(q, ok, x, Start(b, n), Residue(s, m + b, c))
  }

  /** A finished layer is the start of the next. */
  lemma NextSplit(s: nat -> int, q: int, ok: Allowed, x: seq<int>, m: nat, t: nat, a: Poly)
    requires q > 0 && SplitState(s, q, ok, x, m, t, m, a)
    ensures Level(2 * m, t) && Transformed(s, q, ok, 2 * m, t, a, x)
    ensures t % 2 == 0 ==> SplitState(s, q, ok, x, 2 * m, t / 2, 0, a)
  {
    hide Cong, Residue, Block;
    LevelBelow(m, 2 * t);
  }

  lemma FirstSplit(s: nat -> int, q: int, ok: Allowed, x: seq<int>, a: Poly)
    requires q > 0 && |x| == |a| == DEGREE && SeqCong(x, a, q) && forall j :: 0 <= j < DEGREE ==> ok(256, j, x[j])
    ensures SplitState(s, q, ok, x, 1, 128, 0, a)
  {
    hide Cong;
    assert Residue(s, 1, a) == a;
    assert Start(0, 2 * 128) == 0;
  }

  /** Every position of a transformed array is within bounds. */
  lemma TransformedAllowed(s: nat -> int, q: int, ok: Allowed, m: nat, n: nat, c: Poly, x: seq<int>, i: nat, j: nat)
    requires q > 0 && Level(m, n) && Transformed(s, q, ok, m, n, c, x) && i < m && j < n
    ensures Start(i, n) + j < DEGREE && ok(n, j, x[Start(i, n) + j])
  {
    hide Cong, Residue;
    BlockInRange(m, n, i);
    ResidueWidth(s, m, n, i, c);
    assert Block(q, ok, x, Start(i, n), Residue(s, m + i, c));
  }

  lemma TransformedShape(s: nat -> int, q: int, ok: Allowed, m: nat, n: nat, c: Poly, x: seq<int>)
    requires q > 0 && Level(m, n) && Transformed(s, q, ok, m, n, c, x)
    ensures |x| == |c| == DEGREE
  {
  }

  lemma TransformedIs(s: nat -> int, q: int, ok: Allowed, m: nat, n: nat, c: Poly, x: seq<int>)
    requires q > 0 && Level(m, n) && Transformed(s, q, ok, m, n, c, x)
    ensures IsTransform(s, m, n, c, x, q)
  {
    hide Cong, Residue, BlockIs;
  }

  // ----- merging two blocks -----

  /** x is x0 with elements [o, j) and [o + t, j + t) replaced by those of the merged block 2f * p. */
  ghost predicate PartMerge(q: int, ok: Allowed, x: seq<int>, x0: seq<int>, o: nat, t: nat, j: nat, f: int, p: Poly)
    requires q > 0
  {
    && |x| == |x0| == DEGREE && o <= j <= o + t && o + 2 * t <= DEGREE && |p| == 2 * t
    && (forall i :: o <= i < j || o + t <= i < j + t ==>
          Cong(x[i], (2 * f) * p[i - o], q) && ok(2 * t, i - o, x[i]))
    && (forall i :: 0 <= i < DEGREE && !(o <= i < j) && !(o + t <= i < j + t) ==> x[i] == x0[i])
  }

  /** x0 holds, at o and o + t, f times the two child residues of the node-k residue p. */
  ghost predicate Children(s: nat -> int, q: int, ok: Allowed, x0: seq<int>, o: nat, t: nat, k: nat, f: int, p: Poly)
    requires q > 0
  {
    && |p| == 2 * t && |x0| == DEGREE && Block(q, ok, x0, o, Scale(f, Red(s(k), p)))
    && Block(q, ok, x0, o + t, Scale(f, Red(-s(k), p)))
  }

  lemma MergeNothing(s: nat -> int, q: int, ok: Allowed, x: seq<int>, o: nat, t: nat, k: nat, f: int, p: Poly)
    requires q > 0 && o + 2 * t <= DEGREE && Children(s, q, ok, x, o, t, k, f, p)
    ensures PartMerge(q, ok, x, x, o, t, o, f, p)
  {
  }

  lemma MergeOperands(s: nat -> int, q: int, ok: Allowed, x: seq<int>, x0: seq<int>, o: nat, t: nat, j: nat,
                      k: nat, f: int, p: Poly)
    requires q > 0 && PartMerge(q, ok, x, x0, o, t, j, f, p) && Children(s, q, ok, x0, o, t, k, f, p) && j < o + t
    ensures o <= j && o + 2 * t <= DEGREE == |x| && |p| == 2 * t
    ensures ok(t, j - o, x[j]) && ok(t, j - o, x[j + t])
    ensures Cong(x[j], f * (p[j - o] + s(k) * p[j - o + t]), q)
    ensures Cong(x[j + t], f * (p[j - o] + (-s(k)) * p[j - o + t]), q)
  {
    hide Cong;
    var r := j - o;
    assert |Red(s(k), p)| == t && |Red(-s(k), p)| == t;
    assert x[j] == x0[j] == x0[o + r];
    assert x[j + t] == x0[j + t] == x0[o + t + r];
    assert Scale(f, Red(s(k), p))[r] == f * (p[r] + s(k) * p[r + t]);
    assert Scale(f, Red(-s(k), p))[r] == f * (p[r] + (-s(k)) * p[r + t]);
  }

  lemma MergeStep(q: int, ok: Allowed, x: seq<int>, x0: seq<int>, o: nat, t: nat, j: nat, f: int, p: Poly, a: int, b: int)
    requires q > 0 && PartMerge(q, ok, x, x0, o, t, j, f, p) && j < o + t
    requires ok(2 * t, j - o, a) && ok(2 * t, j - o + t, b)
    requires Cong(a, (2 * f) * p[j - o], q) && Cong(b, (2 * f) * p[j - o + t], q)
    ensures PartMerge(q, ok, x[j := a][j + t := b], x0, o, t, j + 1, f, p)
  {
    hide Cong;
    assert j + t - o == j - o + t;
  }

  lemma MergeDone(q: int, ok: Allowed, x: seq<int>, x0: seq<int>, o: nat, t: nat, f: int, p: Poly)
    requires q > 0 && PartMerge(q, ok, x, x0, o, t, o + t, f, p)
    ensures |x| == |x0| == DEGREE && o + 2 * t <= DEGREE && |p| == 2 * t
    ensures Block(q, ok, x, o, Scale(2 * f, p))
    ensures forall j :: 0 <= j < DEGREE && !(o <= j < o + 2 * t) ==> x[j] == x0[j]
  {
    hide Cong;
  }

  // ----- merging one layer -----

  /** In the layer merging 2m blocks of width t: the first i merged blocks are there. */
  ghost predicate MergeState(s: nat -> int, q: int, ok: Allowed, x: seq<int>, m: nat, t: nat, i: nat, c: Poly, f: int)
    requires q > 0
  {
    && |x| == |c| == DEGREE && Level(m, 2 * t) && Level(2 * m, t) && i <= m
    && (forall b: nat :: b < i ==> Block(q, ok, x, Start(b, 2 * t), Scale(2 * f, Residue(s, m + b, c))))
    && (forall b: nat :: 2 * i <= b < 2 * m ==> Block(q, ok, x, Start(b, t), Scale(f, Residue(s, 2 * m + b, c))))
  }

  lemma MergeChildren(s: nat -> int, q: int, ok: Allowed, x: seq<int>, m: nat, t: nat, i: nat, c: Poly, f: int)
    requires q > 0 && MergeState(s, q, ok, x, m, t, i, c, f) && i < m
    ensures 1 <= m + i < 256 && Start(i, 2 * t) + 2 * t <= DEGREE && Level(m, 2 * t) && Level(2 * m, t)
    ensures Children(s, q, ok, x, Start(i, 2 * t), t, m + i, f, Residue(s, m + i, c))
  {
    hide Cong, Residue, Block, Start, Red, Scale;
    BlockInRange(m, 2 * t, i);
    ResidueWidth(s, m, 2 * t, i, c);
    ChildResidues(s, m, i, c);
    Starts(i, t);
    assert m <= 128;
    assert Block(q, ok, x, Start(2 * i, t), Scale(f, Residue(s, 2 * m + 2 * i, c)));
    assert Block(q, ok, x, Start(2 * i + 1, t), Scale(f, Residue(s, 2 * m + (2 * i + 1), c)));
  }

  lemma MergedKept(s: nat -> int, q: int, ok: Allowed, x0: seq<int>, x: seq<int>, m: nat, t: nat, i: nat, c: Poly, f: int, b: nat)
    requires q > 0 && MergeState(s, q, ok, x0, m, t, i, c, f) && i < m && b < i && |x| == DEGREE
    requires forall j :: 0 <= j < DEGREE && !(Start(i, 2 * t) <= j < Start(i, 2 * t) + 2 * t) ==> x[j] == x0[j]
    ensures Block(q, ok, x, Start(b, 2 * t), Scale(2 * f, Residue(s, m + b, c)))
  {
    hide Cong, Residue, Block, Start, Level, Scale;
    ResidueWidth(s, m, 2 * t, b, c);
    StartsInOrder(b, i, 2 * t);
    BlockFrame(q, ok, x0, x, Start(i, 2 * t), 2 * t, Start(b, 2 * t), Scale(2 * f, Residue(s, m + b, c)));
  }

  lemma UnmergedKept(s: nat -> int, q: int, ok: Allowed, x0: seq<int>, x: seq<int>, m: nat, t: nat, i: nat,
                     c: Poly, f: int, b: nat)
    requires q > 0 && MergeState(s, q, ok, x0, m, t, i, c, f) && i < m && 2 * (i + 1) <= b < 2 * m && |x| == DEGREE
    requires forall j :: 0 <= j < DEGREE && !(Start(i, 2 * t) <= j < Start(i, 2 * t) + 2 * t) ==> x[j] == x0[j]
    ensures Block(q, ok, x, Start(b, t), Scale(f, Residue(s, 2 * m + b, c)))
  {
    hide Cong, Residue, Block, Start, Level, Scale;
    Starts(i, t);
    StartsInOrder(2 * i + 1, b, t);
    BlockFrame(q, ok, x0, x, Start(i, 2 * t), 2 * t, Start(b, t), Scale(f, Residue(s, 2 * m + b, c)));
  }

  lemma MergeStateStep(s: nat -> int, q: int, ok: Allowed, x0: seq<int>, x: seq<int>, m: nat, t: nat, i: nat, c: Poly, f: int)
    requires q > 0 && MergeState(s, q, ok, x0, m, t, i, c, f) && i < m
    requires PartMerge(q, ok, x, x0, Start(i, 2 * t), t, Start(i, 2 * t) + t, f, Residue(s, m + i, c))
    ensures MergeState(s, q, ok, x, m, t, i + 1, c, f)
  {
    hide Cong, Residue, Block, Start, Level, PartMerge, Scale;
    MergeDone(q, ok, x, x0, Start(i, 2 * t), t, f, Residue(s, m + i, c));
    forall b: nat | b < i + 1 ensures Block(q, ok, x, Start(b, 2 * t), Scale(2 * f, Residue(s, m + b, c))) {
      if b < i {
        MergedKept(s, q, ok, x0, x, m, t, i, c, f, b);
      }
    }
    forall b: nat | 2 * (i + 1) <= b < 2 * m ensures Block(q, ok, x, Start(b, t), Scale(f, Residue(s, 2 * m + b, c))) {
      UnmergedKept(s, q, ok, x0, x, m, t, i, c, f, b);
    }
  }

  lemma NextMerge(s: nat -> int, q: int, ok: Allowed, x: seq<int>, m: nat, t: nat, c: Poly, f: int)
    requires q > 0 && MergeState(s, q, ok, x, m, t, m, c, f)
    ensures m > 1 ==> MergeState(s, q, ok, x, m / 2, 2 * t, 0, c, 2 * f)
    ensures m == 1 ==> Block(q, ok, x, 0, Scale(2 * f, c))
  {
    hide Cong, Block, Scale;
    if m == 1 {
      ResidueAtRoot(s, c);
      assert Block(q, ok, x, Start(0, 2 * t), Scale(2 * f, Residue(s, 1 + 0, c)));
    } else {
      LevelAbove(m, 2 * t);
    }
  }

  /** A transformed array is ready to be merged. */
  lemma FirstMerge(s: nat -> int, q: int, ok: Allowed, x: seq<int>, m: nat, t: nat, c: Poly)
    requires q > 0 && Level(2 * m, t) && Level(m, 2 * t) && Transformed(s, q, ok, 2 * m, t, c, x)
    ensures MergeState(s, q, ok, x, m, t, 0, c, 1)
  {
    hide Cong, Residue, Block, Scale, Level;
    forall b: nat | b < 2 * m ensures Block(q, ok, x, Start(b, t), Scale(1, Residue(s, 2 * m + b, c))) {
      ScaleOne(Residue(s, 2 * m + b, c));
    }
  }

  lemma ScaleOne(p: Poly)
    ensures Scale(1, p) == p
  {
  }
}
