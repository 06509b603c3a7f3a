/**
 Integer polynomials, little-endian coefficient sequences, multiplied modulo x^n - z.
 The lattice schemes use n = 256, z = -1; every node of their transform trees is such a ring with a
 smaller n and another z.
 */
module QuotientRing {
  import opened Congruence

  type Poly = seq<int>

  function Zero(n: nat): (p: Poly)
    ensures |p| == n
  {
    seq(n, _ => 0)
  }

  function Add(p: Poly, r: Poly): (s: Poly)
    requires |p| == |r|
    ensures |s| == |p|
  {
    seq(|p|, i requires 0 <= i < |p| => p[i] + r[i])
  }

  function Sub(p: Poly, r: Poly): (s: Poly)
    requires |p| == |r|
    ensures |s| == |p|
  {
    seq(|p|, i requires 0 <= i < |p| => p[i] - r[i])
  }

  function Scale(c: int, p: Poly): (s: Poly)
    ensures |s| == |p|
  {
    seq(|p|, i requires 0 <= i < |p| => c * p[i])
  }

  /** x * p modulo x^n - z. */
  function MulX(z: int, p: Poly): (s: Poly)
    requires |p| > 0
    ensures |s| == |p|
  {
    seq(|p|, i requires 0 <= i < |p| => if i == 0 then z * p[|p| - 1] else p[i - 1])
  }

  /** a * b modulo x^n - z, where n = |b|, by Horner's rule on a. */
  function MulMod(z: int, a: Poly, b: Poly): (s: Poly)
    requires |b| > 0
    ensures |s| == |b|
  {
    if a == [] then Zero(|b|) else Add(Scale(a[0], b), MulX(z, MulMod(z, a[1..], b)))
  }

  /** p modulo x^t - s, for p of length 2t. */
  function Red(s: int, p: Poly): (r: Poly)
    ensures |r| == |p| / 2
  {
    seq(|p| / 2, j requires 0 <= j < |p| / 2 => p[j] + s * p[j + |p| / 2])
  }

  // ----- the schoolbook formula -----

  /** Coefficient j of b in the bi-infinite extension b[j - n] = z * b[j] used by reduction. */
  function Wrapped(z: int, b: Poly, j: int): (v: int)
    requires -|b| <= j < |b|
  {
    if j >= 0 then b[j] else z * b[j + |b|]
  }

  /** Sum of a[i] * b[k - i] for i in [from, |a|), with wrapped indices. */
  function Convolution(z: int, a: Poly, b: Poly, k: nat, from: nat): (v: int)
    requires |a| <= |b| && k < |b| && from <= |a|
    decreases |a| - from
  {
    if from == |a| then 0 else a[from] * Wrapped(z, b, k - from) + Convolution(z, a, b, k, from + 1)
  }

  /** The Horner product has the schoolbook coefficients. */
  lemma MulModIsConvolution(z: int, a: Poly, b: Poly, k: nat)
    requires |a| <= |b| && k < |b|
    ensures MulMod(z, a, b)[k] == Convolution(z, a, b, k, 0)
  {
    HornerSuffix(z, a, b, k, 0);
    assert a[0..] == a;
  }

  lemma MulModEmpty(z: int, b: Poly)
    requires |b| > 0
    ensures MulMod(z, [], b) == Zero(|b|)
  {
  }

  lemma HornerStep(z: int, a: Poly, b: Poly, k: nat)
    requires |b| > 0 && a != [] && k < |b|
    ensures MulMod(z, a, b)[k]
         == a[0] * b[k] + if k == 0 then z * MulMod(z, a[1..], b)[|b| - 1] else MulMod(z, a[1..], b)[k - 1]
  {
  }

  lemma {:induction false} HornerSuffix(z: int, a: Poly, b: Poly, k: nat, from: nat)
    requires |a| <= |b| && k < |b| && from <= |a|
    ensures from <= k ==> MulMod(z, a[from..], b)[k - from] == Convolution(z, a, b, k, from)
    ensures from > k ==> z * MulMod(z, a[from..], b)[|b| + k - from] == Convolution(z, a, b, k, from)
    decreases |a| - from
  {
    hide MulMod;
    if from == |a| {
      MulModEmpty(z, b);
      assert a[from..] == [];
    } else {
      var rest := MulMod(z, a[from + 1..], b);
      assert a[from..][1..] == a[from + 1..];
      HornerSuffix(z, a, b, k, from + 1);
      if from > k {
        var j := |b| + k - from;
        HornerStep(z, a[from..], b, j);
        assert z * (a[from] * b[j] + rest[j - 1]) == a[from] * (z * b[j]) + z * rest[j - 1];
      } else {
        HornerStep(z, a[from..], b, k - from);
      }
    }
  }

  // ----- linearity -----

  lemma MulXAdd(z: int, p: Poly, r: Poly)
    requires |p| == |r| > 0
    ensures MulX(z, Add(p, r)) == Add(MulX(z, p), MulX(z, r))
  {
  }

  lemma MulXScale(z: int, c: int, p: Poly)
    requires |p| > 0
    ensures MulX(z, Scale(c, p)) == Scale(c, MulX(z, p))
  {
    var n := |p|;
    assert z * (c * p[n - 1]) == c * (z * p[n - 1]);
  }

  lemma {:induction false} MulModAddLeft(z: int, a: Poly, a': Poly, b: Poly)
    requires |b| > 0 && |a| == |a'|
    ensures MulMod(z, Add(a, a'), b) == Add(MulMod(z, a, b), MulMod(z, a', b))
  {
    if a != [] {
      var m, m' := MulMod(z, a[1..], b), MulMod(z, a'[1..], b);
      assert Add(a, a')[0] == a[0] + a'[0];
      assert Add(a, a')[1..] == Add(a[1..], a'[1..]);
      MulModAddLeft(z, a[1..], a'[1..], b);
      MulXAdd(z, m, m');
      ScaleAddDistributes(a[0], a'[0], b);
      AddSwap(Scale(a[0], b), Scale(a'[0], b), MulX(z, m), MulX(z, m'));
    } else {
      assert Add(a, a') == [];
      assert Add(Zero(|b|), Zero(|b|)) == Zero(|b|);
    }
  }

  lemma AddSwap(p: Poly, r: Poly, s: Poly, t: Poly)
    requires |p| == |r| == |s| == |t|
    ensures Add(Add(p, r), Add(s, t)) == Add(Add(p, s), Add(r, t))
  {
  }

  lemma ScaleAddDistributes(c: int, d: int, b: Poly)
    ensures Scale(c + d, b) == Add(Scale(c, b), Scale(d, b))
  {
    forall i | 0 <= i < |b| ensures (c + d) * b[i] == c * b[i] + d * b[i] {
    }
  }

  lemma ScaleOut(c: int, d: int, e: int, b: Poly, m: Poly)
    requires |b| == |m| && d == c * e
    ensures Add(Scale(d, b), Scale(c, m)) == Scale(c, Add(Scale(e, b), m))
  {
    forall i | 0 <= i < |b| ensures d * b[i] + c * m[i] == c * (e * b[i] + m[i]) {
    }
  }

  lemma ScaleZero(c: int, n: nat)
    ensures Scale(c, Zero(n)) == Zero(n)
  {
  }

  lemma ScaleScale(c: int, d: int, b: Poly)
    ensures Scale(c, Scale(d, b)) == Scale(c * d, b)
  {
    forall i | 0 <= i < |b| ensures c * (d * b[i]) == (c * d) * b[i] {
    }
  }

  lemma ScaleOfSum(c: int, b: Poly, b': Poly)
    requires |b| == |b'|
    ensures Scale(c, Add(b, b')) == Add(Scale(c, b), Scale(c, b'))
  {
    forall i | 0 <= i < |b| ensures c * (b[i] + b'[i]) == c * b[i] + c * b'[i] {
    }
  }

  lemma {:induction false} MulModScaleLeft(z: int, c: int, a: Poly, b: Poly)
    requires |b| > 0
    ensures MulMod(z, Scale(c, a), b) == Scale(c, MulMod(z, a, b))
  {
    if a == [] {
      ScaleZero(c, |b|);
    } else {
      var m := MulMod(z, a[1..], b);
      assert Scale(c, a)[1..] == Scale(c, a[1..]);
      calc {
        MulMod(z, Scale(c, a), b);
        Add(Scale(c * a[0], b), MulX(z, MulMod(z, Scale(c, a[1..]), b)));
        { MulModScaleLeft(z, c, a[1..], b); MulXScale(z, c, m); }
        Add(Scale(c * a[0], b), Scale(c, MulX(z, m)));
        { ScaleOut(c, c * a[0], a[0], b, MulX(z, m)); }
        Scale(c, MulMod(z, a, b));
      }
    }
  }

  lemma {:induction false} MulModAddRight(z: int, a: Poly, b: Poly, b': Poly)
    requires |b| == |b'| > 0
    ensures MulMod(z, a, Add(b, b')) == Add(MulMod(z, a, b), MulMod(z, a, b'))
  {
    hide Scale, MulX, Add;
    if a == [] {
      AddZeros(|b|);
    } else {
      var m, m' := MulMod(z, a[1..], b), MulMod(z, a[1..], b');
      MulModAddRight(z, a[1..], b, b');
      MulXAdd(z, m, m');
      ScaleOfSum(a[0], b, b');
      AddSwap(Scale(a[0], b), Scale(a[0], b'), MulX(z, m), MulX(z, m'));
    }
  }

  lemma AddZeros(n: nat)
    ensures Add(Zero(n), Zero(n)) == Zero(n)
  {
  }

  lemma {:induction false} MulModScaleRight(z: int, c: int, a: Poly, b: Poly)
    requires |b| > 0
    ensures MulMod(z, a, Scale(c, b)) == Scale(c, MulMod(z, a, b))
  {
    hide Scale, MulX, Add;
    if a == [] {
      ScaleZero(c, |b|);
    } else {
      var m := MulMod(z, a[1..], b);
      MulModScaleRight(z, c, a[1..], b);
      MulXScale(z, c, m);
      ScaleScale(a[0], c, b);
      ScaleOut(c, a[0] * c, a[0], b, MulX(z, m));
    }
  }

  // ----- reduction modulo a factor is a ring homomorphism -----

  lemma RedMulX(s: int, p: Poly)
    requires |p| > 0 && |p| % 2 == 0
    ensures Red(s, MulX(s * s, p)) == MulX(s, Red(s, p))
  {
    var n, t := |p|, |p| / 2;
    assert s * s * p[n - 1] + s * p[t - 1] == s * (p[t - 1] + s * p[n - 1]);
  }

  lemma RedAdd(s: int, p: Poly, r: Poly)
    requires |p| == |r| && |p| % 2 == 0
    ensures Red(s, Add(p, r)) == Add(Red(s, p), Red(s, r))
  {
    var t := |p| / 2;
    forall j | t <= j < |p| ensures s * (p[j] + r[j]) == s * p[j] + s * r[j] {
    }
  }

  lemma RedScale(s: int, c: int, p: Poly)
    requires |p| % 2 == 0
    ensures Red(s, Scale(c, p)) == Scale(c, Red(s, p))
  {
    var t := |p| / 2;
    forall j | 0 <= j < t ensures c * p[j] + s * (c * p[j + t]) == c * (p[j] + s * p[j + t]) {
    }
  }

  lemma {:induction false} RedMulModRight(s: int, a: Poly, b: Poly)
    requires |b| > 0 && |b| % 2 == 0
    ensures Red(s, MulMod(s * s, a, b)) == MulMod(s, a, Red(s, b))
  {
    if a == [] {
      assert Red(s, Zero(|b|)) == Zero(|b| / 2);
    } else {
      var rest := MulMod(s * s, a[1..], b);
      RedMulModRight(s, a[1..], b);
      RedAdd(s, Scale(a[0], b), MulX(s * s, rest));
      RedScale(s, a[0], b);
      RedMulX(s, rest);
    }
  }

  /** k multiplications by x. */
  function Shift(z: int, k: nat, p: Poly): (s: Poly)
    requires |p| > 0
    ensures |s| == |p|
  {
    if k == 0 then p else MulX(z, Shift(z, k - 1, p))
  }

  lemma {:induction false} ShiftAt(z: int, k: nat, p: Poly)
    requires |p| > 0 && k <= |p|
    ensures forall i :: 0 <= i < |p| ==>
      Shift(z, k, p)[i] == if i < k then z * p[|p| - k + i] else p[i - k]
  {
    if k > 0 {
      ShiftAt(z, k - 1, p);
    }
  }

  lemma FullShift(z: int, p: Poly)
    requires |p| > 0
    ensures Shift(z, |p|, p) == Scale(z, p)
  {
    ShiftAt(z, |p|, p);
  }

  lemma {:induction false} MulModConcat(z: int, lo: Poly, hi: Poly, b: Poly)
    requires |b| > 0
    ensures MulMod(z, lo + hi, b) == Add(MulMod(z, lo, b), Shift(z, |lo|, MulMod(z, hi, b)))
  {
    var h := MulMod(z, hi, b);
    if lo == [] {
      assert lo + hi == hi;
      assert Add(Zero(|b|), h) == h;
    } else {
      assert (lo + hi)[1..] == lo[1..] + hi;
      MulModConcat(z, lo[1..], hi, b);
      MulXAdd(z, MulMod(z, lo[1..], b), Shift(z, |lo| - 1, h));
      var m, s := MulX(z, MulMod(z, lo[1..], b)), Shift(z, |lo|, h);
      assert Add(Scale(lo[0], b), Add(m, s)) == Add(Add(Scale(lo[0], b), m), s);
    }
  }

  lemma MulModFoldHalves(s: int, a: Poly, c: Poly)
    requires |c| > 0 && |a| == 2 * |c|
    ensures MulMod(s, a, c) == MulMod(s, Add(a[..|c|], Scale(s, a[|c|..])), c)
  {
    var lo, hi := a[..|c|], a[|c|..];
    var h := MulMod(s, hi, c);
    hide MulMod, Scale, Add;
    assert a == lo + hi;
    MulModConcat(s, lo, hi, c);
    FullShift(s, h);
    MulModScaleLeft(s, s, hi, c);
    MulModAddLeft(s, lo, Scale(s, hi), c);
  }

  lemma RedHalves(s: int, a: Poly)
    requires |a| % 2 == 0
    ensures Red(s, a) == Add(a[..|a| / 2], Scale(s, a[|a| / 2..]))
  {
  }

  /** Reducing the left factor first does not change a product modulo x^t - s. */
  lemma MulModFold(s: int, a: Poly, c: Poly)
    requires |c| > 0 && |a| == 2 * |c|
    ensures MulMod(s, a, c) == MulMod(s, Red(s, a), c)
  {
    hide MulMod, Scale, Add, Red;
    RedHalves(s, a);
    MulModFoldHalves(s, a, c);
  }

  /** The quotient map Z[x]/(x^2t - s^2) -> Z[x]/(x^t - s) preserves products. */
  lemma RedIsHomomorphism(s: int, a: Poly, b: Poly)
    requires |a| == |b| > 0 && |b| % 2 == 0
    ensures Red(s, MulMod(s * s, a, b)) == MulMod(s, Red(s, a), Red(s, b))
  {
    hide MulMod, Red;
    RedMulModRight(s, a, b);
    MulModFold(s, a, Red(s, b));
  }

  // ----- commutativity and associativity -----

  lemma {:induction false} MulModMulXRight(z: int, a: Poly, p: Poly)
    requires |p| > 0
    ensures MulMod(z, a, MulX(z, p)) == MulX(z, MulMod(z, a, p))
  {
    hide Add, Scale, MulX;
    if a == [] {
      MulXZero(z, |p|);
    } else {
      var m := MulMod(z, a[1..], p);
      MulModMulXRight(z, a[1..], p);
      MulXScale(z, a[0], p);
      MulXAdd(z, Scale(a[0], p), MulX(z, m));
    }
  }

  lemma MulXZero(z: int, n: nat)
    requires n > 0
    ensures MulX(z, Zero(n)) == Zero(n)
  {
  }

  /** d (a b) = a (d b). */
  lemma {:induction false} MulModExchange(z: int, d: Poly, a: Poly, b: Poly)
    requires |b| > 0
    ensures MulMod(z, d, MulMod(z, a, b)) == MulMod(z, a, MulMod(z, d, b))
  {
    hide Add, Scale, MulX;
    if a == [] {
      MulModZeroRight(z, d, |b|);
    } else {
      var m := MulMod(z, a[1..], b);
      MulModExchange(z, d, a[1..], b);
      MulModAddRight(z, d, Scale(a[0], b), MulX(z, m));
      MulModScaleRight(z, a[0], d, b);
      MulModMulXRight(z, d, m);
    }
  }

  lemma {:induction false} MulModZeroRight(z: int, a: Poly, n: nat)
    requires n > 0
    ensures MulMod(z, a, Zero(n)) == Zero(n)
  {
    hide Add, Scale, MulX, Zero;
    if a != [] {
      MulModZeroRight(z, a[1..], n);
      MulXZero(z, n);
      ScaleZero(a[0], n);
      AddZeros(n);
    }
  }

  /** The polynomial of length n with leading coefficients l. */
  function Padded(l: Poly, n: nat): (p: Poly)
    requires |l| <= n
    ensures |p| == n
  {
    l + Zero(n - |l|)
  }

  lemma PaddedStep(z: int, l: Poly, n: nat)
    requires 0 < |l| <= n
    ensures Padded(l, n) == Add(Scale(l[0], Padded([1], n)), MulX(z, Padded(l[1..], n)))
  {
  }

  lemma {:induction false} MulModOne(z: int, l: Poly, n: nat)
    requires |l| <= n && n > 0
    ensures MulMod(z, l, Padded([1], n)) == Padded(l, n)
  {
    hide Add, Scale, MulX, Padded;
    if l == [] {
      PaddedEmpty(n);
    } else {
      MulModOne(z, l[1..], n);
      PaddedStep(z, l, n);
    }
  }

  lemma PaddedEmpty(n: nat)
    ensures Padded([], n) == Zero(n)
  {
  }

  lemma PaddedFull(l: Poly)
    ensures Padded(l, |l|) == l
  {
  }

  lemma {:induction false} MulModPadded(z: int, a: Poly, l: Poly)
    requires |l| <= |a| && |a| > 0
    ensures MulMod(z, a, Padded(l, |a|)) == MulMod(z, l, a)
  {
    hide Add, Scale, MulX, Padded;
    var n := |a|;
    if l == [] {
      PaddedEmpty(n);
      MulModZeroRight(z, a, n);
    } else {
      var one, p := Padded([1], n), Padded(l[1..], n);
      PaddedStep(z, l, n);
      MulModAddRight(z, a, Scale(l[0], one), MulX(z, p));
      MulModScaleRight(z, l[0], a, one);
      MulModOne(z, a, n);
      PaddedFull(a);
      MulModMulXRight(z, a, p);
      MulModPadded(z, a, l[1..]);
    }
  }

  lemma MulModCommutes(z: int, a: Poly, b: Poly)
    requires |a| == |b| > 0
    ensures MulMod(z, a, b) == MulMod(z, b, a)
  {
    hide MulMod, Padded;
    MulModPadded(z, a, b);
    PaddedFull(b);
  }

  /** (a b) d = (a d) b. */
  lemma MulModSwap(z: int, a: Poly, b: Poly, d: Poly)
    requires |a| == |b| == |d| > 0
    ensures MulMod(z, MulMod(z, a, b), d) == MulMod(z, MulMod(z, a, d), b)
  {
    hide MulMod;
    MulModCommutes(z, MulMod(z, a, b), d);
    MulModExchange(z, d, a, b);
    MulModCommutes(z, d, b);
    MulModExchange(z, b, a, d);
    MulModCommutes(z, b, MulMod(z, a, d));
  }

  // ----- congruence -----

  lemma MulXCong(z: int, z': int, p: Poly, p': Poly, q: int)
    requires q > 0 && |p| > 0 && Cong(z, z', q) && SeqCong(p, p', q)
    ensures SeqCong(MulX(z, p), MulX(z', p'), q)
  {
    CongMul(z, z', p[|p| - 1], p'[|p| - 1], q);
  }

  lemma AddCong(p: Poly, p': Poly, r: Poly, r': Poly, q: int)
    requires q > 0 && |p| == |r| && SeqCong(p, p', q) && SeqCong(r, r', q)
    ensures SeqCong(Add(p, r), Add(p', r'), q)
  {
    forall i | 0 <= i < |p| ensures Cong(p[i] + r[i], p'[i] + r'[i], q) {
      CongAdd(p[i], p'[i], r[i], r'[i], q);
    }
  }

  lemma SubCong(p: Poly, p': Poly, r: Poly, r': Poly, q: int)
    requires q > 0 && |p| == |r| && SeqCong(p, p', q) && SeqCong(r, r', q)
    ensures SeqCong(Sub(p, r), Sub(p', r'), q)
  {
    forall i | 0 <= i < |p| ensures Cong(p[i] - r[i], p'[i] - r'[i], q) {
      CongSub(p[i], p'[i], r[i], r'[i], q);
    }
  }

  lemma ScaleCong(c: int, c': int, p: Poly, p': Poly, q: int)
    requires q > 0 && Cong(c, c', q) && SeqCong(p, p', q)
    ensures SeqCong(Scale(c, p), Scale(c', p'), q)
  {
    forall i | 0 <= i < |p| ensures Cong(c * p[i], c' * p'[i], q) {
      CongMul(c, c', p[i], p'[i], q);
    }
  }

  lemma {:induction false} MulModCong(z: int, z': int, a: Poly, a': Poly, b: Poly, b': Poly, q: int)
    requires q > 0 && |b| > 0 && Cong(z, z', q) && SeqCong(a, a', q) && SeqCong(b, b', q)
    ensures SeqCong(MulMod(z, a, b), MulMod(z', a', b'), q)
  {
    if a == [] {
      SeqCongRefl(Zero(|b|), q);
    } else {
      MulModCong(z, z', a[1..], a'[1..], b, b', q);
      MulXCong(z, z', MulMod(z, a[1..], b), MulMod(z', a'[1..], b'), q);
      ScaleCong(a[0], a'[0], b, b', q);
      AddCong(Scale(a[0], b), Scale(a'[0], b'),
              MulX(z, MulMod(z, a[1..], b)), MulX(z', MulMod(z', a'[1..], b')), q);
    }
  }

  lemma RedCong(s: int, s': int, p: Poly, p': Poly, q: int)
    requires q > 0 && |p| % 2 == 0 && Cong(s, s', q) && SeqCong(p, p', q)
    ensures SeqCong(Red(s, p), Red(s', p'), q)
  {
    var t := |p| / 2;
    forall j | 0 <= j < t ensures Cong(p[j] + s * p[j + t], p'[j] + s' * p'[j + t], q) {
      CongMul(s, s', p[j + t], p'[j + t], q);
      CongAdd(p[j], p'[j], s * p[j + t], s' * p'[j + t], q);
    }
  }

  // ----- size -----

  function Abs(x: int): (a: nat) { if x < 0 then -x else x }

  /** Sum of the absolute values of the coefficients. */
  function OneNorm(a: Poly): (v: nat) { if a == [] then 0 else Abs(a[0]) + OneNorm(a[1..]) }

  predicate Bounded(p: Poly, m: int) { forall i :: 0 <= i < |p| ==> -m <= p[i] <= m }

  /** |a * b| <= |a|_1 * |b|_inf coefficient by coefficient, when |z| <= 1. */
  lemma {:induction false} ProductBound(z: int, a: Poly, b: Poly, m: nat)
    requires |b| > 0 && -1 <= z <= 1 && Bounded(b, m)
    ensures Bounded(MulMod(z, a, b), OneNorm(a) * m)
  {
    if a != [] {
      ProductBound(z, a[1..], b, m);
      var rest := MulMod(z, a[1..], b);
      var r := MulX(z, rest);
      var c := OneNorm(a[1..]) * m;
      assert -c <= z * rest[|b| - 1] <= c;
      assert Bounded(r, c);
      forall i | 0 <= i < |b| ensures -(Abs(a[0]) * m) <= a[0] * b[i] <= Abs(a[0]) * m {
        AbsProduct(a[0], b[i], m);
      }
      assert (Abs(a[0]) + OneNorm(a[1..])) * m == Abs(a[0]) * m + c;
    }
  }

  lemma AbsProduct(x: int, y: int, m: int)
    requires -m <= y <= m
    ensures -(Abs(x) * m) <= x * y <= Abs(x) * m
  {
    var a := Abs(x);
    assert a * y <= a * m;
    assert -(a * m) <= a * y;
    if x < 0 {
      assert x * y == -(a * y);
    }
  }
}
