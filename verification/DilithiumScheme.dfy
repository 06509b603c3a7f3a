/** keypair, signature and verify of dilithium.rs, proved to compute what DilithiumSpec says. */
module DilithiumScheme {
  import opened Wrappers
  import opened BitStream
  import opened Congruence
  import opened QuotientRing
  import opened TransformTree
  import opened PolyVector
  import opened DilithiumTables
  import opened DilithiumMontgomery
  import opened DilithiumNtt
  import opened DilithiumPoly
  import opened DilithiumRounding
  import opened DilithiumHints
  import opened DilithiumPacking
  import opened DilithiumSampling
  import opened RejectionSampling
  import opened DilithiumSpec
  import opened DilithiumVerdict

  predicate Small(p: seq<int>) { |p| == DEGREE && forall j :: 0 <= j < DEGREE ==> -Q <= p[j] < 2 * Q }

  /** poly_copy, poly_scopy and poly_mcopy. */
  method FromSeq(p: seq<int>) returns (a: array<I32>)
    requires |p| == DEGREE && forall j :: 0 <= j < DEGREE ==> -0x8000_0000 <= p[j] < 0x8000_0000
    ensures fresh(a) && a.Length == DEGREE && a[..] == p
  {
    a := new I32[DEGREE](i => 0);
    for i := 0 to DEGREE
      invariant forall j :: 0 <= j < i ==> a[j] == p[j]
    {
      a[i] := p[i];
    }
  }

  method NttOf(p: seq<int>) returns (a: array<I32>)
    requires Small(p)
    ensures fresh(a) && a.Length == DEGREE && InBound(a[..], 18) && Represents(a[..], p) && a[..] == NttValues(p)
  {
    hide IsTransform, NttValues;
    a := FromSeq(p);
    Ntt(a);
  }

  /** One term of a row of A v: expand the element, multiply, accumulate. */
  method AddTerm(o: Oracle, rho: seq<int>, i: nat, j: nat, w: array<I32>, r: array<I32>, ghost v: Poly,
                 ghost d: Poly, ghost bound: int)
    returns (ok: bool)
    requires IsOracle(o) && w.Length == r.Length == DEGREE && w != r && 0 <= bound <= 250
    requires InBound(w[..], 18) && Represents(w[..], v) && InBound(r[..], bound) && |d| == DEGREE && Represents(r[..], Scale(RINV, d))
    modifies w, r
    ensures ok == MatrixElement(o, rho, i, j).Some?
    ensures ok ==> InBound(r[..], bound + 2)
    ensures ok ==> |v| == DEGREE && Represents(r[..], Scale(RINV, Add(d, MulMod(-1, v, MatrixPoly(o, rho, i, j)))))
  {
    hide Cong, Represents, MulMod, Scale, Add, InverseTransform, UniformPoly;
    RepresentsShape(w[..], v);
    var a := ExpandAij(o.shake128(rho + [j % 256, i % 256], 4 * DEGREE));
    if a.None? {
      return false;
    }
    var aij := FromSeq(a.value);
    ElementRepresents(a.value);
    ghost var ws := w[..];
    PolyMul(w, aij);
    ghost var m := MulMod(-1, v, MatrixPoly(o, rho, i, j));
    ProductRepresents(ws, v, aij[..], InverseTransform(a.value), w[..]);
    ghost var rs, wm := r[..], w[..];
    PolyAdd(r, w, bound, 2);
    SumIsCong(rs, wm, r[..]);
    SumRepresents(rs, Scale(RINV, d), wm, Scale(RINV, m), r[..]);
    ScaleOfSum(RINV, d, m);
    ok := true;
  }

  lemma ElementRepresents(x: seq<int>)
    requires |x| == DEGREE
    ensures Represents(x, InverseTransform(x))
  {
    hide IsTransform, InverseTransform;
    TransformOfInverse(x);
  }

  lemma SumIsCong(x: seq<int>, y: seq<int>, z: seq<int>)
    requires |x| == |y| == DEGREE && z == Add(x, y)
    ensures forall i :: 0 <= i < DEGREE ==> Cong(z[i], x[i] + y[i], Q)
  {
    hide Cong;
    forall i | 0 <= i < DEGREE ensures Cong(z[i], x[i] + y[i], Q) {
      CongIntro(z[i], x[i] + y[i], Q, 0);
    }
  }

  method ZeroPoly() returns (r: array<I32>)
    ensures fresh(r) && r.Length == DEGREE && InBound(r[..], 1) && r[..] == Zero(DEGREE)
    ensures Represents(r[..], Scale(RINV, Zero(DEGREE)))
  {
    hide Represents;
    r := FromSeq(Zero(DEGREE));
    ZeroRepresents();
    ScaleZero(RINV, DEGREE);
  }

  /** Reduces an accumulated row and transforms it back: d modulo Q. */
  method FinishRow(r: array<I32>, ghost d: Poly)
    requires r.Length == DEGREE && InBound(r[..], 256) && |d| == DEGREE && Represents(r[..], Scale(RINV, d))
    modifies r
    ensures r[..] == ModQ(d)
  {
    hide Cong, Represents, Scale, InverseTransform, SeqCong;
    ghost var x := r[..];
    PolyHardReduce(r);
    HardReduced(x, r[..], Scale(RINV, d));
    ghost var y := r[..];
    Intt(r);
    InttValue(y, Scale(RINV, d), r[..]);
    ScalesCancel(d);
  }

  lemma HardReduced(x: seq<int>, y: seq<int>, c: Poly)
    requires Represents(x, c) && y == ModQ(x)
    ensures Represents(y, c) && InBound(y, 2)
  {
    hide Represents, SeqCong;
    RepresentsShape(x, c);
    ModQIsCong(x);
    SeqCongSym(y, x, Q);
    SeqCongRefl(c, Q);
    RepresentsCong(x, y, c, c);
  }

  // ----- keypair -----

  /** sample_sn's input for polynomial n. */
  function SecretInput(rhod: seq<int>, n: nat): (s: seq<int>) { rhod + [n % 256, (n / 256) % 256] }

  /** Polynomials from .. from + n of the secret, sampled one by one. */
  ghost predicate SecretRows(o: Oracle, params: Params, rhod: seq<int>, from: nat, n: nat, s: seq<int>)
    requires IsOracle(o) && IsParams(params)
  {
    |s| == n * DEGREE && forall i: nat :: i < n ==>
      SmallPoly(params, o.shake256(SecretInput(rhod, from + i), 272)) == Some(Row(s, i))
  }

  /** One of the polynomials cannot be sampled. */
  ghost predicate SecretStuck(o: Oracle, params: Params, rhod: seq<int>, from: nat, n: nat)
    requires IsOracle(o) && IsParams(params)
  {
    exists j: nat :: from <= j < from + n && SmallPoly(params, o.shake256(SecretInput(rhod, j), 272)).None?
  }

  /** Coefficient j of polynomial i is eta minus the j-th word at most 2 eta of the output for the polynomial's number. */
  lemma SecretExact(o: Oracle, params: Params, rhod: seq<int>, from: nat, n: nat, s: seq<int>, i: nat, j: nat)
    requires IsOracle(o) && IsParams(params) && SecretRows(o, params, rhod, from, n, s) && i < n && j < DEGREE
    ensures |s| == n * DEGREE
    ensures var b := o.shake256(rhod + [(from + i) % 256, ((from + i) / 256) % 256], 272);
      && Bytes(b, 272)
      && IsNth(Words(b, params.lg2eta1, 272 * 8 / params.lg2eta1), 2 * params.eta + 1, j, params.eta - Row(s, i)[j])
  {
    hide IsNth, Words, SmallPoly, CountBelow;
    SmallExact(params, o.shake256(SecretInput(rhod, from + i), 272));
  }

  method SampleSecret(o: Oracle, params: Params, rhod: seq<int>, from: nat, n: nat) returns (s: Option<seq<int>>)
    requires IsOracle(o) && IsParams(params)
    ensures s.Some? ==> Vector(s.value, n, 0 - params.eta, params.eta)
    ensures s.Some? ==> SecretRows(o, params, rhod, from, n, s.value)
    ensures s.None? ==> SecretStuck(o, params, rhod, from, n)
  {
    hide SmallPoly;
    var v: seq<int> := [];
    for i := 0 to n
      invariant Vector(v, i, 0 - params.eta, params.eta) && SecretRows(o, params, rhod, from, i, v)
    {
      var p := SampleSn(params, o.shake256(SecretInput(rhod, from + i), 272));
      if p.None? {
        return None;
      }
      RowsAppend(v, p.value, i);
      v := v + p.value;
    }
    s := Some(v);
  }

  /** Row i of t = A s1 + s2, by transforms. */
  method KeyRowOf(o: Oracle, params: Params, rho: seq<int>, i: nat, s1: seq<int>, s2: seq<int>) returns (t: Option<seq<int>>)
    requires IsOracle(o) && IsParams(params)
    requires Vector(s1, params.el, 0 - params.eta, params.eta) && Vector(s2, 1, 0 - params.eta, params.eta)
    ensures t.Some? <==> RowExpands(o, rho, i, params.el)
    ensures t.Some? ==> t.value == ModQ(Add(Dot(o, rho, i, s1, params.el), s2))
  {
    hide Cong, Represents, MulMod, Scale, Add, InverseTransform, IsOracle, MatrixElement, MatrixPoly, IsTransform;
    var r := ZeroPoly();
    ghost var d := Zero(DEGREE);
    for j := 0 to params.el
      invariant r.Length == DEGREE && fresh(r) && InBound(r[..], 1 + 2 * j)
      invariant d == Dot(o, rho, i, s1, j) && Represents(r[..], Scale(RINV, d))
      invariant forall k: nat :: k < j ==> MatrixElement(o, rho, i, k).Some?
    {
      var w := NttOf(Row(s1, j));
      var ok := AddTerm(o, rho, i, j, w, r, Row(s1, j), d, 1 + 2 * j);
      if !ok {
        return None;
      }
      d := Dot(o, rho, i, s1, j + 1);
    }
    FinishRow(r, d);
    var w := FromSeq(s2);
    PolyPos(w);
    AddSmall(r, w, d, s2);
    t := Some(r[..]);
  }

  /** poly_add and poly_soft_reduce of a reduced row and a small polynomial made positive. */
  method AddSmall(r: array<I32>, w: array<I32>, ghost d: Poly, ghost s: Poly)
    requires r.Length == w.Length == DEGREE && r != w && |d| == |s| == DEGREE && r[..] == ModQ(d)
    requires InBound(w[..], 1) && SeqCong(w[..], s, Q)
    modifies r
    ensures r[..] == ModQ(Add(d, s))
  {
    hide Cong, SeqCong, Add;
    ghost var ws := w[..];
    PolyAdd(r, w, 1, 1);
    PolySoftReduce(r);
    ModQIsCong(d);
    AddCong(ModQ(d), d, ws, s, Q);
    ModQCong(Add(ModQ(d), ws), Add(d, s));
  }

  /** power2round of a row. */
  function HighPart(t: seq<int>): (r: seq<int>)
    ensures |r| == |t|
  {
    seq(|t|, m requires 0 <= m < |t| => P2rHigh(t[m]))
  }

  function LowPart(t: seq<int>): (r: seq<int>)
    ensures |r| == |t|
  {
    seq(|t|, m requires 0 <= m < |t| => P2rLow(t[m]))
  }

  lemma PartsRange(p: Poly)
    requires |p| == DEGREE
    ensures Vector(HighPart(ModQ(p)), 1, 0, 1023) && Vector(LowPart(ModQ(p)), 1, -4095, 4096)
  {
    forall m | 0 <= m < |p| ensures 0 <= P2rHigh(ModQ(p)[m]) < 1024 && -4095 <= P2rLow(ModQ(p)[m]) <= 4096 {
      Power2RoundSpec(ModQ(p)[m]);
    }
  }

  /** The first n rows of t0 and t1 are the rounded rows of t. */
  ghost predicate KeyRows(o: Oracle, params: Params, rho: seq<int>, s1: seq<int>, s2: seq<int>, t0: seq<int>,
                          t1: seq<int>, n: nat)
    requires IsOracle(o)
  {
    && |s1| == params.el * DEGREE && n * DEGREE <= |s2| && |t0| == |t1| == n * DEGREE
    && forall i: nat :: i < n ==>
         && RowExpands(o, rho, i, params.el)
         && Row(t1, i) == HighPart(ModQ(Add(Dot(o, rho, i, s1, params.el), Row(s2, i))))
         && Row(t0, i) == LowPart(ModQ(Add(Dot(o, rho, i, s1, params.el), Row(s2, i))))
  }

  lemma KeyRowsStep(o: Oracle, params: Params, rho: seq<int>, s1: seq<int>, s2: seq<int>, t0: seq<int>,
                    t1: seq<int>, n: nat, t: seq<int>)
    requires IsOracle(o) && KeyRows(o, params, rho, s1, s2, t0, t1, n) && (n + 1) * DEGREE <= |s2|
    requires RowExpands(o, rho, n, params.el) && t == ModQ(Add(Dot(o, rho, n, s1, params.el), Row(s2, n)))
    ensures KeyRows(o, params, rho, s1, s2, t0 + LowPart(t), t1 + HighPart(t), n + 1)
  {
    hide IsOracle, RowExpands, Dot, Add, ModQ, LowPart, HighPart, Row;
    RowsAppend(t0, LowPart(t), n);
    RowsAppend(t1, HighPart(t), n);
  }

  lemma KeyRowsMatch(o: Oracle, params: Params, sk: SecretKey, t1: seq<int>)
    requires IsOracle(o) && SkShape(params, sk) && KeyRows(o, params, sk.rho, sk.s1, sk.s2, sk.t0, t1, params.ck)
    ensures forall i: nat :: i < params.ck ==> KeyRow(o, params, sk, t1, i)
  {
    hide IsOracle, RowExpands, Dot, Add, ModQ, P2rHigh, P2rLow;
  }

  method RoundedRows(o: Oracle, params: Params, rho: seq<int>, s1: seq<int>,
                     s2: seq<int>) returns (t: Option<(seq<int>, seq<int>)>)
    requires IsOracle(o) && IsParams(params)
    requires Vector(s1, params.el, 0 - params.eta, params.eta) && Vector(s2, params.ck, 0 - params.eta, params.eta)
    ensures t.Some? ==> Vector(t.value.0, params.ck, -4095, 4096) && Vector(t.value.1, params.ck, 0, 1023)
    ensures t.Some? ==> KeyRows(o, params, rho, s1, s2, t.value.0, t.value.1, params.ck)
    ensures t.None? ==> exists i: nat :: i < params.ck && !RowExpands(o, rho, i, params.el)
  {
    hide IsOracle, RowExpands, Dot, Add, ModQ, LowPart, HighPart;
    var t0: seq<int>, t1: seq<int> := [], [];
    for i := 0 to params.ck
      invariant Vector(t0, i, -4095, 4096) && Vector(t1, i, 0, 1023)
      invariant KeyRows(o, params, rho, s1, s2, t0, t1, i)
    {
      var r := KeyRowOf(o, params, rho, i, s1, Row(s2, i));
      if r.None? {
        return None;
      }
      PartsRange(Add(Dot(o, rho, i, s1, params.el), Row(s2, i)));
      KeyRowsStep(o, params, rho, s1, s2, t0, t1, i, r.value);
      VectorAppend(t0, LowPart(r.value), i, -4095, 4096);
      VectorAppend(t1, HighPart(r.value), i, 0, 1023);
      t0 := t0 + LowPart(r.value);
      t1 := t1 + HighPart(r.value);
    }
    t := Some((t0, t1));
  }

  /** keypair: None where a sampler runs out of bytes and the source panics. */
  method KeyPair(o: Oracle, params: Params, tau: seq<int>) returns (r: Option<(seq<int>, seq<int>)>)
    requires IsOracle(o) && IsParams(params) && Bytes(tau, 32)
    ensures r.Some? ==> Bytes(r.value.0, SkSize(params))
    ensures r.Some? ==> IsKeyPair(o, params, SkOf(params, r.value.0), r.value.1)
    ensures r.Some? ==>
      var buff, sk := o.shake256(tau, 128), SkOf(params, r.value.0);
      && sk.rho == buff[..32] && sk.bk == buff[96..]
      && SecretRows(o, params, buff[32..96], 0, params.el, sk.s1)
      && SecretRows(o, params, buff[32..96], params.el, params.ck, sk.s2)
    ensures r.None? ==>
      var buff := o.shake256(tau, 128);
      || SecretStuck(o, params, buff[32..96], 0, params.el) || SecretStuck(o, params, buff[32..96], params.el, params.ck)
      || (exists i: nat :: i < params.ck && !RowExpands(o, buff[..32], i, params.el))
  {
    hide SmallPoly, KeyRows, RowExpands, Dot, PkBytes, SkBytes, SkOf, PkT1, Recoded, SecretRows, KeyRow, SecretStuck;
    var buff := o.shake256(tau, 128);
    var rho, rhod, bk := buff[..32], buff[32..96], buff[96..];
    var s1 := SampleSecret(o, params, rhod, 0, params.el);
    if s1.None? {
      return None;
    }
    var s2 := SampleSecret(o, params, rhod, params.el, params.ck);
    if s2.None? {
      return None;
    }
    var t := RoundedRows(o, params, rho, s1.value, s2.value);
    if t.None? {
      return None;
    }
    var pk := PackPk(params, rho, t.value.1);
    var tr := o.shake256(pk, 32);
    var key := SecretKey(rho, bk, tr, s1.value, s2.value, t.value.0);
    var sk := PackSk(params, key);
    PkRoundTrip(params, rho, t.value.1);
    SkRoundTrip(params, key);
    PartsHaveShape(params, key);
    KeyRowsMatch(o, params, key, t.value.1);
    r := Some((sk, pk));
  }

  // ----- signature -----

  /** sample_y. */
  method SampleY(o: Oracle, params: Params, k: nat, rhod: seq<int>) returns (y: seq<int>)
    requires IsOracle(o) && IsParams(params)
    ensures y == Masks(o, params, rhod, k, params.el)
  {
    hide MaskPoly;
    y := [];
    for i := 0 to params.el
      invariant y == Masks(o, params, rhod, k, i)
    {
      var p := SampleYRow(params, o.shake256(MaskInput(rhod, k + i), 32 * (params.lg + 1)));
      y := y + p;
    }
  }

  /** vh holds the transforms of the n polynomials of v. */
  ghost predicate Transforms(vh: seq<seq<int>>, v: seq<int>, n: nat) {
    && |vh| == n && |v| == n * DEGREE
    && forall j: nat :: j < n ==> |vh[j]| == DEGREE && InBound(vh[j], 18) && Represents(vh[j], Row(v, j))
  }

  method TransformRows(n: nat, v: seq<int>) returns (vh: seq<seq<int>>)
    requires Vector(v, n, -Q, 2 * Q - 1)
    ensures Transforms(vh, v, n)
  {
    hide Represents;
    vh := [];
    for j := 0 to n
      invariant |vh| == j
      invariant forall k: nat :: k < j ==> |vh[k]| == DEGREE && InBound(vh[k], 18) && Represents(vh[k], Row(v, k))
    {
      var a := NttOf(Row(v, j));
      vh := vh + [a[..]];
    }
  }

  /** Row i of A v, for v given with its transforms. */
  method MatrixRow(o: Oracle, rho: seq<int>, i: nat, el: nat, ghost v: seq<int>,
                   vh: seq<seq<int>>) returns (r: array<I32>, ok: bool)
    requires IsOracle(o) && el <= 8 && Transforms(vh, v, el)
    ensures fresh(r) && r.Length == DEGREE && (ok <==> RowExpands(o, rho, i, el))
    ensures ok ==> InBound(r[..], 1 + 2 * el) && Represents(r[..], Scale(RINV, Dot(o, rho, i, v, el)))
  {
    hide Cong, Represents, MulMod, Scale, Add, InverseTransform, IsOracle, MatrixElement, MatrixPoly;
    r := ZeroPoly();
    ghost var d := Zero(DEGREE);
    for j := 0 to el
      invariant r.Length == DEGREE && fresh(r) && InBound(r[..], 1 + 2 * j)
      invariant d == Dot(o, rho, i, v, j) && Represents(r[..], Scale(RINV, d))
      invariant forall k: nat :: k < j ==> MatrixElement(o, rho, i, k).Some?
    {
      var w := FromSeq(vh[j]);
      ok := AddTerm(o, rho, i, j, w, r, Row(v, j), d, 1 + 2 * j);
      if !ok {
        return;
      }
      d := Dot(o, rho, i, v, j + 1);
    }
    ok := true;
  }

  lemma HighRowRange(params: Params, p: Poly)
    requires IsParams(params) && |p| == DEGREE
    ensures Vector(HighRow(params.dv, ModQ(p)), 1, 0, params.dv as int / 2 - 1)
  {
    hide DecomposeHi, DecomposeLo;
    forall m | 0 <= m < DEGREE ensures 0 <= HighRow(params.dv, ModQ(p))[m] <= params.dv as int / 2 - 1 {
      DecomposeSpec(params.dv, ModQ(p)[m]);
    }
  }

  /** ay and w1 hold the first n rows of w = A y and of its high parts. */
  ghost predicate Committed(o: Oracle, params: Params, rho: seq<int>, y: seq<int>, ay: seq<int>, w1: seq<int>, n: nat)
    requires IsOracle(o) && IsParams(params)
  {
    && |y| == params.el * DEGREE && Vector(ay, n, 0, Q - 1) && Vector(w1, n, 0, params.dv as int / 2 - 1)
    && w1 == HighRows(o, params, rho, y, n)
    && forall i: nat :: i < n ==> Row(ay, i) == WRow(o, params, rho, y, i)
  }

  lemma CommittedStep(o: Oracle, params: Params, rho: seq<int>, y: seq<int>, ay: seq<int>, w1: seq<int>, n: nat, w: seq<int>)
    requires IsOracle(o) && IsParams(params) && Committed(o, params, rho, y, ay, w1, n)
    requires w == WRow(o, params, rho, y, n)
    ensures Committed(o, params, rho, y, ay + w, w1 + HighRow(params.dv, w), n + 1)
  {
    hide IsOracle, Dot, ModQ, HighRow, Row, Vector;
    CanonicalVector(Dot(o, rho, n, y, params.el));
    HighRowRange(params, Dot(o, rho, n, y, params.el));
    VectorAppend(ay, w, n, 0, Q - 1);
    VectorAppend(w1, HighRow(params.dv, w), n, 0, params.dv as int / 2 - 1);
    VectorShape(ay, n, 0, Q - 1);
    RowsAppend(ay, w, n);
    VectorShape(ay + w, n + 1, 0, Q - 1);
  }

  lemma VectorShape(v: seq<int>, n: nat, lo: int, hi: int)
    requires Vector(v, n, lo, hi)
    ensures |v| == n * DEGREE
  {
  }

  /** w = A y and its high parts. */
  method Commit(o: Oracle, params: Params, rho: seq<int>, ghost y: seq<int>,
                yh: seq<seq<int>>) returns (r: Option<(seq<int>, seq<int>)>)
    requires IsOracle(o) && IsParams(params) && Transforms(yh, y, params.el)
    ensures r.Some? ==> Committed(o, params, rho, y, r.value.0, r.value.1, params.ck)
    ensures r.None? <==> exists i: nat :: i < params.ck && !RowExpands(o, rho, i, params.el)
  {
    hide IsOracle, Transforms, Represents, Scale, Dot, ModQ, HighRow, RowExpands, Committed;
    TransformsShape(yh, y, params.el);
    var ay: seq<int>, w1: seq<int> := [], [];
    CommittedNothing(o, params, rho, y);
    for i := 0 to params.ck
      invariant Committed(o, params, rho, y, ay, w1, i)
      invariant forall j: nat :: j < i ==> RowExpands(o, rho, j, params.el)
    {
      var a, ok := MatrixRow(o, rho, i, params.el, y, yh);
      if !ok {
        return None;
      }
      FinishRow(a, Dot(o, rho, i, y, params.el));
      CommittedStep(o, params, rho, y, ay, w1, i, a[..]);
      ay := ay + a[..];
      w1 := w1 + HighRow(params.dv, a[..]);
    }
    r := Some((ay, w1));
  }

  lemma CommittedNothing(o: Oracle, params: Params, rho: seq<int>, y: seq<int>)
    requires IsOracle(o) && IsParams(params) && |y| == params.el * DEGREE
    ensures Committed(o, params, rho, y, [], [], 0)
  {
    hide IsOracle;
  }

  lemma TransformsShape(vh: seq<seq<int>>, v: seq<int>, n: nat)
    requires Transforms(vh, v, n)
    ensures |vh| == n && |v| == n * DEGREE
  {
    hide Represents;
  }

  lemma CanonicalVector(p: Poly)
    requires |p| == DEGREE
    ensures Vector(ModQ(p), 1, 0, Q - 1)
  {
  }

  /** h4. */
  method H4(o: Oracle, params: Params, mu: seq<int>, w1: seq<int>) returns (ct: seq<int>)
    requires IsParams(params) && HighVector(params, w1)
    ensures ct == ChallengeSeed(o, params, mu, w1)
  {
    hide Recoded, Bits, Pow2;
    Powers();
    var b := HighBits(params);
    ByteCount(b, params.ck);
    var packed, ptr := Recode(b, 8, params.ck * (32 * b), w1);
    ct := o.shake256(mu + packed, 32);
  }

  /** Both factors of a y + c s1 response row, followed through nres, poly_add, redc and intt. */
  lemma ResponseRepresents(yh: seq<int>, y: Poly, w: seq<int>, p: Poly, wn: seq<int>, sum: seq<int>, red: seq<int>)
    requires Represents(yh, y) && |p| == DEGREE && Represents(w, Scale(RINV, p))
    requires |wn| == |sum| == |red| == DEGREE
    requires forall i :: 0 <= i < DEGREE ==> Cong(wn[i], w[i] * R, Q)
    requires forall i :: 0 <= i < DEGREE ==> Cong(sum[i], yh[i] + wn[i], Q)
    requires forall i :: 0 <= i < DEGREE ==> Cong(red[i], sum[i] * RINV, Q)
    ensures |y| == DEGREE && Represents(red, Scale(RINV, Add(y, Scale(R, Scale(RINV, p)))))
  {
    hide Cong, Represents, Scale, Add;
    RepresentsShape(yh, y);
    ScaleRepresents(w, Scale(RINV, p), R, wn);
    SumRepresents(yh, y, wn, Scale(R, Scale(RINV, p)), sum);
    ScaleRepresents(sum, Add(y, Scale(R, Scale(RINV, p))), RINV, red);
  }

  lemma ResponseValue(y: Poly, p: Poly)
    requires |y| == |p| == DEGREE
    ensures ModQ(Scale(R, Scale(RINV, Add(y, Scale(R, Scale(RINV, p)))))) == ModQ(Add(y, p))
  {
    hide Cong, SeqCong, Scale, Add, ModQ;
    var q := Scale(R, Scale(RINV, p));
    ScalesCancel(Add(y, q));
    ScalesCancel(p);
    ModQIsCong(q);
    ModQIsCong(p);
    SeqCongSym(ModQ(q), q, Q);
    SeqCongTrans(q, ModQ(q), p, Q);
    SeqCongRefl(y, Q);
    AddCong(y, y, q, p, Q);
    ModQCong(Add(y, q), Add(y, p));
  }

  /** One row of z = y + c s1, computed in the transform domain. */
  method ResponseRow(yh: seq<int>, s1: seq<int>, ch: array<I32>, ghost y: Poly, ghost c: Poly) returns (z: array<I32>)
    requires |yh| == DEGREE && InBound(yh, 18) && Represents(yh, y) && Small(s1)
    requires ch.Length == DEGREE && InBound(ch[..], 18) && Represents(ch[..], c)
    ensures |y| == |c| == DEGREE && fresh(z) && z.Length == DEGREE && z[..] == ZRow(y, s1, c)
  {
    hide Cong, Represents, MulMod, Scale, InverseTransform;
    RepresentsShape(yh, y);
    RepresentsShape(ch[..], c);
    var w := NttOf(s1);
    ghost var ws := w[..];
    PolyMul(w, ch);
    ghost var p := MulMod(-1, s1, c);
    ProductRepresents(ws, s1, ch[..], c, w[..]);
    ghost var wp := w[..];
    NresIt(w);
    ghost var wn := w[..];
    z := FromSeq(yh);
    PolyAdd(z, w, 18, 2);
    ghost var sum := z[..];
    SumIsCong(yh, wn, sum);
    RedcIt(z);
    ghost var red := z[..];
    ResponseRepresents(yh, y, wp, p, wn, sum, red);
    Intt(z);
    InttValue(red, Scale(RINV, Add(y, Scale(R, Scale(RINV, p)))), z[..]);
    ResponseValue(y, p);
    ModQTwice(Add(y, p));
    PolySoftReduce(z);
  }

  lemma ModQTwice(p: Poly)
    ensures ModQ(ModQ(p)) == ModQ(p) && (|p| == DEGREE ==> InBound(ModQ(p), 2))
  {
  }

  method NormCheck(z: array<I32>, g: int) returns (ok: bool)
    requires z.Length == DEGREE && g > 0 && forall j :: 0 <= j < DEGREE ==> 0 <= z[j] <= Q
    ensures ok <==> NormBelow(z[..], g)
  {
    var n := InfinityNorm(z);
    ok := n < g;
    if !ok {
      var j :| 0 <= j < DEGREE && Magnitude(z[j]) == n;
      assert z[..][j] == z[j];
    }
  }

  lemma BoundsPositive(params: Params)
    requires IsParams(params)
    ensures Gamma1(params) - Beta(params) > 0 && Gamma2(params.dv) - Beta(params) > 0 && Gamma2(params.dv) > 0
  {
    RoundingConstants();
  }

  lemma NormAppend(v: seq<int>, p: seq<int>, g: int)
    requires NormBelow(v, g) && NormBelow(p, g)
    ensures NormBelow(v + p, g)
  {
    hide Magnitude;
  }

  /** Some row of z = y + c s1 fails the norm check. */
  ghost predicate ResponseTooLong(params: Params, y: seq<int>, s1: seq<int>, c: Poly)
    requires IsParams(params)
  {
    && |c| == DEGREE && |y| == |s1| == params.el * DEGREE
    && exists j: nat :: j < params.el && !NormBelow(ZRow(Row(y, j), Row(s1, j), c), Gamma1(params) - Beta(params))
  }

  /** z = y + c s1, given up at the first row that fails the norm check. */
  method Respond(params: Params, ghost y: seq<int>, yh: seq<seq<int>>, s1: seq<int>, ch: array<I32>,
                 ghost c: Poly) returns (ok: bool, z: seq<int>)
    requires IsParams(params) && Transforms(yh, y, params.el) && Vector(s1, params.el, -16, 16)
    requires ch.Length == DEGREE && InBound(ch[..], 18) && Represents(ch[..], c)
    ensures ok ==> |c| == DEGREE && |y| == params.el * DEGREE && Vector(z, params.el, 0, Q - 1)
    ensures ok ==> NormBelow(z, Gamma1(params) - Beta(params))
    ensures ok ==> forall j: nat :: j < params.el ==> Row(z, j) == ZRow(Row(y, j), Row(s1, j), c)
    ensures !ok ==> ResponseTooLong(params, y, s1, c)
  {
    hide Represents, ZRow, NormBelow, ModQ, Magnitude;
    BoundsPositive(params);
    RepresentsShape(ch[..], c);
    z := [];
    NormOfNothing(Gamma1(params) - Beta(params));
    for j := 0 to params.el
      invariant Vector(z, j, 0, Q - 1) && NormBelow(z, Gamma1(params) - Beta(params))
      invariant forall k: nat :: k < j ==> Row(z, k) == ZRow(Row(y, k), Row(s1, k), c)
    {
      var row := ResponseRow(yh[j], Row(s1, j), ch, Row(y, j), c);
      ZRowRange(Row(y, j), Row(s1, j), c);
      assert forall k :: 0 <= k < DEGREE ==> row[k] == row[..][k];
      var small := NormCheck(row, Gamma1(params) - Beta(params));
      if !small {
        assert !NormBelow(ZRow(Row(y, j), Row(s1, j), c), Gamma1(params) - Beta(params));
        return false, z;
      }
      RowsAppend(z, row[..], j);
      NormAppend(z, row[..], Gamma1(params) - Beta(params));
      z := z + row[..];
    }
    ok := true;
  }

  lemma NormOfNothing(g: int)
    ensures NormBelow([], g)
  {
  }

  lemma ZRowRange(y: Poly, s1: Poly, c: Poly)
    requires |y| == |s1| == |c| == DEGREE
    ensures Vector(ZRow(y, s1, c), 1, 0, Q - 1)
  {
    hide MulMod;
  }

  /** c p, reduced, for a small p. */
  method TimesChallenge(p: seq<int>, ch: array<I32>, ghost c: Poly) returns (w: array<I32>)
    requires Small(p) && ch.Length == DEGREE && InBound(ch[..], 18) && Represents(ch[..], c)
    ensures |c| == DEGREE && fresh(w) && w.Length == DEGREE && w[..] == ModQ(MulMod(-1, p, c)) && InBound(w[..], 1)
  {
    hide Cong, Represents, MulMod, Scale, InverseTransform;
    RepresentsShape(ch[..], c);
    w := NttOf(p);
    ghost var ws := w[..];
    PolyMul(w, ch);
    ProductRepresents(ws, p, ch[..], c, w[..]);
    ghost var y := w[..];
    Intt(w);
    InttValue(y, Scale(RINV, MulMod(-1, p, c)), w[..]);
    ScalesCancel(MulMod(-1, p, c));
  }

  /** poly_sub and poly_soft_reduce: w - e, where e is c s2 or -c t0. */
  method SubReduce(w: seq<int>, e: array<I32>) returns (u: array<I32>)
    requires |w| == DEGREE && InBound(w, 1) && e.Length == DEGREE && forall j :: 0 <= j < DEGREE ==> 0 <= e[j] <= Q
    ensures fresh(u) && u.Length == DEGREE && u[..] == ModQ(Sub(w, e[..])) && InBound(u[..], 1)
  {
    u := FromSeq(w);
    PolySub(u, e);
    ghost var v := u[..];
    PolySoftReduce(u);
    DifferenceModQ(w, e[..], v);
  }

  lemma DifferenceModQ(w: Poly, e: Poly, v: Poly)
    requires |w| == |e| == |v| == DEGREE && forall j :: 0 <= j < DEGREE ==> v[j] == w[j] + (Q - e[j])
    ensures ModQ(v) == ModQ(Sub(w, e))
  {
    hide Cong;
    forall j | 0 <= j < DEGREE ensures v[j] % Q == (w[j] - e[j]) % Q {
      CongIntro(v[j], w[j] - e[j], Q, 1);
      SameResidue(v[j], w[j] - e[j]);
    }
  }

  lemma SubOfModQ(w: Poly, p: Poly)
    requires |w| == |p|
    ensures ModQ(Sub(w, ModQ(p))) == ModQ(Sub(w, p))
  {
    hide Cong, SeqCong, Sub;
    ModQIsCong(p);
    SeqCongRefl(w, Q);
    SubCong(w, w, ModQ(p), p, Q);
    ModQCong(Sub(w, ModQ(p)), Sub(w, p));
  }

  method LoBits(dv: nat, r: array<I32>) returns (r0: array<I32>)
    requires IsDivisor(dv) && r.Length == DEGREE && InBound(r[..], 1)
    ensures fresh(r0) && r0.Length == DEGREE && r0[..] == LowRow(dv, r[..])
    ensures forall j :: 0 <= j < DEGREE ==> 0 <= r0[j] <= Q
  {
    hide DecomposeLo, DecomposeHi;
    r0 := new I32[DEGREE](i => 0);
    for m := 0 to DEGREE
      invariant forall j :: 0 <= j < m ==> r0[j] == DecomposeLo(dv, r[j]) && 0 <= r0[j] <= Q
    {
      assert r[m] == r[..][m];
      DecomposeSpec(dv, r[m]);
      r0[m] := DecomposeLo(dv, r[m]);
    }
  }

  /** The norm checks of one row; on success u = w - c s2, n = -c t0 and v = w - c s2 + c t0. */
  method CheckRow(params: Params, w: seq<int>, s2: seq<int>, t0: seq<int>, ch: array<I32>, ghost c: Poly)
    returns (ok: bool, v: array<I32>, n: array<I32>)
    requires IsParams(params) && |w| == DEGREE && InBound(w, 1) && Small(s2) && Small(t0)
    requires ch.Length == DEGREE && InBound(ch[..], 18) && Represents(ch[..], c)
    ensures |c| == DEGREE && fresh(v) && fresh(n) && v.Length == n.Length == DEGREE
    ensures ok ==> n[..] == NRow(t0, c) && v[..] == VRow(URow(w, s2, c), NRow(t0, c)) && IsRow(v[..], n[..])
    ensures ok <==> NormBelow(LowRow(params.dv, URow(w, s2, c)), Gamma2(params.dv) - Beta(params)) && NormBelow(NRow(t0, c), Gamma2(params.dv))
  {
    hide Represents, MulMod, ModQ, Sub, NormBelow, LowRow;
    BoundsPositive(params);
    RepresentsShape(ch[..], c);
    var cs := TimesChallenge(s2, ch, c);
    assert forall j :: 0 <= j < DEGREE ==> cs[j] == cs[..][j];
    var u := SubReduce(w, cs);
    SubOfModQ(w, MulMod(-1, s2, c));
    var low := LoBits(params.dv, u);
    v := u;
    n := u;
    ok := NormCheck(low, Gamma2(params.dv) - Beta(params));
    if !ok {
      return;
    }
    var ct := TimesChallenge(t0, ch, c);
    n := new I32[DEGREE](i => 0);
    PolyNegate(n, ct);
    NegatedRow(n[..], ct[..], t0, c);
    assert forall j :: 0 <= j < DEGREE ==> n[j] == n[..][j];
    ok := NormCheck(n, Gamma2(params.dv));
    if !ok {
      return;
    }
    v := SubReduce(u[..], n);
    InBoundRow(v[..], n[..]);
  }

  lemma InBoundRow(v: seq<int>, n: seq<int>)
    requires |v| == |n| == DEGREE && InBound(v, 1) && forall j :: 0 <= j < DEGREE ==> 0 <= n[j] <= Q
    ensures IsRow(v, n)
  {
  }

  lemma NegatedRow(n: seq<int>, e: seq<int>, t0: Poly, c: Poly)
    requires |n| == |e| == |t0| == |c| == DEGREE && e == ModQ(MulMod(-1, t0, c)) && InBound(e, 1)
    requires forall j :: 0 <= j < DEGREE ==> n[j] == Q - e[j]
    ensures n == NRow(t0, c) && forall j :: 0 <= j < DEGREE ==> 0 <= n[j] <= Q
  {
    hide MulMod, ModQ;
  }

  /** The first n rows are signed and the last hint written is at nh. */
  ghost predicate RowsSigned(params: Params, ay: seq<int>, s2: seq<int>, t0: seq<int>, c: Poly, h: seq<int>, nh: int, n: nat)
    requires IsParams(params)
  {
    && |ay| == |s2| == |t0| == params.ck * DEGREE && |c| == DEGREE && |h| == HINT_BYTES && n <= params.ck
    && 0 <= nh <= params.omega && HintStart(params, h, n) == nh
    && forall i: nat :: i < n ==> SignRow(params, Row(ay, i), Row(s2, i), Row(t0, i), c, h, i)
  }

  /** Later writes, past a row's hints and outside its recorded end, leave it signed. */
  lemma SignRowFrame(params: Params, w: Poly, s2: Poly, t0: Poly, c: Poly, h: seq<int>, h': seq<int>, i: nat, nh: nat)
    requires IsParams(params) && |w| == |s2| == |t0| == |c| == DEGREE && i < params.ck && |h| == |h'| == HINT_BYTES
    requires SignRow(params, w, s2, t0, c, h, i) && HintStart(params, h, i + 1) <= nh <= params.omega
    requires h'[..nh] == h[..nh] && forall j :: params.omega <= j <= params.omega + i ==> h'[j] == h[j]
    ensures SignRow(params, w, s2, t0, c, h', i)
  {
    hide URow, NRow, VRow, NormBelow, LowRow, Positions;
    var a, b := HintStart(params, h, i), HintStart(params, h, i + 1);
    assert h'[a..b] == h'[..nh][a..b] == h[..nh][a..b] == h[a..b];
  }

  lemma {:induction false} StartsMonotone(params: Params, ay: seq<int>, s2: seq<int>, t0: seq<int>, c: Poly,
                                          h: seq<int>, nh: int, n: nat, i: nat)
    requires IsParams(params) && RowsSigned(params, ay, s2, t0, c, h, nh, n) && i <= n
    ensures HintStart(params, h, i) <= nh
    decreases n - i
  {
    hide URow, NRow, VRow, NormBelow, LowRow, Positions, HintStart, Row;
    if i < n {
      StartsMonotone(params, ay, s2, t0, c, h, nh, n, i + 1);
      assert SignRow(params, Row(ay, i), Row(s2, i), Row(t0, i), c, h, i);
    }
  }

  /** h' is h with the hints p of row n appended at nh and their end recorded. */
  predicate HintsAppended(params: Params, h: seq<int>, h': seq<int>, nh: nat, n: nat, p: seq<int>) {
    && |h| == |h'| == HINT_BYTES && n < params.ck && params.omega + params.ck <= HINT_BYTES && nh + |p| <= params.omega
    && h'[..nh] == h[..nh] && h'[nh..nh + |p|] == p
    && (forall j :: params.omega <= j < params.omega + n ==> h'[j] == h[j]) && h'[params.omega + n] == nh + |p|
  }

  lemma RowsSignedStep(params: Params, ay: seq<int>, s2: seq<int>, t0: seq<int>, c: Poly, h: seq<int>,
                       h': seq<int>, nh: nat, n: nat, p: seq<int>)
    requires IsParams(params) && RowsSigned(params, ay, s2, t0, c, h, nh, n) && n < params.ck
    requires HintsAppended(params, h, h', nh, n, p)
    requires var w := Row(ay, n); var u, e := URow(w, Row(s2, n), c), NRow(Row(t0, n), c);
      && p == Positions(params.dv, VRow(u, e), e, DEGREE)
      && NormBelow(LowRow(params.dv, u), Gamma2(params.dv) - Beta(params)) && NormBelow(e, Gamma2(params.dv))
    ensures RowsSigned(params, ay, s2, t0, c, h', nh + |p|, n + 1)
  {
    hide URow, NRow, VRow, NormBelow, LowRow, Positions, Row;
    forall i: nat | i < n ensures SignRow(params, Row(ay, i), Row(s2, i), Row(t0, i), c, h', i) {
      StartsMonotone(params, ay, s2, t0, c, h, nh, n, i + 1);
      SignRowFrame(params, Row(ay, i), Row(s2, i), Row(t0, i), c, h, h', i, nh);
    }
    assert HintStart(params, h', n) == nh;
  }

  lemma AppendedBy(params: Params, h: seq<int>, h': seq<int>, nh: nat, n: nat, p: seq<int>, e: nat)
    requires IsParams(params) && |h| == HINT_BYTES && n < params.ck && e == nh + |p| <= params.omega
    requires h' == (h[..nh] + p + h[e..])[params.omega + n := e]
    ensures HintsAppended(params, h, h', nh, n, p)
  {
  }

  /** The hint loop of signature: checks every row and collects its hints; false at the first failure. */
  method HintRows(params: Params, ay: seq<int>, s2: seq<int>, t0: seq<int>, ch: array<I32>, ghost c: Poly, hint: array<Byte>)
    returns (ok: bool)
    requires IsParams(params) && Vector(ay, params.ck, 0, Q - 1)
    requires Vector(s2, params.ck, -16, 16) && Vector(t0, params.ck, -4095, 4096)
    requires ch.Length == DEGREE && InBound(ch[..], 18) && Represents(ch[..], c)
    requires hint.Length == HINT_BYTES && hint as object != ch
    modifies hint
    ensures ok ==> exists nh :: RowsSigned(params, ay, s2, t0, c, hint[..], nh, params.ck)
    ensures !ok ==> |c| == DEGREE && RowsUnsignable(params, ay, s2, t0, c)
  {
    hide Represents, URow, NRow, VRow, NormBelow, LowRow, Positions, RowsSigned, IsRow, HintsAppended, RowsUnsignable;
    RepresentsShape(ch[..], c);
    var nh := 0;
    NoRowsSigned(params, ay, s2, t0, c, hint[..]);
    for i := 0 to params.ck
      invariant 0 <= nh <= params.omega && RowsSigned(params, ay, s2, t0, c, hint[..], nh, i)
      invariant ch[..] == old(ch[..])
    {
      var v, n;
      ok, v, n := CheckRow(params, Row(ay, i), Row(s2, i), Row(t0, i), ch, c);
      if !ok {
        NormFails(params, ay, s2, t0, c, i);
        return;
      }
      ghost var h0: seq<int> := hint[..];
      ghost var p := Positions(params.dv, v[..], n[..], DEGREE);
      var e := MakePartialHint(params, hint, nh, n, v);
      if e > params.omega {
        HintsOverflow(params, ay, s2, t0, c, h0, nh, i);
        return false;
      }
      hint[params.omega + i] := e % 256;
      AppendedBy(params, h0, hint[..], nh, i, p, e);
      RowsSignedStep(params, ay, s2, t0, c, h0, hint[..], nh, i, p);
      nh := e;
    }
    ok := true;
  }

  /** No buffer makes every row signed. */
  ghost predicate RowsUnsignable(params: Params, ay: seq<int>, s2: seq<int>, t0: seq<int>, c: Poly)
    requires IsParams(params) && |ay| == |s2| == |t0| == params.ck * DEGREE && |c| == DEGREE
  {
    forall h :: |h| == params.omega + params.ck ==>
      exists i: nat :: i < params.ck && !SignRow(params, Row(ay, i), Row(s2, i), Row(t0, i), c, h, i)
  }

  lemma NormFails(params: Params, ay: seq<int>, s2: seq<int>, t0: seq<int>, c: Poly, i: nat)
    requires IsParams(params) && |ay| == |s2| == |t0| == params.ck * DEGREE && |c| == DEGREE && i < params.ck
    requires !(NormBelow(LowRow(params.dv, URow(Row(ay, i), Row(s2, i), c)), Gamma2(params.dv) - Beta(params))
               && NormBelow(NRow(Row(t0, i), c), Gamma2(params.dv)))
    ensures RowsUnsignable(params, ay, s2, t0, c)
  {
    hide URow, NRow, VRow, NormBelow, LowRow, Positions, Row;
    forall h | |h| == params.omega + params.ck
      ensures exists j: nat :: j < params.ck && !SignRow(params, Row(ay, j), Row(s2, j), Row(t0, j), c, h, j)
    {
      assert !SignRow(params, Row(ay, i), Row(s2, i), Row(t0, i), c, h, i);
    }
  }

  /** In any two buffers that sign the first n rows, the hints of row n start at the same place. */
  lemma {:induction false} StartsAgree(params: Params, ay: seq<int>, s2: seq<int>, t0: seq<int>, c: Poly,
                                       h: seq<int>, g: seq<int>, n: nat)
    requires IsParams(params) && |ay| == |s2| == |t0| == params.ck * DEGREE && |c| == DEGREE && n <= params.ck
    requires |h| >= params.omega + params.ck && |g| >= params.omega + params.ck
    requires forall i: nat :: i < n ==> SignRow(params, Row(ay, i), Row(s2, i), Row(t0, i), c, h, i)
    requires forall i: nat :: i < n ==> SignRow(params, Row(ay, i), Row(s2, i), Row(t0, i), c, g, i)
    ensures HintStart(params, h, n) == HintStart(params, g, n)
  {
    hide URow, NRow, VRow, NormBelow, LowRow, Positions, Row;
    if n > 0 {
      StartsAgree(params, ay, s2, t0, c, h, g, n - 1);
      SignedLength(params, Row(ay, n - 1), Row(s2, n - 1), Row(t0, n - 1), c, h, n - 1);
      SignedLength(params, Row(ay, n - 1), Row(s2, n - 1), Row(t0, n - 1), c, g, n - 1);
    }
  }

  lemma SignedLength(params: Params, w: Poly, s2: Poly, t0: Poly, c: Poly, h: seq<int>, i: nat)
    requires IsParams(params) && |w| == |s2| == |t0| == |c| == DEGREE && i < params.ck && |h| >= params.omega + params.ck
    requires SignRow(params, w, s2, t0, c, h, i)
    ensures var u, n := URow(w, s2, c), NRow(t0, c);
      HintStart(params, h, i + 1) == HintStart(params, h, i) + |Positions(params.dv, VRow(u, n), n, DEGREE)| <= params.omega
  {
    hide URow, NRow, VRow, NormBelow, LowRow, Positions;
  }

  lemma HintsOverflow(params: Params, ay: seq<int>, s2: seq<int>, t0: seq<int>, c: Poly, h: seq<int>, nh: int, n: nat)
    requires IsParams(params) && RowsSigned(params, ay, s2, t0, c, h, nh, n) && n < params.ck
    requires var u, e := URow(Row(ay, n), Row(s2, n), c), NRow(Row(t0, n), c);
      nh + |Positions(params.dv, VRow(u, e), e, DEGREE)| > params.omega
    ensures RowsUnsignable(params, ay, s2, t0, c)
  {
    hide URow, NRow, VRow, NormBelow, LowRow, Positions, Row, SignRow;
    forall g | |g| == params.omega + params.ck
      ensures exists i: nat :: i < params.ck && !SignRow(params, Row(ay, i), Row(s2, i), Row(t0, i), c, g, i)
    {
      if forall i: nat :: i < params.ck ==> SignRow(params, Row(ay, i), Row(s2, i), Row(t0, i), c, g, i) {
        StartsAgree(params, ay, s2, t0, c, h, g, n);
        SignedLength(params, Row(ay, n), Row(s2, n), Row(t0, n), c, g, n);
        assert false;
      }
    }
  }

  lemma NoRowsSigned(params: Params, ay: seq<int>, s2: seq<int>, t0: seq<int>, c: Poly, h: seq<int>)
    requires IsParams(params) && |ay| == |s2| == |t0| == params.ck * DEGREE && |c| == DEGREE && |h| == HINT_BYTES
    ensures RowsSigned(params, ay, s2, t0, c, h, 0, 0)
  {
  }

  datatype Round = Panic | Rejected | Accepted(sig: seq<int>)

  lemma RowsSignedAll(o: Oracle, params: Params, sk: SecretKey, y: seq<int>, ay: seq<int>, w1: seq<int>, c: Poly,
                      h: seq<int>, nh: int)
    requires IsOracle(o) && IsParams(params) && SkShape(params, sk) && Bytes(h, HINT_BYTES)
    requires Committed(o, params, sk.rho, y, ay, w1, params.ck)
    requires RowsSigned(params, ay, sk.s2, sk.t0, c, h, nh, params.ck)
    ensures var g := h[..params.omega + params.ck];
      forall i: nat :: i < params.ck ==>
        SignRow(params, WRow(o, params, sk.rho, y, i), Row(sk.s2, i), Row(sk.t0, i), c, g, i)
  {
    hide IsOracle, WRow, HighRows;
    var g := h[..params.omega + params.ck];
    forall i: nat | i < params.ck
      ensures SignRow(params, WRow(o, params, sk.rho, y, i), Row(sk.s2, i), Row(sk.t0, i), c, g, i)
    {
      assert SignRow(params, Row(ay, i), Row(sk.s2, i), Row(sk.t0, i), c, h, i);
      SignRowPrefix(params, Row(ay, i), Row(sk.s2, i), Row(sk.t0, i), c, h, i);
    }
  }

  lemma SignRowPrefix(params: Params, w: Poly, s2: Poly, t0: Poly, c: Poly, h: seq<int>, i: nat)
    requires IsParams(params) && |w| == |s2| == |t0| == |c| == DEGREE && i < params.ck && |h| == HINT_BYTES
    requires SignRow(params, w, s2, t0, c, h, i)
    ensures SignRow(params, w, s2, t0, c, h[..params.omega + params.ck], i)
  {
    hide URow, NRow, VRow, NormBelow, LowRow, Positions;
    var g := h[..params.omega + params.ck];
    assert forall j :: 0 <= j < |g| ==> g[j] == h[j];
    var a, b := HintStart(params, h, i), HintStart(params, h, i + 1);
    assert g[a..b] == h[a..b];
  }

  /** A row of the matrix cannot be sampled, or the challenge of the commitment to y cannot. */
  ghost predicate Panics(o: Oracle, params: Params, sk: SecretKey, m: seq<int>, y: seq<int>)
    requires IsOracle(o) && IsParams(params) && |y| == params.el * DEGREE
  {
    || (exists i: nat :: i < params.ck && !RowExpands(o, sk.rho, i, params.el))
    || (HighVector(params, HighRows(o, params, sk.rho, y, params.ck))
        && ChallengeOf(o, params, ChallengeSeed(o, params, Mu(o, sk.tr, m), HighRows(o, params, sk.rho, y, params.ck))).None?)
  }

  /**
   One round of the rejection loop, with the mask seeded by rhod and index fk: unless a sampler panics, accepted exactly if
   the mask can sign.
   */
  method SignRound(o: Oracle, params: Params, sk: SecretKey, ghost m: seq<int>, mu: seq<int>, rhod: seq<int>,
                   fk: nat) returns (r: Round)
    requires IsOracle(o) && IsParams(params) && SkShape(params, sk) && mu == Mu(o, sk.tr, m)
    ensures r.Accepted? ==> SignedWith(o, params, sk, m, Masks(o, params, rhod, fk, params.el), r.sig)
    ensures r.Rejected? ==> CannotSign(o, params, sk, m, Masks(o, params, rhod, fk, params.el))
    ensures r.Panic? <==> Panics(o, params, sk, m, Masks(o, params, rhod, fk, params.el))
  {
    hide Represents, Transforms, NormBelow, SignRow, HighRows, WRow, ZRow, ChallengeSeed, Challenge, MaskPoly, OneNorm, Committed, RowsSigned,
      SigBytes, RowExpands, RowsUnsignable, ResponseTooLong, CannotSign, Signed, Masks;
    var y := SampleY(o, params, fk, rhod);
    var yh := TransformRows(params.el, y);
    var w := Commit(o, params, sk.rho, y, yh);
    if w.None? {
      return Panic;
    }
    var (ay, w1) := w.value;
    CommittedParts(o, params, sk.rho, y, ay, w1);
    var ct := H4(o, params, mu, w1);
    SeedBytes(o, params, mu, w1);
    var c := SampleInBall(params, o.shake256(ct, 136));
    if c.None? {
      return Panic;
    }
    ChallengeShape(o, params, ct);
    var ch := NttOf(c.value);
    var ok, z := Respond(params, y, yh, sk.s1, ch, c.value);
    if !ok {
      TooLongToSign(o, params, sk, m, y, c.value);
      return Rejected;
    }
    var hint := new Byte[HINT_BYTES](i => 0);
    ok := HintRows(params, ay, sk.s2, sk.t0, ch, c.value, hint);
    if !ok {
      UnsignableRows(o, params, sk, m, y, ay, w1, c.value);
      return Rejected;
    }
    ghost var nh :| RowsSigned(params, ay, sk.s2, sk.t0, c.value, hint[..], nh, params.ck);
    RowsSignedAll(o, params, sk, y, ay, w1, c.value, hint[..], nh);
    var h := hint[..params.omega + params.ck];
    assert h == hint[..][..params.omega + params.ck];
    NormsFit(params, z);
    var sig := PackSig(params, z, ct, h);
    SignedIntro(o, params, sk, m, y, c.value, z, ct, h, w1);
    r := Accepted(sig);
  }

  lemma SignedIntro(o: Oracle, params: Params, sk: SecretKey, m: seq<int>, y: seq<int>, c: Poly, z: seq<int>,
                    ct: seq<int>, h: seq<int>, w1: seq<int>)
    requires IsOracle(o) && IsParams(params) && SkShape(params, sk)
    requires |c| == DEGREE && Vector(y, params.el, 0, Q - 1) && |z| == params.el * DEGREE && Bytes(h, params.omega + params.ck)
    requires w1 == HighRows(o, params, sk.rho, y, params.ck) && HighVector(params, w1)
    requires ct == ChallengeSeed(o, params, Mu(o, sk.tr, m), w1) && ChallengeOf(o, params, ct) == Some(c)
    requires forall j: nat :: j < params.el ==> Row(z, j) == ZRow(Row(y, j), Row(sk.s1, j), c)
    requires NormBelow(z, Gamma1(params) - Beta(params))
    requires forall i: nat :: i < params.ck ==>
      SignRow(params, WRow(o, params, sk.rho, y, i), Row(sk.s2, i), Row(sk.t0, i), c, h, i)
    ensures Signed(o, params, sk, m, y, c, z, ct, h)
  {
    hide IsOracle, NormBelow, SignRow, HighRows, WRow, ZRow, ChallengeSeed, Challenge;
  }

  /** The challenge of a mask is determined, and so is its response. */
  lemma TooLongToSign(o: Oracle, params: Params, sk: SecretKey, m: seq<int>, y: seq<int>, c: Poly)
    requires IsOracle(o) && IsParams(params) && SkShape(params, sk) && Vector(y, params.el, 0, Q - 1)
    requires HighVector(params, HighRows(o, params, sk.rho, y, params.ck))
    requires ChallengeOf(o, params, ChallengeSeed(o, params, Mu(o, sk.tr, m), HighRows(o, params, sk.rho, y, params.ck))) == Some(c)
    requires ResponseTooLong(params, y, sk.s1, c)
    ensures CannotSign(o, params, sk, m, y)
  {
    hide IsOracle, NormBelow, SignRow, HighRows, WRow, ZRow, ChallengeSeed, Challenge, HighVector;
    forall c', z, ct, h ensures !Signed(o, params, sk, m, y, c', z, ct, h) {
      if Signed(o, params, sk, m, y, c', z, ct, h) {
        assert c' == c;
        var j: nat :| j < params.el && !NormBelow(ZRow(Row(y, j), Row(sk.s1, j), c), Gamma1(params) - Beta(params));
        assert Row(z, j) == ZRow(Row(y, j), Row(sk.s1, j), c);
        NormOfPart(z, j, Gamma1(params) - Beta(params));
        assert false;
      }
    }
  }

  lemma NormOfPart(z: seq<int>, j: nat, g: int)
    requires NormBelow(z, g) && (j + 1) * DEGREE <= |z|
    ensures NormBelow(Row(z, j), g)
  {
  }

  lemma UnsignableRows(o: Oracle, params: Params, sk: SecretKey, m: seq<int>, y: seq<int>, ay: seq<int>, w1: seq<int>, c: Poly)
    requires IsOracle(o) && IsParams(params) && SkShape(params, sk) && Vector(y, params.el, 0, Q - 1) && |c| == DEGREE
    requires Committed(o, params, sk.rho, y, ay, w1, params.ck) && |ay| == params.ck * DEGREE
    requires HighVector(params, HighRows(o, params, sk.rho, y, params.ck))
    requires ChallengeOf(o, params, ChallengeSeed(o, params, Mu(o, sk.tr, m), HighRows(o, params, sk.rho, y, params.ck))) == Some(c)
    requires RowsUnsignable(params, ay, sk.s2, sk.t0, c)
    ensures CannotSign(o, params, sk, m, y)
  {
    hide IsOracle, NormBelow, SignRow, HighRows, WRow, ZRow, ChallengeSeed, Challenge, HighVector, Committed;
    CommittedRows(o, params, sk.rho, y, ay, w1);
    forall c', z, ct, h ensures !Signed(o, params, sk, m, y, c', z, ct, h) {
    }
  }

  lemma CommittedRows(o: Oracle, params: Params, rho: seq<int>, y: seq<int>, ay: seq<int>, w1: seq<int>)
    requires IsOracle(o) && IsParams(params) && Committed(o, params, rho, y, ay, w1, params.ck)
    ensures |y| == params.el * DEGREE && |ay| == params.ck * DEGREE
    ensures forall i: nat :: i < params.ck ==> Row(ay, i) == WRow(o, params, rho, y, i)
  {
    hide IsOracle, WRow, HighRows;
  }

  lemma CommittedParts(o: Oracle, params: Params, rho: seq<int>, y: seq<int>, ay: seq<int>, w1: seq<int>)
    requires IsOracle(o) && IsParams(params) && Committed(o, params, rho, y, ay, w1, params.ck)
    ensures |y| == params.el * DEGREE && Vector(ay, params.ck, 0, Q - 1) && HighVector(params, w1)
    ensures w1 == HighRows(o, params, rho, y, params.ck)
  {
    hide IsOracle, WRow;
  }

  lemma SeedBytes(o: Oracle, params: Params, mu: seq<int>, w1: seq<int>)
    requires IsOracle(o) && IsParams(params) && HighVector(params, w1)
    ensures Bytes(ChallengeSeed(o, params, mu, w1), 32)
  {
    hide Recoded;
  }

  lemma NormsFit(params: Params, z: seq<int>)
    requires IsParams(params) && Vector(z, params.el, 0, Q - 1) && NormBelow(z, Gamma1(params) - Beta(params))
    ensures forall i :: 0 <= i < |z| ==> -Gamma1(params) < Centred(z[i]) < Gamma1(params)
  {
    forall i | 0 <= i < |z| ensures -Gamma1(params) < Centred(z[i]) < Gamma1(params) {
      assert Magnitude(z[i]) < Gamma1(params) - Beta(params);
    }
  }

  /**
   signature: repeats rounds with fresh masks until one is accepted, and returns how many it took; None when the first
   `rounds` rounds are all rejected or one panics. The source has no such limit.
   */
  method Signature(o: Oracle, params: Params, skBytes: seq<int>, m: seq<int>, rounds: nat) returns (r: Option<(seq<int>, nat)>)
    requires IsOracle(o) && IsParams(params) && Bytes(skBytes, SkSize(params))
    ensures SkShape(params, SkOf(params, skBytes))
    ensures r.Some? ==> 1 <= r.value.1 <= rounds && IsSignature(o, params, SkOf(params, skBytes), m, r.value.0)
    ensures r.Some? ==> SignedWith(o, params, SkOf(params, skBytes), m, RoundMask(o, params, SkOf(params, skBytes), m, r.value.1 - 1), r.value.0)
    ensures r.Some? ==> AllRejected(o, params, SkOf(params, skBytes), m, r.value.1 - 1)
    ensures r.None? ==> AllRejected(o, params, SkOf(params, skBytes), m, rounds) || SomePanics(o, params, SkOf(params, skBytes), m, rounds)
  {
    hide SignedWith, SkOf, IsOracle, SkShape, CannotSign, Panics, Masks;
    UnpackedShape(params, skBytes);
    var sk := UnpackSk(params, skBytes);
    var mu := Mu(o, sk.tr, m);
    var rhod := o.shake256(sk.bk + mu, 64);
    var k := 0;
    while k < rounds
      invariant 0 <= k <= rounds && AllRejected(o, params, sk, m, k)
    {
      var fk := k * params.el;
      k := k + 1;
      var round := SignRound(o, params, sk, m, mu, rhod, fk);
      match round
      case Panic =>
        assert Panics(o, params, sk, m, RoundMask(o, params, sk, m, k - 1));
        return None;
      case Rejected =>
      case Accepted(sig) => return Some((sig, k));
    }
    r := None;
  }

  /** None of the first n masks can sign, and none makes a sampler panic. */
  ghost predicate AllRejected(o: Oracle, params: Params, sk: SecretKey, m: seq<int>, n: nat)
    requires IsOracle(o) && IsParams(params) && SkShape(params, sk)
  {
    forall k: nat :: k < n ==>
      CannotSign(o, params, sk, m, RoundMask(o, params, sk, m, k)) && !Panics(o, params, sk, m, RoundMask(o, params, sk, m, k))
  }

  ghost predicate SomePanics(o: Oracle, params: Params, sk: SecretKey, m: seq<int>, n: nat)
    requires IsOracle(o) && IsParams(params) && SkShape(params, sk)
  {
    exists k: nat :: k < n && Panics(o, params, sk, m, RoundMask(o, params, sk, m, k))
  }

  // ----- verify -----

  /** poly_sub of a reduced row and a product below 2Q. */
  lemma DifferenceRepresents(r: seq<int>, d: Poly, w: seq<int>, e: Poly, x: seq<int>)
    requires |d| == |e| == |x| == DEGREE && Represents(r, Scale(RINV, d)) && Represents(w, Scale(RINV, e))
    requires |r| == |w| == DEGREE && forall j :: 0 <= j < DEGREE ==> x[j] == r[j] + (Q - w[j])
    ensures Represents(x, Scale(RINV, Sub(d, e)))
  {
    hide Cong, Represents, Scale, Add, Sub;
    var neg := seq(DEGREE, j requires 0 <= j < DEGREE => -w[j]);
    forall j | 0 <= j < DEGREE ensures Cong(neg[j], w[j] * -1, Q) && Cong(x[j], r[j] + neg[j], Q) {
      CongIntro(neg[j], w[j] * -1, Q, 0);
      CongIntro(x[j], r[j] + neg[j], Q, 1);
    }
    ScaleRepresents(w, Scale(RINV, e), -1, neg);
    SumRepresents(r, Scale(RINV, d), neg, Scale(-1, Scale(RINV, e)), x);
    DifferenceScaled(d, e);
  }

  lemma DifferenceScaled(d: Poly, e: Poly)
    requires |d| == |e|
    ensures Add(Scale(RINV, d), Scale(-1, Scale(RINV, e))) == Scale(RINV, Sub(d, e))
  {
  }

  /**
   Row i of A z - c t1 2^D, reduced but for at most 20 below zero, in a build with or without overflow checks. None if A cannot be
   sampled, or if the row lacks the headroom for intt in that build.
   */
  method VerifyRow(checks: bool, o: Oracle, params: Params, rho: seq<int>, i: nat, ghost z: seq<int>, zh: seq<seq<int>>,
                   t1: seq<int>, ch: array<I32>, ghost c: Poly)
    returns (r: Option<seq<int>>)
    requires IsOracle(o) && IsParams(params) && Transforms(zh, z, params.el) && Vector(t1, 1, 0, 1023) && |c| == DEGREE
    requires ch.Length == DEGREE && InBound(ch[..], 18) && Represents(ch[..], c) && ch[..] == NttValues(c)
    ensures |z| == params.el * DEGREE
    ensures RowExpands(o, rho, i, params.el) ==> RowLike(RowInput(o, rho, z, t1, c, params.el, i))
    ensures r.Some? <==> RowExpands(o, rho, i, params.el) && EnoughFor(checks, RowInput(o, rho, z, t1, c, params.el, i))
    ensures r.Some? ==> |r.value| == DEGREE && ModQ(r.value) == RRow(o, rho, z, t1, c, params.el, i)
    ensures r.Some? ==> forall j :: 0 <= j < DEGREE ==> -21 < r.value[j] < Q
    ensures r.Some? && checks ==> r.value == RRow(o, rho, z, t1, c, params.el, i)
  {
    hide Cong, Represents, MulMod, Scale, Sub, Transforms, Dot, IsOracle, RowExpands, InverseTransform, Headroom, NoWrap, NttValues,
      RedcValue, RowInput;
    TransformsShape(zh, z, params.el);
    var a, ok := MatrixRow(o, rho, i, params.el, z, zh);
    if !ok {
      return None;
    }
    ghost var d := Dot(o, rho, i, z, params.el);
    ghost var x := a[..];
    PolyHardReduce(a);
    HardReduced(x, a[..], Scale(RINV, d));
    ghost var reduced := a[..];
    var shifted := Shifted(t1);
    var w := NttOf(shifted);
    ghost var ws := w[..];
    PolyMul(w, ch);
    ProductRepresents(ws, shifted, ch[..], c, w[..]);
    ghost var e := MulMod(-1, shifted, c);
    PolySub(a, w);
    ghost var y := a[..];
    DifferenceRepresents(reduced, d, w[..], e, y);
    InputOfRow(o, rho, z, t1, c, params.el, i, reduced, w[..], y);
    var done := InttSigned(a);
    HeadroomIsStronger(y);
    if done.Wrapped? || (checks && !done.Exact?) {
      return None;
    }
    InttValue(y, Scale(RINV, Sub(d, e)), ModQ(a[..]));
    ScalesCancel(Sub(d, e));
    if checks {
      InttValue(y, Scale(RINV, Sub(d, e)), a[..]);
    }
    r := Some(a[..]);
  }

  lemma HeadroomIsStronger(y: seq<int>)
    requires |y| == DEGREE
    ensures Headroom(y) ==> NoWrap(y)
  {
    hide NoWrap, NotNegative;
  }

  lemma InputOfRow(o: Oracle, rho: seq<int>, z: seq<int>, t1: Poly, c: Poly, el: nat, i: nat, r: seq<int>, w: seq<int>, y: seq<int>)
    requires IsOracle(o) && |z| == el * DEGREE && |t1| == |c| == |r| == |w| == |y| == DEGREE
    requires InBound(r, 1) && Represents(r, Scale(RINV, Dot(o, rho, i, z, el)))
    requires forall j :: 0 <= j < DEGREE ==> w[j] == RedcValue(NttValues(Scale(8192, t1))[j] * NttValues(c)[j])
    requires forall j :: 0 <= j < DEGREE ==> y[j] == r[j] + (Q - w[j]) && 0 <= w[j] && 1000 * w[j] < 1633 * Q
    ensures y == RowInput(o, rho, z, t1, c, el, i) && RowLike(y)
  {
    hide Cong, Represents, Scale, Dot, IsOracle, NttValues, RedcValue, Leaf;
    var d := Scale(RINV, Dot(o, rho, i, z, el));
    RepresentsLeaf(r, d);
    forall j | 0 <= j < DEGREE ensures r[j] == Leaf(d, j) % Q {
      CongCanonical(r[j], Leaf(d, j), Q);
    }
  }

  function Shifted(t1: seq<int>): (s: seq<int>)
    requires Vector(t1, 1, 0, 1023)
    ensures Small(s) && s == Scale(8192, t1)
  {
    seq(DEGREE, m requires 0 <= m < DEGREE => t1[m] * 8192)
  }

  /** infinity_norm of every row of z. */
  method NormCheckRows(n: nat, z: seq<int>, g: int) returns (ok: bool)
    requires Vector(z, n, 0, Q - 1) && g > 0
    ensures ok <==> NormBelow(z, g)
  {
    hide Magnitude;
    for i := 0 to n
      invariant NormBelow(z[..i * DEGREE], g)
    {
      var row := FromSeq(Row(z, i));
      assert forall k :: 0 <= k < DEGREE ==> row[k] == row[..][k];
      ok := NormCheck(row, g);
      if !ok {
        NormOfRow(z, i, g);
        return;
      }
      NormAppend(z[..i * DEGREE], Row(z, i), g);
      assert z[..(i + 1) * DEGREE] == z[..i * DEGREE] + Row(z, i);
    }
    assert z[..n * DEGREE] == z;
    ok := true;
  }

  lemma NormOfRow(z: seq<int>, i: nat, g: int)
    requires (i + 1) * DEGREE <= |z| && !NormBelow(Row(z, i), g)
    ensures !NormBelow(z, g)
  {
    var m :| 0 <= m < DEGREE && !(Magnitude(Row(z, i)[m]) < g);
    assert z[i * DEGREE + m] == Row(z, i)[m];
  }

  lemma SigZRange(params: Params, sig: seq<int>)
    requires IsParams(params) && Bytes(sig, SigSize(params))
    ensures Vector(SigZ(params, sig), params.el, 0, Q - 1)
  {
    hide Recoded;
    Gamma1Bits(params);
  }

  /** The row loop of verify, from the unpacked signature on. */
  method RowLoop(checks: bool, o: Oracle, params: Params, k: Check, zh: seq<seq<int>>, ch: array<I32>) returns (r: Option<bool>)
    requires IsOracle(o) && IsParams(params) && CheckParts(params, k) && Transforms(zh, k.z, params.el)
    requires Vector(k.t1, params.ck, 0, 1023) && ch.Length == DEGREE && InBound(ch[..], 18) && Represents(ch[..], k.c)
    requires ch[..] == NttValues(k.c)
    ensures r == if VerifyFits(checks, o, params, k, 0, 0) then VerifyRows(o, params, k, 0, 0, []) else None
  {
    hide VerifyFits, VerifyRows, RowFits, RowInput, NttValues, EnoughFor, ModQ, Represents, Transforms, RRow, IsOracle, RowExpands,
      Pointer, HintedRow, ChallengeSeed, DecomposeHi;
    var hint := new Byte[HINT_BYTES](i requires 0 <= i < HINT_BYTES => k.h[i]);
    assert hint[..] == k.h;
    var hints := 0;
    var w1d: seq<int> := [];
    for i := 0 to params.ck
      invariant 0 <= hints <= params.omega && Vector(w1d, i, 0, params.dv as int / 2 - 1) && hint[..] == k.h
      invariant VerifyRows(o, params, k, 0, 0, []) == VerifyRows(o, params, k, i, hints, w1d)
      invariant VerifyFits(checks, o, params, k, 0, 0) <==> VerifyFits(checks, o, params, k, i, hints)
    {
      FitsRow(checks, o, params, k, i, hints);
      VerdictRow(o, params, k, i, hints, w1d);
      RowVectorOf(k.t1, params.ck, i);
      var row := VerifyRow(checks, o, params, k.rho, i, k.z, zh, Row(k.t1, i), ch, k.c);
      if row.None? {
        return None;
      }
      RRowRange(o, k.rho, k.z, Row(k.t1, i), k.c, params.el, i);
      var next, out := CorrectRow(params, hint, hints, i, row.value, RRow(o, k.rho, k.z, Row(k.t1, i), k.c, params.el, i));
      if next > params.omega {
        return Some(false);
      }
      VectorAppend(w1d, out, i, 0, params.dv as int / 2 - 1);
      w1d := w1d + out;
      hints := next;
    }
    FitsRow(checks, o, params, k, params.ck, hints);
    VerdictRow(o, params, k, params.ck, hints, w1d);
    var cct := H4(o, params, k.mu, w1d);
    r := Some(cct == k.ct);
  }

  /**
   The row loop of verify, from the unpacked signature on: the verdict of the specification, or none if a row it comes to lacks
   the headroom.
   */
  method CheckRows(checks: bool, o: Oracle, params: Params, k: Check, zh: seq<seq<int>>, ch: array<I32>) returns (r: Option<bool>)
    requires IsOracle(o) && IsParams(params) && CheckParts(params, k) && Transforms(zh, k.z, params.el)
    requires Vector(k.t1, params.ck, 0, 1023) && ch.Length == DEGREE && InBound(ch[..], 18) && Represents(ch[..], k.c)
    requires ch[..] == NttValues(k.c)
    ensures r == if VerifyFits(checks, o, params, k, 0, 0) then VerifyRows(o, params, k, 0, 0, []) else None
    ensures r == Some(true) <==>
      && VerifyFits(checks, o, params, k, 0, 0)
      && (forall n: nat :: n < params.ck ==> RowExpands(o, k.rho, n, params.el))
      && exists p, w1 :: Walked(o, params, k, p, w1) && (forall t :: 0 <= t <= params.ck ==> p[t] <= params.omega)
           && SeedOf(o, params, k.mu, w1) == k.ct
  {
    hide IsOracle, VerifyFits, VerifyRows, Walked, SeedOf, RowExpands;
    r := RowLoop(checks, o, params, k, zh, ch);
    RowsVerdict(o, params, k);
  }

  /** A row corrected by its hints, and the pointer reached; w is the row modulo q. */
  method CorrectRow(params: Params, hint: array<Byte>, hints: nat, i: nat, row: seq<int>,
                    ghost w: seq<int>) returns (next: nat, out: seq<int>)
    requires IsParams(params) && hint.Length == HINT_BYTES && IsBuffer(params, hint[..]) && hints <= params.omega && i < params.ck
    requires |row| == DEGREE && (forall j :: 0 <= j < DEGREE ==> -21 < row[j] < Q)
    requires w == ModQ(row) && forall j :: 0 <= j < DEGREE ==> 0 <= w[j] < Q
    ensures next == Pointer(hint[..], hint[params.omega + i], hints, DEGREE)
    ensures out == HintedRow(params.dv, hint[..], hint[params.omega + i], hints, w)
    ensures Vector(out, 1, 0, params.dv as int / 2 - 1)
  {
    hide Pointer, HintedRow, ModQ, DecomposeHi;
    NearlyCanonical(row, w);
    HintedResidues(params.dv, hint[..], hint[params.omega + i], hints, row, w);
    HintedRange(params, hint[..], hint[params.omega + i], hints, w);
    var a := FromSeq(row);
    assert forall j :: 0 <= j < DEGREE ==> a[j] == a[..][j];
    var r := new I8[DEGREE](j => 0);
    next := UsePartialHint(params, r, hint, hints, i, a);
    out := r[..];
  }

  lemma VerdictRow(o: Oracle, params: Params, k: Check, i: nat, ptr: nat, w1: seq<int>)
    requires IsOracle(o) && IsParams(params) && CheckParts(params, k) && i <= params.ck
    ensures i == params.ck && HighVector(params, w1) ==>
      VerifyRows(o, params, k, i, ptr, w1) == Some(ChallengeSeed(o, params, k.mu, w1) == k.ct)
    ensures i < params.ck && !RowExpands(o, k.rho, i, params.el) ==> VerifyRows(o, params, k, i, ptr, w1) == None
    ensures i < params.ck && RowExpands(o, k.rho, i, params.el) ==>
      var next := Pointer(k.h, k.h[params.omega + i], ptr, DEGREE);
      var row := HintedRow(params.dv, k.h, k.h[params.omega + i], ptr, RRow(o, k.rho, k.z, Row(k.t1, i), k.c, params.el, i));
      VerifyRows(o, params, k, i, ptr, w1) ==
        if next > params.omega then Some(false) else VerifyRows(o, params, k, i + 1, next, w1 + row)
  {
    hide IsOracle, RowExpands, Pointer, HintedRow, RRow, ChallengeSeed, HighVector;
  }

  lemma NearlyCanonical(w: seq<int>, v: seq<int>)
    requires |w| == DEGREE && v == ModQ(w) && forall j :: 0 <= j < DEGREE ==> -21 < w[j] < Q
    ensures forall j :: 0 <= j < DEGREE ==> v[j] == if w[j] < 0 then w[j] + Q else w[j]
  {
    forall j | 0 <= j < DEGREE ensures v[j] == if w[j] < 0 then w[j] + Q else w[j] {
      SignedResidue(w[j]);
    }
  }

  lemma FitsRow(checks: bool, o: Oracle, params: Params, k: Check, i: nat, ptr: nat)
    requires IsOracle(o) && IsParams(params) && CheckParts(params, k) && i <= params.ck
    ensures i == params.ck || !RowExpands(o, k.rho, i, params.el) ==> VerifyFits(checks, o, params, k, i, ptr)
    ensures i < params.ck && RowExpands(o, k.rho, i, params.el) ==>
      var next := Pointer(k.h, k.h[params.omega + i], ptr, DEGREE);
      VerifyFits(checks, o, params, k, i, ptr) <==>
        EnoughFor(checks, RowInput(o, k.rho, k.z, Row(k.t1, i), k.c, params.el, i))
        && (next <= params.omega ==> VerifyFits(checks, o, params, k, i + 1, next))
  {
    hide RowInput, EnoughFor, IsOracle, RowExpands, Pointer;
  }

  lemma RowVectorOf(v: seq<int>, n: nat, i: nat)
    requires Vector(v, n, 0, 1023) && i < n
    ensures Vector(Row(v, i), 1, 0, 1023)
  {
  }

  /** The steps of verify on the packed key and signature. */
  method VerifyBytes(checks: bool, o: Oracle, params: Params, pk: seq<int>, m: seq<int>, sig: seq<int>) returns (r: Option<bool>)
    requires IsOracle(o) && IsParams(params) && Bytes(pk, PkSize(params)) && Bytes(sig, SigSize(params))
    ensures r == if RowsFit(checks, o, params, pk, m, sig) then Verified(o, params, pk, m, sig) else None
  {
    hide Represents, Transforms, Challenge, NormBelow, VerifyRows, VerifyFits, NttValues, SigZ, SigH, PkT1, OneNorm, HintBuffer;
    var rho, t1 := UnpackPk(params, pk);
    var z, ct, h := UnpackSig(params, sig);
    SigZRange(params, sig);
    BoundsPositive(params);
    var ok := NormCheckRows(params.el, z, Gamma1(params) - Beta(params));
    if !ok {
      return Some(false);
    }
    var zh := TransformRows(params.el, z);
    var tr := o.shake256(pk, 32);
    var mu := Mu(o, tr, m);
    var c := SampleInBall(params, o.shake256(ct, 136));
    if c.None? {
      return None;
    }
    ChallengeShape(o, params, ct);
    var ch := NttOf(c.value);
    r := CheckRows(checks, o, params, Check(rho, t1, z, c.value, HintBuffer(params, h), mu, ct), zh, ch);
  }

  /**
   verify in a build with or without overflow checks: the verdict of the specification, or none exactly if a row it comes to lacks
   the headroom for that build or a sampler runs out; and, said outright, the signatures it accepts.
   */
  method Verify(checks: bool, o: Oracle, params: Params, pk: seq<int>, m: seq<int>, sig: seq<int>) returns (r: Option<bool>)
    requires IsOracle(o) && IsParams(params) && Bytes(pk, PkSize(params)) && Bytes(sig, SigSize(params))
    ensures r == if RowsFit(checks, o, params, pk, m, sig) then Verified(o, params, pk, m, sig) else None
    ensures r == Some(true) <==>
      && RowsFit(checks, o, params, pk, m, sig)
      && (forall n :: 0 <= n < params.el * DEGREE ==> Magnitude(SigZ(params, sig)[n]) < Gamma1(params) - params.tau * params.eta)
      && (forall i: nat :: i < params.ck ==> RowExpands(o, PkRho(pk), i, params.el))
      && exists c, p, w1 ::
           && |c| == DEGREE && ChallengeOf(o, params, SigCt(sig)) == Some(c)
           && Recomputed(o, params, pk, sig, c, p, w1)
           && (forall i :: 0 <= i <= params.ck ==> p[i] <= params.omega)
           && SeedOf(o, params, o.shake256(o.shake256(pk, 32) + m, 64), w1) == SigCt(sig)
  {
    hide IsOracle, Verified, RowsFit, Recomputed, SeedOf, RowExpands, SigZ, Challenge, Magnitude;
    r := VerifyBytes(checks, o, params, pk, m, sig);
    VerdictExact(o, params, pk, m, sig);
  }
}
