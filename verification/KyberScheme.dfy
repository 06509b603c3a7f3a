/** The cpa_* and cca_* functions of kyber.rs, proved to compute what KyberSpec says without leaving i16. */
module KyberScheme {
  import opened Wrappers
  import opened BitStream
  import opened Congruence
  import opened QuotientRing
  import opened TransformTree
  import opened PolyVector
  import opened KyberTables
  import opened KyberArith
  import opened KyberNtt
  import opened KyberPoly
  import opened KyberCodec
  import opened KyberSampling
  import opened KyberSpec
  import opened KyberCorrectness

  method FromSeq(p: seq<int>) returns (a: array<I16>)
    requires |p| == DEGREE && InRange(p, 0x7FFF)
    ensures fresh(a) && a.Length == DEGREE && a[..] == p
  {
    a := new I16[DEGREE](i => 0);
    for i := 0 to DEGREE
      invariant forall j :: 0 <= j < i ==> a[j] == p[j]
    {
      assert Within(p[i], 0x7FFF);
      a[i] := p[i];
    }
  }

  lemma RowInRange(v: seq<int>, m: int, i: nat)
    requires InRange(v, m) && (i + 1) * DEGREE <= |v|
    ensures InRange(Row(v, i), m)
  {
  }

  lemma InRangeWiden(x: seq<int>, m: int, m': int)
    requires InRange(x, m) && m <= m'
    ensures InRange(x, m')
  {
    forall j | 0 <= j < |x| ensures Within(x[j], m') {
      assert Within(x[j], m);
    }
  }

  lemma VectorInRange(v: seq<int>, n: nat, lo: int, hi: int, m: int)
    requires Vector(v, n, lo, hi) && -m <= lo && hi <= m
    ensures InRange(v, m)
  {
  }

  // ----- transforms of vectors -----

  /** The rows of h represent those of v and are Barrett-reduced. */
  ghost predicate Transforms(h: seq<int>, v: seq<int>, n: nat) {
    && |h| == |v| == n * DEGREE && InRange(h, 1664)
    && forall i: nat :: i < n ==> Represents(Row(h, i), Row(v, i))
  }

  lemma TransformsAppend(h: seq<int>, v: seq<int>, n: nat, x: seq<int>, p: Poly)
    requires Transforms(h, v, n) && Represents(x, p) && InRange(x, 1664)
    ensures |x| == |p| == DEGREE && Transforms(h + x, v + p, n + 1)
  {
    hide Represents, Row;
    RepresentsShape(x, p);
    RowsAppend(h, x, n);
    RowsAppend(v, p, n);
  }

  lemma TransformsRow(h: seq<int>, v: seq<int>, n: nat, i: nat)
    requires Transforms(h, v, n) && i < n
    ensures Represents(Row(h, i), Row(v, i)) && InRange(Row(h, i), 1664)
  {
    hide Represents;
    RowInRange(h, 1664, i);
  }

  /** poly_ntt of every row. */
  method TransformRows(v: seq<int>, n: nat) returns (h: seq<int>)
    requires |v| == n * DEGREE && InRange(v, Q)
    ensures Transforms(h, v, n)
  {
    hide Represents, Row;
    h := [];
    for i := 0 to n
      invariant Transforms(h, v[..i * DEGREE], i)
    {
      RowInRange(v, Q, i);
      InRangeWiden(Row(v, i), Q, 0x7FFF);
      var a := FromSeq(Row(v, i));
      PolyNtt(a);
      TransformsAppend(h, v[..i * DEGREE], i, a[..], Row(v, i));
      PrefixRow(v, i);
      h := h + a[..];
    }
    assert v[..n * DEGREE] == v;
  }

  lemma PrefixRow(v: seq<int>, i: nat)
    requires (i + 1) * DEGREE <= |v|
    ensures v[..(i + 1) * DEGREE] == v[..i * DEGREE] + Row(v, i)
  {
  }

  // ----- sums of products -----

  /** poly_mul of two transforms, in either argument order. */
  method Product(x: seq<int>, y: seq<int>, flip: bool, ghost a: Poly, ghost b: Poly) returns (r: array<I16>)
    requires Represents(x, a) && Represents(y, b) && InRange(x, 4095) && InRange(y, 1664)
    ensures |a| == |b| == DEGREE && fresh(r) && r.Length == DEGREE && InRange(r[..], 3536)
    ensures Represents(r[..], Scale(RINV, MulMod(-1, a, b)))
  {
    hide Represents, Products, MulMod, Scale;
    RepresentsShape(x, a);
    RepresentsShape(y, b);
    InRangeWiden(x, 4095, 0x7FFF);
    InRangeWiden(y, 1664, 0x7FFF);
    var p := FromSeq(x);
    var s := FromSeq(y);
    r := new I16[DEGREE](i => 0);
    if flip {
      PolyMul(r, s, p, 1664, 4095);
      ProductRepresents(y, b, x, a, r[..]);
      MulModCommutes(-1, a, b);
    } else {
      PolyMul(r, p, s, 4095, 1664);
      ProductRepresents(x, a, y, b, r[..]);
    }
  }

  /** poly_acc of a sum of products. */
  method Accumulate(r: array<I16>, w: array<I16>, ghost d: Poly, ghost c: Poly, ghost n: nat)
    requires r.Length == w.Length == DEGREE && r != w && 1 <= n <= 3 && |d| == |c| == DEGREE
    requires InRange(r[..], 3536 * n) && InRange(w[..], 3536)
    requires Represents(r[..], Scale(RINV, d)) && Represents(w[..], Scale(RINV, c))
    modifies r
    ensures InRange(r[..], 3536 * (n + 1)) && Represents(r[..], Scale(RINV, Add(d, c)))
  {
    hide Represents, Scale, Add;
    SumRepresents(r[..], Scale(RINV, d), w[..], Scale(RINV, c));
    ScaleOfSum(RINV, d, c);
    PolyAcc(r, w, 3536 * n, 3536);
  }

  lemma AddZeroLeft(p: Poly)
    requires |p| == DEGREE
    ensures Add(Zero(DEGREE), p) == p
  {
  }

  lemma ElementCarries(o: Oracle, rho: seq<int>, i: nat, j: nat)
    requires IsOracle(o) && MatrixElement(o, rho, i, j).Some?
    ensures Represents(MatrixElement(o, rho, i, j).value, MatrixPoly(o, rho, i, j))
    ensures InRange(MatrixElement(o, rho, i, j).value, 4095)
  {
    hide IsOracle, IsTransform, InverseTransform, UniformPoly;
    var x := MatrixElement(o, rho, i, j).value;
    TransformOfInverse(x);
    VectorInRange(x, 1, 0, Q - 1, 4095);
  }

  /** Whether the elements of row i, or column i, can be sampled. */
  ghost predicate LineExpands(o: Oracle, rho: seq<int>, transposed: bool, i: nat, n: nat)
    requires IsOracle(o)
  {
    forall j: nat :: j < n ==> (if transposed then MatrixElement(o, rho, j, i) else MatrixElement(o, rho, i, j)).Some?
  }

  /** expandaij of element (i, j) of A or of its transpose, times row j of a vector. */
  method Term(o: Oracle, rho: seq<int>, transposed: bool, i: nat, j: nat, y: seq<int>, ghost b: Poly)
    returns (ok: bool, r: array<I16>)
    requires IsOracle(o) && Represents(y, b) && InRange(y, 1664)
    ensures ok <==> (if transposed then MatrixElement(o, rho, j, i) else MatrixElement(o, rho, i, j)).Some?
    ensures |b| == DEGREE && fresh(r) && r.Length == DEGREE
    ensures ok ==> InRange(r[..], 3536)
    ensures ok ==> Represents(r[..], Scale(RINV, MulMod(-1, Element(o, rho, transposed, i, j), b)))
  {
    hide Represents, Scale, MulMod, UniformPoly, MatrixPoly;
    RepresentsShape(y, b);
    var i', j' := if transposed then j else i, if transposed then i else j;
    var a := ExpandAij(o.shake128(rho + [j' % 256, i' % 256], 3 * DEGREE));
    if a.None? {
      r := new I16[DEGREE](k => 0);
      return false, r;
    }
    ElementCarries(o, rho, i', j');
    r := Product(a.value, y, j > 0, MatrixPoly(o, rho, i', j'), b);
    ok := true;
  }

  /** Row i of A v, or of A^T v, as an unreduced sum of products of transforms. */
  method RowProduct(o: Oracle, rho: seq<int>, transposed: bool, i: nat, h: seq<int>, n: nat, ghost v: seq<int>)
    returns (ok: bool, r: array<I16>)
    requires IsOracle(o) && Transforms(h, v, n) && 1 <= n <= 4
    ensures ok <==> LineExpands(o, rho, transposed, i, n)
    ensures fresh(r) && r.Length == DEGREE
    ensures ok ==> InRange(r[..], 3536 * n) && Represents(r[..], Scale(RINV, RowDot(o, rho, transposed, i, v, n)))
  {
    hide Represents, Scale, MulMod, MatrixElement, Element, IsOracle, Add, Transforms, Row, Zero;
    TransformsShape(h, v, n);
    TransformsRow(h, v, n, 0);
    ok, r := Term(o, rho, transposed, i, 0, Row(h, 0), Row(v, 0));
    if !ok {
      return;
    }
    FirstTerm(o, rho, transposed, i, v);
    for j := 1 to n
      invariant fresh(r) && InRange(r[..], 3536 * j)
      invariant Represents(r[..], Scale(RINV, RowDot(o, rho, transposed, i, v, j)))
      invariant LineExpands(o, rho, transposed, i, j)
    {
      TransformsRow(h, v, n, j);
      var w;
      ok, w := Term(o, rho, transposed, i, j, Row(h, j), Row(v, j));
      if !ok {
        return;
      }
      Accumulate(r, w, RowDot(o, rho, transposed, i, v, j), MulMod(-1, Element(o, rho, transposed, i, j), Row(v, j)), j);
    }
  }

  lemma FirstTerm(o: Oracle, rho: seq<int>, transposed: bool, i: nat, v: seq<int>)
    requires IsOracle(o) && DEGREE <= |v|
    ensures RowDot(o, rho, transposed, i, v, 1) == MulMod(-1, Element(o, rho, transposed, i, 0), Row(v, 0))
  {
    hide MulMod, Element, IsOracle, Add, Row, Zero;
    AddZeroLeft(MulMod(-1, Element(o, rho, transposed, i, 0), Row(v, 0)));
  }

  lemma TransformsShape(h: seq<int>, v: seq<int>, n: nat)
    requires Transforms(h, v, n)
    ensures |h| == |v| == n * DEGREE && InRange(h, 1664)
  {
    hide Represents;
  }

  lemma DecodedRow(d: seq<int>, n: nat, i: nat)
    requires Fits(12, d) && |d| == n * DEGREE && i < n
    ensures InRange(Row(d, i), 4095) && Represents(Row(d, i), Row(Untransformed(d, n), i))
  {
    hide IsTransform, InverseTransform, Untransformed;
    Powers();
    UntransformedRow(d, n, i);
    TransformOfInverse(Row(d, i));
  }

  /** The product of a decoded vector of transforms with a vector, as an unreduced sum. */
  method HatProduct(d: seq<int>, h: seq<int>, n: nat, flip: bool, ghost v: seq<int>) returns (r: array<I16>)
    requires Fits(12, d) && |d| == n * DEGREE && Transforms(h, v, n) && 1 <= n <= 4
    ensures fresh(r) && r.Length == DEGREE && InRange(r[..], 3536 * n)
    ensures |v| == n * DEGREE && Represents(r[..], Scale(RINV, Dot(Untransformed(d, n), v, n)))
  {
    hide Represents, Scale, MulMod, Untransformed, Add, Transforms, Row, Fits, Zero;
    TransformsShape(h, v, n);
    ghost var a := Untransformed(d, n);
    DecodedRow(d, n, 0);
    TransformsRow(h, v, n, 0);
    r := Product(Row(d, 0), Row(h, 0), flip, Row(a, 0), Row(v, 0));
    AddZeroLeft(MulMod(-1, Row(a, 0), Row(v, 0)));
    for i := 1 to n
      invariant fresh(r) && InRange(r[..], 3536 * i) && Represents(r[..], Scale(RINV, Dot(a, v, i)))
    {
      DecodedRow(d, n, i);
      TransformsRow(h, v, n, i);
      var w := Product(Row(d, i), Row(h, i), flip, Row(a, i), Row(v, i));
      Accumulate(r, w, Dot(a, v, i), MulMod(-1, Row(a, i), Row(v, i)), i);
    }
  }

  // ----- cpa_keypair -----

  method KeyNoiseRows(o: Oracle, params: Params, sigma: seq<int>, from: nat, n: nat) returns (v: seq<int>)
    requires IsOracle(o)
    ensures v == KeyNoiseVector(o, params, sigma, from, n)
  {
    hide Binomial, Vector;
    v := [];
    for i := 0 to n
      invariant v == KeyNoiseVector(o, params, sigma, from, i)
    {
      var f := Cbd(o.shake256(sigma + [from + i], 64 * params.eta1), params.eta1);
      v := v + f;
    }
  }

  /** Row i of A s + e in the transform domain, Barrett-reduced. */
  method KeyRow(o: Oracle, params: Params, rho: seq<int>, i: nat, sHat: seq<int>, eHat: seq<int>,
                ghost s: seq<int>, ghost e: Poly)
    returns (ok: bool, p: seq<int>)
    requires IsOracle(o) && IsParams(params) && Transforms(sHat, s, params.ck) && Represents(eHat, e) && InRange(eHat, 1664)
    ensures |s| == params.ck * DEGREE && |e| == DEGREE
    ensures ok <==> LineExpands(o, rho, false, i, params.ck)
    ensures ok ==> InRange(p, 1664) && Represents(p, Add(RowDot(o, rho, false, i, s, params.ck), e))
  {
    hide Represents, Scale, IsOracle, Add, Transforms, RowDot, LineExpands, Cong, SeqCong, InRange;
    TransformsShape(sHat, s, params.ck);
    RepresentsShape(eHat, e);
    var r;
    ok, r := RowProduct(o, rho, false, i, sHat, params.ck, s);
    p := [];
    if !ok {
      return;
    }
    ghost var x := r[..];
    InRangeWiden(x, 3536 * params.ck, 31625);
    PolyReduce(r);
    ghost var d := RowDot(o, rho, false, i, s, params.ck);
    RepresentsReduced(x, r[..], Scale(RINV, d));
    ghost var y := r[..];
    PolyToMont(r);
    ToMontRepresents(y, r[..], d);
    InRangeWiden(eHat, 1664, 0x7FFF);
    var ea := FromSeq(eHat);
    var t := new I16[DEGREE](k => 0);
    SumRepresents(r[..], d, eHat, e);
    PolyAdd(t, r, ea, 1698, 1664);
    ghost var z := t[..];
    InRangeWiden(z, 3362, 31625);
    PolyReduce(t);
    RepresentsReduced(z, t[..], Add(d, e));
    p := t[..];
  }

  /** A Barrett-reduced vector of transforms, written with encode and read with decode, carries its vector. */
  lemma EncodedCarries(h: seq<int>, v: seq<int>, n: nat, rest: seq<int>)
    requires Transforms(h, v, n) && Bytes(rest, |rest|)
    ensures Encodable(h, n, 12) && Carries(Decoded(Encoded(h, n, 12) + rest, 12, n), v, n)
  {
    hide Encoded, Decoded, Represents, Encodable;
    TransformsShape(h, v, n);
    SmallValues(h);
    DecodedResidues(h, n, rest);
    var d := Decoded(Encoded(h, n, 12) + rest, 12, n);
    forall i: nat | i < n ensures Represents(Row(d, i), Row(v, i)) {
      ResidueRow(d, h, i);
      RepresentsReduced(Row(h, i), Row(d, i), Row(v, i));
    }
  }

  lemma SmallValues(h: seq<int>)
    requires InRange(h, 1664)
    ensures forall i :: 0 <= i < |h| ==> -Q < h[i] < Q
  {
    forall i | 0 <= i < |h| ensures -Q < h[i] < Q {
      assert Within(h[i], 1664);
    }
  }

  lemma ResidueRow(d: seq<int>, h: seq<int>, i: nat)
    requires |d| == |h| && (i + 1) * DEGREE <= |h| && forall k :: 0 <= k < |h| ==> d[k] == h[k] % Q
    ensures SeqCong(Row(d, i), Row(h, i), Q)
  {
    hide Cong;
    forall k | 0 <= k < DEGREE ensures Cong(Row(d, i)[k], Row(h, i)[k], Q) {
      CongMod(Row(h, i)[k], Q);
    }
  }

  /** All rows of A s + e. */
  method KeyRows(o: Oracle, params: Params, rho: seq<int>, sHat: seq<int>, eHat: seq<int>, ghost s: seq<int>, ghost e: seq<int>)
    returns (ok: bool, p: seq<int>)
    requires IsOracle(o) && IsParams(params) && Transforms(sHat, s, params.ck) && Transforms(eHat, e, params.ck)
    ensures |s| == |e| == params.ck * DEGREE && (ok <==> MatrixExpands(o, rho, params.ck))
    ensures ok ==> Transforms(p, PublicVector(o, params, rho, s, e, params.ck), params.ck)
  {
    hide Represents, IsOracle, Add, Transforms, RowDot, MatrixElement, Row;
    TransformsShape(sHat, s, params.ck);
    TransformsShape(eHat, e, params.ck);
    p := [];
    NoTransforms();
    for i := 0 to params.ck
      invariant Transforms(p, PublicVector(o, params, rho, s, e, i), i)
      invariant forall k: nat :: k < i ==> LineExpands(o, rho, false, k, params.ck)
    {
      TransformsRow(eHat, e, params.ck, i);
      var row;
      ok, row := KeyRow(o, params, rho, i, sHat, Row(eHat, i), s, Row(e, i));
      if !ok {
        return;
      }
      TransformsAppend(p, PublicVector(o, params, rho, s, e, i), i, row, Add(RowDot(o, rho, false, i, s, params.ck), Row(e, i)));
      p := p + row;
    }
    ok := true;
    LinesExpand(o, rho, params.ck);
  }

  lemma LinesExpand(o: Oracle, rho: seq<int>, n: nat)
    requires IsOracle(o) && forall k: nat :: k < n ==> LineExpands(o, rho, false, k, n)
    ensures MatrixExpands(o, rho, n)
  {
    hide MatrixElement, IsOracle;
    forall i: nat, j: nat | i < n && j < n ensures MatrixElement(o, rho, i, j).Some? {
      assert LineExpands(o, rho, false, i, n);
    }
  }

  lemma NoTransforms()
    ensures Transforms([], [], 0)
  {
  }

  /** cpa_keypair; not ok where the matrix sampler runs out of bytes and the source panics. */
  method CpaKeypair(o: Oracle, params: Params, tau: seq<int>) returns (ok: bool, sk: seq<int>, pk: seq<int>)
    requires IsOracle(o) && IsParams(params) && |tau| >= 32
    ensures ok <==> MatrixExpands(o, o.hash512(tau[..32])[..32], params.ck)
    ensures ok ==> Bytes(sk, VectorSize(params)) && Bytes(pk, PkSize(params)) && PkRho(params, pk) == o.hash512(tau[..32])[..32]
    ensures ok ==> IsKeyPair(o, params, sk, pk, KeyNoiseVector(o, params, o.hash512(tau[..32])[32..], 0, params.ck),
                             KeyNoiseVector(o, params, o.hash512(tau[..32])[32..], params.ck, params.ck))
  {
    hide MatrixExpands, KeyNoiseVector, Transforms, Carries, Decoded, Encoded, Encodable, PublicVector;
    var buff := o.hash512(tau[..32]);
    var rho, sigma := buff[..32], buff[32..];
    sk, pk := [], [];
    var s := KeyNoiseRows(o, params, sigma, 0, params.ck);
    var e := KeyNoiseRows(o, params, sigma, params.ck, params.ck);
    VectorInRange(s, params.ck, 0 - params.eta1, params.eta1, Q);
    VectorInRange(e, params.ck, 0 - params.eta1, params.eta1, Q);
    var sHat := TransformRows(s, params.ck);
    var eHat := TransformRows(e, params.ck);
    var p;
    ok, p := KeyRows(o, params, rho, sHat, eHat, s, e);
    if !ok {
      return;
    }
    EncodedCarries(sHat, s, params.ck, []);
    EncodedCarries(p, PublicVector(o, params, rho, s, e, params.ck), params.ck, rho);
    sk := Encode(sHat, params.ck, 12);
    var t := Encode(p, params.ck, 12);
    pk := t + rho;
    assert sk + [] == sk;
    assert PkRho(params, pk) == rho;
  }

  // ----- cpa_base_encrypt -----

  /** Noise polynomials from .. from + n, drawn through the shared buffer. */
  method NoiseRows(o: Oracle, params: Params, coins: seq<int>, from: nat, n: nat,
                   buff0: seq<int>) returns (v: seq<int>, buff: seq<int>)
    requires IsOracle(o) && IsParams(params) && buff0 == NoiseBuffer(o, params, coins, from)
    requires from + n <= params.ck || params.ck <= from
    ensures v == NoiseVector(o, params, coins, from, n) && buff == NoiseBuffer(o, params, coins, from + n)
  {
    hide Binomial, Fill, NoiseBuffer, NoiseVector;
    v, buff := [], buff0;
    NoNoise(o, params, coins, from);
    for i := 0 to n
      invariant v == NoiseVector(o, params, coins, from, i) && buff == NoiseBuffer(o, params, coins, from + i)
    {
      NoiseStep(o, params, coins, from, i);
      var eta := if from + i < params.ck then params.eta1 else params.eta2;
      buff := Fill(buff, o.shake256(coins + [from + i], 64 * eta));
      var f := Cbd(buff, params.eta1);
      v := v + f;
    }
  }

  lemma NoNoise(o: Oracle, params: Params, coins: seq<int>, from: nat)
    requires IsOracle(o) && IsParams(params)
    ensures NoiseVector(o, params, coins, from, 0) == []
  {
  }

  lemma NoiseStep(o: Oracle, params: Params, coins: seq<int>, from: nat, i: nat)
    requires IsOracle(o) && IsParams(params)
    ensures var eta := if from + i < params.ck then params.eta1 else params.eta2;
      && |o.shake256(coins + [from + i], 64 * eta)| <= 256
      && NoiseBuffer(o, params, coins, from + i + 1) == Fill(NoiseBuffer(o, params, coins, from + i), o.shake256(coins + [from + i], 64 * eta))
    ensures NoiseVector(o, params, coins, from, i + 1)
         == NoiseVector(o, params, coins, from, i) + Binomial(NoiseBuffer(o, params, coins, from + i + 1), params.eta1)
  {
    hide Binomial, Fill;
  }

  /** Compression of anything congruent to p. */
  lemma CompressedOfCong(d: nat, x: seq<int>, p: Poly)
    requires IsWidth(d) && SeqCong(x, p, Q) && AtLeast(x, 0 - Q)
    ensures Compressed(d, x) == CompressedPoly(d, p)
  {
    hide Compress, Cong;
    forall i | 0 <= i < |x| ensures Compressed(d, x)[i] == CompressedPoly(d, p)[i] {
      CongMod(p[i], Q);
      CongSym(p[i] % Q, p[i], Q);
      CongTrans(x[i], p[i], p[i] % Q, Q);
      CompressCong(d, x[i], p[i] % Q);
    }
  }

  lemma InRangeAtLeast(x: seq<int>, m: int)
    requires InRange(x, m) && m <= Q
    ensures AtLeast(x, 0 - Q)
  {
    forall i | 0 <= i < |x| ensures 0 - Q <= x[i] {
      assert Within(x[i], m);
    }
  }

  /** poly_invntt of a sum of products: the plain polynomial modulo Q. */
  method BackTransform(r: array<I16>, ghost d: Poly)
    requires r.Length == DEGREE && InRange(r[..], INV_MAX) && |d| == DEGREE && Represents(r[..], Scale(RINV, d))
    modifies r
    ensures InRange(r[..], 1976) && SeqCong(r[..], d, Q)
  {
    hide Represents, Cong, Scale, SeqCong, InverseTransform;
    ghost var x := r[..];
    InvNtt(r);
    InvNttValue(x, d, r[..]);
  }

  /** Row i of u: transform back, add e1, reduce, compress. */
  method EncryptRow(o: Oracle, params: Params, rho: seq<int>, r: Ephemeral, i: nat,
                    qHat: seq<int>) returns (ok: bool, u: seq<int>)
    requires IsOracle(o) && IsParams(params) && IsEphemeral(params, r) && i < params.ck && Transforms(qHat, r.q, params.ck)
    requires InRange(r.e1, 3)
    ensures ok <==> LineExpands(o, rho, true, i, params.ck)
    ensures ok ==> u == CompressedPoly(params.du, URow(o, params, rho, r, i))
  {
    hide Represents, Scale, IsOracle, Add, Transforms, RowDot, LineExpands, Cong, SeqCong, Row, Compressed, InRange, AtLeast;
    u := [];
    var w;
    ok, w := RowProduct(o, rho, true, i, qHat, params.ck, r.q);
    if !ok {
      return;
    }
    ghost var x := w[..];
    ghost var d := RowDot(o, rho, true, i, r.q, params.ck);
    InRangeWiden(x, 3536 * params.ck, 31625);
    PolyReduce(w);
    RepresentsReduced(x, w[..], Scale(RINV, d));
    InRangeWiden(w[..], 1664, INV_MAX);
    BackTransform(w, d);
    RowInRange(r.e1, 3, i);
    InRangeWiden(Row(r.e1, i), 3, 0x7FFF);
    var a := FromSeq(Row(r.e1, i));
    SeqCongRefl(Row(r.e1, i), Q);
    AddCong(a[..], Row(r.e1, i), w[..], d, Q);
    PolyAcc(a, w, 3, 1976);
    InRangeWiden(a[..], 1979, 31625);
    u := ReduceAndCompress(a, params.du, URow(o, params, rho, r, i));
  }

  /** poly_reduce followed by compress. */
  method ReduceAndCompress(a: array<I16>, d: nat, ghost p: Poly) returns (y: seq<int>)
    requires a.Length == DEGREE && IsWidth(d) && InRange(a[..], 31625)
    requires SeqCong(a[..], p, Q)
    modifies a
    ensures y == CompressedPoly(d, p)
  {
    hide SeqCong, Compressed, InRange, AtLeast;
    ghost var x := a[..];
    PolyReduce(a);
    SeqCongTrans(a[..], x, p, Q);
    InRangeAtLeast(a[..], 1664);
    CompressedOfCong(d, a[..], p);
    CompressInPlace(a, d);
    y := a[..];
  }

  /** All rows of u, compressed. */
  method EncryptRows(o: Oracle, params: Params, rho: seq<int>, r: Ephemeral, qHat: seq<int>) returns (ok: bool, u: seq<int>)
    requires IsOracle(o) && IsParams(params) && IsEphemeral(params, r) && Transforms(qHat, r.q, params.ck) && InRange(r.e1, 3)
    ensures ok <==> MatrixExpands(o, rho, params.ck)
    ensures ok ==> u == CompressedU(o, params, rho, r, params.ck)
  {
    hide IsOracle, Transforms, MatrixElement, CompressedPoly, URow;
    u := [];
    for i := 0 to params.ck
      invariant u == CompressedU(o, params, rho, r, i)
      invariant forall k: nat :: k < i ==> LineExpands(o, rho, true, k, params.ck)
    {
      var row;
      ok, row := EncryptRow(o, params, rho, r, i, qHat);
      if !ok {
        return;
      }
      u := u + row;
    }
    ok := true;
    ColumnsExpand(o, rho, params.ck);
  }

  lemma ColumnsExpand(o: Oracle, rho: seq<int>, n: nat)
    requires IsOracle(o) && forall k: nat :: k < n ==> LineExpands(o, rho, true, k, n)
    ensures MatrixExpands(o, rho, n)
  {
    hide MatrixElement, IsOracle;
    forall i: nat, j: nat | i < n && j < n ensures MatrixElement(o, rho, i, j).Some? {
      assert LineExpands(o, rho, true, j, n);
    }
  }

  lemma MessageInRange(b: seq<int>)
    requires forall i :: 0 <= i < |b| ==> 0 <= b[i] <= 1
    ensures InRange(Decompressed(1, b), 1665)
  {
    Widths(1);
  }

  lemma BitsFit(b: seq<int>)
    requires Fits(1, b)
    ensures forall i :: 0 <= i < |b| ==> 0 <= b[i] < Pow2(1) && b[i] <= 1
  {
    Widths(1);
  }

  /** v: the product with the public key, transformed back, plus e2 and the message; reduced and compressed. */
  method EncryptV(params: Params, pkHat: seq<int>, r: Ephemeral, m: seq<int>, qHat: seq<int>) returns (v: seq<int>)
    requires IsParams(params) && IsEphemeral(params, r) && Transforms(qHat, r.q, params.ck) && InRange(r.e2, 3) && Bytes(m, 32)
    requires Fits(12, pkHat) && |pkHat| == params.ck * DEGREE
    ensures v == CompressedPoly(params.dv, VPoly(params, pkHat, r, m))
  {
    hide Represents, Scale, Add, Transforms, Dot, Cong, SeqCong, CompressedPoly, Fits, Untransformed, InRange, Decoded,
      Decompressed, Pow2;
    var a := HatProduct(pkHat, qHat, params.ck, false, r.q);
    ghost var d := Dot(Untransformed(pkHat, params.ck), r.q, params.ck);
    InRangeWiden(a[..], 3536 * params.ck, INV_MAX);
    BackTransform(a, d);
    InRangeWiden(r.e2, 3, 0x7FFF);
    var w := FromSeq(r.e2);
    SeqCongRefl(r.e2, Q);
    AddCong(a[..], d, r.e2, r.e2, Q);
    PolyAcc(a, w, 1976, 3);
    var bits := Decode(m, 1, 1);
    BitsFit(bits);
    BitsInRange(bits);
    var b := FromSeq(bits);
    DecompressInPlace(b, 1);
    MessageInRange(bits);
    SeqCongRefl(b[..], Q);
    AddCong(a[..], Add(d, r.e2), b[..], b[..], Q);
    PolyAcc(a, b, 1979, 1665);
    InRangeWiden(a[..], 3644, 31625);
    v := ReduceAndCompress(a, params.dv, VPoly(params, pkHat, r, m));
  }

  lemma BitsInRange(b: seq<int>)
    requires forall i :: 0 <= i < |b| ==> 0 <= b[i] < Pow2(1) && b[i] <= 1
    ensures InRange(b, 0x7FFF)
  {
  }

  /** q, e1 and e2 of one encryption. */
  method DrawEphemeral(o: Oracle, params: Params, coins: seq<int>) returns (r: Ephemeral)
    requires IsOracle(o) && IsParams(params)
    ensures r == EphemeralOf(o, params, coins) && InRange(r.q, 3) && InRange(r.e1, 3) && InRange(r.e2, 3)
  {
    hide NoiseVector, NoiseBuffer, Noise;
    var q, e1, e2, b0, b1, b2;
    EmptyBuffer(o, params, coins);
    q, b0 := NoiseRows(o, params, coins, 0, params.ck, Zero(256));
    e1, b1 := NoiseRows(o, params, coins, params.ck, params.ck, b0);
    e2, b2 := NoiseRows(o, params, coins, 2 * params.ck, 1, b1);
    OneNoiseRow(o, params, coins, 2 * params.ck);
    VectorInRange(q, params.ck, 0 - params.eta1, params.eta1, 3);
    VectorInRange(e1, params.ck, 0 - params.eta1, params.eta1, 3);
    VectorInRange(e2, 1, 0 - params.eta1, params.eta1, 3);
    r := Ephemeral(q, e1, e2);
  }

  lemma EmptyBuffer(o: Oracle, params: Params, coins: seq<int>)
    requires IsOracle(o) && IsParams(params)
    ensures NoiseBuffer(o, params, coins, 0) == Zero(256)
  {
  }

  lemma OneNoiseRow(o: Oracle, params: Params, coins: seq<int>, from: nat)
    requires IsOracle(o) && IsParams(params)
    ensures NoiseVector(o, params, coins, from, 1) == Noise(o, params, coins, from)
  {
    hide Noise, IsOracle;
    assert NoiseVector(o, params, coins, from, 0) == [];
    assert NoiseVector(o, params, coins, from, 1) == [] + Noise(o, params, coins, from);
  }

  /** cpa_base_encrypt. */
  method CpaBaseEncrypt(o: Oracle, params: Params, coins: seq<int>, pk: seq<int>, m: seq<int>) returns (ok: bool,
                        u: seq<int>, v: seq<int>)
    requires IsOracle(o) && IsParams(params) && |coins| >= 32 && Bytes(pk, PkSize(params)) && Bytes(m, 32)
    ensures ok <==> MatrixExpands(o, PkRho(params, pk), params.ck)
    ensures ok ==> Encodable(u, params.ck, params.du) && Encodable(v, 1, params.dv)
    ensures ok ==> CtBytes(params, u, v) == Ciphertext(o, params, pk, EphemeralOf(o, params, coins[..32]), m)
  {
    hide IsOracle, MatrixExpands, Transforms, CompressedU, CompressedPoly, VPoly, EphemeralOf, InRange, Decoded, CtBytes, Fits, Normed;
    u, v := [], [];
    var r := DrawEphemeral(o, params, coins[..32]);
    InRangeWiden(r.q, 3, Q);
    var qHat := TransformRows(r.q, params.ck);
    ok, u := EncryptRows(o, params, PkRho(params, pk), r, qHat);
    if !ok {
      return;
    }
    var pkHat := Decode(pk, 12, params.ck);
    v := EncryptV(params, pkHat, r, m, qHat);
    CompressedUFits(o, params, PkRho(params, pk), r, params.ck);
    CompressedFits(params.dv, VPoly(params, pkHat, r, m));
  }

  /** cpa_encrypt. */
  method CpaEncrypt(o: Oracle, params: Params, coins: seq<int>, pk: seq<int>, m: seq<int>) returns (ct: Option<seq<int>>)
    requires IsOracle(o) && IsParams(params) && |coins| >= 32 && Bytes(pk, PkSize(params)) && Bytes(m, 32)
    ensures ct == Encryption(o, params, coins, pk, m)
  {
    hide IsOracle, MatrixExpands, Ciphertext, EphemeralOf, Encoded, Encodable, PkRho;
    var ok, u, v := CpaBaseEncrypt(o, params, coins, pk, m);
    if !ok {
      return None;
    }
    var a := Encode(u, params.ck, params.du);
    var b := Encode(v, 1, params.dv);
    ct := Some(a + b);
  }

  lemma PrefixConcat(a: seq<int>, b: seq<int>, ct: seq<int>)
    requires |a| + |b| <= |ct|
    ensures a + b == ct[..|a| + |b|] <==> a == ct[..|a|] && b == ct[|a|..][..|b|]
  {
    assert ct[..|a| + |b|] == ct[..|a|] + ct[|a|..][..|b|];
    if a + b == ct[..|a| + |b|] {
      assert a == (a + b)[..|a|] && b == (a + b)[|a|..];
    }
  }

  /** cpa_check_encrypt: zero exactly when re-encryption gives ct, else 0xff; None where the source panics. */
  method CpaCheckEncrypt(o: Oracle, params: Params, coins: seq<int>, pk: seq<int>, m: seq<int>,
                         ct: seq<int>) returns (mask: Option<int>)
    requires IsOracle(o) && IsParams(params) && |coins| >= 32 && Bytes(pk, PkSize(params)) && Bytes(m, 32)
    requires |ct| >= CtSize(params) && Bytes(ct, |ct|)
    ensures mask.Some? <==> Encryption(o, params, coins, pk, m).Some?
    ensures mask.Some? ==> mask.value == if Encryption(o, params, coins, pk, m).value == ct[..CtSize(params)] then 0 else 0xFF
  {
    hide IsOracle, MatrixExpands, Ciphertext, EphemeralOf, Encoded, Encodable, PkRho, Or;
    var ok, u, v := CpaBaseEncrypt(o, params, coins, pk, m);
    if !ok {
      return None;
    }
    BytesSlice(ct, USize(params), |ct|);
    var d1 := ChkEncode(u, params.ck, params.du, ct);
    var d2 := ChkEncode(v, 1, params.dv, ct[USize(params)..]);
    OrOfZeros(d1, d2);
    PrefixConcat(Encoded(u, params.ck, params.du), Encoded(v, 1, params.dv), ct);
    mask := Some(if Or(d1, d2) == 0 then 0 else 0xFF);
  }

  // ----- cpa_decrypt -----

  lemma DecompressedInRange(d: nat, y: seq<int>)
    requires IsWidth(d) && Fits(d, y)
    ensures InRange(Decompressed(d, y), Q)
  {
    hide Decompress, Pow2;
    forall i | 0 <= i < |y| ensures Within(Decompressed(d, y)[i], Q) {
      DecompressSpec(d, y[i]);
    }
  }

  /** decompress of n rows. */
  method DecompressRows(y: seq<int>, n: nat, d: nat) returns (t: seq<int>)
    requires IsWidth(d) && Fits(d, y) && |y| == n * DEGREE
    ensures t == Decompressed(d, y) && InRange(t, Q)
  {
    hide Decompress, Pow2;
    Widths(d);
    var a := new I16[|y|](i => 0);
    for i := 0 to |y|
      invariant forall j :: 0 <= j < i ==> a[j] == y[j]
    {
      a[i] := y[i];
    }
    assert a[..] == y;
    DecompressInPlace(a, d);
    DecompressedInRange(d, y);
    t := a[..];
  }

  lemma DifferenceAtLeast(x: seq<int>, y: seq<int>)
    requires |x| == |y| && (forall i :: 0 <= i < |x| ==> 0 <= x[i]) && InRange(y, 1976)
    ensures AtLeast(Sub(x, y), 0 - Q)
  {
    forall i | 0 <= i < |x| ensures 0 - Q <= Sub(x, y)[i] {
      assert Within(y[i], 1976);
    }
  }

  lemma DecompressedPositive(d: nat, y: seq<int>)
    requires IsWidth(d) && Fits(d, y)
    ensures forall i :: 0 <= i < |y| ==> 0 <= Decompressed(d, y)[i]
  {
    hide Decompress, Pow2;
    forall i | 0 <= i < |y| ensures 0 <= Decompressed(d, y)[i] {
      DecompressSpec(d, y[i]);
    }
  }

  /** cpa_decrypt. */
  method CpaDecrypt(params: Params, sk: seq<int>, ct: seq<int>) returns (m: seq<int>)
    requires IsParams(params) && |sk| >= VectorSize(params) && Bytes(sk, |sk|) && |ct| >= CtSize(params) && Bytes(ct, |ct|)
    ensures m == Decryption(params, sk, ct)
  {
    hide Represents, Scale, Sub, Transforms, Dot, Cong, SeqCong, CompressedPoly, Compressed, Fits, Untransformed, InRange, Decoded,
      Decompressed, Pow2, Encoded, AtLeast, Normed;
    var cu := Decode(ct, params.du, params.ck);
    BytesSlice(ct, USize(params), |ct|);
    var cv := Decode(ct[USize(params)..], params.dv, 1);
    var u := DecompressRows(cu, params.ck, params.du);
    var v := DecompressRows(cv, 1, params.dv);
    var s := Decode(sk, 12, params.ck);
    var uHat := TransformRows(u, params.ck);
    var w := HatProduct(s, uHat, params.ck, true, u);
    ghost var d := Dot(Untransformed(s, params.ck), u, params.ck);
    ghost var x := w[..];
    InRangeWiden(x, 3536 * params.ck, 31625);
    PolyReduce(w);
    RepresentsReduced(x, w[..], Scale(RINV, d));
    InRangeWiden(w[..], 1664, INV_MAX);
    BackTransform(w, d);
    InRangeWiden(v, Q, 0x7FFF);
    var a := FromSeq(v);
    SeqCongRefl(v, Q);
    SubCong(v, v, w[..], d, Q);
    DecompressedPositive(params.dv, cv);
    DifferenceAtLeast(v, w[..]);
    PolyDec(a, w, Q, 1976);
    CompressedOfCong(1, a[..], Remainder(params, s, cu, cv));
    CompressInPlace(a, 1);
    CompressedFits(1, Remainder(params, s, cu, cv));
    m := Encode(a[..], 1, 1);
  }

  // ----- cca_* -----

  /** cca_keypair. */
  method CcaKeypair(o: Oracle, params: Params, rand: seq<int>) returns (ok: bool, sk: seq<int>, pk: seq<int>)
    requires IsOracle(o) && IsParams(params) && Bytes(rand, 64)
    ensures ok <==> MatrixExpands(o, o.hash512(rand[..32])[..32], params.ck)
    ensures ok ==> Bytes(pk, PkSize(params)) && Bytes(sk, SkSize(params))
    ensures ok ==> SkParts(params, sk).pk == pk && SkParts(params, sk).h == o.hash256(pk) && SkParts(params, sk).z == rand[32..]
    ensures ok ==> sk[VectorSize(params)..] == pk + o.hash256(pk) + rand[32..]
    ensures ok ==> IsKeyPair(o, params, SkParts(params, sk).cpa, pk, Secret(o, params, rand), KeyError(o, params, rand))
  {
    hide MatrixExpands, IsKeyPair, KeyNoiseVector;
    var cpa;
    ok, cpa, pk := CpaKeypair(o, params, rand);
    sk := [];
    if !ok {
      return;
    }
    var h := o.hash256(pk);
    sk := cpa + pk + h + rand[32..];
    PartsOfConcat(params, cpa, pk, h, rand[32..]);
  }

  lemma PartsOfConcat(params: Params, cpa: seq<int>, pk: seq<int>, h: seq<int>, z: seq<int>)
    requires Bytes(cpa, VectorSize(params)) && Bytes(pk, PkSize(params)) && Bytes(h, 32) && Bytes(z, 32)
    ensures Bytes(cpa + pk + h + z, SkSize(params)) && SkParts(params, cpa + pk + h + z) == SecretKey(cpa, pk, h, z)
  {
    var n, p, s := VectorSize(params), PkSize(params), cpa + pk + h + z;
    assert s[0..n] == cpa && s[n..n + p] == pk && s[n + p..n + p + 32] == h && s[n + p + 32..n + p + 64] == z;
  }

  /** The secret vector and the error vector of the key for 64 random bytes. */
  function Secret(o: Oracle, params: Params, rand: seq<int>): (s: seq<int>)
    requires IsOracle(o) && |rand| == 64
    ensures |s| == params.ck * DEGREE
  {
    KeyNoiseVector(o, params, o.hash512(rand[..32])[32..], 0, params.ck)
  }

  function KeyError(o: Oracle, params: Params, rand: seq<int>): (e: seq<int>)
    requires IsOracle(o) && |rand| == 64
    ensures |e| == params.ck * DEGREE
  {
    KeyNoiseVector(o, params, o.hash512(rand[..32])[32..], params.ck, params.ck)
  }

  /** cca_encrypt; None where the source panics. */
  method CcaEncrypt(o: Oracle, params: Params, rand: seq<int>, pk: seq<int>) returns (r: Option<(seq<int>, seq<int>)>)
    requires IsOracle(o) && IsParams(params) && Bytes(rand, 32) && Bytes(pk, PkSize(params))
    ensures r.Some? <==> MatrixExpands(o, PkRho(params, pk), params.ck)
    ensures r.Some? ==> r.value == Encapsulation(o, params, pk, rand)
    ensures r.Some? ==>
      var hm := o.hash256(rand);
      var g := o.hash512(hm + o.hash256(pk));
      && Encryption(o, params, g[32..], pk, hm) == Some(r.value.0)
      && r.value.1 == o.shake256(g[..32] + o.hash256(r.value.0), 32)
  {
    hide MatrixExpands, Ciphertext, EphemeralOf, PkRho;
    var hm := o.hash256(rand);
    var h := o.hash256(pk);
    var g := o.hash512(hm + h);
    var ct := CpaEncrypt(o, params, Coins(g), pk, hm);
    if ct.None? {
      return None;
    }
    r := Some((ct.value, o.shake256(g[..32] + o.hash256(ct.value), 32)));
  }

  /** x ^ ((x ^ z) & mask), for the two masks there are. */
  function Select(x: nat, z: nat, mask: int): (r: nat)
    requires mask == 0 || mask == 0xFF
  {
    Xor(x, if mask == 0 then 0 else Xor(x, z))
  }

  lemma Selects(x: nat, z: nat)
    ensures Select(x, z, 0) == x && Select(x, z, 0xFF) == z
  {
    hide Xor;
    XorTwice(x, z);
    XorNothing(x);
  }

  lemma {:induction false} XorNothing(x: nat)
    ensures Xor(x, 0) == x
  {
    if x > 0 {
      XorNothing(x / 2);
    }
  }

  /** The masked choice between the pre-key and the rejection secret, byte by byte. */
  method Choose(g: seq<int>, z: seq<int>, mask: int) returns (r: seq<int>)
    requires Bytes(g, 32) && Bytes(z, 32) && (mask == 0 || mask == 0xFF)
    ensures r == if mask == 0 then g else z
  {
    hide Select;
    r := [];
    ghost var goal := if mask == 0 then g else z;
    for i := 0 to 32
      invariant |r| == i && r == goal[..i]
    {
      Selects(g[i], z[i]);
      r := r + [Select(g[i], z[i], mask)];
    }
    assert goal[..32] == goal;
  }

  /**
   cca_decrypt; None where the source panics. The secret is derived from the pre-key if re-encryption gives the ciphertext back, and
   from the rejection secret z of the key, with nothing said, if it does not.
   */
  method CcaDecrypt(o: Oracle, params: Params, sk: seq<int>, ct: seq<int>) returns (ss: Option<seq<int>>)
    requires IsOracle(o) && IsParams(params) && Bytes(sk, SkSize(params)) && |ct| >= CtSize(params) && Bytes(ct, |ct|)
    ensures ss == Decapsulation(o, params, sk, ct)
    ensures var k := SkParts(params, sk);
      var m := Decryption(params, k.cpa, ct);
      var g := o.hash512(m + k.h);
      match Encryption(o, params, g[32..], k.pk, m)
      case None => ss == None
      case Some(c) =>
        && (c == ct[..CtSize(params)] ==> ss == Some(o.shake256(g[..32] + o.hash256(ct), 32)))
        && (c != ct[..CtSize(params)] ==> ss == Some(o.shake256(k.z + o.hash256(ct), 32)))
  {
    hide Encryption, Decryption, SkParts;
    var k := SkParts(params, sk);
    var m := CpaDecrypt(params, k.cpa, ct);
    var g := o.hash512(m + k.h);
    var mask := CpaCheckEncrypt(o, params, Coins(g), k.pk, m, ct);
    if mask.None? {
      return None;
    }
    BytesSlice(g, 0, 32);
    var pre := Choose(g[..32], k.z, mask.value);
    ss := Some(o.shake256(pre + o.hash256(ct), 32));
  }

  /** Key generation, encapsulation and decapsulation in a row: both sides get one secret if the message survives the noise. */
  method KeyExchange(o: Oracle, params: Params, keyRand: seq<int>, rand: seq<int>)
    returns (ok: bool, sk: seq<int>, pk: seq<int>, ss: seq<int>, ss': Option<seq<int>>)
    requires IsOracle(o) && IsParams(params) && Bytes(keyRand, 64) && Bytes(rand, 32)
    ensures ok <==> MatrixExpands(o, o.hash512(keyRand[..32])[..32], params.ck)
    ensures ok ==> Bytes(sk, SkSize(params)) && Bytes(pk, PkSize(params))
    ensures ok ==> IsKeyPair(o, params, SkParts(params, sk).cpa, pk, Secret(o, params, keyRand), KeyError(o, params, keyRand))
    ensures ok ==> ss == Encapsulation(o, params, pk, rand).1 && ss'.Some?
    ensures ok && Survives(o.hash256(rand), ExchangeNoise(o, params, pk, keyRand, rand)) ==> ss' == Some(ss)
  {
    hide MatrixExpands, Encapsulation, Encryption, IsKeyPair, Survives, Secret, KeyError, EncapsulationNoise, PkRho, SkParts, Decryption;
    ss, ss' := [], None;
    ok, sk, pk := CcaKeypair(o, params, keyRand);
    if !ok {
      return;
    }
    KeyPairShape(o, params, SkParts(params, sk).cpa, pk, Secret(o, params, keyRand), KeyError(o, params, keyRand));
    var r := CcaEncrypt(o, params, rand, pk);
    ss := r.value.1;
    WholeCiphertext(params, r.value.0);
    ss' := CcaDecrypt(o, params, sk, r.value.0);
    KeyAlwaysEncrypts(o, params, sk, r.value.0);
    if Survives(o.hash256(rand), ExchangeNoise(o, params, pk, keyRand, rand)) {
      Agreement(o, params, sk, Secret(o, params, keyRand), KeyError(o, params, keyRand), rand);
    }
  }

  ghost function ExchangeNoise(o: Oracle, params: Params, pk: seq<int>, keyRand: seq<int>, rand: seq<int>): (p: Poly)
    requires IsOracle(o) && IsParams(params) && Bytes(pk, PkSize(params)) && |keyRand| == 64
    ensures |p| == DEGREE
  {
    hide Secret, KeyError, EncapsulationNoise;
    EncapsulationNoise(o, params, pk, Secret(o, params, keyRand), KeyError(o, params, keyRand), rand)
  }

  /** With a key whose matrix expands, decapsulation always ends with a secret. */
  lemma KeyAlwaysEncrypts(o: Oracle, params: Params, sk: seq<int>, ct: seq<int>)
    requires IsOracle(o) && IsParams(params) && Bytes(sk, SkSize(params)) && |ct| >= CtSize(params) && Bytes(ct, |ct|)
    requires MatrixExpands(o, PkRho(params, SkParts(params, sk).pk), params.ck)
    ensures Decapsulation(o, params, sk, ct).Some?
  {
    hide MatrixExpands, Decryption, SkParts, Ciphertext, EphemeralOf, SharedSecret, PkRho;
  }
}
